/** `redactPII`: two global replacements, `/\b\d{9}\b/g` by
    "[REDACTED-SSN]" and then `/\b\d{16,}\b/g` by "[REDACTED-CARD]".

    Each replacement is modelled the way `String.prototype.replace` runs a
    global regex: scan from the left, at each index try the pattern, on a
    match emit the replacement and resume after it, otherwise copy one
    character. A second, independent description cuts the text into
    maximal runs of word characters and single other characters and
    rewrites whole runs; the two are proved equal, and the guarantees
    (no redactable run survives, idempotence, order kept) are proved on
    the second. */
module Redaction {
  import opened Text

  datatype Rule = Ssn | Card

  function Placeholder(rule: Rule): string {
    match rule
    case Ssn => "[REDACTED-SSN]"
    case Card => "[REDACTED-CARD]"
  }

  /** The quantifier of the rule: `\d{9}` or `\d{16,}`. */
  predicate CountFits(rule: Rule, n: int) {
    match rule
    case Ssn => n == 9
    case Card => n >= 16
  }

  /** Index i holds a word character; indices outside `s` do not. */
  predicate WordAt(s: string, i: int) {
    0 <= i < |s| && IsWordChar(s[i])
  }

  /** `\b` at position i, between s[i - 1] and s[i]. */
  predicate Boundary(s: string, i: int) {
    WordAt(s, i - 1) != WordAt(s, i)
  }

  /** The pattern `\b\d{..}\b` of the rule matches the m characters of `s`
      from index i. */
  ghost predicate MatchesAt(rule: Rule, s: string, i: int, m: int) {
    && 0 <= i && i + m <= |s| && CountFits(rule, m)
    && Boundary(s, i) && Boundary(s, i + m)
    && forall k :: i <= k < i + m ==> IsDigit(s[k])
  }

  /** Neither pattern matches anywhere in `s`. */
  ghost predicate PIIFree(s: string) {
    forall i, m :: !MatchesAt(Ssn, s, i, m) && !MatchesAt(Card, s, i, m)
  }

  /** Length of the run of digits in `s` from index i on. */
  function DigitsFrom(s: string, i: nat): (n: nat)
    requires i <= |s|
    ensures i + n <= |s|
    ensures forall k :: i <= k < i + n ==> IsDigit(s[k])
    ensures i + n == |s| || !IsDigit(s[i + n])
    decreases |s| - i
  {
    if i < |s| && IsDigit(s[i]) then 1 + DigitsFrom(s, i + 1) else 0
  }

  /** Length of the run of word characters that `s` starts with. */
  function LeadingWord(s: string): (n: nat)
    ensures n <= |s|
    ensures forall k :: 0 <= k < n ==> IsWordChar(s[k])
    ensures n == |s| || !IsWordChar(s[n])
    decreases |s|
  {
    if s != [] && IsWordChar(s[0]) then 1 + LeadingWord(s[1..]) else 0
  }

  lemma DigitsFromExact(s: string, i: nat, m: nat)
    requires i + m <= |s| && (forall k :: i <= k < i + m ==> IsDigit(s[k]))
    requires i + m == |s| || !IsDigit(s[i + m])
    ensures DigitsFrom(s, i) == m
  {
  }

  lemma LeadingWordExact(s: string, m: nat)
    requires m <= |s| && (forall k :: 0 <= k < m ==> IsWordChar(s[k]))
    requires m == |s| || !IsWordChar(s[m])
    ensures LeadingWord(s) == m
  {
  }

  /** Length of the match of the rule's pattern at index i, or 0 when the
      pattern does not match there. */
  function MatchLength(rule: Rule, s: string, i: nat): (n: nat)
    requires i <= |s|
    ensures i + n <= |s|
  {
    var k := DigitsFrom(s, i);
    if CountFits(rule, k) && Boundary(s, i) && Boundary(s, i + k) then k else 0
  }

  /** The pattern matches at i with exactly one length, the one found by
      MatchLength: a greedy `\d{16,}` gains nothing by backtracking, since a
      shorter digit run ends before another digit, where `\b` fails. */
  lemma MatchLengthIsTheMatch(rule: Rule, s: string, i: int, m: int)
    requires 0 <= i <= |s|
    ensures MatchesAt(rule, s, i, m) <==> m > 0 && m == MatchLength(rule, s, i)
  {
    if MatchesAt(rule, s, i, m) {
      assert WordAt(s, i + m - 1);
      DigitsFromExact(s, i, m);
    }
  }

  /** One global replacement, from index i on. */
  function ReplaceFrom(rule: Rule, s: string, i: nat): string
    requires i <= |s|
    decreases |s| - i
  {
    if i == |s| then []
    else
      var n := MatchLength(rule, s, i);
      if n > 0 then Placeholder(rule) + ReplaceFrom(rule, s, i + n)
      else [s[i]] + ReplaceFrom(rule, s, i + 1)
  }

  /** `s.replace(pattern, placeholder)` with the rule's global pattern. */
  function Replace(rule: Rule, s: string): string {
    ReplaceFrom(rule, s, 0)
  }

  /** `redactPII`. */
  function RedactPII(text: string): string {
    Replace(Card, Replace(Ssn, text))
  }

  /** Which rules rewrite a run: one of them, or both at once. */
  datatype Policy = Only(rule: Rule) | Both

  /** What a maximal run of word characters becomes. */
  function ReplaceRun(policy: Policy, run: string): string {
    match policy
    case Only(rule) =>
      if AllDigits(run) && CountFits(rule, |run|) then Placeholder(rule) else run
    case Both =>
      if AllDigits(run) && CountFits(Ssn, |run|) then Placeholder(Ssn)
      else if AllDigits(run) && CountFits(Card, |run|) then Placeholder(Card)
      else run
  }

  /** The token view: every character outside a word run is kept, every
      maximal word run is rewritten as a whole. */
  function RedactRuns(policy: Policy, s: string): string
    decreases |s|
  {
    if s == [] then []
    else if !IsWordChar(s[0]) then [s[0]] + RedactRuns(policy, s[1..])
    else
      var n := LeadingWord(s);
      ReplaceRun(policy, s[..n]) + RedactRuns(policy, s[n..])
  }

  /** Index i is not strictly inside a run of word characters. */
  predicate AtTokenStart(s: string, i: int) {
    !(WordAt(s, i - 1) && WordAt(s, i))
  }

  /** The token view of text that starts with a word run: the run, then
      the rest. */
  lemma RunAtStart(s: string) returns (n: nat)
    requires s != [] && IsWordChar(s[0])
    ensures 0 < n <= |s| && (n == |s| || !IsWordChar(s[n]))
    ensures forall k :: 0 <= k < n ==> IsWordChar(s[k])
    ensures forall policy :: RedactRuns(policy, s) == ReplaceRun(policy, s[..n]) + RedactRuns(policy, s[n..])
  {
    n := LeadingWord(s);
  }

  /** One step of the scan at index i. */
  lemma ReplaceFromStep(rule: Rule, s: string, i: nat)
    requires i < |s|
    ensures MatchLength(rule, s, i) > 0 ==>
      ReplaceFrom(rule, s, i) == Placeholder(rule) + ReplaceFrom(rule, s, i + MatchLength(rule, s, i))
    ensures MatchLength(rule, s, i) == 0 ==>
      ReplaceFrom(rule, s, i) == [s[i]] + ReplaceFrom(rule, s, i + 1)
  {
  }

  /** Strictly inside a word run the pattern cannot start, so the scan
      copies one character. */
  lemma CopyInsideRun(rule: Rule, s: string, j: nat)
    requires 0 < j < |s| && IsWordChar(s[j - 1]) && IsWordChar(s[j])
    ensures ReplaceFrom(rule, s, j) == [s[j]] + ReplaceFrom(rule, s, j + 1)
  {
    assert !Boundary(s, j);
    ReplaceFromStep(rule, s, j);
  }

  lemma PrependToSlice(s: string, j: nat, e: nat, tail: string)
    requires j < e <= |s|
    ensures [s[j]] + (s[j + 1..e] + tail) == s[j..e] + tail
  {
    assert [s[j]] + s[j + 1..e] == s[j..e];
  }

  /** Inside a word run the pattern cannot start, so the scan copies the
      rest of the run. */
  lemma {:induction false} ReplaceInsideRun(rule: Rule, s: string, j: nat, e: nat)
    requires 0 < j <= e <= |s|
    requires forall k :: j - 1 <= k < e ==> IsWordChar(s[k])
    ensures ReplaceFrom(rule, s, j) == s[j..e] + ReplaceFrom(rule, s, e)
    decreases e - j
  {
    if j == e {
      assert s[j..e] == [];
    } else {
      CopyInsideRun(rule, s, j);
      ReplaceInsideRun(rule, s, j + 1, e);
      PrependToSlice(s, j, e, ReplaceFrom(rule, s, e));
    }
  }

  /** At the start of a maximal word run of length n, the pattern matches
      exactly when the whole run is digits of a length the rule names. */
  lemma MatchAtRunStart(rule: Rule, s: string, i: nat, n: nat)
    requires i + n <= |s| && 0 < n
    requires !WordAt(s, i - 1) && !WordAt(s, i + n)
    requires forall k :: i <= k < i + n ==> IsWordChar(s[k])
    ensures MatchLength(rule, s, i) == if AllDigits(s[i..i + n]) && CountFits(rule, n) then n else 0
  {
    var d := DigitsFrom(s, i);
    if d < n {
      assert s[i..i + n][d] == s[i + d];
      if 0 < d {
        assert !Boundary(s, i + d);
      }
    } else {
      assert i + n < |s| ==> !IsDigit(s[i + n]);
    }
  }

  /** The scan over a whole word run that the rule redacts. */
  lemma ScanRedactedRun(rule: Rule, s: string, i: nat, n: nat)
    requires i + n <= |s| && 0 < n
    requires !WordAt(s, i - 1) && !WordAt(s, i + n)
    requires forall k :: i <= k < i + n ==> IsWordChar(s[k])
    requires AllDigits(s[i..i + n]) && CountFits(rule, n)
    ensures ReplaceFrom(rule, s, i) == Placeholder(rule) + ReplaceFrom(rule, s, i + n)
  {
    MatchAtRunStart(rule, s, i, n);
    ReplaceFromStep(rule, s, i);
  }

  /** The scan over a whole word run that the rule keeps. */
  lemma ScanKeptRun(rule: Rule, s: string, i: nat, n: nat)
    requires i + n <= |s| && 0 < n
    requires !WordAt(s, i - 1) && !WordAt(s, i + n)
    requires forall k :: i <= k < i + n ==> IsWordChar(s[k])
    requires !(AllDigits(s[i..i + n]) && CountFits(rule, n))
    ensures ReplaceFrom(rule, s, i) == s[i..i + n] + ReplaceFrom(rule, s, i + n)
  {
    MatchAtRunStart(rule, s, i, n);
    ReplaceFromStep(rule, s, i);
    ReplaceInsideRun(rule, s, i + 1, i + n);
    var tail := ReplaceFrom(rule, s, i + n);
    calc {
      ReplaceFrom(rule, s, i);
      [s[i]] + ReplaceFrom(rule, s, i + 1);
      [s[i]] + (s[i + 1..i + n] + tail);
      ([s[i]] + s[i + 1..i + n]) + tail;
      { assert [s[i]] + s[i + 1..i + n] == s[i..i + n]; }
      s[i..i + n] + tail;
    }
  }

  /** The scan over one whole word run starting at a token start. */
  lemma ScanWholeRun(rule: Rule, s: string, i: nat, n: nat)
    requires i + n <= |s| && 0 < n
    requires !WordAt(s, i - 1) && !WordAt(s, i + n)
    requires forall k :: i <= k < i + n ==> IsWordChar(s[k])
    ensures ReplaceFrom(rule, s, i) == ReplaceRun(Only(rule), s[i..i + n]) + ReplaceFrom(rule, s, i + n)
  {
    if AllDigits(s[i..i + n]) && CountFits(rule, n) {
      ScanRedactedRun(rule, s, i, n);
    } else {
      ScanKeptRun(rule, s, i, n);
    }
  }

  /** A character that is not a word character: the scan and the token
      view both copy it, so they agree from it when they agree after it. */
  lemma NonWordStep(rule: Rule, s: string, i: nat)
    requires i < |s| && !IsWordChar(s[i])
    requires ScanAgrees(rule, s, i + 1)
    ensures ScanAgrees(rule, s, i)
  {
    var t := s[i..];
    assert t[0] == s[i];
    ReplaceFromStep(rule, s, i);
    assert t[1..] == s[i + 1..];
  }

  /** The maximal word run that starts at index i, and the token view
      there. */
  lemma RunFrom(policy: Policy, s: string, i: nat) returns (n: nat)
    requires i < |s| && IsWordChar(s[i])
    ensures 0 < n && i + n <= |s| && !WordAt(s, i + n)
    ensures forall k :: i <= k < i + n ==> IsWordChar(s[k])
    ensures RedactRuns(policy, s[i..]) == ReplaceRun(policy, s[i..i + n]) + RedactRuns(policy, s[i + n..])
  {
    var t := s[i..];
    assert t[0] == s[i];
    n := LeadingWord(t);
    forall k | i <= k < i + n ensures IsWordChar(s[k]) { assert t[k - i] == s[k]; }
    assert !WordAt(s, i + n) by { if i + n < |s| { assert t[n] == s[i + n]; } }
    assert t[..n] == s[i..i + n];
    assert t[n..] == s[i + n..];
  }

  /** A word run at a token start: the scan and the token view both
      rewrite it as a whole, so they agree from its start when they agree
      after its end. */
  lemma WordRunStep(rule: Rule, s: string, i: nat, n: nat)
    requires i + n <= |s| && 0 < n
    requires !WordAt(s, i - 1) && !WordAt(s, i + n)
    requires forall k :: i <= k < i + n ==> IsWordChar(s[k])
    requires RedactRuns(Only(rule), s[i..]) == ReplaceRun(Only(rule), s[i..i + n]) + RedactRuns(Only(rule), s[i + n..])
    requires ScanAgrees(rule, s, i + n)
    ensures ScanAgrees(rule, s, i)
  {
    ScanWholeRun(rule, s, i, n);
  }

  /** The scan of `replace` from index `i` and the token view of the rest
      of the text agree. */
  ghost predicate ScanAgrees(rule: Rule, s: string, i: nat)
    requires i <= |s|
  {
    ReplaceFrom(rule, s, i) == RedactRuns(Only(rule), s[i..])
  }

  /** The scan of `replace` and the token view agree from every index that
      does not cut a word run. */
  lemma {:induction false} ReplaceFromIsRuns(rule: Rule, s: string, i: nat)
    requires i <= |s| && AtTokenStart(s, i)
    ensures ScanAgrees(rule, s, i)
    decreases |s| - i
  {
    if i == |s| {
      assert s[i..] == [];
    } else if !IsWordChar(s[i]) {
      ReplaceFromIsRuns(rule, s, i + 1);
      NonWordStep(rule, s, i);
    } else {
      var n := RunFrom(Only(rule), s, i);
      ReplaceFromIsRuns(rule, s, i + n);
      WordRunStep(rule, s, i, n);
    }
  }

  lemma ReplaceIsRuns(rule: Rule, s: string)
    ensures Replace(rule, s) == RedactRuns(Only(rule), s)
  {
    ReplaceFromIsRuns(rule, s, 0);
    assert ScanAgrees(rule, s, 0);
    assert s[0..] == s;
  }

  /** `b` may follow `a` without merging a word run across the seam. */
  predicate Joinable(a: string, b: string) {
    a == [] || b == [] || !IsWordChar(a[|a| - 1]) || !IsWordChar(b[0])
  }

  /** A word run that starts `a` ends inside `a` when `b` may follow it. */
  lemma AppendRunStep(policy: Policy, a: string, b: string) returns (n: nat)
    requires a != [] && IsWordChar(a[0]) && Joinable(a, b)
    ensures 0 < n <= |a| && Joinable(a[n..], b)
    ensures RedactRuns(policy, a) == ReplaceRun(policy, a[..n]) + RedactRuns(policy, a[n..])
    ensures RedactRuns(policy, a + b) == ReplaceRun(policy, a[..n]) + RedactRuns(policy, a[n..] + b)
  {
    var ab := a + b;
    assert ab[0] == a[0];
    n := LeadingWord(a);
    assert n == |a| ==> b == [] || !IsWordChar(b[0]);
    LeadingWordExact(ab, n);
    assert ab[..n] == a[..n];
    assert ab[n..] == a[n..] + b;
  }

  /** The token view of `a + b` is that of `a` followed by that of `b`. */
  ghost predicate RunsSplitAt(policy: Policy, a: string, b: string) {
    RedactRuns(policy, a + b) == RedactRuns(policy, a) + RedactRuns(policy, b)
  }

  /** A first character outside a word run is copied on both sides. */
  lemma NonWordSplits(policy: Policy, a: string, b: string)
    requires a != [] && !IsWordChar(a[0]) && RunsSplitAt(policy, a[1..], b)
    ensures RunsSplitAt(policy, a, b)
  {
    var ab := a + b;
    assert ab[0] == a[0];
    assert ab[1..] == a[1..] + b;
  }

  /** A first word run is rewritten the same way on both sides. */
  lemma WordRunSplits(policy: Policy, a: string, b: string, n: nat)
    requires 0 < n <= |a|
    requires RedactRuns(policy, a) == ReplaceRun(policy, a[..n]) + RedactRuns(policy, a[n..])
    requires RedactRuns(policy, a + b) == ReplaceRun(policy, a[..n]) + RedactRuns(policy, a[n..] + b)
    requires RunsSplitAt(policy, a[n..], b)
    ensures RunsSplitAt(policy, a, b)
  {
  }

  /** The token view rewrites the two sides of a seam independently. */
  lemma {:induction false} RedactRunsAppend(policy: Policy, a: string, b: string)
    requires Joinable(a, b)
    ensures RunsSplitAt(policy, a, b)
    decreases |a|
  {
    if a == [] {
      assert a + b == b;
    } else if !IsWordChar(a[0]) {
      RedactRunsAppend(policy, a[1..], b);
      NonWordSplits(policy, a, b);
    } else {
      var n := AppendRunStep(policy, a, b);
      RedactRunsAppend(policy, a[n..], b);
      WordRunSplits(policy, a, b, n);
    }
  }

  /** Text that starts outside a word run keeps its first character. */
  lemma RedactRunsFirst(policy: Policy, s: string)
    requires s != [] && !IsWordChar(s[0])
    ensures RedactRuns(policy, s) != [] && RedactRuns(policy, s)[0] == s[0]
  {
  }

  /** The token view gives `s` back unchanged. */
  ghost predicate KeptWhole(policy: Policy, s: string) {
    RedactRuns(policy, s) == s
  }

  lemma NonWordKept(policy: Policy, s: string)
    requires s != [] && !IsWordChar(s[0]) && KeptWhole(policy, s[1..])
    ensures KeptWhole(policy, s)
  {
  }

  lemma WordRunKept(policy: Policy, s: string, n: nat)
    requires 0 < n <= |s|
    requires RedactRuns(policy, s) == ReplaceRun(policy, s[..n]) + RedactRuns(policy, s[n..])
    requires ReplaceRun(policy, s[..n]) == s[..n] && KeptWhole(policy, s[n..])
    ensures KeptWhole(policy, s)
  {
    assert s[..n] + s[n..] == s;
  }

  /** Text without digits has no run for either pattern. */
  lemma {:induction false} RedactRunsWithoutDigits(policy: Policy, s: string)
    requires forall k :: 0 <= k < |s| ==> !IsDigit(s[k])
    ensures KeptWhole(policy, s)
    decreases |s|
  {
    if s != [] {
      if !IsWordChar(s[0]) {
        RedactRunsWithoutDigits(policy, s[1..]);
        NonWordKept(policy, s);
      } else {
        var n := RunAtStart(s);
        assert !AllDigits(s[..n]) by { assert s[..n][0] == s[0]; }
        RedactRunsWithoutDigits(policy, s[n..]);
        WordRunKept(policy, s, n);
      }
    }
  }

  lemma RedactRunsOneRun(policy: Policy, w: string)
    requires w != [] && forall k :: 0 <= k < |w| ==> IsWordChar(w[k])
    ensures RedactRuns(policy, w) == ReplaceRun(policy, w)
  {
    LeadingWordExact(w, |w|);
    assert w[..|w|] == w && w[|w|..] == [];
  }

  lemma PlaceholderShape(rule: Rule)
    ensures forall k :: 0 <= k < |Placeholder(rule)| ==> !IsDigit(Placeholder(rule)[k])
    ensures Placeholder(rule) != [] && !IsWordChar(Placeholder(rule)[|Placeholder(rule)| - 1])
  {
  }

  /** The card pass over the output of the SSN pass equals one pass with
      both rules. */
  ghost predicate OnePass(s: string) {
    RedactRuns(Only(Card), RedactRuns(Only(Ssn), s)) == RedactRuns(Both, s)
  }

  /** A first character outside a word run passes through both passes. */
  lemma NonWordOnePass(s: string)
    requires s != [] && !IsWordChar(s[0]) && OnePass(s[1..])
    ensures OnePass(s)
  {
    var rest := RedactRuns(Only(Ssn), s[1..]);
    RedactRunsAppend(Only(Card), [s[0]], rest);
    assert [s[0]][1..] == [];
  }

  /** A first word run of length n: the SSN placeholder has no digits for
      the card pattern to take, and a run the SSN pattern skipped reaches
      the card pattern whole. */
  lemma WordRunOnePass(s: string, n: nat)
    requires 0 < n <= |s| && (n == |s| || !IsWordChar(s[n]))
    requires forall k :: 0 <= k < n ==> IsWordChar(s[k])
    requires forall policy :: RedactRuns(policy, s) == ReplaceRun(policy, s[..n]) + RedactRuns(policy, s[n..])
    requires OnePass(s[n..])
    ensures OnePass(s)
  {
    var w := s[..n];
    var piece := ReplaceRun(Only(Ssn), w);
    var rest := RedactRuns(Only(Ssn), s[n..]);
    assert RedactRuns(Only(Ssn), s) == piece + rest;
    assert RedactRuns(Both, s) == ReplaceRun(Both, w) + RedactRuns(Both, s[n..]);
    if s[n..] != [] {
      assert s[n..][0] == s[n];
      RedactRunsFirst(Only(Ssn), s[n..]);
    }
    PlaceholderShape(Ssn);
    RedactRunsAppend(Only(Card), piece, rest);
    assert RedactRuns(Only(Card), piece) == ReplaceRun(Both, w) by {
      if piece == w {
        RedactRunsOneRun(Only(Card), w);
      } else {
        RedactRunsWithoutDigits(Only(Card), piece);
      }
    }
  }

  /** The card pass after the SSN pass is one pass over the runs with both
      rules. */
  lemma {:induction false} TwoPassesAreOne(s: string)
    ensures OnePass(s)
    decreases |s|
  {
    if s == [] {
    } else if !IsWordChar(s[0]) {
      TwoPassesAreOne(s[1..]);
      NonWordOnePass(s);
    } else {
      var n := RunAtStart(s);
      TwoPassesAreOne(s[n..]);
      WordRunOnePass(s, n);
    }
  }

  /** `redactPII` rewrites each maximal word run on its own: a run of
      exactly nine digits becomes the SSN placeholder, a run of sixteen or
      more the card placeholder, and everything else stays, in order. */
  lemma RedactPIIAsRuns(text: string)
    ensures RedactPII(text) == RedactRuns(Both, text)
  {
    ReplaceIsRuns(Ssn, text);
    ReplaceIsRuns(Card, Replace(Ssn, text));
    TwoPassesAreOne(text);
  }

  /** The pattern matches nowhere in `s`. */
  ghost predicate NoMatch(rule: Rule, s: string) {
    forall i :: 0 <= i <= |s| ==> MatchLength(rule, s, i) == 0
  }

  /** A digit run that starts in `a` ends in `a` when `b` may follow it. */
  lemma DigitsFromLeft(a: string, b: string, i: nat)
    requires Joinable(a, b) && i < |a|
    ensures DigitsFrom(a + b, i) == DigitsFrom(a, i)
  {
    var ab := a + b;
    var n := DigitsFrom(a, i);
    assert forall k :: i <= k < i + n ==> ab[k] == a[k];
    if i + n < |a| {
      assert ab[i + n] == a[i + n];
    } else {
      assert IsWordChar(a[|a| - 1]);
      assert |a| < |ab| ==> ab[|a|] == b[0];
    }
    DigitsFromExact(ab, i, n);
  }

  /** Digit runs in `b` are the same in `a + b`. */
  lemma DigitsFromRight(a: string, b: string, j: nat)
    requires j <= |b|
    ensures DigitsFrom(a + b, |a| + j) == DigitsFrom(b, j)
  {
    var ab := a + b;
    var n := DigitsFrom(b, j);
    assert forall k :: j <= k <= |b| && k < |b| ==> ab[|a| + k] == b[k];
    DigitsFromExact(ab, |a| + j, n);
  }

  /** The match length at an index depends only on the digit run there and
      on which of its neighbours are word characters. */
  lemma SameMatchLength(rule: Rule, s: string, i: nat, t: string, j: nat)
    requires i <= |s| && j <= |t| && DigitsFrom(s, i) == DigitsFrom(t, j)
    requires DigitsFrom(s, i) > 0 ==> WordAt(s, i - 1) == WordAt(t, j - 1)
    requires WordAt(s, i) == WordAt(t, j)
    requires WordAt(s, i + DigitsFrom(s, i)) == WordAt(t, j + DigitsFrom(t, j))
    ensures MatchLength(rule, s, i) == MatchLength(rule, t, j)
  {
  }

  lemma MatchLengthLeft(rule: Rule, a: string, b: string, i: nat)
    requires Joinable(a, b) && i < |a|
    ensures MatchLength(rule, a + b, i) == MatchLength(rule, a, i)
  {
    var ab := a + b;
    DigitsFromLeft(a, b, i);
    var k := DigitsFrom(a, i);
    assert WordAt(ab, i - 1) == WordAt(a, i - 1) && WordAt(ab, i) == WordAt(a, i);
    if i + k < |a| {
      assert WordAt(ab, i + k) == WordAt(a, i + k);
    } else if k > 0 {
      assert IsWordChar(a[|a| - 1]);
      assert !WordAt(ab, |a|);
    }
    SameMatchLength(rule, ab, i, a, i);
  }

  lemma MatchLengthRight(rule: Rule, a: string, b: string, j: nat)
    requires Joinable(a, b) && j <= |b|
    ensures MatchLength(rule, a + b, |a| + j) == MatchLength(rule, b, j)
  {
    var ab := a + b;
    DigitsFromRight(a, b, j);
    var k := DigitsFrom(b, j);
    assert WordAt(ab, |a| + j) == WordAt(b, j);
    assert WordAt(ab, |a| + j + k) == WordAt(b, j + k);
    if k > 0 {
      if j == 0 {
        assert IsWordChar(b[0]);
        assert !WordAt(ab, |a| - 1);
      } else {
        assert WordAt(ab, |a| + j - 1) == WordAt(b, j - 1);
      }
    }
    SameMatchLength(rule, ab, |a| + j, b, j);
  }

  /** Across a seam, the pattern matches in the whole exactly where it
      matches in one of the parts. */
  lemma NoMatchAppend(rule: Rule, a: string, b: string)
    requires Joinable(a, b)
    ensures NoMatch(rule, a + b) <==> NoMatch(rule, a) && NoMatch(rule, b)
  {
    if NoMatch(rule, a) && NoMatch(rule, b) {
      forall i | 0 <= i <= |a + b| ensures MatchLength(rule, a + b, i) == 0 {
        if i < |a| { MatchLengthLeft(rule, a, b, i); } else { MatchLengthRight(rule, a, b, i - |a|); }
      }
    }
    if NoMatch(rule, a + b) {
      forall i | 0 <= i <= |a| ensures MatchLength(rule, a, i) == 0 {
        if i < |a| { MatchLengthLeft(rule, a, b, i); }
      }
      forall j | 0 <= j <= |b| ensures MatchLength(rule, b, j) == 0 {
        MatchLengthRight(rule, a, b, j);
      }
    }
  }

  lemma NoMatchWithoutDigits(rule: Rule, s: string)
    requires forall k :: 0 <= k < |s| ==> !IsDigit(s[k])
    ensures NoMatch(rule, s)
  {
  }

  /** A single word run that the rule leaves alone holds no match. */
  lemma NoMatchInKeptRun(rule: Rule, w: string)
    requires forall k :: 0 <= k < |w| ==> IsWordChar(w[k])
    requires !(AllDigits(w) && CountFits(rule, |w|))
    ensures NoMatch(rule, w)
  {
    forall i | 0 <= i <= |w| ensures MatchLength(rule, w, i) == 0 {
      var k := DigitsFrom(w, i);
      if 0 < i < |w| {
        assert !Boundary(w, i);
      } else if i == 0 && 0 < k < |w| {
        assert !Boundary(w, k);
      }
    }
  }

  /** Neither pattern matches anywhere in the output of the token view. */
  lemma {:induction false} RedactRunsLeavesNoMatch(rule: Rule, s: string)
    ensures NoMatch(rule, RedactRuns(Both, s))
    decreases |s|
  {
    if s == [] {
      NoMatchWithoutDigits(rule, []);
      return;
    }
    if !IsWordChar(s[0]) {
      NoMatchWithoutDigits(rule, [s[0]]);
      RedactRunsLeavesNoMatch(rule, s[1..]);
      NoMatchAppend(rule, [s[0]], RedactRuns(Both, s[1..]));
    } else {
      var n := RunAtStart(s);
      var w := s[..n];
      var piece := ReplaceRun(Both, w);
      var rest := RedactRuns(Both, s[n..]);
      if s[n..] != [] {
        assert s[n..][0] == s[n];
        RedactRunsFirst(Both, s[n..]);
      }
      PlaceholderShape(Ssn);
      PlaceholderShape(Card);
      if piece == w {
        NoMatchInKeptRun(rule, w);
      } else {
        NoMatchWithoutDigits(rule, piece);
      }
      RedactRunsLeavesNoMatch(rule, s[n..]);
      NoMatchAppend(rule, piece, rest);
    }
  }

  lemma PIIFreeIsNoMatch(s: string)
    ensures PIIFree(s) <==> NoMatch(Ssn, s) && NoMatch(Card, s)
  {
    if NoMatch(Ssn, s) && NoMatch(Card, s) {
      forall i, m ensures !MatchesAt(Ssn, s, i, m) && !MatchesAt(Card, s, i, m) {
        if 0 <= i <= |s| {
          MatchLengthIsTheMatch(Ssn, s, i, m);
          MatchLengthIsTheMatch(Card, s, i, m);
        }
      }
    }
    if PIIFree(s) {
      forall rule, i | 0 <= i <= |s| ensures MatchLength(rule, s, i) == 0 {
        MatchLengthIsTheMatch(rule, s, i, MatchLength(rule, s, i));
      }
    }
  }

  /** After `redactPII` no word-bounded run of exactly nine digits and no
      word-bounded run of sixteen or more digits is left. */
  lemma RedactPIIIsPIIFree(text: string)
    ensures PIIFree(RedactPII(text))
  {
    RedactPIIAsRuns(text);
    RedactRunsLeavesNoMatch(Ssn, text);
    RedactRunsLeavesNoMatch(Card, text);
    PIIFreeIsNoMatch(RedactPII(text));
  }

  lemma {:induction false} ReplaceFromWithoutMatch(rule: Rule, s: string, i: nat)
    requires i <= |s| && NoMatch(rule, s)
    ensures ReplaceFrom(rule, s, i) == s[i..]
    decreases |s| - i
  {
    if i < |s| {
      ReplaceFromWithoutMatch(rule, s, i + 1);
      assert [s[i]] + s[i + 1..] == s[i..];
    }
  }

  /** Text with nothing to redact comes back unchanged. */
  lemma RedactPIIKeepsCleanText(text: string)
    requires PIIFree(text)
    ensures RedactPII(text) == text
  {
    PIIFreeIsNoMatch(text);
    ReplaceFromWithoutMatch(Ssn, text, 0);
    ReplaceFromWithoutMatch(Card, text, 0);
  }

  /** Redacting twice is redacting once. */
  lemma RedactPIIIdempotent(text: string)
    ensures RedactPII(RedactPII(text)) == RedactPII(text)
  {
    RedactPIIIsPIIFree(text);
    RedactPIIKeepsCleanText(RedactPII(text));
  }

  /** Text split where no word run is cut is redacted piece by piece, so
      everything outside the redacted runs keeps its place. */
  lemma RedactPIIAppend(a: string, b: string)
    requires Joinable(a, b)
    ensures RedactPII(a + b) == RedactPII(a) + RedactPII(b)
  {
    RedactPIIAsRuns(a + b);
    RedactPIIAsRuns(a);
    RedactPIIAsRuns(b);
    RedactRunsAppend(Both, a, b);
  }
}
