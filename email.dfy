/** The address check `/^[^\s@]+@[^\s@]+\.[^\s@]+$/.test(s)`, run as the
    finite automaton that recognises that pattern, and proved equal to the
    pattern's own reading. */
module Email {
  import opened Text

  /** The character class `[^\s@]`. */
  predicate IsAddressChar(c: char) {
    !IsSpace(c) && c != '@'
  }

  predicate AllAddressChars(s: string) {
    forall k :: 0 <= k < |s| ==> IsAddressChar(s[k])
  }

  /** Some '.' of `d` is neither its first nor its last character. */
  predicate HasInnerDot(d: string) {
    exists j :: 0 < j < |d| - 1 && d[j] == '.'
  }

  /** Some '.' of `d` is followed by at least one character. */
  predicate HasDotBeforeEnd(d: string) {
    exists j :: 0 <= j < |d| - 1 && d[j] == '.'
  }

  /** The pattern read off directly: a non-empty local part, one '@', and a
      domain in which a '.' splits two non-empty parts; every character but
      that '@' is in `[^\s@]`. */
  ghost predicate EmailShape(s: string) {
    exists i ::
      && 0 < i < |s| && s[i] == '@'
      && AllAddressChars(s[..i])
      && AllAddressChars(s[i + 1..]) && HasInnerDot(s[i + 1..])
  }

  /** States of the matcher: what part of the pattern the input read so far
      has reached. */
  datatype ScanState =
    | Start     // nothing read
    | Local     // a non-empty local part
    | AfterAt   // the '@' just read
    | Domain    // a non-empty domain, no usable '.' yet
    | AfterDot  // a usable '.' just read
    | TopLevel  // a usable '.' followed by at least one character: accepting
    | Dead      // no continuation can match

  function Step(q: ScanState, c: char): ScanState {
    if IsSpace(c) then Dead
    else match q
      case Start => if c == '@' then Dead else Local
      case Local => if c == '@' then AfterAt else Local
      case AfterAt => if c == '@' then Dead else Domain
      case Domain => if c == '@' then Dead else if c == '.' then AfterDot else Domain
      case AfterDot => if c == '@' then Dead else TopLevel
      case TopLevel => if c == '@' then Dead else TopLevel
      case Dead => Dead
  }

  function Run(q: ScanState, s: string): ScanState
    decreases |s|
  {
    if s == [] then q else Run(Step(q, s[0]), s[1..])
  }

  /** `isEmail`. */
  predicate IsEmail(s: string) {
    Run(Start, s) == TopLevel
  }

  lemma {:induction false} RunDead(t: string)
    ensures Run(Dead, t) == Dead
    decreases |t|
  {
    if t != [] { RunDead(t[1..]); }
  }

  lemma AllAddressCharsCons(t: string)
    requires t != []
    ensures AllAddressChars(t) <==> IsAddressChar(t[0]) && AllAddressChars(t[1..])
  {
    if IsAddressChar(t[0]) && AllAddressChars(t[1..]) {
      forall k | 0 <= k < |t| ensures IsAddressChar(t[k]) {
        if k > 0 { assert t[k] == t[1..][k - 1]; }
      }
    }
  }

  lemma {:induction false} RunTopLevel(t: string)
    ensures Run(TopLevel, t) == TopLevel <==> AllAddressChars(t)
    decreases |t|
  {
    if t != [] {
      AllAddressCharsCons(t);
      if IsAddressChar(t[0]) { RunTopLevel(t[1..]); } else { RunDead(t[1..]); }
    }
  }

  lemma RunAfterDot(t: string)
    ensures Run(AfterDot, t) == TopLevel <==> t != [] && AllAddressChars(t)
  {
    if t != [] {
      AllAddressCharsCons(t);
      if IsAddressChar(t[0]) { RunTopLevel(t[1..]); } else { RunDead(t[1..]); }
    }
  }

  lemma {:induction false} RunDomain(t: string)
    ensures Run(Domain, t) == TopLevel <==> AllAddressChars(t) && HasDotBeforeEnd(t)
    decreases |t|
  {
    if t == [] {
      return;
    }
    var u := t[1..];
    AllAddressCharsCons(t);
    if !IsAddressChar(t[0]) {
      RunDead(u);
    } else if t[0] == '.' {
      RunAfterDot(u);
      if u != [] { assert t[0] == '.' && 0 < |t| - 1; }
    } else {
      RunDomain(u);
      if HasDotBeforeEnd(t) {
        var j :| 0 <= j < |t| - 1 && t[j] == '.';
        assert u[j - 1] == '.';
      }
      if HasDotBeforeEnd(u) {
        var j :| 0 <= j < |u| - 1 && u[j] == '.';
        assert t[j + 1] == '.';
      }
    }
  }

  lemma RunAfterAt(t: string)
    ensures Run(AfterAt, t) == TopLevel <==> AllAddressChars(t) && HasInnerDot(t)
  {
    if t == [] {
      return;
    }
    var u := t[1..];
    AllAddressCharsCons(t);
    if !IsAddressChar(t[0]) {
      RunDead(u);
    } else {
      RunDomain(u);
      if HasInnerDot(t) {
        var j :| 0 < j < |t| - 1 && t[j] == '.';
        assert u[j - 1] == '.';
      }
      if HasDotBeforeEnd(u) {
        var j :| 0 <= j < |u| - 1 && u[j] == '.';
        assert t[j + 1] == '.';
      }
    }
  }

  /** `t` splits at an '@' at index i into a part of `[^\s@]` characters
      and a domain of the pattern. */
  ghost predicate SplitsAt(t: string, i: int) {
    && 0 <= i < |t| && t[i] == '@'
    && AllAddressChars(t[..i])
    && AllAddressChars(t[i + 1..]) && HasInnerDot(t[i + 1..])
  }

  lemma SplitsAtShift(t: string, i: int)
    requires t != [] && IsAddressChar(t[0]) && 0 <= i < |t| - 1
    ensures SplitsAt(t, i + 1) <==> SplitsAt(t[1..], i)
  {
    var u := t[1..];
    assert t[i + 1] == u[i];
    assert t[i + 2..] == u[i + 1..];
    assert t[..i + 1] == [t[0]] + u[..i];
    AllAddressCharsCons(t[..i + 1]);
    assert t[..i + 1][1..] == u[..i];
  }

  lemma {:induction false} RunLocal(t: string)
    ensures Run(Local, t) == TopLevel <==> exists i :: SplitsAt(t, i)
    decreases |t|
  {
    if t == [] {
      return;
    }
    var u := t[1..];
    if IsSpace(t[0]) {
      RunDead(u);
    } else if t[0] == '@' {
      RunAfterAt(u);
      assert u == t[1..] && t[..0] == [];
      if Run(AfterAt, u) == TopLevel { assert SplitsAt(t, 0); }
    } else {
      RunLocal(u);
      if exists i :: SplitsAt(t, i) {
        var i :| SplitsAt(t, i);
        SplitsAtShift(t, i - 1);
      }
      if exists i :: SplitsAt(u, i) {
        var i :| SplitsAt(u, i);
        SplitsAtShift(t, i);
      }
    }
  }

  /** The matcher accepts exactly the strings the pattern describes. */
  lemma IsEmailMeansShape(s: string)
    ensures IsEmail(s) <==> EmailShape(s)
  {
    if s == [] {
      return;
    }
    var u := s[1..];
    if !IsAddressChar(s[0]) {
      RunDead(u);
    } else {
      RunLocal(u);
      if EmailShape(s) {
        var i :| 0 < i < |s| && s[i] == '@' && AllAddressChars(s[..i])
          && AllAddressChars(s[i + 1..]) && HasInnerDot(s[i + 1..]);
        assert SplitsAt(s, i);
        SplitsAtShift(s, i - 1);
      }
      if exists i :: SplitsAt(u, i) {
        var i :| SplitsAt(u, i);
        SplitsAtShift(s, i);
      }
    }
  }

  /** What an accepted address looks like character by character: no
      whitespace anywhere and a single '@', preceded by something. */
  lemma IsEmailHasOneAt(s: string)
    requires IsEmail(s)
    ensures forall k :: 0 <= k < |s| ==> !IsSpace(s[k])
    ensures exists i :: 0 < i < |s| && s[i] == '@' && forall k :: 0 <= k < |s| && s[k] == '@' ==> k == i
  {
    IsEmailMeansShape(s);
    var i :| 0 < i < |s| && s[i] == '@' && AllAddressChars(s[..i]) && AllAddressChars(s[i + 1..]);
    forall k | 0 <= k < |s| && k != i ensures IsAddressChar(s[k]) {
      if k < i { assert s[..i][k] == s[k]; } else { assert s[i + 1..][k - i - 1] == s[k]; }
    }
  }

  /** Lower-casing an address does not change whether it is accepted. */
  lemma {:induction false} RunToLower(q: ScanState, t: string)
    ensures Run(q, ToLower(t)) == Run(q, t)
    decreases |t|
  {
    if t != [] {
      LowerCharFacts(t[0]);
      assert ToLower(t)[1..] == ToLower(t[1..]);
      RunToLower(Step(q, t[0]), t[1..]);
    }
  }

  lemma IsEmailToLower(s: string)
    ensures IsEmail(ToLower(s)) == IsEmail(s)
  {
    RunToLower(Start, s);
  }
}
