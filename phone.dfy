/** `normalizePhone`: ten national digits become `AAA-BBB-CCCC`; every
    other non-empty input is returned as it was given. */
module Phone {
  import opened Wrappers
  import opened Text

  /** `p.replace(/\D/g, "")`: the digits of `s`, in order. */
  function Digits(s: string): (d: string)
    ensures AllDigits(d) && |d| <= |s|
    decreases |s|
  {
    if s == [] then [] else (if IsDigit(s[0]) then [s[0]] else []) + Digits(s[1..])
  }

  lemma {:induction false} DigitsAppend(a: string, b: string)
    ensures Digits(a + b) == Digits(a) + Digits(b)
    decreases |a|
  {
    if a == [] {
      assert a + b == b;
    } else {
      assert (a + b)[0] == a[0] && (a + b)[1..] == a[1..] + b;
      DigitsAppend(a[1..], b);
    }
  }

  lemma {:induction false} DigitsOfDigits(d: string)
    requires AllDigits(d)
    ensures Digits(d) == d
    decreases |d|
  {
    if d != [] { DigitsOfDigits(d[1..]); }
  }

  /** Ten digits laid out as `AAA-BBB-CCCC`. */
  function FormatTen(d: string): string
    requires |d| == 10
  {
    d[..3] + "-" + d[3..6] + "-" + d[6..]
  }

  /** The canonical layout: twelve characters, dashes at 3 and 7, digits
      everywhere else. */
  predicate IsCanonical(r: string) {
    && |r| == 12 && r[3] == '-' && r[7] == '-'
    && forall k :: 0 <= k < 12 && k != 3 && k != 7 ==> IsDigit(r[k])
  }

  /** Formatting keeps exactly the ten digits it was given. */
  lemma FormatTenKeepsDigits(d: string)
    requires |d| == 10 && AllDigits(d)
    ensures IsCanonical(FormatTen(d)) && Digits(FormatTen(d)) == d
  {
    var a, b, c := d[..3], d[3..6], d[6..];
    DigitsAppend(a + "-" + b + "-", c);
    DigitsAppend(a + "-" + b, "-");
    DigitsAppend(a + "-", b);
    DigitsAppend(a, "-");
    DigitsOfDigits(a);
    DigitsOfDigits(b);
    DigitsOfDigits(c);
    assert a + b + c == d;
  }

  /** A canonical string is determined by its digits. */
  lemma CanonicalByDigits(x: string, y: string)
    requires IsCanonical(x) && IsCanonical(y) && Digits(x) == Digits(y)
    ensures x == y
  {
    var dx := x[..3] + x[4..7] + x[8..];
    var dy := y[..3] + y[4..7] + y[8..];
    assert x == FormatTen(dx) && y == FormatTen(dy);
    FormatTenKeepsDigits(dx);
    FormatTenKeepsDigits(dy);
  }

  /** The ten national digits when there are ten digits, or eleven with a
      leading country code 1. */
  predicate HasNationalNumber(d: string) {
    |d| == 10 || (|d| == 11 && d[0] == '1')
  }

  function NationalDigits(d: string): string
    requires HasNationalNumber(d)
  {
    d[|d| - 10..]
  }

  /** `normalizePhone`. */
  function NormalizePhone(p: Option<string>): Option<string> {
    if p.None? || p.value == [] then None
    else
      var d := Digits(p.value);
      if |d| == 10 then Some(FormatTen(d))
      else if |d| == 11 && d[0] == '1' then Some(FormatTen(d[1..]))
      else p
  }

  /** What `normalizePhone` returns: nothing for an absent or empty input;
      the one canonical string carrying the national digits when the input
      has them; the input itself, byte for byte, otherwise. */
  lemma NormalizePhoneSpec(p: Option<string>)
    ensures NormalizePhone(p).None? <==> p.None? || p.value == []
    ensures p.Some? && p.value != [] && HasNationalNumber(Digits(p.value)) ==>
      NormalizePhone(p).Some? && IsCanonical(NormalizePhone(p).value)
      && Digits(NormalizePhone(p).value) == NationalDigits(Digits(p.value))
    ensures p.Some? && p.value != [] && !HasNationalNumber(Digits(p.value)) ==>
      NormalizePhone(p) == p
  {
    if p.Some? && p.value != [] {
      var d := Digits(p.value);
      if HasNationalNumber(d) {
        FormatTenKeepsDigits(d[|d| - 10..]);
        assert |d| == 11 ==> d[1..] == d[|d| - 10..];
      }
    }
  }

  /** Normalising a normalised number changes nothing. */
  lemma NormalizePhoneIdempotent(p: Option<string>)
    ensures NormalizePhone(NormalizePhone(p)) == NormalizePhone(p)
  {
    NormalizePhoneSpec(p);
    var r := NormalizePhone(p);
    if r.Some? && r != p {
      var s := r.value;
      assert Digits(s) == NationalDigits(Digits(p.value));
      assert |Digits(s)| == 10;
      NormalizePhoneSpec(r);
      CanonicalByDigits(NormalizePhone(r).value, s);
    }
  }
}
