/**
 * Numbers as the dashboard reads and converts them: Python's `float()` on a
 * string (plain decimal notation), `int()` truncation, the round-half-even
 * rounding of format specifications, and the dynamically typed values that
 * flow into the delta and surge helpers.
 */
module Numbers {
  import opened Wrappers
  import opened Text

  /** A Python object reaching `float()`: `None`, a number, or a string. */
  datatype Value = Null | Number(x: real) | Str(s: string)

  /** The number a run of decimal digits denotes. */
  function NatValue(s: string): (n: nat)
    requires AllDigits(s)
    decreases |s|
  {
    if s == [] then 0 else 10 * NatValue(s[..|s| - 1]) + DigitValue(s[|s| - 1])
  }

  /** The fraction `0.d1d2...` that digits after a decimal point denote. */
  function FracValue(s: string): (f: real)
    requires AllDigits(s)
    ensures 0.0 <= f < 1.0
    decreases |s|
  {
    if s == [] then 0.0 else (DigitValue(s[0]) as real + FracValue(s[1..])) / 10.0
  }

  /** Length of the longest all-digit prefix. */
  function LeadingDigits(s: string): (k: nat)
    ensures k <= |s| && AllDigits(s[..k])
    ensures k < |s| ==> !IsDigit(s[k])
    decreases |s|
  {
    if s != [] && IsDigit(s[0]) then
      var k := 1 + LeadingDigits(s[1..]);
      assert s[..k] == [s[0]] + s[1..][..k - 1];
      k
    else 0
  }

  /** Plain unsigned decimal notation: `12`, `12.5`, `12.` or `.5`. */
  ghost predicate IsUnsignedDecimal(s: string) {
    || (|s| > 0 && AllDigits(s))
    || (|s| > 1 && exists p :: 0 <= p < |s| && s[p] == '.' && AllDigits(s[..p]) && AllDigits(s[p + 1..]))
  }

  function ParseUnsigned(s: string): (r: Option<real>)
    ensures r.Some? ==> r.value >= 0.0
  {
    var k := LeadingDigits(s);
    if k == |s| then
      if k > 0 then Some(NatValue(s) as real) else None
    else if s[k] == '.' && AllDigits(s[k + 1..]) && |s| > 1 then
      Some(NatValue(s[..k]) as real + FracValue(s[k + 1..]))
    else None
  }

  /**
   * Python's `float(s)` on a string in plain decimal notation: surrounding
   * whitespace is ignored, one optional sign, then an unsigned decimal.
   */
  function ParseDecimal(s: string): (r: Option<real>)
  {
    ParseSigned(Trim(s))
  }

  /** One optional sign, then an unsigned decimal. */
  function ParseSigned(t: string): (r: Option<real>)
  {
    if |t| > 0 && t[0] == '-' then
      match ParseUnsigned(t[1..])
      case Some(v) => Some(-v)
      case None => None
    else if |t| > 0 && t[0] == '+' then ParseUnsigned(t[1..])
    else ParseUnsigned(t)
  }

  /** Python's `float(v)`; `None` indicates the exception that `float()` raises. */
  function ToFloat(v: Value): Option<real> {
    match v
    case Null => None
    case Number(x) => Some(x)
    case Str(s) => ParseDecimal(s)
  }

  /** The parser accepts exactly the strings of the decimal grammar. */
  lemma ParseUnsignedAccepts(s: string)
    ensures ParseUnsigned(s).Some? <==> IsUnsignedDecimal(s)
  {
    var k := LeadingDigits(s);
    if k < |s| && IsUnsignedDecimal(s) && !(|s| > 0 && AllDigits(s)) {
      var p :| 0 <= p < |s| && s[p] == '.' && AllDigits(s[..p]) && AllDigits(s[p + 1..]);
    }
  }

  lemma UnsignedNeedsDigit(s: string)
    requires IsUnsignedDecimal(s)
    ensures exists i :: 0 <= i < |s| && IsDigit(s[i])
  {
    if |s| > 0 && AllDigits(s) {
      assert IsDigit(s[0]);
    } else {
      var p :| 0 <= p < |s| && s[p] == '.' && AllDigits(s[..p]) && AllDigits(s[p + 1..]);
      if p > 0 {
        assert s[..p][0] == s[0];
        assert IsDigit(s[0]);
      } else {
        assert s[p + 1..][0] == s[1];
        assert IsDigit(s[1]);
      }
    }
  }

  lemma SignedNeedsDigit(t: string)
    requires forall i :: 0 <= i < |t| ==> !IsDigit(t[i])
    ensures ParseSigned(t) == None
  {
    if |t| > 0 && (t[0] == '-' || t[0] == '+') {
      ParseUnsignedAccepts(t[1..]);
      if IsUnsignedDecimal(t[1..]) {
        UnsignedNeedsDigit(t[1..]);
      }
    } else {
      ParseUnsignedAccepts(t);
      if IsUnsignedDecimal(t) {
        UnsignedNeedsDigit(t);
      }
    }
  }

  lemma NoDigitInside(s: string, t: string, i: int)
    requires forall j :: 0 <= j < |s| ==> !IsDigit(s[j])
    requires PaddedAt(s, t, i)
    ensures forall j :: 0 <= j < |t| ==> !IsDigit(t[j])
  {
    assert forall j :: 0 <= j < |t| ==> t[j] == s[i + j];
  }

  /** A string with no decimal digit in it (`""`, `"-"`, `"N/A"`) never parses. */
  lemma NoDigitNoNumber(s: string)
    requires forall i :: 0 <= i < |s| ==> !IsDigit(s[i])
    ensures ParseDecimal(s) == None
  {
    var t := Trim(s);
    var i :| PaddedAt(s, t, i);
    NoDigitInside(s, t, i);
    SignedNeedsDigit(t);
  }

  lemma {:induction false} NatValueShowNat(n: nat)
    ensures NatValue(ShowNat(n)) == n
    decreases n
  {
    var s := ShowNat(n);
    if n >= 10 {
      NatValueShowNat(n / 10);
      assert s[..|s| - 1] == ShowNat(n / 10);
    }
  }

  lemma AllDigitsLeading(s: string)
    requires AllDigits(s)
    ensures LeadingDigits(s) == |s|
  {
  }

  lemma NoEdgeTrim(s: string)
    requires NoEdgeSpace(s)
    ensures Trim(s) == s
  {
    TrimOfPadded([], s, []);
    assert [] + s + [] == s;
  }

  lemma AllDigitsTrim(s: string)
    requires AllDigits(s)
    ensures Trim(s) == s
  {
    assert NoEdgeSpace(s);
    TrimOfPadded([], s, []);
    assert [] + s + [] == s;
  }

  lemma ParseTrimmed(s: string)
    requires Trim(s) == s
    ensures ParseDecimal(s) == ParseSigned(s)
  {
  }

  lemma ParseUnsignedDigits(s: string)
    requires |s| > 0 && AllDigits(s)
    ensures ParseSigned(s) == Some(NatValue(s) as real)
  {
    AllDigitsLeading(s);
    assert IsDigit(s[0]);
  }

  /** `float(str(n))` is `n`: the rendering of a natural number parses back to it. */
  lemma ParseShowNat(n: nat)
    ensures ParseDecimal(ShowNat(n)) == Some(n as real)
  {
    var s := ShowNat(n);
    AllDigitsTrim(s);
    ParseTrimmed(s);
    ParseUnsignedDigits(s);
    NatValueShowNat(n);
  }

  /** The all-digit prefix ends exactly where the first non-digit is. */
  lemma {:induction false} LeadingDigitsExact(s: string, k: nat)
    requires k <= |s| && AllDigits(s[..k]) && (k < |s| ==> !IsDigit(s[k]))
    ensures LeadingDigits(s) == k
    decreases |s|
  {
    if k > 0 {
      assert s[..k][0] == s[0];
      assert s[1..][..k - 1] == s[..k][1..];
      LeadingDigitsExact(s[1..], k - 1);
    }
  }

  lemma ParseUnsignedPoint(whole: string, frac: string)
    requires AllDigits(whole) && AllDigits(frac) && |whole| + |frac| > 0
    ensures ParseUnsigned(whole + "." + frac) == Some(NatValue(whole) as real + FracValue(frac))
  {
    var s := whole + "." + frac;
    assert s[..|whole|] == whole;
    assert s[|whole| + 1..] == frac;
    LeadingDigitsExact(s, |whole|);
  }

  lemma ParseSignPrefix(negative: bool, body: string)
    ensures var v := ParseUnsigned(body);
            ParseSigned((if negative then "-" else "+") + body)
              == if negative && v.Some? then Some(-v.value) else v
  {
    var s := (if negative then "-" else "+") + body;
    assert s[1..] == body;
  }

  lemma FracOneDigit(d: nat)
    requires d < 10
    ensures FracValue([DigitChar(d)]) == d as real / 10.0
  {
    assert [DigitChar(d)][1..] == [];
  }

  lemma ParseUnsignedTenths(q: nat, d: nat)
    requires d < 10
    ensures ParseUnsigned(ShowNat(q) + "." + [DigitChar(d)]) == Some(q as real + d as real / 10.0)
  {
    ParseUnsignedPoint(ShowNat(q), [DigitChar(d)]);
    NatValueShowNat(q);
    FracOneDigit(d);
  }

  lemma ParseSignedTenths(negative: bool, q: nat, d: nat)
    requires d < 10
    ensures ParseSigned((if negative then "-" else "+") + (ShowNat(q) + "." + [DigitChar(d)]))
              == Some(if negative then -(q as real + d as real / 10.0) else q as real + d as real / 10.0)
  {
    ParseSignPrefix(negative, ShowNat(q) + "." + [DigitChar(d)]);
    ParseUnsignedTenths(q, d);
  }

  /** A forced sign, digits, a point and one digit parse back to the fixed-point value they show. */
  lemma ParseShowTenths(negative: bool, q: nat, d: nat)
    requires d < 10
    ensures ParseDecimal((if negative then "-" else "+") + (ShowNat(q) + "." + [DigitChar(d)]))
              == Some(if negative then -(q as real + d as real / 10.0) else q as real + d as real / 10.0)
  {
    var s := (if negative then "-" else "+") + (ShowNat(q) + "." + [DigitChar(d)]);
    assert s[|s| - 1] == DigitChar(d);
    NoEdgeTrim(s);
    ParseTrimmed(s);
    ParseSignedTenths(negative, q, d);
  }

  /** Digits, a point and one digit, without a sign, parse back to the fixed-point value they show. */
  lemma ParseShowUnsignedTenths(q: nat, d: nat)
    requires d < 10
    ensures ParseDecimal(ShowNat(q) + "." + [DigitChar(d)]) == Some(q as real + d as real / 10.0)
  {
    var s := ShowNat(q) + "." + [DigitChar(d)];
    assert s[0] == ShowNat(q)[0] && s[|s| - 1] == DigitChar(d);
    NoEdgeTrim(s);
    ParseTrimmed(s);
    assert IsDigit(s[0]);
    ParseUnsignedTenths(q, d);
  }

  lemma ParseUnsignedNat(n: nat)
    ensures ParseUnsigned(ShowNat(n)) == Some(n as real)
  {
    AllDigitsLeading(ShowNat(n));
    NatValueShowNat(n);
  }

  lemma ParseSignedNat(negative: bool, n: nat)
    ensures ParseSigned((if negative then "-" else "+") + ShowNat(n))
              == Some(if negative then -(n as real) else n as real)
  {
    ParseSignPrefix(negative, ShowNat(n));
    ParseUnsignedNat(n);
  }

  /** A forced sign followed by the digits of `n` parses back to `n` or `-n`. */
  lemma ParseShowSignedNat(negative: bool, n: nat)
    ensures ParseDecimal((if negative then "-" else "+") + ShowNat(n))
              == Some(if negative then -(n as real) else n as real)
  {
    var s := (if negative then "-" else "+") + ShowNat(n);
    assert s[|s| - 1] == ShowNat(n)[|ShowNat(n)| - 1];
    NoEdgeTrim(s);
    ParseTrimmed(s);
    ParseSignedNat(negative, n);
  }

  /** `float()` strips anyway, so stripping first changes nothing. */
  lemma ParseTrimFirst(s: string)
    ensures ParseDecimal(Trim(s)) == ParseDecimal(s)
  {
    NoEdgeTrim(Trim(s));
  }

  /** Python's `int(x)` on a float: truncation toward zero. */
  function Trunc(x: real): (n: int)
    ensures 0.0 <= x ==> n as real <= x < n as real + 1.0
    ensures x < 0.0 ==> n as real - 1.0 < x <= n as real
  {
    if x >= 0.0 then x.Floor else -((-x).Floor)
  }

  /** Truncation is odd: `int(-x) == -int(x)`, unlike floor division. */
  lemma TruncOdd(x: real)
    ensures Trunc(-x) == -Trunc(x)
  {
    if x > 0.0 {
      assert -x < 0.0;
    }
  }

  /**
   * The integer nearest to `x`, ties to the even neighbour: the rounding that
   * Python's fixed-point format specifications apply.
   */
  function RoundHalfEven(x: real): (n: int)
    ensures x - 0.5 <= n as real <= x + 0.5
    ensures (n as real == x - 0.5 || n as real == x + 0.5) ==> n % 2 == 0
  {
    var f := x.Floor;
    var d := x - f as real;
    if d < 0.5 then f
    else if d > 0.5 then f + 1
    else if f % 2 == 0 then f
    else f + 1
  }

  /** The two conditions above pin the rounding down uniquely. */
  lemma RoundHalfEvenUnique(x: real, m: int)
    requires x - 0.5 <= m as real <= x + 0.5
    requires (m as real == x - 0.5 || m as real == x + 0.5) ==> m % 2 == 0
    ensures m == RoundHalfEven(x)
  {
  }
}
