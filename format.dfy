/**
 * The fixed-point renderings of Python's format specifications used by the
 * dashboard: `{:+.1f}` / `{:.1f}` (one decimal) and `{:+,.0f}` / `{:,.0f}`
 * (no decimals, thousands separators). The sign comes from the value
 * itself, so a small negative value renders as `-0.0`; `+` is written only
 * when the specification forces it.
 */
module Format {
  import opened Wrappers
  import opened Text
  import opened Numbers

  function Abs(x: real): (a: real)
    ensures a >= 0.0 && (a == x || a == -x)
  {
    if x < 0.0 then -x else x
  }

  /** The sign a format specification writes; `plus` is the `+` flag. */
  function SignOf(x: real, plus: bool): (s: string)
    ensures s == "-" <==> x < 0.0
    ensures s == "+" <==> x >= 0.0 && plus
    ensures |s| <= 1
  {
    if x < 0.0 then "-" else if plus then "+" else ""
  }

  /** `|x|` in tenths, rounded half to even. */
  function TenthsOf(x: real): (t: nat)
    ensures Abs(x) * 10.0 - 0.5 <= t as real <= Abs(x) * 10.0 + 0.5
  {
    RoundHalfEven(Abs(x) * 10.0)
  }

  /** `f"{x:+.1f}"` when `plus`, else `f"{x:.1f}"`. */
  function Fixed1(x: real, plus: bool): (s: string)
  {
    var t := TenthsOf(x);
    SignOf(x, plus) + (ShowNat(t / 10) + "." + [DigitChar(t % 10)])
  }

  /** `f"{x:+,.0f}"` when `plus`, else `f"{x:,.0f}"`. */
  function Grouped0(x: real, plus: bool): (s: string)
  {
    SignOf(x, plus) + ShowGrouped(RoundHalfEven(Abs(x)))
  }

  /** `v` is a number within `eps` of `x`. */
  predicate Within(v: Option<real>, x: real, eps: real) {
    v.Some? && x - eps <= v.value <= x + eps
  }

  /** The `+.1f` rendering parses back to a value within half a tenth of `x`. */
  lemma Fixed1RoundTrip(x: real)
    ensures Within(ParseDecimal(Fixed1(x, true)), x, 0.05)
  {
    var t := TenthsOf(x);
    var q, d := t / 10, t % 10;
    assert SignOf(x, true) == if x < 0.0 then "-" else "+";
    ParseShowTenths(x < 0.0, q, d);
    assert q as real + d as real / 10.0 == t as real / 10.0 by {
      assert (q * 10 + d) as real == t as real;
    }
  }

  /** The `+,.0f` rendering, with its separators dropped, parses back to a value within one half of `x`. */
  lemma Grouped0RoundTrip(x: real)
    ensures Within(ParseDecimal(RemoveAll(Grouped0(x, true), ',')), x, 0.5)
  {
    var n := RoundHalfEven(Abs(x));
    var sign := SignOf(x, true);
    assert sign == if x < 0.0 then "-" else "+";
    RemoveAllAppend(sign, ShowGrouped(n), ',');
    RemoveAllAbsent(sign, ',');
    UngroupShowGrouped(n);
    ParseShowSignedNat(x < 0.0, n);
  }

  /** The unforced `.1f` rendering parses back to a value within half a tenth of `x`. */
  lemma Fixed1UnsignedRoundTrip(x: real)
    ensures Within(ParseDecimal(Fixed1(x, false)), x, 0.05)
  {
    if x >= 0.0 {
      var t := TenthsOf(x);
      var q, d := t / 10, t % 10;
      assert Fixed1(x, false) == ShowNat(q) + "." + [DigitChar(d)];
      ParseShowUnsignedTenths(q, d);
      assert q as real + d as real / 10.0 == t as real / 10.0 by {
        assert (q * 10 + d) as real == t as real;
      }
    } else {
      assert Fixed1(x, false) == Fixed1(x, true);
      Fixed1RoundTrip(x);
    }
  }

  /** The unforced `,.0f` rendering, with its separators dropped, parses back to a value within one half of `x`. */
  lemma Grouped0UnsignedRoundTrip(x: real)
    ensures Within(ParseDecimal(RemoveAll(Grouped0(x, false), ',')), x, 0.5)
  {
    if x >= 0.0 {
      var n := RoundHalfEven(Abs(x));
      assert Grouped0(x, false) == ShowGrouped(n);
      UngroupedNatParses(n);
    } else {
      assert Grouped0(x, false) == Grouped0(x, true);
      Grouped0RoundTrip(x);
    }
  }

  /** Both renderings always start with the sign when it is forced: never with a digit or a letter. */
  lemma ForcedSignFirst(x: real)
    ensures Fixed1(x, true)[0] == '+' || Fixed1(x, true)[0] == '-'
    ensures Grouped0(x, true)[0] == '+' || Grouped0(x, true)[0] == '-'
    ensures Fixed1(x, true)[0] == '-' <==> x < 0.0
  {
  }

  /** `|n|` as a natural number. */
  function Magnitude(n: int): (m: nat)
    ensures m as real == Abs(n as real)
  {
    if n < 0 then -n else n
  }

  /** `f"{n:,}"` for an integer: a minus sign for negatives, then the grouped digits of `|n|`. */
  function IntGrouped(n: int): (s: string)
  {
    (if n < 0 then "-" else "") + ShowGrouped(Magnitude(n))
  }

  lemma UngroupedNatParses(m: nat)
    ensures ParseDecimal(RemoveAll(ShowGrouped(m), ',')) == Some(m as real)
  {
    UngroupShowGrouped(m);
    ParseShowNat(m);
  }

  lemma UngroupNegated(m: nat)
    ensures RemoveAll("-" + ShowGrouped(m), ',') == "-" + ShowNat(m)
  {
    RemoveAllAppend("-", ShowGrouped(m), ',');
    RemoveAllAbsent("-", ',');
    UngroupShowGrouped(m);
  }

  lemma UngroupedNegatedParses(m: nat)
    ensures ParseDecimal(RemoveAll("-" + ShowGrouped(m), ',')) == Some(-(m as real))
  {
    UngroupNegated(m);
    ParseShowSignedNat(true, m);
  }

  lemma SignedGroupedParses(negative: bool, m: nat)
    ensures ParseDecimal(RemoveAll((if negative then "-" else "") + ShowGrouped(m), ','))
              == Some(if negative then -(m as real) else m as real)
  {
    if negative {
      UngroupedNegatedParses(m);
    } else {
      assert "" + ShowGrouped(m) == ShowGrouped(m);
      UngroupedNatParses(m);
    }
  }

  /** The integer rendering, with its separators dropped, parses back to the integer. */
  lemma IntGroupedRoundTrip(n: int)
    ensures ParseDecimal(RemoveAll(IntGrouped(n), ',')) == Some(n as real)
  {
    SignedGroupedParses(n < 0, Magnitude(n));
  }
}
