/**
 * The week-over-week change strings: `fmt_delta` (percentage, one decimal,
 * forced sign) and `fmt_abs_delta` (absolute difference, grouped, forced
 * sign). Either prints "N/A" instead of raising.
 */
module Delta {
  import opened Wrappers
  import opened Text
  import opened Numbers
  import opened Format

  const NotAvailable: string := "N/A"

  /** A rendering that starts with a sign is never mistaken for "N/A". */
  lemma SignedIsAvailable(s: string)
    requires |s| > 0 && (s[0] == '+' || s[0] == '-')
    ensures s != NotAvailable
  {
  }

  lemma NegativeRatio(p: real, pv: real, cv: real)
    requires pv != 0.0 && p * pv == (cv - pv) * 100.0
    ensures p < 0.0 <==> (cv < pv && pv > 0.0) || (cv > pv && pv < 0.0)
  {
    if pv > 0.0 {
      if p < 0.0 { assert p * pv < 0.0; }
      if cv < pv { assert p * pv < 0.0; }
    } else {
      if p < 0.0 { assert p * pv > 0.0; }
      if cv > pv { assert p * pv > 0.0; }
    }
  }

  /** `(curr - prev) / prev * 100`, whose sign is the sign of the change when `prev` is positive and the opposite one when it is negative. */
  function PercentChange(pv: real, cv: real): (p: real)
    requires pv != 0.0
    ensures p * pv == (cv - pv) * 100.0
    ensures p < 0.0 <==> (cv < pv && pv > 0.0) || (cv > pv && pv < 0.0)
  {
    var p := (cv - pv) / pv * 100.0;
    NegativeRatio(p, pv, cv);
    p
  }

  /**
   * The percentage `fmt_delta` shows, `(curr - prev) / prev * 100`; `None`
   * when there is no previous value, either operand fails `float()`, or the
   * previous value is 0.
   */
  function DeltaPercent(curr: Value, prev: Value): (p: Option<real>)
    ensures p.Some? <==> !prev.Null? && ToFloat(prev).Some? && ToFloat(curr).Some? && ToFloat(prev).value != 0.0
    ensures p.Some? ==> p.value == PercentChange(ToFloat(prev).value, ToFloat(curr).value)
  {
    if prev.Null? then None
    else
      match ToFloat(prev)
      case None => None
      case Some(pv) =>
        match ToFloat(curr)
        case None => None
        case Some(cv) => if pv == 0.0 then None else Some(PercentChange(pv, cv))
  }

  /** `fmt_delta(curr, prev)`. */
  function FmtDelta(curr: Value, prev: Value): (s: string)
    ensures s == NotAvailable <==> DeltaPercent(curr, prev).None?
    ensures DeltaPercent(curr, prev).Some? ==> |s| >= 2 && s[|s| - 1] == '%'
  {
    match DeltaPercent(curr, prev)
    case None => NotAvailable
    case Some(p) =>
      ForcedSignFirst(p);
      SignedIsAvailable(Fixed1(p, true) + "%");
      Fixed1(p, true) + "%"
  }

  /** What `fmt_delta` prints, read back without its `%`, is the change in percent to within 0.05. */
  lemma FmtDeltaRoundTrip(curr: Value, prev: Value)
    requires DeltaPercent(curr, prev).Some?
    ensures var s := FmtDelta(curr, prev);
            Within(ParseDecimal(s[..|s| - 1]), DeltaPercent(curr, prev).value, 0.05)
  {
    var p := DeltaPercent(curr, prev).value;
    var s := FmtDelta(curr, prev);
    assert s[..|s| - 1] == Fixed1(p, true);
    Fixed1RoundTrip(p);
  }

  lemma FmtDeltaMinus(curr: Value, prev: Value)
    requires DeltaPercent(curr, prev).Some?
    ensures FmtDelta(curr, prev)[0] == '-' <==> DeltaPercent(curr, prev).value < 0.0
  {
    var p := DeltaPercent(curr, prev).value;
    ForcedSignFirst(p);
    assert FmtDelta(curr, prev) == Fixed1(p, true) + "%";
  }

  /** `fmt_delta` shows a minus sign exactly for a fall from a positive previous value or a rise from a negative one. */
  lemma FmtDeltaSign(curr: Value, prev: Value)
    requires DeltaPercent(curr, prev).Some?
    ensures var pv, cv := ToFloat(prev).value, ToFloat(curr).value;
            FmtDelta(curr, prev)[0] == '-' <==> (cv < pv && pv > 0.0) || (cv > pv && pv < 0.0)
  {
    FmtDeltaMinus(curr, prev);
  }

  /** `fmt_abs_delta(curr, prev)`: `None`, or an operand `float()` rejects, gives "N/A"; a previous 0 does not. */
  function FmtAbsDelta(curr: Value, prev: Value): (s: string)
    ensures s == NotAvailable <==> prev.Null? || ToFloat(curr).None? || ToFloat(prev).None?
  {
    if prev.Null? then NotAvailable
    else
      match ToFloat(curr)
      case None => NotAvailable
      case Some(cv) =>
        match ToFloat(prev)
        case None => NotAvailable
        case Some(pv) =>
          ForcedSignFirst(cv - pv);
          SignedIsAvailable(Grouped0(cv - pv, true));
          Grouped0(cv - pv, true)
  }

  lemma FmtAbsDeltaShown(curr: Value, prev: Value)
    requires !prev.Null? && ToFloat(curr).Some? && ToFloat(prev).Some?
    ensures FmtAbsDelta(curr, prev) == Grouped0(ToFloat(curr).value - ToFloat(prev).value, true)
  {
  }

  /** What `fmt_abs_delta` prints, with its separators dropped, is the difference to within one half. */
  lemma FmtAbsDeltaRoundTrip(curr: Value, prev: Value)
    requires !prev.Null? && ToFloat(curr).Some? && ToFloat(prev).Some?
    ensures Within(ParseDecimal(RemoveAll(FmtAbsDelta(curr, prev), ',')), ToFloat(curr).value - ToFloat(prev).value, 0.5)
  {
    var d := ToFloat(curr).value - ToFloat(prev).value;
    FmtAbsDeltaShown(curr, prev);
    Grouped0RoundTrip(d);
  }

  /** A previous value of 0 makes the percentage "N/A" while the absolute change is still shown. */
  lemma ZeroPreviousContrast(x: real)
    ensures FmtDelta(Number(x), Number(0.0)) == NotAvailable
    ensures FmtAbsDelta(Number(x), Number(0.0)) != NotAvailable
    ensures FmtAbsDelta(Number(x), Number(0.0)) == Grouped0(x, true)
  {
    assert x - 0.0 == x;
  }

  /** 100 to 120 is shown as `+20.0%` and `+20`. */
  lemma RiseExample()
    ensures FmtDelta(Number(120.0), Number(100.0)) == "+20.0%"
    ensures FmtAbsDelta(Number(120.0), Number(100.0)) == "+20"
  {
    assert DeltaPercent(Number(120.0), Number(100.0)) == Some(20.0);
    assert RoundHalfEven(200.0) == 200;
    assert ShowNat(20) == "20";
    assert RoundHalfEven(20.0) == 20;
  }

  /** A drop of 0.01% rounds to zero tenths but keeps its minus sign: `-0.0%`. */
  lemma NegativeZeroExample()
    ensures FmtDelta(Number(9999.0), Number(10000.0)) == "-0.0%"
  {
    assert DeltaPercent(Number(9999.0), Number(10000.0)) == Some(-0.01);
    assert RoundHalfEven(0.1) == 0;
    assert ShowNat(0) == "0";
  }
}
