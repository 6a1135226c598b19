/**
 * Rule-based surge detection: `check_surge` appends one alert when the
 * fractional week-over-week change of a metric reaches its threshold in
 * absolute value, and the six calls run in a fixed order.
 */
module Surge {
  import opened Wrappers
  import opened Numbers
  import opened Text
  import opened Frame
  import opened Format
  import opened Delta
  import opened Metrics

  datatype Direction = Rise | Fall

  /** One alert line: the metric, its fractional change, the direction and the two values compared. */
  datatype Alert = Alert(metric: string, change: real, direction: Direction, previous: real, current: real)

  /** `(curr - prev) / prev`: the percentage of `fmt_delta` divided by 100. */
  function FractionChange(pv: real, cv: real): real
    requires pv != 0.0
  {
    (cv - pv) / pv
  }

  /** The fractional change is the percentage change of `fmt_delta` divided by 100. */
  lemma FractionIsPercent(pv: real, cv: real)
    requires pv != 0.0
    ensures FractionChange(pv, cv) * 100.0 == PercentChange(pv, cv)
  {
  }

  /**
   * The fractional change `(curr - prev) / prev`; `None` exactly where
   * `check_surge` returns early: no previous value, an operand `float()`
   * rejects, or a previous value of 0. These are the guards of `fmt_delta`,
   * whose percentage is this change times 100.
   */
  function Change(curr: Value, prev: Value): (c: Option<real>)
    ensures c.Some? <==> DeltaPercent(curr, prev).Some?
    ensures c.Some? ==> c.value * 100.0 == DeltaPercent(curr, prev).value
  {
    if prev.Null? then None
    else
      match ToFloat(prev)
      case None => None
      case Some(pv) =>
        match ToFloat(curr)
        case None => None
        case Some(cv) =>
          if pv == 0.0 then None
          else
            FractionIsPercent(pv, cv);
            Some(FractionChange(pv, cv))
  }

  /** The alert `check_surge(metric, curr, prev, threshold)` appends, if any. */
  function SurgeAlert(metric: string, curr: Value, prev: Value, threshold: real): (a: Option<Alert>)
    ensures a.Some? <==> Change(curr, prev).Some? && Abs(Change(curr, prev).value) >= threshold
    ensures a.Some? ==> a.value.metric == metric && a.value.change == Change(curr, prev).value
    ensures a.Some? ==> (a.value.direction == Rise <==> a.value.change > 0.0)
    ensures a.Some? ==> Some(a.value.previous) == ToFloat(prev) && Some(a.value.current) == ToFloat(curr)
  {
    match Change(curr, prev)
    case None => None
    case Some(c) =>
      if Abs(c) >= threshold then
        Some(Alert(metric, c, if c > 0.0 then Rise else Fall, ToFloat(prev).value, ToFloat(curr).value))
      else None
  }

  function DirectionText(d: Direction): string {
    match d
    case Rise => "급등 📈"
    case Fall => "급락 📉"
  }

  /** The change of an alert in percent, as its line shows it (`pct*100`). */
  function InPercent(change: real): real {
    change * 100.0
  }

  /**
   * The markdown line of an alert: `- **{metric}**: 전주 대비 **`, the change in
   * percent with one decimal, `%** `, the direction word, and both values in
   * parentheses.
   */
  function AlertText(a: Alert): (s: string)
    ensures var lead, pct := "- **" + a.metric + "**: 전주 대비 **", Fixed1(InPercent(a.change), false);
            var word, values := DirectionText(a.direction), " (" + Grouped0(a.previous, false) + " → " + Grouped0(a.current, false) + ")";
            InFiveParts(s, lead, pct, "%** ", word, values)
  {
    var lead, pct := "- **" + a.metric + "**: 전주 대비 **", Fixed1(InPercent(a.change), false);
    var word, values := DirectionText(a.direction), " (" + Grouped0(a.previous, false) + " → " + Grouped0(a.current, false) + ")";
    FiveParts(lead, pct, "%** ", word, values);
    lead + pct + "%** " + word + values
  }

  /** The two direction words differ, so the word shown tells the direction. */
  lemma DirectionWords(d: Direction)
    ensures DirectionText(d) == "급등 📈" <==> d == Rise
  {
    assert "급등 📈"[1] != "급락 📉"[1];
  }

  /**
   * The parts of an alert's line read back: the percentage to within half a
   * tenth of the change in percent, the word is the rise word exactly for a
   * rise, and each value, without separators, to within one half.
   */
  lemma AlertTextReadsBack(a: Alert)
    ensures Within(ParseDecimal(Fixed1(InPercent(a.change), false)), InPercent(a.change), 0.05)
    ensures DirectionText(a.direction) == "급등 📈" <==> a.direction == Rise
    ensures Within(ParseDecimal(RemoveAll(Grouped0(a.previous, false), ',')), a.previous, 0.5)
    ensures Within(ParseDecimal(RemoveAll(Grouped0(a.current, false), ',')), a.current, 0.5)
  {
    Fixed1UnsignedRoundTrip(InPercent(a.change));
    DirectionWords(a.direction);
    Grouped0UnsignedRoundTrip(a.previous);
    Grouped0UnsignedRoundTrip(a.current);
  }

  /**
   * For an alert `check_surge` raises, the percentage of its line reads back
   * to within half a tenth of `fmt_delta`'s change, the rise word is shown
   * exactly when that change is positive, and the two values read back to
   * within one half of what `float()` gave.
   */
  lemma SurgeAlertText(metric: string, curr: Value, prev: Value, threshold: real)
    requires SurgeAlert(metric, curr, prev, threshold).Some?
    ensures var a := SurgeAlert(metric, curr, prev, threshold).value;
            var pct, word := Fixed1(InPercent(a.change), false), DirectionText(a.direction);
            var was, now := Grouped0(a.previous, false), Grouped0(a.current, false);
            && Within(ParseDecimal(pct), DeltaPercent(curr, prev).value, 0.05)
            && (word == "급등 📈" <==> DeltaPercent(curr, prev).value > 0.0)
            && Within(ParseDecimal(RemoveAll(was, ',')), ToFloat(prev).value, 0.5)
            && Within(ParseDecimal(RemoveAll(now, ',')), ToFloat(curr).value, 0.5)
  {
    var a := SurgeAlert(metric, curr, prev, threshold).value;
    AlertTextReadsBack(a);
  }

  /** Where `check_surge` returns early, it appends nothing. */
  lemma SurgeAlertNone(metric: string, curr: Value, prev: Value, threshold: real)
    requires prev.Null? || ToFloat(prev).None? || ToFloat(curr).None? || ToFloat(prev) == Some(0.0)
    ensures SurgeAlert(metric, curr, prev, threshold) == None
  {
  }

  /** Past the early returns, `check_surge` appends the alert of the fractional change when it reaches the threshold. */
  lemma SurgeAlertOf(metric: string, curr: Value, prev: Value, threshold: real, pv: real, cv: real)
    requires !prev.Null? && ToFloat(prev) == Some(pv) && ToFloat(curr) == Some(cv) && pv != 0.0
    ensures var pct := FractionChange(pv, cv);
            SurgeAlert(metric, curr, prev, threshold)
              == if Abs(pct) >= threshold then Some(Alert(metric, pct, if pct > 0.0 then Rise else Fall, pv, cv)) else None
  {
  }

  /** The `alerts` list that the nested `check_surge` appends to. */
  class AlertLog {
    var alerts: seq<Alert>

    constructor ()
      ensures alerts == []
    {
      alerts := [];
    }

    /** `check_surge`: appends at most one alert and leaves the earlier ones as they were. */
    method CheckSurge(metric: string, curr: Value, prev: Value, threshold: real)
      modifies this
      ensures alerts == old(alerts) + ToSeq(SurgeAlert(metric, curr, prev, threshold))
    {
      if prev.Null? {
        SurgeAlertNone(metric, curr, prev, threshold);
        assert alerts + [] == alerts;
        return;
      }
      var prevVal := ToFloat(prev);
      var currVal := ToFloat(curr);
      if prevVal.None? || currVal.None? {
        SurgeAlertNone(metric, curr, prev, threshold);
        assert alerts + [] == alerts;
        return;
      }
      if prevVal.value == 0.0 {
        SurgeAlertNone(metric, curr, prev, threshold);
        assert alerts + [] == alerts;
        return;
      }
      var pct := FractionChange(prevVal.value, currVal.value);
      SurgeAlertOf(metric, curr, prev, threshold, prevVal.value, currVal.value);
      if Abs(pct) >= threshold {
        var direction := if pct > 0.0 then Rise else Fall;
        alerts := alerts + [Alert(metric, pct, direction, prevVal.value, currVal.value)];
      } else {
        assert alerts + [] == alerts;
      }
    }
  }

  /** Where a surge rule reads its metric: a column, or the broadcast app-download composite. */
  datatype Measure = ColumnMeasure(name: string) | AppDownloadsMeasure

  datatype Rule = Rule(metric: string, measure: Measure, threshold: real)

  /** The six calls, in order, with their thresholds. */
  const Rules: seq<Rule> := [
    Rule("방송 PV", ColumnMeasure(BroadcastPv), 0.1),
    Rule("뉴스 PV", ColumnMeasure(NewsPv), 0.1),
    Rule("방송 앱 다운로드", AppDownloadsMeasure, 0.15),
    Rule("신규회원", ColumnMeasure(NewMembers), 0.2),
    Rule("탈퇴회원", ColumnMeasure(ChurnedMembers), 0.2),
    Rule("누적전환회원", ColumnMeasure(ConvertedMembers), 0.05)
  ]

  /** The current value a rule passes: `latest.get(name, 0)`, or `curr_app`. */
  function CurrentValue(latest: Row, m: Measure): Value
    requires RowValid(latest)
  {
    match m
    case ColumnMeasure(name) => Get(latest, name, Number(0.0))
    case AppDownloadsMeasure => Number(AppDownloads(latest))
  }

  /** The previous value a rule passes: `prev.get(name, None)`, or `prev_app`; `None` without a previous row. */
  function PreviousValue(prev: Option<Row>, m: Measure): (v: Value)
    requires prev.Some? ==> RowValid(prev.value)
    ensures prev.None? ==> v.Null?
  {
    match prev
    case None => Null
    case Some(p) =>
      match m
      case ColumnMeasure(name) => Get(p, name, Null)
      case AppDownloadsMeasure => PrevAppDownloads(prev)
  }

  function RuleAlert(latest: Row, prev: Option<Row>, rule: Rule): Option<Alert>
    requires RowValid(latest) && (prev.Some? ==> RowValid(prev.value))
  {
    SurgeAlert(rule.metric, CurrentValue(latest, rule.measure), PreviousValue(prev, rule.measure), rule.threshold)
  }

  /** The alerts of a list of rules, in rule order. */
  function Report(latest: Row, prev: Option<Row>, rules: seq<Rule>): seq<Alert>
    requires RowValid(latest) && (prev.Some? ==> RowValid(prev.value))
    decreases |rules|
  {
    if rules == [] then []
    else ToSeq(RuleAlert(latest, prev, rules[0])) + Report(latest, prev, rules[1..])
  }

  /** Running rules one after another appends their reports: alerts keep the rule order. */
  lemma {:induction false} ReportAppend(latest: Row, prev: Option<Row>, first: seq<Rule>, second: seq<Rule>)
    requires RowValid(latest) && (prev.Some? ==> RowValid(prev.value))
    ensures Report(latest, prev, first + second) == Report(latest, prev, first) + Report(latest, prev, second)
    decreases |first|
  {
    if first == [] {
      assert first + second == second;
    } else {
      assert (first + second)[1..] == first[1..] + second;
      ReportAppend(latest, prev, first[1..], second);
    }
  }

  /** The report of six rules is their six optional alerts, in order. */
  lemma ReportSix(latest: Row, prev: Option<Row>, r: seq<Rule>)
    requires RowValid(latest) && (prev.Some? ==> RowValid(prev.value))
    requires |r| == 6
    ensures Report(latest, prev, r)
            == ToSeq(RuleAlert(latest, prev, r[0])) + (ToSeq(RuleAlert(latest, prev, r[1]))
             + (ToSeq(RuleAlert(latest, prev, r[2])) + (ToSeq(RuleAlert(latest, prev, r[3]))
             + (ToSeq(RuleAlert(latest, prev, r[4])) + ToSeq(RuleAlert(latest, prev, r[5]))))))
  {
    assert r[5..][1..] == [];
    assert Report(latest, prev, r[5..]) == ToSeq(RuleAlert(latest, prev, r[5])) + [];
    assert r[4..][1..] == r[5..];
    assert Report(latest, prev, r[4..]) == ToSeq(RuleAlert(latest, prev, r[4])) + Report(latest, prev, r[5..]);
    assert r[3..][1..] == r[4..];
    assert Report(latest, prev, r[3..]) == ToSeq(RuleAlert(latest, prev, r[3])) + Report(latest, prev, r[4..]);
    assert r[2..][1..] == r[3..];
    assert Report(latest, prev, r[2..]) == ToSeq(RuleAlert(latest, prev, r[2])) + Report(latest, prev, r[3..]);
    assert r[1..][1..] == r[2..];
    assert Report(latest, prev, r[1..]) == ToSeq(RuleAlert(latest, prev, r[1])) + Report(latest, prev, r[2..]);
  }

  /** Each rule passes what its `check_surge` call in the dashboard passes. */
  lemma RuleCalls(latest: Row, prev: Option<Row>)
    requires RowValid(latest) && (prev.Some? ==> RowValid(prev.value))
    ensures RuleAlert(latest, prev, Rules[0]) == SurgeAlert("방송 PV", Get(latest, BroadcastPv, Number(0.0)), if prev.Some? then Get(prev.value, BroadcastPv, Null) else Null, 0.1)
    ensures RuleAlert(latest, prev, Rules[1]) == SurgeAlert("뉴스 PV", Get(latest, NewsPv, Number(0.0)), if prev.Some? then Get(prev.value, NewsPv, Null) else Null, 0.1)
    ensures RuleAlert(latest, prev, Rules[2]) == SurgeAlert("방송 앱 다운로드", Number(AppDownloads(latest)), PrevAppDownloads(prev), 0.15)
    ensures RuleAlert(latest, prev, Rules[3]) == SurgeAlert("신규회원", Get(latest, NewMembers, Number(0.0)), if prev.Some? then Get(prev.value, NewMembers, Null) else Null, 0.2)
    ensures RuleAlert(latest, prev, Rules[4]) == SurgeAlert("탈퇴회원", Get(latest, ChurnedMembers, Number(0.0)), if prev.Some? then Get(prev.value, ChurnedMembers, Null) else Null, 0.2)
    ensures RuleAlert(latest, prev, Rules[5]) == SurgeAlert("누적전환회원", Get(latest, ConvertedMembers, Number(0.0)), if prev.Some? then Get(prev.value, ConvertedMembers, Null) else Null, 0.05)
  {
  }

  lemma ConcatSix(a: seq<Alert>, b: seq<Alert>, c: seq<Alert>, d: seq<Alert>, e: seq<Alert>, f: seq<Alert>)
    ensures [] + a + b + c + d + e + f == a + (b + (c + (d + (e + f))))
  {
  }

  /** The six `check_surge` calls against a fresh `alerts` list. */
  method DetectSurges(latest: Row, prev: Option<Row>) returns (alerts: seq<Alert>)
    requires RowValid(latest) && (prev.Some? ==> RowValid(prev.value))
    ensures alerts == Report(latest, prev, Rules)
  {
    RuleCalls(latest, prev);
    var log := new AlertLog();
    var currApp := Number(AppDownloads(latest));
    var prevApp := PrevAppDownloads(prev);
    log.CheckSurge("방송 PV", Get(latest, BroadcastPv, Number(0.0)), if prev.Some? then Get(prev.value, BroadcastPv, Null) else Null, 0.1);
    log.CheckSurge("뉴스 PV", Get(latest, NewsPv, Number(0.0)), if prev.Some? then Get(prev.value, NewsPv, Null) else Null, 0.1);
    log.CheckSurge("방송 앱 다운로드", currApp, prevApp, 0.15);
    log.CheckSurge("신규회원", Get(latest, NewMembers, Number(0.0)), if prev.Some? then Get(prev.value, NewMembers, Null) else Null, 0.2);
    log.CheckSurge("탈퇴회원", Get(latest, ChurnedMembers, Number(0.0)), if prev.Some? then Get(prev.value, ChurnedMembers, Null) else Null, 0.2);
    log.CheckSurge("누적전환회원", Get(latest, ConvertedMembers, Number(0.0)), if prev.Some? then Get(prev.value, ConvertedMembers, Null) else Null, 0.05);
    alerts := log.alerts;
    ReportSix(latest, prev, Rules);
    ConcatSix(ToSeq(RuleAlert(latest, prev, Rules[0])), ToSeq(RuleAlert(latest, prev, Rules[1])),
              ToSeq(RuleAlert(latest, prev, Rules[2])), ToSeq(RuleAlert(latest, prev, Rules[3])),
              ToSeq(RuleAlert(latest, prev, Rules[4])), ToSeq(RuleAlert(latest, prev, Rules[5])));
  }

  /** Each rule contributes at most one alert. */
  lemma {:induction false} ReportBounded(latest: Row, prev: Option<Row>, rules: seq<Rule>)
    requires RowValid(latest) && (prev.Some? ==> RowValid(prev.value))
    ensures |Report(latest, prev, rules)| <= |rules|
    decreases |rules|
  {
    if rules != [] {
      ReportBounded(latest, prev, rules[1..]);
    }
  }

  /** An alert is reported exactly when some rule raises it. */
  lemma {:induction false} ReportMembers(latest: Row, prev: Option<Row>, rules: seq<Rule>, a: Alert)
    requires RowValid(latest) && (prev.Some? ==> RowValid(prev.value))
    ensures a in Report(latest, prev, rules) <==> exists k :: 0 <= k < |rules| && RuleAlert(latest, prev, rules[k]) == Some(a)
    decreases |rules|
  {
    if rules != [] {
      ReportMembers(latest, prev, rules[1..], a);
      if exists k :: 0 <= k < |rules| && RuleAlert(latest, prev, rules[k]) == Some(a) {
        var k :| 0 <= k < |rules| && RuleAlert(latest, prev, rules[k]) == Some(a);
        if k > 0 {
          assert rules[1..][k - 1] == rules[k];
        }
      }
      if exists k :: 0 <= k < |rules[1..]| && RuleAlert(latest, prev, rules[1..][k]) == Some(a) {
        var k :| 0 <= k < |rules[1..]| && RuleAlert(latest, prev, rules[1..][k]) == Some(a);
        assert rules[k + 1] == rules[1..][k];
      }
    }
  }

  /** Without a previous row no rule fires. */
  lemma {:induction false} NoPreviousNoAlerts(latest: Row, rules: seq<Rule>)
    requires RowValid(latest)
    ensures Report(latest, None, rules) == []
    decreases |rules|
  {
    if rules != [] {
      NoPreviousNoAlerts(latest, rules[1..]);
    }
  }

  /** A previous row without the metric's column passes `None`, so that metric raises no alert. */
  lemma MissingColumnNoAlert(latest: Row, p: Row, rule: Rule)
    requires RowValid(latest) && RowValid(p)
    requires rule.measure.ColumnMeasure? && !Has(p, rule.measure.name)
    ensures RuleAlert(latest, Some(p), rule).None?
  {
  }

  /** `check_surge` fires only where `fmt_delta` shows a number, never where it shows "N/A". */
  lemma AlertHasDelta(metric: string, curr: Value, prev: Value, threshold: real)
    requires SurgeAlert(metric, curr, prev, threshold).Some?
    ensures FmtDelta(curr, prev) != NotAvailable
    ensures SurgeAlert(metric, curr, prev, threshold).value.change * 100.0 == DeltaPercent(curr, prev).value
  {
  }

  /**
   * The KPI cards read a missing previous column as 0 and the surge rules as
   * `None`; both show nothing for it, so an alert always comes with a KPI
   * delta for the same metric.
   */
  lemma AlertMatchesKpiDelta(latest: Row, p: Row, rule: Rule)
    requires RowValid(latest) && RowValid(p) && rule.measure.ColumnMeasure?
    requires RuleAlert(latest, Some(p), rule).Some?
    ensures var name := rule.measure.name;
            FmtDelta(Get(latest, name, Number(0.0)), Get(p, name, Number(0.0))) != NotAvailable
  {
    var name := rule.measure.name;
    assert Has(p, name);
    assert Get(p, name, Number(0.0)) == Get(p, name, Null);
  }

  /** The threshold is inclusive: 100 to 110 at 10% fires, 100 to 109 does not. */
  lemma ThresholdInclusiveExample()
    ensures SurgeAlert("방송 PV", Number(110.0), Number(100.0), 0.1) == Some(Alert("방송 PV", 0.1, Rise, 100.0, 110.0))
    ensures SurgeAlert("방송 PV", Number(109.0), Number(100.0), 0.1) == None
  {
    assert Change(Number(110.0), Number(100.0)) == Some(0.1);
    assert Change(Number(109.0), Number(100.0)) == Some(0.09);
  }

  /** What the section shows: the first-week notice, the warning with its alerts, or the all-clear. */
  datatype Outcome = FirstWeek | Warning | Stable

  function Verdict(prev: Option<Row>, alerts: seq<Alert>): Outcome {
    if prev.None? then FirstWeek
    else if alerts != [] then Warning
    else Stable
  }

  /**
   * The first-week notice hides no alert, a warning is shown exactly when a
   * previous row exists and some rule fires, and the all-clear means every
   * rule was checked and none fired.
   */
  lemma VerdictOfReport(latest: Row, prev: Option<Row>)
    requires RowValid(latest) && (prev.Some? ==> RowValid(prev.value))
    ensures var alerts := Report(latest, prev, Rules);
            && (Verdict(prev, alerts) == FirstWeek <==> prev.None?)
            && (Verdict(prev, alerts) == FirstWeek ==> alerts == [])
            && (Verdict(prev, alerts) == Warning <==> prev.Some? && exists k :: 0 <= k < |Rules| && RuleAlert(latest, prev, Rules[k]).Some?)
            && (Verdict(prev, alerts) == Stable <==> prev.Some? && forall k :: 0 <= k < |Rules| ==> RuleAlert(latest, prev, Rules[k]).None?)
  {
    var alerts := Report(latest, prev, Rules);
    if prev.None? {
      NoPreviousNoAlerts(latest, Rules);
    }
    if alerts != [] {
      ReportMembers(latest, prev, Rules, alerts[0]);
    }
    if exists k :: 0 <= k < |Rules| && RuleAlert(latest, prev, Rules[k]).Some? {
      var k :| 0 <= k < |Rules| && RuleAlert(latest, prev, Rules[k]).Some?;
      ReportMembers(latest, prev, Rules, RuleAlert(latest, prev, Rules[k]).value);
    }
  }
}
