/**
 * The evidence gathered for the analysis report: the KPI lines of the
 * selected week (value, percentage delta, absolute delta) and the last eight
 * weeks projected to whole numbers with `safe_int`.
 */
module Evidence {
  import opened Wrappers
  import opened Text
  import opened Numbers
  import opened Frame
  import opened Format
  import opened Delta
  import opened Metrics
  import opened Surge

  /** `safe_int(x)`: `int(float(x))`, truncating toward zero, and 0 when `float()` raises. */
  function SafeInt(v: Value): (n: int)
    ensures ToFloat(v).None? ==> n == 0
    ensures ToFloat(v).Some? && ToFloat(v).value >= 0.0 ==> n as real <= ToFloat(v).value < n as real + 1.0
    ensures ToFloat(v).Some? && ToFloat(v).value < 0.0 ==> n as real - 1.0 < ToFloat(v).value <= n as real
  {
    match ToFloat(v)
    case None => 0
    case Some(x) => Trunc(x)
  }

  /** `safe_int` treats a value and its negation alike: `safe_int(-x) == -safe_int(x)`. */
  lemma SafeIntOdd(x: real)
    ensures SafeInt(Number(-x)) == -SafeInt(Number(x))
  {
    TruncOdd(x);
  }

  /** `safe_int(-2.7)` is -2, not the -3 of floor division. */
  lemma SafeIntTowardZeroExample()
    ensures SafeInt(Number(-2.7)) == -2
  {
  }

  /** `safe_int("1,234")` is 0: `float()` rejects the thousands separator. */
  lemma SafeIntSeparatorExample()
    ensures SafeInt(Str("1,234")) == 0
  {
    var s := "1,234";
    assert NoEdgeSpace(s);
    NoEdgeTrim(s);
    assert LeadingDigits(s[1..]) == 0;
    assert LeadingDigits(s) == 1;
  }

  /** One week of `tail_rows`. */
  datatype Snapshot = Snapshot(
    week: string,
    broadcastPv: int,
    newsPv: int,
    broadcastUsers: int,
    appDownloads: int,
    totalMembers: int,
    convertedMembers: int,
    newMembers: int,
    churnedMembers: int)

  /**
   * The number a row stores under `name` (its first field so named): 0 when
   * the column is absent or holds text. This is `Get` with a 0 default,
   * written as its own recursion so that the snapshot proofs unfold one field
   * at a time instead of the index search `Get` uses;
   * `StoredNumberIsGet` shows the two agree.
   */
  function StoredNumber(r: Row, name: string): real
    decreases |r|
  {
    if r == [] then 0.0
    else if r[0].name == name then (if r[0].cell.Num? then r[0].cell.x else 0.0)
    else StoredNumber(r[1..], name)
  }

  /**
   * The text a row stores under `name`: "" when the column is absent or holds
   * a number. Like `StoredNumber`, a direct recursion that keeps the snapshot
   * proofs cheap; `StoredTextIsGet` shows it agrees with `Get`.
   */
  function StoredText(r: Row, name: string): string
    decreases |r|
  {
    if r == [] then ""
    else if r[0].name == name then (if r[0].cell.Text? then r[0].cell.s else "")
    else StoredText(r[1..], name)
  }

  /** The snapshot of one row: the week label as text, every metric as a whole number, a missing column as 0. */
  function SnapshotOf(r: Row): Snapshot {
    Snapshot(
      StoredText(r, WeekColumn),
      Trunc(StoredNumber(r, BroadcastPv)),
      Trunc(StoredNumber(r, NewsPv)),
      Trunc(StoredNumber(r, BroadcastUsers)),
      Trunc(StoredNumber(r, BroadcastAos) + StoredNumber(r, BroadcastIos)),
      Trunc(StoredNumber(r, TotalMembers)),
      Trunc(StoredNumber(r, ConvertedMembers)),
      Trunc(StoredNumber(r, NewMembers)),
      Trunc(StoredNumber(r, ChurnedMembers)))
  }

  /** Scanning for the first field called `name` finds the field `row.get` reads. */
  lemma {:induction false} StoredFieldIsGet(r: Row, name: string)
    ensures FieldIndex(r, name).Some? && r[FieldIndex(r, name).value].cell.Num? ==>
              StoredNumber(r, name) == r[FieldIndex(r, name).value].cell.x
    ensures FieldIndex(r, name).Some? && r[FieldIndex(r, name).value].cell.Text? ==>
              StoredText(r, name) == r[FieldIndex(r, name).value].cell.s
    ensures FieldIndex(r, name).None? ==> StoredNumber(r, name) == 0.0 && StoredText(r, name) == ""
    decreases |r|
  {
    if r != [] && r[0].name != name {
      StoredFieldIsGet(r[1..], name);
    }
  }

  /** On a NUMERIC column of a cleaned row the stored number is what `row.get(name, 0)` returns. */
  lemma StoredNumberIsGet(r: Row, name: string)
    requires RowValid(r) && !IsTextCol(name)
    ensures Number(StoredNumber(r, name)) == Get(r, name, Number(0.0))
  {
    StoredFieldIsGet(r, name);
  }

  /** On a TEXT column of a cleaned row the stored text is what `str(row.get(name, ""))` returns. */
  lemma StoredTextIsGet(r: Row, name: string)
    requires RowValid(r) && IsTextCol(name)
    ensures Str(StoredText(r, name)) == Get(r, name, Str(""))
  {
    StoredFieldIsGet(r, name);
  }

  /**
   * Every field is what `safe_int` makes of the row's value, and the week is
   * `str(r.get("주차", ""))`: on a cleaned row `safe_int` never falls back to
   * 0 for a present column.
   */
  lemma SnapshotFields(r: Row)
    requires RowValid(r)
    ensures var s := SnapshotOf(r);
            && Str(s.week) == Get(r, WeekColumn, Str(""))
            && s.broadcastPv == SafeInt(Get(r, BroadcastPv, Number(0.0)))
            && s.newsPv == SafeInt(Get(r, NewsPv, Number(0.0)))
            && s.broadcastUsers == SafeInt(Get(r, BroadcastUsers, Number(0.0)))
            && s.appDownloads == SafeInt(Number(AppDownloads(r)))
            && s.totalMembers == SafeInt(Get(r, TotalMembers, Number(0.0)))
            && s.convertedMembers == SafeInt(Get(r, ConvertedMembers, Number(0.0)))
            && s.newMembers == SafeInt(Get(r, NewMembers, Number(0.0)))
            && s.churnedMembers == SafeInt(Get(r, ChurnedMembers, Number(0.0)))
  {
    MetricColumnsNumeric();
    StoredNumberIsGet(r, BroadcastPv);
    StoredNumberIsGet(r, NewsPv);
    StoredNumberIsGet(r, BroadcastUsers);
    StoredNumberIsGet(r, BroadcastAos);
    StoredNumberIsGet(r, BroadcastIos);
    StoredNumberIsGet(r, TotalMembers);
    StoredNumberIsGet(r, ConvertedMembers);
    StoredNumberIsGet(r, NewMembers);
    StoredNumberIsGet(r, ChurnedMembers);
    StoredTextIsGet(r, WeekColumn);
  }

  /** The snapshot of the row at position `i`. */
  function SnapshotAt(t: Table, i: nat): Snapshot
    requires t.Valid() && i < t.height
  {
    SnapshotOf(RowAt(t, i))
  }

  /** How many weeks the report draws on. */
  const EvidenceWeeks: nat := 8

  /** The snapshot of a window row is the snapshot of the same week in the whole table. */
  lemma SnapshotOfWindow(t: Table, n: nat, i: nat)
    requires t.Valid() && i < Tail(t, n).height
    ensures SnapshotAt(Tail(t, n), i) == SnapshotAt(t, t.height - Tail(t, n).height + i)
  {
    assert RowAt(Tail(t, n), i) == RowAt(t, t.height - Tail(t, n).height + i);
  }

  /** `df.iterrows()`: the rows of a table, oldest first. */
  function Rows(w: Table): (rs: seq<Row>)
    requires w.Valid()
    ensures |rs| == w.height
    ensures forall i :: 0 <= i < w.height ==> rs[i] == RowAt(w, i)
  {
    seq(w.height, i requires 0 <= i < w.height && w.Valid() => RowAt(w, i))
  }

  /** The loop that builds `tail_rows`: one snapshot per row, in the rows' order. */
  method Snapshots(rs: seq<Row>) returns (rows: seq<Snapshot>)
    ensures |rows| == |rs|
    ensures forall i :: 0 <= i < |rs| ==> rows[i] == SnapshotOf(rs[i])
  {
    rows := [];
    for i := 0 to |rs|
      invariant |rows| == i
      invariant forall k :: 0 <= k < i ==> rows[k] == SnapshotOf(rs[k])
    {
      rows := rows + [SnapshotOf(rs[i])];
    }
  }

  /** `tail_rows` of `df.tail(8)`. */
  method EvidenceWindow(t: Table) returns (rows: seq<Snapshot>)
    requires t.Valid()
    ensures |rows| == Tail(t, EvidenceWeeks).height
    ensures forall i :: 0 <= i < |rows| ==> rows[i] == SnapshotAt(Tail(t, EvidenceWeeks), i)
  {
    var window := Tail(t, EvidenceWeeks);
    rows := Snapshots(Rows(window));
  }

  /**
   * The report's weeks are the last `min(8, len(df))` weeks of the table, in
   * order; the newest is always the table's last week, whatever week is
   * selected.
   */
  lemma EvidenceWeeksOfTable(t: Table, rows: seq<Snapshot>)
    requires t.Valid()
    requires |rows| == Tail(t, EvidenceWeeks).height
    requires forall i :: 0 <= i < |rows| ==> rows[i] == SnapshotAt(Tail(t, EvidenceWeeks), i)
    ensures |rows| == Min(EvidenceWeeks, t.height)
    ensures forall i :: 0 <= i < |rows| ==> rows[i] == SnapshotAt(t, t.height - |rows| + i)
    ensures t.height >= 1 ==> |rows| >= 1 && rows[|rows| - 1] == SnapshotAt(t, t.height - 1)
  {
    forall i | 0 <= i < |rows| ensures rows[i] == SnapshotAt(t, t.height - |rows| + i) {
      SnapshotOfWindow(t, EvidenceWeeks, i);
    }
  }

  /** One entry of the `metrics` dictionary: its key, the label shown and where its values come from. */
  datatype KpiItem = KpiItem(key: string, metric: string, measure: Measure)

  /** The dictionary's entries, in insertion order. */
  const KpiItems: seq<KpiItem> := [
    KpiItem("방송_PV", "방송 PV", ColumnMeasure(BroadcastPv)),
    KpiItem("뉴스_PV", "뉴스 PV", ColumnMeasure(NewsPv)),
    KpiItem("방송_사용자", "방송 UV", ColumnMeasure(BroadcastUsers)),
    KpiItem("앱다운로드", "앱 다운로드", AppDownloadsMeasure),
    KpiItem("총회원수", "총회원수", ColumnMeasure(TotalMembers)),
    KpiItem("누적전환회원", "누적전환회원", ColumnMeasure(ConvertedMembers)),
    KpiItem("신규회원", "신규회원", ColumnMeasure(NewMembers)),
    KpiItem("탈퇴회원", "탈퇴회원", ColumnMeasure(ChurnedMembers))
  ]

  /** Every KPI column is NUMERIC. */
  lemma KpiColumnsNumeric()
    ensures forall k :: 0 <= k < |KpiItems| && KpiItems[k].measure.ColumnMeasure? ==> !IsTextCol(KpiItems[k].measure.name)
  {
    MetricColumnsNumeric();
    forall k | 0 <= k < |KpiItems| && KpiItems[k].measure.ColumnMeasure?
      ensures !IsTextCol(KpiItems[k].measure.name)
    {
      if k == 0 {
        assert KpiItems[k].measure.name == BroadcastPv;
      } else if k == 1 {
        assert KpiItems[k].measure.name == NewsPv;
      } else if k == 2 {
        assert KpiItems[k].measure.name == BroadcastUsers;
      } else if k == 4 {
        assert KpiItems[k].measure.name == TotalMembers;
      } else if k == 5 {
        assert KpiItems[k].measure.name == ConvertedMembers;
      } else if k == 6 {
        assert KpiItems[k].measure.name == NewMembers;
      } else {
        assert KpiItems[k].measure.name == ChurnedMembers;
      }
    }
  }

  /** The dictionary keys are distinct, so no entry overwrites another. */
  lemma KpiKeysDistinct()
    ensures forall k, m :: 0 <= k < m < |KpiItems| ==> KpiItems[k].key != KpiItems[m].key
  {
  }

  /** This week's value of a KPI: `latest.get(name, 0)`, or `curr_app`. */
  function KpiCurrent(latest: Row, m: Measure): (x: real)
    requires RowValid(latest) && (m.ColumnMeasure? ==> !IsTextCol(m.name))
    ensures Number(x) == CurrentValue(latest, m)
  {
    match m
    case ColumnMeasure(name) => NumberOr(latest, name, 0.0)
    case AppDownloadsMeasure => AppDownloads(latest)
  }

  /**
   * Last week's value of a KPI: `prev.get(name, 0)` (a missing column reads
   * as 0 here, unlike the surge rules' `None`), or `prev_app`; `None`
   * without a previous row.
   */
  function KpiPrevious(prev: Option<Row>, m: Measure): (v: Value)
    requires prev.Some? ==> RowValid(prev.value)
    requires m.ColumnMeasure? ==> !IsTextCol(m.name)
    ensures v.Null? <==> prev.None?
    ensures prev.Some? ==> v.Number?
    ensures prev.Some? && m.ColumnMeasure? && !Has(prev.value, m.name) ==> v == Number(0.0)
    ensures prev.Some? && m.ColumnMeasure? && Has(prev.value, m.name) ==> v == Get(prev.value, m.name, Null)
  {
    match prev
    case None => Null
    case Some(p) =>
      match m
      case ColumnMeasure(name) => Number(NumberOr(p, name, 0.0))
      case AppDownloadsMeasure => PrevAppDownloads(prev)
  }

  /** One line of the KPI block of the report. */
  datatype KpiLine = KpiLine(metric: string, current: real, previous: Value)

  /** `metrics`, in insertion order. */
  function KpiLines(latest: Row, prev: Option<Row>): (lines: seq<KpiLine>)
    requires RowValid(latest) && (prev.Some? ==> RowValid(prev.value))
    ensures |lines| == |KpiItems|
    ensures forall k :: 0 <= k < |KpiItems| ==> lines[k].metric == KpiItems[k].metric
    ensures forall k :: 0 <= k < |KpiItems| ==> Number(lines[k].current) == CurrentValue(latest, KpiItems[k].measure)
    ensures forall k :: 0 <= k < |KpiItems| ==> (lines[k].previous.Null? <==> prev.None?) && (prev.Some? ==> lines[k].previous.Number?)
    ensures forall k :: 0 <= k < |KpiItems| && prev.Some? && KpiItems[k].measure.ColumnMeasure? && !Has(prev.value, KpiItems[k].measure.name) ==>
              lines[k].previous == Number(0.0)
  {
    KpiColumnsNumeric();
    seq(|KpiItems|, k requires 0 <= k < |KpiItems| =>
      KpiLine(KpiItems[k].metric, KpiCurrent(latest, KpiItems[k].measure), KpiPrevious(prev, KpiItems[k].measure)))
  }

  /**
   * `f"- {label}: {curr:,.0f} (전주대비 {fmt_delta(curr, p)} / {fmt_abs_delta(curr, p)})"`:
   * the label, the current value, the percentage change right after
   * ` (전주대비 `, and the absolute change between ` / ` and the closing `)`.
   */
  function LineText(l: KpiLine): (s: string)
    ensures var lead, shown := "- " + l.metric + ": ", Grouped0(l.current, false);
            var pct, tail := FmtDelta(Number(l.current), l.previous), " / " + FmtAbsDelta(Number(l.current), l.previous) + ")";
            InFiveParts(s, lead, shown, " (전주대비 ", pct, tail)
  {
    var lead, shown := "- " + l.metric + ": ", Grouped0(l.current, false);
    var pct, tail := FmtDelta(Number(l.current), l.previous), " / " + FmtAbsDelta(Number(l.current), l.previous) + ")";
    FiveParts(lead, shown, " (전주대비 ", pct, tail);
    lead + shown + " (전주대비 " + pct + tail
  }

  /**
   * Each number on a KPI line reads back: the value to within one half, and,
   * when there is a previous week to compare with, the percentage to within
   * half a tenth of the change and the absolute change to within one half.
   */
  lemma LineTextReadsBack(l: KpiLine)
    ensures Within(ParseDecimal(RemoveAll(Grouped0(l.current, false), ',')), l.current, 0.5)
    ensures DeltaPercent(Number(l.current), l.previous).Some? ==>
              var pct := FmtDelta(Number(l.current), l.previous);
              Within(ParseDecimal(pct[..|pct| - 1]), DeltaPercent(Number(l.current), l.previous).value, 0.05)
    ensures l.previous.Number? ==>
              Within(ParseDecimal(RemoveAll(FmtAbsDelta(Number(l.current), l.previous), ',')), l.current - l.previous.x, 0.5)
  {
    Grouped0UnsignedRoundTrip(l.current);
    if DeltaPercent(Number(l.current), l.previous).Some? {
      FmtDeltaRoundTrip(Number(l.current), l.previous);
    }
    if l.previous.Number? {
      FmtAbsDeltaRoundTrip(Number(l.current), l.previous);
    }
  }

  lemma NoPreviousNotAvailable(x: real)
    ensures FmtDelta(Number(x), Null) == NotAvailable && FmtAbsDelta(Number(x), Null) == NotAvailable
  {
  }

  lemma PreviousNumberShown(x: real, y: real)
    ensures FmtAbsDelta(Number(x), Number(y)) != NotAvailable
  {
  }

  /** In the first week a KPI line is its label and value followed by `(전주대비 N/A / N/A)`. */
  lemma FirstWeekLineText(latest: Row, k: nat)
    requires RowValid(latest) && k < |KpiItems|
    ensures var l := KpiLines(latest, None)[k];
            LineText(l) == "- " + l.metric + ": " + Grouped0(l.current, false) + " (전주대비 N/A / N/A)"
  {
    var l := KpiLines(latest, None)[k];
    NoPreviousNotAvailable(l.current);
  }

  /** For the first week both deltas of every KPI line are "N/A". */
  lemma FirstWeekLinesNotAvailable(latest: Row)
    requires RowValid(latest)
    ensures forall l :: l in KpiLines(latest, None) ==>
              FmtDelta(Number(l.current), l.previous) == NotAvailable && FmtAbsDelta(Number(l.current), l.previous) == NotAvailable
  {
    var lines := KpiLines(latest, None);
    forall l | l in lines
      ensures FmtDelta(Number(l.current), l.previous) == NotAvailable && FmtAbsDelta(Number(l.current), l.previous) == NotAvailable
    {
      var k :| 0 <= k < |lines| && lines[k] == l;
      assert l.previous == Null;
      NoPreviousNotAvailable(l.current);
    }
  }

  /** With a previous week, the absolute delta of every KPI line is a number, never "N/A". */
  lemma AbsoluteDeltaAlwaysShown(latest: Row, p: Row)
    requires RowValid(latest) && RowValid(p)
    ensures forall l :: l in KpiLines(latest, Some(p)) ==> FmtAbsDelta(Number(l.current), l.previous) != NotAvailable
  {
    var lines := KpiLines(latest, Some(p));
    forall l | l in lines ensures FmtAbsDelta(Number(l.current), l.previous) != NotAvailable {
      var k :| 0 <= k < |lines| && lines[k] == l;
      assert l.previous.Number?;
      PreviousNumberShown(l.current, l.previous.x);
    }
  }

  /**
   * The selected week and the week before it are two rows of one table, so a
   * KPI column missing from one is missing from both: the line shows a value
   * of 0, "N/A" for the percentage and "+0" for the absolute change.
   */
  lemma MissingPreviousColumnLine(t: Table, i: nat, k: nat)
    requires t.Valid() && 1 <= i < t.height && k < |KpiItems|
    requires KpiItems[k].measure.ColumnMeasure? && KpiItems[k].measure.name !in ColumnNames(t)
    ensures RowValid(RowAt(t, i)) && RowValid(RowAt(t, i - 1))
    ensures var l := KpiLines(RowAt(t, i), Some(RowAt(t, i - 1)))[k];
            && l.current == 0.0 && l.previous == Number(0.0)
            && FmtDelta(Number(l.current), l.previous) == NotAvailable
            && FmtAbsDelta(Number(l.current), l.previous) == "+0"
  {
    var name := KpiItems[k].measure.name;
    RowAtValid(t, i);
    RowAtValid(t, i - 1);
    HasColumnInRow(t, i, name);
    HasColumnInRow(t, i - 1, name);
    var l := KpiLines(RowAt(t, i), Some(RowAt(t, i - 1)))[k];
    assert Number(l.current) == Get(RowAt(t, i), name, Number(0.0));
    ZeroPreviousContrast(0.0);
    assert RoundHalfEven(0.0) == 0;
    assert ShowGrouped(0) == ShowNat(0) == "0";
  }
}
