/**
 * Derived metrics: the composite app-download counts (two rules, one for the
 * KPI cards and one for the chart columns), the first news-UV column that
 * exists, and the trailing windows of weeks the charts show.
 */
module Metrics {
  import opened Wrappers
  import opened Text
  import opened Frame
  import opened Numbers
  import opened Weeks

  const BroadcastPv: string := "방송_PV"
  const NewsPv: string := "뉴스_PV"
  const BroadcastUsers: string := "방송_사용자"
  const BroadcastAos: string := "방송_AOS 다운로드"
  const BroadcastIos: string := "방송_iOS 다운로드"
  const NewsAos: string := "뉴스_AOS 다운로드"
  const NewsIos: string := "뉴스_iOS 다운로드"
  const TotalMembers: string := "총회원수"
  const ConvertedMembers: string := "누적전환회원"
  const NewMembers: string := "신규회원"
  const ChurnedMembers: string := "탈퇴회원"

  /** A name that is not one of the identifier columns and does not end in `위` is NUMERIC. */
  lemma NumericByLastChar(name: string)
    requires name != "주차" && name != "날짜" && name != "Date"
    requires |name| >= 1 && name[|name| - 1] != '위'
    ensures !IsTextCol(name)
  {
    if |name| >= 2 {
      assert name[|name| - 2..][1] == name[|name| - 1];
    }
  }

  /** Every metric column the dashboard reads by name is a NUMERIC column. */
  lemma MetricColumnsNumeric()
    ensures !IsTextCol(BroadcastPv) && !IsTextCol(NewsPv) && !IsTextCol(BroadcastUsers)
    ensures !IsTextCol(BroadcastAos) && !IsTextCol(BroadcastIos)
    ensures !IsTextCol(NewsAos) && !IsTextCol(NewsIos)
    ensures !IsTextCol(TotalMembers) && !IsTextCol(ConvertedMembers)
    ensures !IsTextCol(NewMembers) && !IsTextCol(ChurnedMembers)
  {
    NumericByLastChar(BroadcastPv);
    NumericByLastChar(NewsPv);
    NumericByLastChar(BroadcastUsers);
    NumericByLastChar(BroadcastAos);
    NumericByLastChar(BroadcastIos);
    NumericByLastChar(NewsAos);
    NumericByLastChar(NewsIos);
    NumericByLastChar(TotalMembers);
    NumericByLastChar(ConvertedMembers);
    NumericByLastChar(NewMembers);
    NumericByLastChar(ChurnedMembers);
  }

  /**
   * The KPI composite `row.get(a, 0) + row.get(b, 0)`: a missing column
   * counts as 0, so one present side alone still gives its own count.
   */
  function Composite(r: Row, a: string, b: string): (x: real)
    requires RowValid(r) && !IsTextCol(a) && !IsTextCol(b)
    ensures !Has(r, a) ==> x == NumberOr(r, b, 0.0)
    ensures !Has(r, b) ==> x == NumberOr(r, a, 0.0)
    ensures Get(r, a, Number(0.0)).x + Get(r, b, Number(0.0)).x == x
  {
    NumberOr(r, a, 0.0) + NumberOr(r, b, 0.0)
  }

  /** `curr_app`: broadcast app downloads of a row (the KPI rule). */
  function AppDownloads(r: Row): (x: real)
    requires RowValid(r)
  {
    MetricColumnsNumeric();
    Composite(r, BroadcastAos, BroadcastIos)
  }

  /** `prev_app`: the composite of the previous row, `None` when there is no previous row. */
  function PrevAppDownloads(prev: Option<Row>): (v: Value)
    requires prev.Some? ==> RowValid(prev.value)
    ensures v.Null? <==> prev.None?
    ensures prev.Some? ==> v == Number(AppDownloads(prev.value))
  {
    match prev
    case None => Null
    case Some(p) => Number(AppDownloads(p))
  }

  /**
   * The derived chart column `df2[name] = df2[a] + df2[b]`, or the constant 0
   * when either source column is missing.
   */
  function DerivedColumn(t: Table, a: string, b: string): (cells: seq<real>)
    requires t.Valid() && !IsTextCol(a) && !IsTextCol(b)
    ensures |cells| == t.height
    ensures (a !in ColumnNames(t) || b !in ColumnNames(t)) ==> forall i :: 0 <= i < t.height ==> cells[i] == 0.0
  {
    match (ColumnIndex(t, a), ColumnIndex(t, b))
    case (Some(ja), Some(jb)) =>
      assert ColumnValid(t.columns[ja], t.height) && ColumnValid(t.columns[jb], t.height);
      seq(t.height, i requires 0 <= i < t.height => t.columns[ja].cells[i].x + t.columns[jb].cells[i].x)
    case _ => seq(t.height, i => 0.0)
  }

  /** `방송_앱다운로드` of the chart window. */
  function BroadcastAppColumn(t: Table): (cells: seq<real>)
    requires t.Valid()
    ensures |cells| == t.height
  {
    MetricColumnsNumeric();
    DerivedColumn(t, BroadcastAos, BroadcastIos)
  }

  /** `뉴스_앱다운로드` of the chart window. */
  function NewsAppColumn(t: Table): (cells: seq<real>)
    requires t.Valid()
    ensures |cells| == t.height
  {
    MetricColumnsNumeric();
    DerivedColumn(t, NewsAos, NewsIos)
  }

  /**
   * The two composite rules agree on a row exactly when both source columns
   * exist, or neither does, or the one that exists holds 0 in that row.
   */
  lemma DerivedAgreesWithComposite(t: Table, i: nat, a: string, b: string)
    requires t.Valid() && i < t.height && !IsTextCol(a) && !IsTextCol(b)
    ensures RowValid(RowAt(t, i))
    ensures var r := RowAt(t, i);
            DerivedColumn(t, a, b)[i] == Composite(r, a, b)
            <==> (Has(r, a) <==> Has(r, b)) || NumberOr(r, a, 0.0) + NumberOr(r, b, 0.0) == 0.0
  {
    RowAtValid(t, i);
    FieldIndexRowAt(t, i, a);
    FieldIndexRowAt(t, i, b);
    var r := RowAt(t, i);
    match (ColumnIndex(t, a), ColumnIndex(t, b))
    case (Some(ja), Some(jb)) =>
      assert r[ja].cell == t.columns[ja].cells[i];
      assert r[jb].cell == t.columns[jb].cells[i];
    case (None, None) =>
    case (Some(ja), None) =>
    case (None, Some(jb)) =>
  }

  /**
   * Row `i` of a derived column: the two source values of that row added up
   * when both columns exist, 0 otherwise.
   */
  lemma DerivedColumnAt(t: Table, i: nat, a: string, b: string)
    requires t.Valid() && i < t.height && !IsTextCol(a) && !IsTextCol(b)
    ensures RowValid(RowAt(t, i))
    ensures var r := RowAt(t, i);
            DerivedColumn(t, a, b)[i]
              == if a in ColumnNames(t) && b in ColumnNames(t) then NumberOr(r, a, 0.0) + NumberOr(r, b, 0.0) else 0.0
  {
    RowAtValid(t, i);
    FieldIndexRowAt(t, i, a);
    FieldIndexRowAt(t, i, b);
    var r := RowAt(t, i);
    match (ColumnIndex(t, a), ColumnIndex(t, b))
    case (Some(ja), Some(jb)) =>
      assert r[ja].cell == t.columns[ja].cells[i];
      assert r[jb].cell == t.columns[jb].cells[i];
    case _ =>
  }

  /** `방송_앱다운로드` in row `i`: AOS plus iOS downloads when both columns exist, 0 otherwise. */
  lemma BroadcastAppColumnAt(t: Table, i: nat)
    requires t.Valid() && i < t.height
    ensures RowValid(RowAt(t, i)) && !IsTextCol(BroadcastAos) && !IsTextCol(BroadcastIos)
    ensures var r := RowAt(t, i);
            BroadcastAppColumn(t)[i]
              == if BroadcastAos in ColumnNames(t) && BroadcastIos in ColumnNames(t)
                 then NumberOr(r, BroadcastAos, 0.0) + NumberOr(r, BroadcastIos, 0.0) else 0.0
  {
    MetricColumnsNumeric();
    DerivedColumnAt(t, i, BroadcastAos, BroadcastIos);
  }

  /** `뉴스_앱다운로드` in row `i`: AOS plus iOS downloads when both columns exist, 0 otherwise. */
  lemma NewsAppColumnAt(t: Table, i: nat)
    requires t.Valid() && i < t.height
    ensures RowValid(RowAt(t, i)) && !IsTextCol(NewsAos) && !IsTextCol(NewsIos)
    ensures var r := RowAt(t, i);
            NewsAppColumn(t)[i]
              == if NewsAos in ColumnNames(t) && NewsIos in ColumnNames(t)
                 then NumberOr(r, NewsAos, 0.0) + NumberOr(r, NewsIos, 0.0) else 0.0
  {
    MetricColumnsNumeric();
    DerivedColumnAt(t, i, NewsAos, NewsIos);
  }

  /** The news-UV column names the dashboard tries, in order. */
  const NewsUvCandidates: seq<string> := ["뉴스_사용자", "뉴스_UV", "뉴스UV", "뉴스_사용자수"]

  /** `next((c for c in candidates if c in columns), None)`, as a position in `candidates`. */
  function FirstPresent(candidates: seq<string>, columns: seq<string>): (k: Option<nat>)
    ensures k.None? <==> forall m :: 0 <= m < |candidates| ==> candidates[m] !in columns
    ensures k.Some? ==> k.value < |candidates| && candidates[k.value] in columns
    ensures k.Some? ==> forall m :: 0 <= m < k.value ==> candidates[m] !in columns
    decreases |candidates|
  {
    if candidates == [] then None
    else if candidates[0] in columns then Some(0)
    else
      match FirstPresent(candidates[1..], columns)
      case None => None
      case Some(k) => Some(k + 1)
  }

  /** `news_uv_col`: the first news-UV candidate that is a column of the table. */
  function NewsUvColumn(columns: seq<string>): (c: Option<string>)
    ensures c.None? <==> forall x :: x in NewsUvCandidates ==> x !in columns
    ensures c.Some? ==> c.value in NewsUvCandidates && c.value in columns
  {
    match FirstPresent(NewsUvCandidates, columns)
    case None => None
    case Some(k) => Some(NewsUvCandidates[k])
  }

  lemma NewsUvCandidatesNumeric()
    ensures forall x :: x in NewsUvCandidates ==> !IsTextCol(x)
  {
    NumericByLastChar(NewsUvCandidates[0]);
    NumericByLastChar(NewsUvCandidates[1]);
    NumericByLastChar(NewsUvCandidates[2]);
    NumericByLastChar(NewsUvCandidates[3]);
  }

  /** When `뉴스_사용자` exists it wins, whatever other candidates exist too. */
  lemma NewsUvPrefersFirst(columns: seq<string>)
    requires "뉴스_사용자" in columns
    ensures NewsUvColumn(columns) == Some("뉴스_사용자")
  {
  }

  /** `news_uv_val`: the current row's news UV, 0 when no candidate column exists. */
  function NewsUvCurrent(r: Row, columns: seq<string>): (x: real)
    requires RowValid(r)
    ensures NewsUvColumn(columns).None? ==> x == 0.0
    ensures NewsUvColumn(columns).Some? ==> Get(r, NewsUvColumn(columns).value, Number(0.0)) == Number(x)
  {
    NewsUvCandidatesNumeric();
    match NewsUvColumn(columns)
    case None => 0.0
    case Some(c) => NumberOr(r, c, 0.0)
  }

  /** `prev_news_uv_val`: `None` when there is no previous row or no candidate column. */
  function NewsUvPrevious(prev: Option<Row>, columns: seq<string>): (v: Value)
    requires prev.Some? ==> RowValid(prev.value)
    ensures v.Null? <==> prev.None? || NewsUvColumn(columns).None?
    ensures v.Number? ==> v == Number(NewsUvCurrent(prev.value, columns))
  {
    if prev.Some? && NewsUvColumn(columns).Some? then Number(NewsUvCurrent(prev.value, columns))
    else Null
  }

  /** The period choices of the chart sections and the number of weeks each shows. */
  datatype Period = LastYear | LastHalfYear | LastQuarter

  function WeekCount(p: Period): (n: nat)
    ensures n == 13 || n == 26 || n == 52
  {
    match p
    case LastYear => 52
    case LastHalfYear => 26
    case LastQuarter => 13
  }

  function Min(a: nat, b: nat): nat {
    if a <= b then a else b
  }

  /** `df.tail(n)`: the last `min(n, height)` rows, in their original order, with every column kept. */
  function Tail(t: Table, n: nat): (w: Table)
    requires t.Valid()
    ensures w.Valid()
    ensures w.height == Min(n, t.height)
    ensures ColumnNames(w) == ColumnNames(t)
    ensures forall i :: 0 <= i < w.height ==> RowAt(w, i) == RowAt(t, t.height - w.height + i)
  {
    var h := Min(n, t.height);
    var start := t.height - h;
    var cols := seq(|t.columns|, j requires 0 <= j < |t.columns| =>
                  Column(t.columns[j].name, t.columns[j].cells[start..]));
    var w := Table(h, cols);
    assert forall j :: 0 <= j < |t.columns| ==> ColumnValid(t.columns[j], t.height);
    assert ColumnNames(w) == ColumnNames(t);
    w
  }

  /** The window of a period: its last row is the table's last row, and it never exceeds the table. */
  lemma {:induction false} TailEndsAtLatest(t: Table, p: Period)
    requires t.Valid() && t.height >= 1
    ensures Tail(t, WeekCount(p)).height >= 1
    ensures RowAt(Tail(t, WeekCount(p)), Tail(t, WeekCount(p)).height - 1) == RowAt(t, t.height - 1)
  {
  }

  /** Windows nest: the shorter period's rows are the last rows of the longer period's window. */
  lemma {:induction false} TailOfTail(t: Table, m: nat, n: nat)
    requires t.Valid() && m <= n
    ensures Tail(Tail(t, n), m) == Tail(t, m)
  {
    var w := Tail(t, n);
    var a, b := Tail(w, m), Tail(t, m);
    assert a.height == b.height;
    forall j | 0 <= j < |t.columns| ensures a.columns[j] == b.columns[j] {
      var start := t.height - Min(n, t.height);
      assert w.columns[j].cells == t.columns[j].cells[start..];
    }
  }
}
