/**
 * The news acquisition panel: the row of the chart window that the panel
 * reads, the per-source users and sessions (`to_num` of each source's
 * columns), the two totals with their fallback to the sum of the sources, and
 * each source's share of users in percent.
 */
module Acquisition {
  import opened Wrappers
  import opened Text
  import opened Numbers
  import opened Frame
  import opened Weeks
  import opened Metrics
  import opened Format
  import opened Normalize

  /** The acquisition sources, in the order the panel lists them. */
  const Sources: seq<string> := ["다이렉트", "네이버", "다음", "구글", "기타"]

  function UsersColumn(source: string): string {
    "뉴스_유입_" + source + "_사용자"
  }

  function SessionsColumn(source: string): string {
    "뉴스_유입_" + source + "_세션"
  }

  const TotalUsersColumn: string := "뉴스_유입_전체_사용자"
  const TotalSessionsColumn: string := "뉴스_유입_전체_세션"

  /**
   * `to_num(x)`: `float(str(x).replace(",", "").strip())`, 0 when that raises.
   * `str(None)` is "None", which does not parse; `str` of a number is read
   * back as that number.
   */
  function ToNum(v: Value): (x: real)
    ensures v.Null? ==> x == 0.0
    ensures v.Number? ==> x == v.x
    ensures v.Str? ==> x == ParseDecimal(RemoveAll(v.s, ',')).GetOr(0.0)
  {
    match v
    case Null => 0.0
    case Number(y) => y
    case Str(s) =>
      ParseTrimFirst(RemoveAll(s, ','));
      ParseDecimal(Trim(RemoveAll(s, ','))).GetOr(0.0)
  }

  /** Without thousands separators, `to_num` is `float()` with 0 for a failure. */
  lemma ToNumIsFloat(v: Value)
    requires v.Str? ==> ',' !in v.s
    ensures ToNum(v) == ToFloat(v).GetOr(0.0)
  {
    if v.Str? {
      RemoveAllAbsent(v.s, ',');
    }
  }

  /** A count written with thousands separators reads back as that count. */
  lemma ToNumGrouped(n: nat)
    ensures ToNum(Str(ShowGrouped(n))) == n as real
  {
    UngroupShowGrouped(n);
    ParseShowNat(n);
  }

  /**
   * `latest_row`: among the rows of the window whose `주차` equals the
   * selection, the LAST one; the window's last row when none matches or the
   * window has no `주차` column.
   */
  function AcquisitionRowIndex(w: Table, selected: string): (i: nat)
    requires w.Valid() && w.height >= 1
    ensures i < w.height
    ensures WeekLabels(w).Some? && selected in WeekLabels(w).value ==>
              WeekLabels(w).value[i] == selected && selected !in WeekLabels(w).value[i + 1..]
    ensures WeekLabels(w).None? || selected !in WeekLabels(w).value ==> i == w.height - 1
  {
    match WeekLabels(w)
    case None => w.height - 1
    case Some(labels) =>
      match LastIndexOf(labels, selected)
      case Some(k) => k
      case None => w.height - 1
  }

  /** The window's week labels are the table's last labels. */
  lemma TailWeekLabels(t: Table, n: nat)
    requires t.Valid()
    ensures var w := Tail(t, n);
            WeekLabels(w).Some? <==> WeekLabels(t).Some?
    ensures var w := Tail(t, n);
            WeekLabels(w).Some? ==> WeekLabels(w).value == WeekLabels(t).value[t.height - w.height..]
  {
    var w := Tail(t, n);
    var start := t.height - w.height;
    match ColumnIndex(t, WeekColumn)
    case None =>
    case Some(j) =>
      assert ColumnIndex(w, WeekColumn) == Some(j);
      var a, b := WeekLabels(w).value, WeekLabels(t).value[start..];
      assert |a| == |b|;
      forall i | 0 <= i < w.height ensures a[i] == b[i] {
        var cw, ct := w.columns[j], t.columns[j];
        assert RowAt(w, i)[j] == Field(cw.name, cw.cells[i]);
        assert RowAt(t, start + i)[j] == Field(ct.name, ct.cells[start + i]);
        assert a[i] == cw.cells[i].s;
        assert b[i] == ct.cells[start + i].s;
      }
  }

  /** Week labels are pairwise distinct. */
  predicate Distinct(s: seq<string>) {
    forall i, k :: 0 <= i < k < |s| ==> s[i] != s[k]
  }

  /**
   * With distinct week labels the panel reads the KPI row whenever that row
   * lies inside the window; a selected week older than the window makes the
   * panel read the window's last (the newest) week instead.
   */
  lemma AcquisitionRowVersusResolve(t: Table, n: nat, selected: string)
    requires t.Valid() && t.height >= 1 && n >= 1
    requires WeekLabels(t).Some? && Distinct(WeekLabels(t).value)
    ensures var w := Tail(t, n);
            var start := t.height - w.height;
            var c := Resolve(WeekLabels(t).value, selected).current;
            w.height >= 1 &&
            (c >= start ==> start + AcquisitionRowIndex(w, selected) == c) &&
            (c < start ==> AcquisitionRowIndex(w, selected) == w.height - 1)
  {
    var labels := WeekLabels(t).value;
    var w := Tail(t, n);
    var start := t.height - w.height;
    TailWeekLabels(t, n);
    var window := WeekLabels(w).value;
    assert window == labels[start..];
    var c := Resolve(labels, selected).current;
    var i := AcquisitionRowIndex(w, selected);
    assert forall k :: 0 <= k < |window| ==> window[k] == labels[start + k];
    if selected in labels {
      assert labels[c] == selected;
      if c >= start {
        assert window[c - start] == selected;
        assert labels[start + i] == labels[c];
      } else {
        assert selected !in window;
      }
    } else {
      assert selected !in window;
    }
  }

  /** One bar of the users chart: `{"유입소스", "사용자", "세션"}`. */
  datatype SourceRow = SourceRow(source: string, users: real, sessions: real)

  /** The users and sessions of one source; a missing column counts as 0. */
  function SourceRowOf(r: Row, source: string): (row: SourceRow)
    requires RowValid(r)
    ensures row.source == source
    ensures !Has(r, UsersColumn(source)) ==> row.users == 0.0
    ensures !Has(r, SessionsColumn(source)) ==> row.sessions == 0.0
    ensures source in Sources && Has(r, UsersColumn(source)) ==> Get(r, UsersColumn(source), Null) == Number(row.users)
    ensures source in Sources && Has(r, SessionsColumn(source)) ==> Get(r, SessionsColumn(source), Null) == Number(row.sessions)
  {
    SourceColumnsNumeric();
    SourceRow(source,
              ToNum(Get(r, UsersColumn(source), Number(0.0))),
              ToNum(Get(r, SessionsColumn(source), Number(0.0))))
  }

  /** Every per-source column is NUMERIC, so the cleaned row holds a number there. */
  lemma SourceColumnsNumeric()
    ensures forall s :: s in Sources ==> !IsTextCol(UsersColumn(s)) && !IsTextCol(SessionsColumn(s))
  {
    forall s | s in Sources ensures !IsTextCol(UsersColumn(s)) && !IsTextCol(SessionsColumn(s)) {
      var u, e := UsersColumn(s), SessionsColumn(s);
      assert u[|u| - 1] == '자' && e[|e| - 1] == '션';
      assert |u| > 3 && |e| > 3;
      NumericByLastChar(u);
      NumericByLastChar(e);
    }
  }

  /** The loop that builds `rows`: one entry per source, in the order of `Sources`. */
  method AcquisitionRows(r: Row) returns (rows: seq<SourceRow>)
    requires RowValid(r)
    ensures |rows| == |Sources|
    ensures forall k :: 0 <= k < |Sources| ==> rows[k] == SourceRowOf(r, Sources[k])
  {
    rows := [];
    var k := 0;
    while k < |Sources|
      invariant 0 <= k <= |Sources|
      invariant |rows| == k
      invariant forall m :: 0 <= m < k ==> rows[m] == SourceRowOf(r, Sources[m])
    {
      rows := rows + [SourceRowOf(r, Sources[k])];
      k := k + 1;
    }
  }

  /** `Series.sum()`. */
  function Sum(xs: seq<real>): real
    decreases |xs|
  {
    if xs == [] then 0.0 else xs[0] + Sum(xs[1..])
  }

  function Users(rows: seq<SourceRow>): (xs: seq<real>)
    ensures |xs| == |rows| && forall k :: 0 <= k < |rows| ==> xs[k] == rows[k].users
  {
    seq(|rows|, k requires 0 <= k < |rows| => rows[k].users)
  }

  function Sessions(rows: seq<SourceRow>): (xs: seq<real>)
    ensures |xs| == |rows| && forall k :: 0 <= k < |rows| ==> xs[k] == rows[k].sessions
  {
    seq(|rows|, k requires 0 <= k < |rows| => rows[k].sessions)
  }

  /**
   * `to_num(raw) if raw not in [None, ""] else fallback`: the total column's
   * own value unless it is absent or the empty string.
   */
  function Total(raw: Value, fallback: real): (x: real)
    ensures raw.Null? || raw == Str("") ==> x == fallback
    ensures raw.Number? ==> x == raw.x
  {
    if raw.Null? || raw == Str("") then fallback else ToNum(raw)
  }

  /** `total_users`: the total column when the row has it, the sum of the sources otherwise. */
  function TotalUsers(r: Row, rows: seq<SourceRow>): real {
    Total(Get(r, TotalUsersColumn, Null), Sum(Users(rows)))
  }

  /** `total_sessions`, by the same rule. */
  function TotalSessions(r: Row, rows: seq<SourceRow>): real {
    Total(Get(r, TotalSessionsColumn, Null), Sum(Sessions(rows)))
  }

  lemma TotalColumnsNumeric()
    ensures !IsTextCol(TotalUsersColumn) && !IsTextCol(TotalSessionsColumn)
  {
    NumericByLastChar(TotalUsersColumn);
    NumericByLastChar(TotalSessionsColumn);
  }

  /**
   * On a cleaned row the total is the total column's number when the column
   * exists and the sum of the sources exactly when it does not.
   */
  lemma TotalsOnCleanRow(r: Row, rows: seq<SourceRow>)
    requires RowValid(r)
    ensures Has(r, TotalUsersColumn) ==> Number(TotalUsers(r, rows)) == Get(r, TotalUsersColumn, Null)
    ensures !Has(r, TotalUsersColumn) ==> TotalUsers(r, rows) == Sum(Users(rows))
    ensures Has(r, TotalSessionsColumn) ==> Number(TotalSessions(r, rows)) == Get(r, TotalSessionsColumn, Null)
    ensures !Has(r, TotalSessionsColumn) ==> TotalSessions(r, rows) == Sum(Sessions(rows))
  {
    TotalColumnsNumeric();
    var u := NumberOrNull(r, TotalUsersColumn);
    var e := NumberOrNull(r, TotalSessionsColumn);
  }

  /**
   * A total cell left blank in the sheet reaches the cleaning as NaN, which
   * `astype(str)` turns into "nan"; it is cleaned to 0 before the panel sees
   * it (as an empty text would be), so the fallback to the sum of the sources
   * never applies: the panel shows 0.
   */
  lemma BlankTotalShownAsZero(sum: real)
    ensures Total(CellValue(CleanCell(TotalUsersColumn, "nan")), sum) == 0.0
    ensures Total(CellValue(CleanCell(TotalUsersColumn, "")), sum) == 0.0
  {
    TotalColumnsNumeric();
    CoerceNoDigit("nan");
    CoerceNoDigit("");
  }

  /** `f"{int(total):,}"`: truncated toward zero, then grouped. */
  function TotalText(x: real): string {
    IntGrouped(Trunc(x))
  }

  /** The KPI text, without its separators, reads back as the total truncated to less than one unit off. */
  lemma TotalTextRoundTrip(x: real)
    ensures ParseDecimal(RemoveAll(TotalText(x), ',')).Some?
    ensures var y := ParseDecimal(RemoveAll(TotalText(x), ',')).value;
            y == Trunc(x) as real && (x >= 0.0 ==> x - 1.0 < y <= x) && (x < 0.0 ==> x <= y < x + 1.0)
  {
    IntGroupedRoundTrip(Trunc(x));
  }

  /** Every element multiplied by `c`. */
  function Scale(xs: seq<real>, c: real): (ys: seq<real>)
    ensures |ys| == |xs| && forall k :: 0 <= k < |xs| ==> ys[k] == xs[k] * c
  {
    seq(|xs|, k requires 0 <= k < |xs| => xs[k] * c)
  }

  lemma {:induction false} SumScale(xs: seq<real>, c: real)
    ensures Sum(Scale(xs, c)) == Sum(xs) * c
    decreases |xs|
  {
    if xs != [] {
      var ys := Scale(xs, c);
      assert ys[1..] == Scale(xs[1..], c) by {
        forall k | 0 <= k < |xs| - 1 ensures ys[1..][k] == Scale(xs[1..], c)[k] {
          assert xs[1..][k] == xs[k + 1];
        }
      }
      SumScale(xs[1..], c);
      assert Sum(ys) == xs[0] * c + Sum(xs[1..]) * c;
    }
  }

  /** `비중(%)`: each source's users as a percentage of the users of all sources; all 0 when that sum is not positive. */
  function Shares(rows: seq<SourceRow>): (shares: seq<real>)
    ensures |shares| == |rows|
    ensures Sum(Users(rows)) <= 0.0 ==> forall k :: 0 <= k < |rows| ==> shares[k] == 0.0
    ensures Sum(Users(rows)) > 0.0 ==>
              forall k :: 0 <= k < |rows| ==> shares[k] * Sum(Users(rows)) == rows[k].users * 100.0
  {
    var total := Sum(Users(rows));
    if total > 0.0 then Scale(Users(rows), 100.0 / total)
    else seq(|rows|, k => 0.0)
  }

  /** The shares add up to exactly 100 whenever the sources have any users. */
  lemma SharesSumTo100(rows: seq<SourceRow>)
    requires Sum(Users(rows)) > 0.0
    ensures Sum(Shares(rows)) == 100.0
  {
    var total := Sum(Users(rows));
    SumScale(Users(rows), 100.0 / total);
  }

  lemma {:induction false} SumBounds(xs: seq<real>)
    requires forall k :: 0 <= k < |xs| ==> xs[k] >= 0.0
    ensures Sum(xs) >= 0.0
    ensures forall k :: 0 <= k < |xs| ==> xs[k] <= Sum(xs)
    decreases |xs|
  {
    if xs != [] {
      SumBounds(xs[1..]);
      assert forall k :: 1 <= k < |xs| ==> xs[k] == xs[1..][k - 1];
    }
  }

  lemma PercentBounds(p: real, part: real, whole: real)
    requires whole > 0.0 && 0.0 <= part <= whole && p * whole == part * 100.0
    ensures 0.0 <= p <= 100.0
  {
    assert (p - 100.0) * whole == (part - whole) * 100.0;
    assert (p - 100.0) * whole <= 0.0;
    assert p * whole >= 0.0;
  }

  lemma {:induction false} ScaledWithinPercent(xs: seq<real>, shares: seq<real>, total: real)
    requires total > 0.0 && |shares| == |xs|
    requires forall k :: 0 <= k < |xs| ==> 0.0 <= xs[k] <= total
    requires forall k :: 0 <= k < |xs| ==> shares[k] * total == xs[k] * 100.0
    ensures forall k :: 0 <= k < |xs| ==> 0.0 <= shares[k] <= 100.0
  {
    forall k | 0 <= k < |xs| ensures 0.0 <= shares[k] <= 100.0 {
      PercentBounds(shares[k], xs[k], total);
    }
  }

  /** With no negative counts every share lies between 0 and 100. */
  lemma SharesWithinPercent(rows: seq<SourceRow>)
    requires forall k :: 0 <= k < |rows| ==> rows[k].users >= 0.0
    ensures forall k :: 0 <= k < |rows| ==> 0.0 <= Shares(rows)[k] <= 100.0
  {
    var users := Users(rows);
    SumBounds(users);
    if Sum(users) > 0.0 {
      ScaledWithinPercent(users, Shares(rows), Sum(users));
    }
  }
}
