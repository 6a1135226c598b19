/**
 * Week resolution: the week selector lists the `주차` labels newest first and
 * defaults to the newest; the selected label picks the current row, and the
 * previous row is the one just before it.
 */
module Weeks {
  import opened Wrappers
  import opened Text
  import opened Frame
  import opened Numbers

  /** Position of the first occurrence of `x` in `s` (the first `True` of a boolean mask). */
  function FirstIndexOf(s: seq<string>, x: string): (k: Option<nat>)
    ensures k.None? <==> x !in s
    ensures k.Some? ==> k.value < |s| && s[k.value] == x && x !in s[..k.value]
    decreases |s|
  {
    if s == [] then None
    else if s[0] == x then Some(0)
    else
      match FirstIndexOf(s[1..], x)
      case None => None
      case Some(k) =>
        assert s[..k + 1] == [s[0]] + s[1..][..k];
        Some(k + 1)
  }

  /** Position of the last occurrence of `x` in `s` (`iloc[-1]` of the rows a mask keeps). */
  function LastIndexOf(s: seq<string>, x: string): (k: Option<nat>)
    ensures k.None? <==> x !in s
    ensures k.Some? ==> k.value < |s| && s[k.value] == x && x !in s[k.value + 1..]
    decreases |s|
  {
    if s == [] then None
    else if s[|s| - 1] == x then Some(|s| - 1)
    else
      match LastIndexOf(s[..|s| - 1], x)
      case None =>
        assert s == s[..|s| - 1] + [s[|s| - 1]];
        None
      case Some(k) =>
        assert s[k + 1..] == s[..|s| - 1][k + 1..] + [s[|s| - 1]];
        Some(k)
  }

  /** Position of the first column called `name` (`name in df.columns`, then `df[name]`). */
  function ColumnIndex(t: Table, name: string): (j: Option<nat>)
    ensures j.None? <==> name !in ColumnNames(t)
    ensures j.Some? ==> j.value < |t.columns| && t.columns[j.value].name == name
  {
    FirstIndexOf(ColumnNames(t), name)
  }

  /** A row whose names are `names`, field by field, finds a name where `names` first holds it. */
  lemma FieldIndexFirstIndexOf(r: Row, names: seq<string>, name: string)
    requires |r| == |names| && forall j :: 0 <= j < |r| ==> r[j].name == names[j]
    ensures FieldIndex(r, name) == FirstIndexOf(names, name)
  {
    var a, b := FieldIndex(r, name), FirstIndexOf(names, name);
    if a.None? {
      assert name !in names;
    } else {
      assert names[a.value] == name;
      var k := b.value;
      assert forall m :: 0 <= m < k ==> names[..k][m] == names[m];
    }
  }

  /** Looking a name up in a row finds the field of the column that `df[name]` finds. */
  lemma FieldIndexRowAt(t: Table, i: nat, name: string)
    requires t.Valid() && i < t.height
    ensures FieldIndex(RowAt(t, i), name) == ColumnIndex(t, name)
  {
    FieldIndexFirstIndexOf(RowAt(t, i), ColumnNames(t), name);
  }

  /** `df["주차"].astype(str).tolist()`: the week labels, oldest first; `None` when the column is missing. */
  function WeekLabels(t: Table): (labels: Option<seq<string>>)
    requires t.Valid()
    ensures labels.None? <==> WeekColumn !in ColumnNames(t)
    ensures labels.Some? ==> |labels.value| == t.height
  {
    match ColumnIndex(t, WeekColumn)
    case None => None
    case Some(j) =>
      var c := t.columns[j];
      assert ColumnValid(c, t.height);
      Some(seq(t.height, i requires 0 <= i < t.height => c.cells[i].s))
  }

  /** Label `i` is the `주차` text that row `i` holds, so resolving a label and reading a row agree. */
  lemma WeekLabelsContent(t: Table, i: nat)
    requires t.Valid() && i < t.height && WeekLabels(t).Some?
    ensures Get(RowAt(t, i), WeekColumn, Str("")) == Str(WeekLabels(t).value[i])
  {
    FieldIndexRowAt(t, i, WeekColumn);
  }

  /** The labels in the opposite order: `list[::-1]`. */
  function Reverse(s: seq<string>): (r: seq<string>)
    ensures |r| == |s|
    ensures forall i :: 0 <= i < |s| ==> r[i] == s[|s| - 1 - i]
  {
    seq(|s|, i requires 0 <= i < |s| => s[|s| - 1 - i])
  }

  /** The selector's options (newest week first); its default is option 0. */
  function WeekOptions(labels: seq<string>): (options: seq<string>)
    ensures |options| == |labels|
    ensures forall x :: x in options <==> x in labels
  {
    var r := Reverse(labels);
    assert forall x :: x in labels ==> x in r by {
      forall x | x in labels ensures x in r {
        var i :| 0 <= i < |labels| && labels[i] == x;
        assert r[|labels| - 1 - i] == x;
      }
    }
    r
  }

  /** The current row and the previous row, by position (`df.index` is `0, 1, …, n-1`). */
  datatype Selection = Selection(current: nat, previous: Option<nat>)

  /**
   * The current row is the first whose label equals the selection; with no
   * match it is the last row. The previous row is the one just before it,
   * and there is none exactly when the current row is the first.
   */
  function Resolve(labels: seq<string>, selected: string): (r: Selection)
    requires |labels| >= 1
    ensures r.current < |labels|
    ensures r.previous == if r.current == 0 then None else Some(r.current - 1)
    ensures selected in labels ==> labels[r.current] == selected && selected !in labels[..r.current]
    ensures selected !in labels ==> r.current == |labels| - 1
  {
    match FirstIndexOf(labels, selected)
    case Some(idx) =>
      Selection(idx, if 0 <= idx - 1 < |labels| then Some(idx - 1) else None)
    case None =>
      Selection(|labels| - 1, if |labels| > 1 then Some(|labels| - 2) else None)
  }

  /** The default selection is the newest week; it resolves to that week's first row. */
  lemma DefaultSelection(labels: seq<string>)
    requires |labels| >= 1
    ensures WeekOptions(labels)[0] == labels[|labels| - 1]
    ensures var r := Resolve(labels, WeekOptions(labels)[0]);
            labels[r.current] == labels[|labels| - 1] && labels[|labels| - 1] !in labels[..r.current]
  {
    assert labels[|labels| - 1] in labels;
  }

  /**
   * A selection matching no row falls back to the last row, which is what
   * selecting the last row's own label gives exactly when that label does
   * not appear earlier in the table.
   */
  lemma FallbackIsLastWeek(labels: seq<string>, selected: string)
    requires |labels| >= 1 && selected !in labels
    ensures var last := labels[|labels| - 1];
            Resolve(labels, selected) == Resolve(labels, last) <==> last !in labels[..|labels| - 1]
  {
    var n := |labels|;
    var last := labels[n - 1];
    assert last in labels;
    var r := Resolve(labels, last);
    if last in labels[..n - 1] {
      var i :| 0 <= i < n - 1 && labels[..n - 1][i] == last;
      assert labels[i] == last;
      assert forall k :: 0 <= k < r.current ==> labels[..r.current][k] == labels[k];
      assert r.current <= i;
    } else {
      assert forall k :: 0 <= k < n - 1 ==> labels[..n - 1][k] == labels[k];
      assert r.current == n - 1;
    }
  }

  /** With duplicated labels the selection of a repeated week lands on its first row, never a later one. */
  lemma RepeatedLabelFirstRow(labels: seq<string>, i: nat, j: nat)
    requires i < j < |labels| && labels[i] == labels[j]
    ensures Resolve(labels, labels[j]).current <= i
  {
    var r := Resolve(labels, labels[j]);
    assert labels[j] in labels;
    assert forall k :: 0 <= k < r.current ==> labels[..r.current][k] == labels[k];
  }
}
