/**
 * The weekly traffic table after cleaning: an ordered list of columns, each
 * either TEXT (week/date identifiers and keyword/article rank columns) or
 * NUMERIC, all of the same height; rows are addressed by position, oldest
 * week first. A row is the list of (column name, cell) pairs a pandas Series
 * holds, and `Get` is `Series.get(name, default)`.
 */
module Frame {
  import opened Wrappers
  import opened Text
  import opened Numbers

  const WeekColumn: string := "주차"

  /**
   * `is_text_col`: the week/date identifier columns, or a rank column (name
   * ending in 순위) of keywords (키워드) or articles (기사).
   */
  predicate IsTextCol(name: string) {
    || name == "주차" || name == "날짜" || name == "Date"
    || (EndsWith(name, "순위") && (Contains(name, "키워드") || Contains(name, "기사")))
  }

  datatype Cell = Text(s: string) | Num(x: real)

  datatype Column = Column(name: string, cells: seq<Cell>)

  /** Every cell of a column has the kind its name prescribes. */
  predicate ColumnValid(c: Column, height: nat) {
    && |c.cells| == height
    && forall i :: 0 <= i < height ==> (c.cells[i].Text? <==> IsTextCol(c.name))
  }

  datatype Table = Table(height: nat, columns: seq<Column>) {
    predicate Valid() {
      forall j :: 0 <= j < |columns| ==> ColumnValid(columns[j], height)
    }
  }

  /** `df.columns`, in order. */
  function ColumnNames(t: Table): (names: seq<string>)
    ensures |names| == |t.columns|
    ensures forall j :: 0 <= j < |t.columns| ==> names[j] == t.columns[j].name
  {
    seq(|t.columns|, j requires 0 <= j < |t.columns| => t.columns[j].name)
  }

  datatype Field = Field(name: string, cell: Cell)

  /** One row of the table: a pandas Series indexed by column name. */
  type Row = seq<Field>

  /** The row at position `i` (`df.iloc[i]`). */
  function RowAt(t: Table, i: nat): (r: Row)
    requires t.Valid() && i < t.height
    ensures |r| == |t.columns|
    ensures forall j :: 0 <= j < |t.columns| ==> r[j] == Field(t.columns[j].name, t.columns[j].cells[i])
  {
    seq(|t.columns|, j requires 0 <= j < |t.columns| => Field(t.columns[j].name, t.columns[j].cells[i]))
  }

  predicate RowValid(r: Row) {
    forall k :: 0 <= k < |r| ==> (r[k].cell.Text? <==> IsTextCol(r[k].name))
  }

  lemma RowAtValid(t: Table, i: nat)
    requires t.Valid() && i < t.height
    ensures RowValid(RowAt(t, i))
  {
    var r := RowAt(t, i);
    forall k | 0 <= k < |r| ensures r[k].cell.Text? <==> IsTextCol(r[k].name) {
      assert ColumnValid(t.columns[k], t.height);
    }
  }

  /** Position of the first field called `name`, if any. */
  function FieldIndex(r: Row, name: string): (k: Option<nat>)
    ensures k.None? <==> forall j :: 0 <= j < |r| ==> r[j].name != name
    ensures k.Some? ==> k.value < |r| && r[k.value].name == name
    ensures k.Some? ==> forall j :: 0 <= j < k.value ==> r[j].name != name
    decreases |r|
  {
    if r == [] then None
    else if r[0].name == name then Some(0)
    else
      match FieldIndex(r[1..], name)
      case None => None
      case Some(k) => Some(k + 1)
  }

  /** The Python object a cell holds: a `str` for TEXT columns, a number otherwise. */
  function CellValue(c: Cell): Value {
    match c
    case Text(s) => Str(s)
    case Num(x) => Number(x)
  }

  /** `row.get(name, default)`. */
  function Get(r: Row, name: string, default: Value): Value {
    match FieldIndex(r, name)
    case Some(k) => CellValue(r[k].cell)
    case None => default
  }

  predicate Has(r: Row, name: string) {
    FieldIndex(r, name).Some?
  }

  /** `row.get(name, d)` on a NUMERIC column: the number stored there, or `d` when the column is absent. */
  function NumberOr(r: Row, name: string, d: real): (x: real)
    requires RowValid(r) && !IsTextCol(name)
    ensures Get(r, name, Number(d)) == Number(x)
    ensures !Has(r, name) ==> x == d
  {
    match FieldIndex(r, name)
    case Some(k) => r[k].cell.x
    case None => d
  }

  /** `row.get(name)` on a NUMERIC column, with `None` when the column is absent. */
  function NumberOrNull(r: Row, name: string): (v: Value)
    requires RowValid(r) && !IsTextCol(name)
    ensures v == Get(r, name, Null)
    ensures v.Null? <==> !Has(r, name)
  {
    if Has(r, name) then Number(NumberOr(r, name, 0.0)) else Null
  }

  /** `str(row.get(name, d))` on a TEXT column. */
  function TextOr(r: Row, name: string, d: string): (s: string)
    requires RowValid(r) && IsTextCol(name)
    ensures Get(r, name, Str(d)) == Str(s)
    ensures !Has(r, name) ==> s == d
  {
    match FieldIndex(r, name)
    case Some(k) => r[k].cell.s
    case None => d
  }

  /** A column present in the table is present, under the same name, in each of its rows. */
  lemma HasColumnInRow(t: Table, i: nat, name: string)
    requires t.Valid() && i < t.height
    ensures Has(RowAt(t, i), name) <==> name in ColumnNames(t)
  {
    var r := RowAt(t, i);
    if name in ColumnNames(t) {
      var j :| 0 <= j < |t.columns| && ColumnNames(t)[j] == name;
      assert r[j].name == name;
    } else {
      forall j | 0 <= j < |r| ensures r[j].name != name {
        assert ColumnNames(t)[j] == r[j].name;
      }
    }
  }
}
