/**
 * `preprocess_data`: column names are stripped, TEXT columns keep their
 * values stripped of whitespace, every other column has all `,` and then all
 * `%` removed and is parsed as a number, with 0 wherever parsing fails.
 */
module Normalize {
  import opened Wrappers
  import opened Text
  import opened Numbers
  import opened Frame

  /** The table as read from the CSV, every cell as `astype(str)` renders it. */
  datatype RawColumn = RawColumn(name: string, cells: seq<string>)

  datatype RawTable = RawTable(height: nat, columns: seq<RawColumn>) {
    predicate Valid() {
      forall j :: 0 <= j < |columns| ==> |columns[j].cells| == height
    }
  }

  /** The whitespace pandas' number parser skips: ASCII space and `\t` to `\r`, not the rest of `str.isspace()`. */
  predicate IsAsciiSpace(c: char) {
    c == ' ' || ('\t' <= c <= '\r')
  }

  /** `s` without its leading ASCII whitespace. */
  function AsciiTrimLeft(s: string): (r: string)
    ensures |r| <= |s| && r == s[|s| - |r|..]
    ensures forall i :: 0 <= i < |s| - |r| ==> IsAsciiSpace(s[i])
    ensures forall c :: c in r ==> c in s
    ensures r == [] || !IsAsciiSpace(r[0])
    ensures (s == [] || !IsAsciiSpace(s[0])) ==> r == s
    decreases |s|
  {
    if s != [] && IsAsciiSpace(s[0]) then AsciiTrimLeft(s[1..]) else s
  }

  /** `s` without its trailing ASCII whitespace. */
  function AsciiTrimRight(s: string): (r: string)
    ensures |r| <= |s| && r == s[..|r|]
    ensures forall i :: |r| <= i < |s| ==> IsAsciiSpace(s[i])
    ensures forall c :: c in r ==> c in s
    ensures r == [] || !IsAsciiSpace(r[|r| - 1])
    ensures (s == [] || !IsAsciiSpace(s[|s| - 1])) ==> r == s
    decreases |s|
  {
    if s != [] && IsAsciiSpace(s[|s| - 1]) then AsciiTrimRight(s[..|s| - 1]) else s
  }

  /**
   * `pd.to_numeric(s, errors="coerce")` on a text in decimal notation: ASCII
   * whitespace around the number is skipped, while any other whitespace
   * `float()` would accept (a no-break space, `\x1c`, ...) left at an edge
   * makes the text unparseable.
   */
  function ToNumeric(s: string): Option<real> {
    var t := AsciiTrimRight(AsciiTrimLeft(s));
    if NoEdgeSpace(t) then ParseDecimal(t) else None
  }

  /** On a text with no whitespace at either edge, `pd.to_numeric` and `float()` agree. */
  lemma ToNumericUnpadded(s: string)
    requires NoEdgeSpace(s)
    ensures ToNumeric(s) == ParseDecimal(s)
  {
    assert AsciiTrimLeft(s) == s;
    assert AsciiTrimRight(s) == s;
  }

  /** The cleaning of one NUMERIC cell: drop `,`, drop `%`, `pd.to_numeric`, 0 on failure. */
  function CoerceNumber(raw: string): real {
    ToNumeric(RemoveAll(RemoveAll(raw, ','), '%')).GetOr(0.0)
  }

  /** The cleaning of one cell of the column called `name` (already stripped). */
  function CleanCell(name: string, raw: string): (c: Cell)
    ensures c.Text? <==> IsTextCol(name)
  {
    if IsTextCol(name) then Text(Trim(raw)) else Num(CoerceNumber(raw))
  }

  function CleanColumn(name: string, raw: seq<string>): (c: Column)
    ensures c.name == name && ColumnValid(c, |raw|)
    ensures forall i :: 0 <= i < |raw| ==> c.cells[i] == CleanCell(name, raw[i])
  {
    Column(name, seq(|raw|, i requires 0 <= i < |raw| => CleanCell(name, raw[i])))
  }

  /** The column loop of `preprocess_data`: each column cleaned under its stripped name, in order. */
  method CleanColumns(names: seq<string>, raws: seq<seq<string>>) returns (cleaned: seq<Column>)
    requires |names| == |raws|
    ensures |cleaned| == |names|
    ensures forall k :: 0 <= k < |names| ==> cleaned[k] == CleanColumn(names[k], raws[k])
  {
    cleaned := [];
    for j := 0 to |names|
      invariant |cleaned| == j
      invariant forall k :: 0 <= k < j ==> cleaned[k] == CleanColumn(names[k], raws[k])
    {
      cleaned := cleaned + [CleanColumn(names[j], raws[j])];
    }
  }

  /**
   * `preprocess_data`: never fails; keeps the row count and the column order;
   * a column is TEXT exactly when its stripped name says so.
   */
  method Preprocess(raw: RawTable) returns (t: Table)
    requires raw.Valid()
    ensures t.Valid()
    ensures t.height == raw.height && |t.columns| == |raw.columns|
    ensures forall j :: 0 <= j < |raw.columns| ==> t.columns[j].name == Trim(raw.columns[j].name)
    ensures forall j, i :: 0 <= j < |raw.columns| && 0 <= i < raw.height ==>
              t.columns[j].cells[i] == CleanCell(t.columns[j].name, raw.columns[j].cells[i])
  {
    // df_clean.columns = df_clean.columns.astype(str).str.strip()
    var names := seq(|raw.columns|, j requires 0 <= j < |raw.columns| => Trim(raw.columns[j].name));
    var raws := seq(|raw.columns|, j requires 0 <= j < |raw.columns| => raw.columns[j].cells);
    var cleaned := CleanColumns(names, raws);
    t := Table(raw.height, cleaned);
    forall k | 0 <= k < |raw.columns|
      ensures ColumnValid(t.columns[k], raw.height)
      ensures t.columns[k].name == Trim(raw.columns[k].name)
      ensures forall i :: 0 <= i < raw.height ==> t.columns[k].cells[i] == CleanCell(t.columns[k].name, raw.columns[k].cells[i])
    {
      assert |raw.columns[k].cells| == raw.height;
    }
  }

  /** A cell written with thousands separators and an optional trailing `%` cleans to the number it shows. */
  lemma CoerceGrouped(n: nat, percent: bool)
    ensures CoerceNumber(ShowGrouped(n) + (if percent then "%" else "")) == n as real
  {
    var suffix := if percent then "%" else "";
    var s := ShowGrouped(n) + suffix;
    RemoveAllAppend(ShowGrouped(n), suffix, ',');
    UngroupShowGrouped(n);
    assert RemoveAll(suffix, ',') == suffix;
    RemoveAllAppend(ShowNat(n), suffix, '%');
    RemoveAllAbsent(ShowNat(n), '%');
    assert RemoveAll(suffix, '%') == [];
    assert ShowNat(n) + [] == ShowNat(n);
    DigitsNoEdgeSpace(ShowNat(n));
    ToNumericUnpadded(ShowNat(n));
    ParseShowNat(n);
  }

  lemma GroupedExample()
    ensures ShowGrouped(12345) + "%" == "12,345%"
  {
    assert ShowNat(12) == "12";
    assert Pad3(345) == "345";
    assert ShowGrouped(12345) == ShowGrouped(12) + "," + Pad3(345);
  }

  /** `"12,345%"` cleans to 12345. */
  lemma CoerceExample()
    ensures CoerceNumber("12,345%") == 12345.0
  {
    GroupedExample();
    CoerceGrouped(12345, true);
  }

  /** A cell without any digit (`"-"`, `""`, `"N/A"`) cleans to 0. */
  lemma CoerceNoDigit(raw: string)
    requires forall i :: 0 <= i < |raw| ==> !IsDigit(raw[i])
    ensures CoerceNumber(raw) == 0.0
  {
    var s := RemoveAll(RemoveAll(raw, ','), '%');
    var t := AsciiTrimRight(AsciiTrimLeft(s));
    forall i | 0 <= i < |t| ensures !IsDigit(t[i]) {
      assert t[i] in s;
      assert t[i] in raw;
    }
    NoDigitNoNumber(t);
  }

  /** `"-"` cleans to 0. */
  lemma CoerceDashExample()
    ensures CoerceNumber("-") == 0.0
  {
    CoerceNoDigit("-");
  }

  /** Removing `%` before `,` instead of after gives the same cleaned value. */
  lemma CoerceSeparatorOrder(raw: string)
    ensures CoerceNumber(raw) == ToNumeric(RemoveAll(RemoveAll(raw, '%'), ',')).GetOr(0.0)
  {
    RemoveAllCommute(raw, ',', '%');
  }

  predicate AllAsciiSpace(s: string) {
    forall i :: 0 <= i < |s| ==> IsAsciiSpace(s[i])
  }

  lemma {:induction false} AsciiTrimLeftPadded(pre: string, rest: string)
    requires AllAsciiSpace(pre) && (rest == [] || !IsAsciiSpace(rest[0]))
    ensures AsciiTrimLeft(pre + rest) == rest
    decreases |pre|
  {
    if pre == [] {
      assert pre + rest == rest;
    } else {
      assert (pre + rest)[0] == pre[0];
      assert (pre + rest)[1..] == pre[1..] + rest;
      AsciiTrimLeftPadded(pre[1..], rest);
    }
  }

  lemma {:induction false} AsciiTrimRightPadded(rest: string, post: string)
    requires AllAsciiSpace(post) && (rest == [] || !IsAsciiSpace(rest[|rest| - 1]))
    ensures AsciiTrimRight(rest + post) == rest
    decreases |post|
  {
    if post == [] {
      assert rest + post == rest;
    } else {
      var s := rest + post;
      assert s[|s| - 1] == post[|post| - 1];
      assert s[..|s| - 1] == rest + post[..|post| - 1];
      AsciiTrimRightPadded(rest, post[..|post| - 1]);
    }
  }

  /** Whitespace and digits hold no `,` and no `%`. */
  lemma Unseparated(s: string)
    requires AllAsciiSpace(s) || AllDigits(s)
    ensures ',' !in s && '%' !in s
  {
    forall i | 0 <= i < |s| ensures s[i] != ',' && s[i] != '%' {
      assert IsAsciiSpace(s[i]) || IsDigit(s[i]);
    }
  }

  /** A text with no `,` and no `%` goes to `pd.to_numeric` as it is. */
  lemma CoerceUnseparated(s: string)
    requires ',' !in s && '%' !in s
    ensures CoerceNumber(s) == ToNumeric(s).GetOr(0.0)
  {
    RemoveAllAbsent(s, ',');
    RemoveAllAbsent(s, '%');
  }

  /** `pd.to_numeric` skips ASCII whitespace on both sides of the text. */
  lemma ToNumericAsciiPadded(pre: string, core: string, post: string)
    requires AllAsciiSpace(pre) && AllAsciiSpace(post) && core != [] && NoEdgeSpace(core)
    ensures ToNumeric(pre + core + post) == ParseDecimal(core)
  {
    assert !IsAsciiSpace(core[0]) && !IsAsciiSpace(core[|core| - 1]);
    assert pre + core + post == pre + (core + post);
    assert (core + post)[0] == core[0];
    AsciiTrimLeftPadded(pre, core + post);
    AsciiTrimRightPadded(core, post);
  }

  /** A run of digits padded with ASCII whitespace cleans to what the digits read as. */
  lemma CoerceAsciiPaddedDigits(pre: string, digits: string, post: string)
    requires AllAsciiSpace(pre) && AllAsciiSpace(post) && digits != [] && AllDigits(digits)
    ensures CoerceNumber(pre + digits + post) == ParseDecimal(digits).GetOr(0.0)
  {
    Unseparated(pre);
    Unseparated(digits);
    Unseparated(post);
    CoerceUnseparated(pre + digits + post);
    DigitsNoEdgeSpace(digits);
    ToNumericAsciiPadded(pre, digits, post);
  }

  /** ASCII whitespace around a number is skipped. */
  lemma CoerceAsciiPadded(pre: string, n: nat, post: string)
    requires AllAsciiSpace(pre) && AllAsciiSpace(post)
    ensures CoerceNumber(pre + ShowNat(n) + post) == n as real
  {
    CoerceAsciiPaddedDigits(pre, ShowNat(n), post);
    ParseShowNat(n);
  }

  /** `" 12\t"` cleans to 12. */
  lemma CoerceAsciiPaddedExample()
    ensures CoerceNumber(" 12\t") == 12.0
  {
    var s := " 12\t";
    assert ShowNat(12) == s[1..3];
    assert s == s[..1] + s[1..3] + s[3..];
    assert AllAsciiSpace(s[..1]) && AllAsciiSpace(s[3..]);
    CoerceAsciiPadded(s[..1], 12, s[3..]);
  }

  /** A text whose first character is whitespace pandas does not skip is not a number to `pd.to_numeric`. */
  lemma ToNumericNonAsciiLead(s: string)
    requires s != [] && IsSpace(s[0]) && !IsAsciiSpace(s[0])
    ensures ToNumeric(s).None?
  {
    assert AsciiTrimLeft(s) == s;
    var t := AsciiTrimRight(s);
    assert t != [] && t[0] == s[0];
    assert !NoEdgeSpace(t);
  }

  /** `float()` skips any whitespace `str.isspace()` knows: `[c] + digits` reads as the number. */
  lemma FloatSpaceLed(c: char, n: nat)
    requires IsSpace(c)
    ensures ParseDecimal([c] + ShowNat(n)) == Some(n as real)
  {
    var digits := ShowNat(n);
    DigitsNoEdgeSpace(digits);
    TrimOfPadded([c], digits, []);
    assert [c] + digits + [] == [c] + digits;
    ParseShowNat(n);
  }

  /**
   * A number led by whitespace that `float()` skips but pandas does not (a
   * no-break space `\U{A0}`, `\x1c`, ...) is not a number to
   * `pd.to_numeric`: the cell cleans to 0, where `float()` would read it.
   */
  lemma CoerceNonAsciiPadded(c: char, n: nat)
    requires IsSpace(c) && !IsAsciiSpace(c) && c != ',' && c != '%'
    ensures ParseDecimal([c] + ShowNat(n)) == Some(n as real)
    ensures CoerceNumber([c] + ShowNat(n)) == 0.0
  {
    var s := [c] + ShowNat(n);
    Unseparated(ShowNat(n));
    CoerceUnseparated(s);
    ToNumericNonAsciiLead(s);
    FloatSpaceLed(c, n);
  }

  /** The no-break space case: `"\U{A0}12"` cleans to 0. */
  lemma CoerceNoBreakSpaceExample()
    ensures CoerceNumber("\U{A0}12") == 0.0
  {
    var s := "\U{A0}12";
    assert ShowNat(12) == s[1..];
    assert s == [s[0]] + s[1..];
    CoerceNonAsciiPadded(s[0], 12);
  }
}
