/**
 * The weekly news keyword top 3: the three rank columns and their share
 * columns must all exist; then each rank whose keyword is neither blank nor
 * "nan" contributes an entry with its share, in rank order.
 */
module Keywords {
  import opened Wrappers
  import opened Text
  import opened Numbers
  import opened Frame
  import opened Metrics
  import opened Acquisition

  const KeywordColumns: seq<string> := ["뉴스_키워드1순위", "뉴스_키워드2순위", "뉴스_키워드3순위"]
  const ShareColumns: seq<string> := ["뉴스_키워드1비중", "뉴스_키워드2비중", "뉴스_키워드3비중"]

  /** The elements of `wanted` that are not in `columns`, in order. */
  function Missing(wanted: seq<string>, columns: seq<string>): (m: seq<string>)
    ensures |m| <= |wanted|
    ensures forall c :: c in m <==> c in wanted && c !in columns
    decreases |wanted|
  {
    if wanted == [] then []
    else
      var rest := Missing(wanted[1..], columns);
      assert forall c :: c in wanted <==> c == wanted[0] || c in wanted[1..];
      if wanted[0] in columns then rest else [wanted[0]] + rest
  }

  /** `missing`: the required columns the window lacks, keyword columns first. */
  function MissingColumns(columns: seq<string>): (m: seq<string>)
    ensures m == [] <==> forall c :: c in KeywordColumns + ShareColumns ==> c in columns
  {
    var m := Missing(KeywordColumns + ShareColumns, columns);
    assert m != [] ==> m[0] in m;
    m
  }

  /** The rank columns hold keywords, so cleaning keeps them as text. */
  lemma KeywordColumnsText()
    ensures forall i :: 0 <= i < 3 ==> IsTextCol(KeywordColumns[i])
  {
    forall i | 0 <= i < 3 ensures IsTextCol(KeywordColumns[i]) {
      var c := KeywordColumns[i];
      assert c[|c| - 2..] == "순위";
      assert OccursAt(c, "키워드", 3);
    }
  }

  /** The share columns are NUMERIC. */
  lemma ShareColumnsNumeric()
    ensures forall i :: 0 <= i < 3 ==> !IsTextCol(ShareColumns[i])
  {
    NumericByLastChar(ShareColumns[0]);
    NumericByLastChar(ShareColumns[1]);
    NumericByLastChar(ShareColumns[2]);
  }

  /** `str(row.get(kw_cols[i], "")).strip()`. */
  function KeywordOf(r: Row, i: nat): (kw: string)
    requires RowValid(r) && i < 3
    ensures NoEdgeSpace(kw)
    ensures !Has(r, KeywordColumns[i]) ==> kw == ""
  {
    KeywordColumnsText();
    Trim(TextOr(r, KeywordColumns[i], ""))
  }

  /** `not kw or kw.lower() == "nan"`: nothing to show for this rank. */
  predicate Blank(kw: string) {
    kw == "" || IsNanWord(kw)
  }

  /** `float(str(share_raw).replace(",", ""))`, 0 when that raises. */
  function ShareOf(v: Value): (x: real)
    ensures v.Null? ==> x == 0.0
    ensures v.Number? ==> x == v.x
  {
    match v
    case Null => 0.0
    case Number(y) => y
    case Str(s) => ParseDecimal(RemoveAll(s, ',')).GetOr(0.0)
  }

  /** The share conversion is the acquisition panel's `to_num`: its missing `strip()` is done by `float()` anyway. */
  lemma ShareOfIsToNum(v: Value)
    ensures ShareOf(v) == ToNum(v)
  {
  }

  /**
   * One row of the top-3 table: `{"순위": title, "키워드": keyword, "비중(%)": share}`,
   * where `title` is `f"{rank}위"`; the numeric `rank` is kept beside it for the proofs.
   */
  datatype KeywordEntry = KeywordEntry(rank: nat, title: string, keyword: string, share: real)

  /** `f"{rank}위"`. */
  function RankText(rank: nat): (s: string)
    ensures |s| >= 2 && s[|s| - 1] == '위'
  {
    ShowNat(rank) + "위"
  }

  /** The text before `위` reads back as the rank. */
  lemma RankTextReadsBack(rank: nat)
    ensures var s := RankText(rank); ParseDecimal(s[..|s| - 1]) == Some(rank as real)
  {
    var s := RankText(rank);
    assert s[..|s| - 1] == ShowNat(rank);
    ParseShowNat(rank);
  }

  /** The stripped keyword of each rank, in rank order. */
  function RankKeywords(r: Row): (kws: seq<string>)
    requires RowValid(r)
    ensures |kws| == 3 && forall i :: 0 <= i < 3 ==> kws[i] == KeywordOf(r, i)
  {
    seq(3, i requires 0 <= i < 3 => KeywordOf(r, i))
  }

  /** `row.get(kw_share_cols[i], 0)` converted, for each rank in rank order. */
  function RankShares(r: Row): (shares: seq<real>)
    ensures |shares| == 3 && forall i :: 0 <= i < 3 ==> shares[i] == ShareOf(Get(r, ShareColumns[i], Number(0.0)))
  {
    seq(3, i requires 0 <= i < 3 => ShareOf(Get(r, ShareColumns[i], Number(0.0))))
  }

  /** The entries of the first `n` ranks, skipping the ranks whose keyword is blank. */
  function Entries(kws: seq<string>, shares: seq<real>, n: nat): (es: seq<KeywordEntry>)
    requires n <= |kws| == |shares|
    decreases n
  {
    if n == 0 then []
    else if Blank(kws[n - 1]) then Entries(kws, shares, n - 1)
    else Entries(kws, shares, n - 1) + [KeywordEntry(n, RankText(n), kws[n - 1], shares[n - 1])]
  }

  /** `rows_kw` of a row that has all the required columns. */
  function TopKeywords(r: Row): seq<KeywordEntry>
    requires RowValid(r)
  {
    Entries(RankKeywords(r), RankShares(r), 3)
  }

  /**
   * `rows_kw`, or the list of missing columns when any is absent. The row is
   * the acquisition panel's `latest_row`, which comes from the same window
   * whose columns are checked.
   */
  method KeywordTop3(r: Row, columns: seq<string>) returns (res: Result<seq<KeywordEntry>, seq<string>>)
    requires RowValid(r)
    ensures MissingColumns(columns) != [] ==> res == Failure(MissingColumns(columns))
    ensures MissingColumns(columns) == [] ==> res == Success(TopKeywords(r))
  {
    var missing := MissingColumns(columns);
    if missing != [] {
      return Failure(missing);
    }
    ghost var kws, shares := RankKeywords(r), RankShares(r);
    var entries: seq<KeywordEntry> := [];
    for i := 0 to 3
      invariant entries == Entries(kws, shares, i)
    {
      var kw := KeywordOf(r, i);
      if Blank(kw) {
        continue;
      }
      var share := ShareOf(Get(r, ShareColumns[i], Number(0.0)));
      entries := entries + [KeywordEntry(i + 1, RankText(i + 1), kw, share)];
    }
    return Success(entries);
  }

  /**
   * Entry `e` stands for one of the first `n` ranks: it is labelled
   * `f"{rank}위"` and carries its rank's keyword, which is not blank, and its
   * rank's share.
   */
  predicate Carries(e: KeywordEntry, kws: seq<string>, shares: seq<real>, n: nat) {
    && 1 <= e.rank <= n <= |kws| && n <= |shares|
    && e.title == RankText(e.rank) && e.keyword == kws[e.rank - 1] && e.share == shares[e.rank - 1]
    && !Blank(e.keyword)
  }

  /** At most `n` entries, ranks strictly increasing, each standing for its own rank. */
  lemma {:induction false} EntriesShape(kws: seq<string>, shares: seq<real>, n: nat)
    requires n <= |kws| == |shares|
    ensures var es := Entries(kws, shares, n);
            && |es| <= n
            && (forall k :: 0 <= k < |es| ==> Carries(es[k], kws, shares, n))
            && (forall k, m :: 0 <= k < m < |es| ==> es[k].rank < es[m].rank)
    decreases n
  {
    if n > 0 {
      EntriesShape(kws, shares, n - 1);
      var prefix := Entries(kws, shares, n - 1);
      var es := Entries(kws, shares, n);
      if !Blank(kws[n - 1]) {
        var e := KeywordEntry(n, RankText(n), kws[n - 1], shares[n - 1]);
        assert es == prefix + [e];
        forall k | 0 <= k < |es| ensures Carries(es[k], kws, shares, n) {
          if k < |prefix| {
            assert es[k] == prefix[k] && Carries(prefix[k], kws, shares, n - 1);
          }
        }
        forall k, m | 0 <= k < m < |es| ensures es[k].rank < es[m].rank {
          assert es[k] == prefix[k] && Carries(prefix[k], kws, shares, n - 1);
          if m < |prefix| {
            assert es[m] == prefix[m];
          }
        }
      } else {
        forall k | 0 <= k < |es| ensures Carries(es[k], kws, shares, n) {
          assert Carries(prefix[k], kws, shares, n - 1);
        }
      }
    }
  }

  /** A rank appears in the table exactly when its keyword is not blank. */
  /** Some entry has rank `rank`. */
  predicate Lists(es: seq<KeywordEntry>, rank: nat) {
    exists k :: 0 <= k < |es| && es[k].rank == rank
  }

  /** Appending entries of other ranks does not change whether a rank is listed. */
  lemma ListsAppend(prefix: seq<KeywordEntry>, tail: seq<KeywordEntry>, rank: nat)
    requires forall k :: 0 <= k < |tail| ==> tail[k].rank != rank
    ensures Lists(prefix + tail, rank) <==> Lists(prefix, rank)
  {
    var es := prefix + tail;
    if Lists(es, rank) {
      var k :| 0 <= k < |es| && es[k].rank == rank;
      assert k < |prefix| && prefix[k] == es[k];
    }
    if Lists(prefix, rank) {
      var k :| 0 <= k < |prefix| && prefix[k].rank == rank;
      assert es[k] == prefix[k];
    }
  }

  /** The entries of the first `n - 1` ranks do not list rank `n`. */
  lemma NotYetListed(kws: seq<string>, shares: seq<real>, n: nat)
    requires 1 <= n <= |kws| == |shares|
    ensures !Lists(Entries(kws, shares, n - 1), n)
  {
    var prefix := Entries(kws, shares, n - 1);
    EntriesShape(kws, shares, n - 1);
    forall k | 0 <= k < |prefix| ensures prefix[k].rank != n {
      assert Carries(prefix[k], kws, shares, n - 1);
    }
  }

  lemma {:induction false} RankShownIffNotBlank(kws: seq<string>, shares: seq<real>, n: nat, i: nat)
    requires i < n <= |kws| == |shares|
    ensures Lists(Entries(kws, shares, n), i + 1) <==> !Blank(kws[i])
    decreases n
  {
    var prefix := Entries(kws, shares, n - 1);
    var e := KeywordEntry(n, RankText(n), kws[n - 1], shares[n - 1]);
    var tail := if Blank(kws[n - 1]) then [] else [e];
    assert Entries(kws, shares, n) == prefix + tail;
    if i < n - 1 {
      RankShownIffNotBlank(kws, shares, n - 1, i);
      ListsAppend(prefix, tail, i + 1);
    } else if !Blank(kws[i]) {
      assert (prefix + tail)[|prefix|] == e;
    } else {
      NotYetListed(kws, shares, n);
      assert prefix + tail == prefix;
    }
  }

  /** No entry at all ("키워드 값이 비어 있습니다") exactly when every keyword is blank. */
  lemma {:induction false} EmptyIffAllBlank(kws: seq<string>, shares: seq<real>, n: nat)
    requires n <= |kws| == |shares|
    ensures Entries(kws, shares, n) == [] <==> forall i :: 0 <= i < n ==> Blank(kws[i])
    decreases n
  {
    if n > 0 {
      EmptyIffAllBlank(kws, shares, n - 1);
    }
  }

  /** On a row: a rank is listed exactly when its keyword is not blank. */
  lemma TopKeywordsListsRank(r: Row, i: nat)
    requires RowValid(r) && i < 3
    ensures Lists(TopKeywords(r), i + 1) <==> !Blank(KeywordOf(r, i))
  {
    var kws, shares := RankKeywords(r), RankShares(r);
    assert kws[i] == KeywordOf(r, i);
    RankShownIffNotBlank(kws, shares, 3, i);
  }

  lemma EntryAt(kws: seq<string>, shares: seq<real>, n: nat, k: nat)
    requires n <= |kws| == |shares| && k < |Entries(kws, shares, n)|
    ensures Carries(Entries(kws, shares, n)[k], kws, shares, n)
  {
    EntriesShape(kws, shares, n);
  }

  /** On a row: a listed rank carries its `f"{rank}위"` label and that rank's keyword and share. */
  lemma TopKeywordsEntry(r: Row, k: nat)
    requires RowValid(r) && k < |TopKeywords(r)|
    ensures var e := TopKeywords(r)[k];
            Carries(e, RankKeywords(r), RankShares(r), 3) && e.keyword == KeywordOf(r, e.rank - 1)
  {
    EntryAt(RankKeywords(r), RankShares(r), 3, k);
  }
}
