/**
 * String helpers with Python's meaning: `str.strip()`, `str.replace(c, "")`,
 * `str.endswith`, the substring test `p in s`, `str.lower() == "nan"`, and the
 * decimal renderings `str(n)` and `f"{n:,}"` of natural numbers.
 */
module Text {
  import opened Wrappers

  /** Python's `str.isspace()` for one character: the characters `str.strip()` removes. */
  predicate IsSpace(c: char) {
    || c == ' '
    || ('\t' <= c <= '\r')
    || ('\U{1C}' <= c <= '\U{1F}')
    || c == '\U{85}' || c == '\U{A0}' || c == '\U{1680}'
    || ('\U{2000}' <= c <= '\U{200A}')
    || c == '\U{2028}' || c == '\U{2029}' || c == '\U{202F}' || c == '\U{205F}' || c == '\U{3000}'
  }

  predicate AllSpace(s: string) {
    forall i :: 0 <= i < |s| ==> IsSpace(s[i])
  }

  /** Neither end of `s` is whitespace: what `strip()` leaves behind. */
  predicate NoEdgeSpace(s: string) {
    s == [] || (!IsSpace(s[0]) && !IsSpace(s[|s| - 1]))
  }

  /** Dropping one leading whitespace character keeps the "suffix after whitespace" shape. */
  lemma SpaceBeforeSuffix(s: string, r: string)
    requires |s| > 0 && IsSpace(s[0])
    requires |r| <= |s| - 1 && r == s[1..][|s| - 1 - |r|..] && AllSpace(s[1..][..|s| - 1 - |r|])
    ensures r == s[|s| - |r|..] && AllSpace(s[..|s| - |r|])
  {
    assert s[..|s| - |r|] == [s[0]] + s[1..][..|s| - 1 - |r|];
  }

  function TrimLeft(s: string): (r: string)
    ensures |r| <= |s| && r == s[|s| - |r|..]
    ensures AllSpace(s[..|s| - |r|])
    ensures r == [] || !IsSpace(r[0])
  {
    if |s| > 0 && IsSpace(s[0]) then
      var r := TrimLeft(s[1..]);
      SpaceBeforeSuffix(s, r);
      r
    else s
  }

  /** Dropping one trailing whitespace character keeps the "prefix before whitespace" shape. */
  lemma SpaceAfterPrefix(s: string, r: string)
    requires |s| > 0 && IsSpace(s[|s| - 1])
    requires |r| <= |s| - 1 && r == s[..|s| - 1][..|r|] && AllSpace(s[..|s| - 1][|r|..])
    ensures r == s[..|r|] && AllSpace(s[|r|..])
  {
    assert s[|r|..] == s[..|s| - 1][|r|..] + [s[|s| - 1]];
  }

  function TrimRight(s: string): (r: string)
    ensures |r| <= |s| && r == s[..|r|]
    ensures AllSpace(s[|r|..])
    ensures r == [] || !IsSpace(r[|r| - 1])
  {
    if |s| > 0 && IsSpace(s[|s| - 1]) then
      var r := TrimRight(s[..|s| - 1]);
      SpaceAfterPrefix(s, r);
      r
    else s
  }

  /** `s` is `r` with the whitespace `s[..i]` before it and whitespace after it. */
  predicate PaddedAt(s: string, r: string, i: int) {
    && 0 <= i <= |s| - |r|
    && s[i..i + |r|] == r && AllSpace(s[..i]) && AllSpace(s[i + |r|..])
  }

  lemma PrefixOfSuffixPadded(s: string, l: string, r: string)
    requires |l| <= |s| && l == s[|s| - |l|..] && AllSpace(s[..|s| - |l|])
    requires |r| <= |l| && r == l[..|r|] && AllSpace(l[|r|..])
    ensures PaddedAt(s, r, |s| - |l|)
  {
    var i := |s| - |l|;
    assert s[i..i + |r|] == r;
    assert s[i + |r|..] == l[|r|..];
  }

  lemma TrimBothPadded(s: string)
    ensures PaddedAt(s, TrimRight(TrimLeft(s)), |s| - |TrimLeft(s)|)
  {
    PrefixOfSuffixPadded(s, TrimLeft(s), TrimRight(TrimLeft(s)));
  }

  /** Python's `str.strip()`: `s` is `r` with whitespace padding on both sides. */
  function Trim(s: string): (r: string)
    ensures NoEdgeSpace(r)
    ensures exists i :: PaddedAt(s, r, i)
  {
    TrimBothPadded(s);
    TrimRight(TrimLeft(s))
  }

  lemma {:induction false} TrimLeftPadded(pre: string, rest: string)
    requires AllSpace(pre)
    requires rest == [] || !IsSpace(rest[0])
    ensures TrimLeft(pre + rest) == rest
    decreases |pre|
  {
    if pre != [] {
      assert (pre + rest)[1..] == pre[1..] + rest;
      TrimLeftPadded(pre[1..], rest);
    }
  }

  lemma {:induction false} TrimRightPadded(rest: string, post: string)
    requires AllSpace(post)
    requires rest == [] || !IsSpace(rest[|rest| - 1])
    ensures TrimRight(rest + post) == rest
    decreases |post|
  {
    if post != [] {
      assert (rest + post)[..|rest + post| - 1] == rest + post[..|post| - 1];
      TrimRightPadded(rest, post[..|post| - 1]);
    }
  }

  /** The padding view determines `strip()` uniquely: whitespace around a core with non-space ends is removed exactly. */
  lemma TrimOfPadded(pre: string, core: string, post: string)
    requires AllSpace(pre) && AllSpace(post) && NoEdgeSpace(core)
    ensures Trim(pre + core + post) == core
  {
    if core == [] {
      var blank := pre + post;
      assert pre + core + post == blank + [];
      assert AllSpace(blank);
      TrimLeftPadded(blank, []);
    } else {
      assert pre + core + post == pre + (core + post);
      TrimLeftPadded(pre, core + post);
      TrimRightPadded(core, post);
    }
  }

  /** `part` occurs in `s` starting at position `at`. */
  predicate Segment(s: string, at: int, part: string) {
    0 <= at && at + |part| <= |s| && s[at..at + |part|] == part
  }

  /**
   * `s` is laid out as `a`, `b`, `c`, `d`, `e`: each part sits where the
   * parts before it end, and `s` holds nothing else.
   */
  predicate InFiveParts(s: string, a: string, b: string, c: string, d: string, e: string) {
    && |s| == |a| + |b| + |c| + |d| + |e|
    && Segment(s, 0, a) && Segment(s, |a|, b) && Segment(s, |a| + |b|, c)
    && Segment(s, |a| + |b| + |c|, d) && Segment(s, |s| - |e|, e)
  }

  lemma FiveParts(a: string, b: string, c: string, d: string, e: string)
    ensures InFiveParts(a + b + c + d + e, a, b, c, d, e)
  {
    var s := a + b + c + d + e;
    assert s[..|a|] == a;
    assert s[|a|..|a| + |b|] == b;
    assert s[|a| + |b|..|a| + |b| + |c|] == c;
    assert s[|a| + |b| + |c|..|a| + |b| + |c| + |d|] == d;
    assert s[|s| - |e|..] == e;
  }

  /** Python's `s.replace(c, "")`: every occurrence of `c` dropped, every other character kept in order. */
  function RemoveAll(s: string, c: char): (r: string)
    ensures c !in r
    ensures |r| <= |s|
    ensures forall x :: x in r <==> x in s && x != c
  {
    if s == [] then []
    else (if s[0] == c then [] else [s[0]]) + RemoveAll(s[1..], c)
  }

  lemma {:induction false} RemoveAllAppend(s: string, t: string, c: char)
    ensures RemoveAll(s + t, c) == RemoveAll(s, c) + RemoveAll(t, c)
    decreases |s|
  {
    if s == [] {
      assert s + t == t;
    } else {
      var head := if s[0] == c then [] else [s[0]];
      assert (s + t)[0] == s[0] && (s + t)[1..] == s[1..] + t;
      assert RemoveAll(s + t, c) == head + RemoveAll(s[1..] + t, c);
      RemoveAllAppend(s[1..], t, c);
      assert RemoveAll(s, c) == head + RemoveAll(s[1..], c);
    }
  }

  /** Removing a character that does not occur changes nothing. */
  lemma {:induction false} RemoveAllAbsent(s: string, c: char)
    requires c !in s
    ensures RemoveAll(s, c) == s
    decreases |s|
  {
    if s != [] {
      RemoveAllAbsent(s[1..], c);
    }
  }

  /** Stripping two characters in either order gives the same string. */
  lemma {:induction false} RemoveAllCommute(s: string, a: char, b: char)
    ensures RemoveAll(RemoveAll(s, a), b) == RemoveAll(RemoveAll(s, b), a)
    decreases |s|
  {
    if s != [] {
      var head := [s[0]];
      assert s == head + s[1..];
      RemoveAllAppend(head, s[1..], a);
      RemoveAllAppend(head, s[1..], b);
      RemoveAllAppend(RemoveAll(head, a), RemoveAll(s[1..], a), b);
      RemoveAllAppend(RemoveAll(head, b), RemoveAll(s[1..], b), a);
      RemoveAllCommute(s[1..], a, b);
    }
  }

  /** Python's `s.endswith(suffix)`. */
  predicate EndsWith(s: string, suffix: string) {
    |suffix| <= |s| && s[|s| - |suffix|..] == suffix
  }

  /** `p` occurs in `s` starting at position `i`. */
  predicate OccursAt(s: string, p: string, i: nat) {
    i + |p| <= |s| && s[i..i + |p|] == p
  }

  /** Python's substring test `p in s`. */
  function Contains(s: string, p: string): (r: bool)
    ensures r <==> exists i: nat :: OccursAt(s, p, i)
    decreases |s|
  {
    if |p| > |s| then false
    else if s[..|p|] == p then
      assert OccursAt(s, p, 0);
      true
    else
      var r := Contains(s[1..], p);
      assert forall i: nat :: OccursAt(s[1..], p, i) <==> OccursAt(s, p, i + 1) by {
        forall i: nat ensures OccursAt(s[1..], p, i) <==> OccursAt(s, p, i + 1) {
          if i + 1 + |p| <= |s| {
            assert s[1..][i..i + |p|] == s[i + 1..i + 1 + |p|];
          }
        }
      }
      assert forall i: nat :: OccursAt(s, p, i) ==> i > 0;
      assert forall i: nat :: OccursAt(s, p, i) ==> OccursAt(s[1..], p, i - 1);
      r
  }

  /** Python's `str.lower()` restricted to the ASCII letters, which is all that `lower() == "nan"` can depend on. */
  function LowerAscii(c: char): char {
    if 'A' <= c <= 'Z' then (c as int + 32) as char else c
  }

  /** Python's `s.lower() == "nan"`. */
  predicate IsNanWord(s: string) {
    |s| == 3 && LowerAscii(s[0]) == 'n' && LowerAscii(s[1]) == 'a' && LowerAscii(s[2]) == 'n'
  }

  predicate IsDigit(c: char) {
    '0' <= c <= '9'
  }

  predicate AllDigits(s: string) {
    forall i :: 0 <= i < |s| ==> IsDigit(s[i])
  }

  /** A run of digits has no whitespace at its edges. */
  lemma DigitsNoEdgeSpace(s: string)
    requires AllDigits(s)
    ensures NoEdgeSpace(s)
  {
    if s != [] {
      assert IsDigit(s[0]) && IsDigit(s[|s| - 1]);
    }
  }

  function DigitChar(d: nat): (c: char)
    requires d < 10
    ensures IsDigit(c)
  {
    ('0' as int + d) as char
  }

  function DigitValue(c: char): (d: nat)
    requires IsDigit(c)
    ensures d < 10 && DigitChar(d) == c
  {
    c as int - '0' as int
  }

  /** Python's `str(n)` for a natural number: decimal digits without leading zeros. */
  function ShowNat(n: nat): (s: string)
    ensures |s| >= 1 && AllDigits(s)
    ensures s[0] == '0' ==> n == 0
    decreases n
  {
    if n < 10 then [DigitChar(n)] else ShowNat(n / 10) + [DigitChar(n % 10)]
  }

  /** Three digits with leading zeros: a group after a thousands separator. */
  function Pad3(n: nat): (s: string)
    requires n < 1000
    ensures |s| == 3 && AllDigits(s)
  {
    [DigitChar(n / 100), DigitChar(n / 10 % 10), DigitChar(n % 10)]
  }

  /** Python's `f"{n:,}"`: decimal digits grouped by three with `,`. */
  function ShowGrouped(n: nat): (s: string)
    ensures |s| >= 1 && IsDigit(s[0])
    decreases n
  {
    if n < 1000 then ShowNat(n) else ShowGrouped(n / 1000) + "," + Pad3(n % 1000)
  }

  lemma ShowNatStep(q: nat, d: nat)
    requires q >= 1 && d < 10
    ensures ShowNat(10 * q + d) == ShowNat(q) + [DigitChar(d)]
  {
    assert (10 * q + d) / 10 == q;
    assert (10 * q + d) % 10 == d;
  }

  lemma ShowNatThousands(q: nat, r: nat)
    requires q >= 1 && r < 1000
    ensures ShowNat(1000 * q + r) == ShowNat(q) + Pad3(r)
  {
    var a, b, c := r / 100, r / 10 % 10, r % 10;
    var x1 := 10 * q + a;
    var x2 := 10 * x1 + b;
    assert 1000 * q + r == 10 * x2 + c by {
      assert r / 10 == 10 * a + b;
      assert r == 10 * (r / 10) + c;
    }
    calc {
      ShowNat(10 * x2 + c);
      == { ShowNatStep(x2, c); }
      ShowNat(x2) + [DigitChar(c)];
      == { ShowNatStep(x1, b); }
      ShowNat(x1) + [DigitChar(b)] + [DigitChar(c)];
      == { ShowNatStep(q, a); }
      ShowNat(q) + [DigitChar(a)] + [DigitChar(b)] + [DigitChar(c)];
      == { assert Pad3(r) == [DigitChar(a)] + [DigitChar(b)] + [DigitChar(c)]; }
      ShowNat(q) + Pad3(r);
    }
  }

  /** Dropping `,` from a join around one separator keeps the digits after it. */
  lemma RemoveSeparatorJoin(g: string, p: string)
    requires ',' !in p
    ensures RemoveAll(g + "," + p, ',') == RemoveAll(g, ',') + p
  {
    calc {
      RemoveAll(g + "," + p, ',');
      == { RemoveAllAppend(g + ",", p, ','); }
      RemoveAll(g + ",", ',') + RemoveAll(p, ',');
      == { RemoveAllAbsent(p, ','); }
      RemoveAll(g + ",", ',') + p;
      == { RemoveAllAppend(g, ",", ','); assert RemoveAll(",", ',') == []; }
      RemoveAll(g, ',') + [] + p;
    }
    assert RemoveAll(g, ',') + [] == RemoveAll(g, ',');
  }

  /** Dropping every `,` from the grouped rendering gives the plain rendering. */
  lemma {:induction false} UngroupShowGrouped(n: nat)
    ensures RemoveAll(ShowGrouped(n), ',') == ShowNat(n)
    decreases n
  {
    if n < 1000 {
      assert ',' !in ShowNat(n) by {
        assert forall i :: 0 <= i < |ShowNat(n)| ==> ShowNat(n)[i] != ',';
      }
      RemoveAllAbsent(ShowNat(n), ',');
    } else {
      var q, r := n / 1000, n % 1000;
      var p := Pad3(r);
      assert ShowGrouped(n) == ShowGrouped(q) + "," + p;
      assert ',' !in p;
      RemoveSeparatorJoin(ShowGrouped(q), p);
      UngroupShowGrouped(q);
      ShowNatThousands(q, r);
      assert n == 1000 * q + r;
    }
  }
}
