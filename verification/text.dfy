/** The string operations the editor's handlers are built from, with the
    meaning JavaScript gives them: `split` and `join` on a one-character
    separator, `indexOf` and `lastIndexOf`, and the geometry of the line that
    holds a given offset of the buffer. A `char` here stands for one UTF-16
    code unit of a JavaScript string. */
module Text {

  /** The buffer's line separator. */
  const NL: char := '\n'

  /** Number of occurrences of `c` in `s`. */
  function Count(s: string, c: char): nat
  {
    if |s| == 0 then 0 else (if s[0] == c then 1 else 0) + Count(s[1..], c)
  }

  /** `s` does not contain `c`. */
  predicate Free(s: string, c: char)
  {
    forall j :: 0 <= j < |s| ==> s[j] != c
  }

  lemma {:induction false} CountConcat(a: string, b: string, c: char)
    ensures Count(a + b, c) == Count(a, c) + Count(b, c)
  {
    if |a| == 0 {
      assert a + b == b;
    } else {
      assert (a + b)[1..] == a[1..] + b;
      CountConcat(a[1..], b, c);
    }
  }

  lemma {:induction false} CountFree(s: string, c: char)
    requires Free(s, c)
    ensures Count(s, c) == 0
  {
    if |s| > 0 {
      CountFree(s[1..], c);
    }
  }

  /** `s.split(sep)` for a one-character separator: the separator-free pieces
      between consecutive separators, in order. Even the empty string splits
      into one (empty) piece. */
  function Split(s: string, sep: char): (r: seq<string>)
    ensures |r| == Count(s, sep) + 1
  {
    if |s| == 0 then [""]
    else
      var rest := Split(s[1..], sep);
      if s[0] == sep then [""] + rest else [[s[0]] + rest[0]] + rest[1..]
  }

  /** No piece of `ls` contains `c`. */
  predicate FreeAll(ls: seq<string>, c: char)
  {
    forall i :: 0 <= i < |ls| ==> Free(ls[i], c)
  }

  /** The pieces of a split hold no separator. */
  lemma {:induction false} SplitPiecesFree(s: string, sep: char)
    ensures FreeAll(Split(s, sep), sep)
  {
    if |s| > 0 {
      var rest := Split(s[1..], sep);
      SplitPiecesFree(s[1..], sep);
      var r := Split(s, sep);
      if s[0] == sep {
        assert forall i :: 1 <= i < |r| ==> r[i] == rest[i - 1];
      } else {
        assert forall i :: 1 <= i < |r| ==> r[i] == rest[i];
        assert r[0] == [s[0]] + rest[0];
      }
    }
  }

  lemma FreeSlice(ls: seq<string>, c: char, i: nat, j: nat)
    requires FreeAll(ls, c) && i <= j <= |ls|
    ensures FreeAll(ls[i..j], c)
  {
    assert forall k :: 0 <= k < j - i ==> ls[i..j][k] == ls[i + k];
  }

  lemma FreeConcat(a: seq<string>, b: seq<string>, c: char)
    requires FreeAll(a, c) && FreeAll(b, c)
    ensures FreeAll(a + b, c)
  {
    forall k | 0 <= k < |a + b|
      ensures Free((a + b)[k], c)
    {
      if k < |a| {
        assert (a + b)[k] == a[k];
      } else {
        assert (a + b)[k] == b[k - |a|];
      }
    }
  }

  /** `ls.join(sep)`. */
  function Join(ls: seq<string>, sep: char): string
  {
    if |ls| == 0 then ""
    else if |ls| == 1 then ls[0]
    else ls[0] + [sep] + Join(ls[1..], sep)
  }

  /** Joining the pieces of a split gives back the string. */
  lemma {:induction false} JoinSplit(s: string, sep: char)
    ensures Join(Split(s, sep), sep) == s
  {
    if |s| > 0 {
      var rest := Split(s[1..], sep);
      JoinSplit(s[1..], sep);
      var r := Split(s, sep);
      if s[0] == sep {
        assert r == [""] + rest;
        assert r[1..] == rest;
        assert s == [sep] + s[1..];
      } else {
        assert r == [[s[0]] + rest[0]] + rest[1..];
        assert s == [s[0]] + s[1..];
        if |rest| > 1 {
          assert r[1..] == rest[1..];
        }
      }
    }
  }

  lemma {:induction false} SplitFree(s: string, sep: char)
    requires Free(s, sep)
    ensures Split(s, sep) == [s]
  {
    CountFree(s, sep);
    JoinSplit(s, sep);
  }

  /** Splitting at a separator splits the two sides independently. */
  lemma {:induction false} SplitAtSep(a: string, b: string, sep: char)
    ensures Split(a + [sep] + b, sep) == Split(a, sep) + Split(b, sep)
  {
    var t := a + [sep] + b;
    if |a| == 0 {
      assert t == [sep] + b;
      assert t[1..] == b;
    } else {
      assert t[0] == a[0];
      assert t[1..] == a[1..] + [sep] + b;
      SplitAtSep(a[1..], b, sep);
      var ra := Split(a[1..], sep);
      var rb := Split(b, sep);
      if a[0] == sep {
        assert Split(t, sep) == [""] + (ra + rb);
      } else {
        assert Split(t, sep) == [[a[0]] + (ra + rb)[0]] + (ra + rb)[1..];
        assert (ra + rb)[0] == ra[0];
        assert (ra + rb)[1..] == ra[1..] + rb;
      }
    }
  }

  /** Splitting the join of separator-free pieces gives back the pieces. */
  lemma {:induction false} SplitJoin(ls: seq<string>, sep: char)
    requires |ls| >= 1 && FreeAll(ls, sep)
    ensures Split(Join(ls, sep), sep) == ls
  {
    SplitFree(ls[0], sep);
    if |ls| > 1 {
      SplitJoin(ls[1..], sep);
      SplitAtSep(ls[0], Join(ls[1..], sep), sep);
      assert ls == [ls[0]] + ls[1..];
    }
  }

  lemma {:induction false} JoinConcat(a: seq<string>, b: seq<string>, sep: char)
    requires |a| >= 1 && |b| >= 1
    ensures Join(a + b, sep) == Join(a, sep) + [sep] + Join(b, sep)
  {
    if |a| == 1 {
      assert (a + b)[1..] == b;
    } else {
      assert (a + b)[1..] == a[1..] + b;
      JoinConcat(a[1..], b, sep);
    }
  }

  /** The text that lines `ls` contribute before a following line. */
  function Leading(ls: seq<string>, sep: char): string
  {
    if |ls| == 0 then "" else Join(ls, sep) + [sep]
  }

  /** The text that lines `ls` contribute after a preceding line. */
  function Trailing(ls: seq<string>, sep: char): string
  {
    if |ls| == 0 then "" else [sep] + Join(ls, sep)
  }

  lemma JoinAround(a: seq<string>, m: seq<string>, b: seq<string>, sep: char)
    requires |m| >= 1
    ensures Join(a + m + b, sep) == Leading(a, sep) + Join(m, sep) + Trailing(b, sep)
  {
    if |b| > 0 {
      JoinConcat(a + m, b, sep);
    } else {
      assert a + m + b == a + m;
    }
    if |a| > 0 {
      JoinConcat(a, m, sep);
    } else {
      assert a + m == m;
    }
  }

  /** Offset of the first character of the line holding offset `p`. */
  function LineStart(v: string, p: nat): (r: nat)
    requires p <= |v|
    ensures r <= p && (r == 0 || v[r - 1] == NL)
    ensures forall i :: r <= i < p ==> v[i] != NL
  {
    if p == 0 || v[p - 1] == NL then p else LineStart(v, p - 1)
  }

  /** Offset just past the last character of the line holding offset `p`:
      the newline that ends it, or the end of the buffer. */
  function LineEnd(v: string, p: nat): (r: nat)
    requires p <= |v|
    ensures p <= r <= |v| && (r == |v| || v[r] == NL)
    ensures forall i :: p <= i < r ==> v[i] != NL
    decreases |v| - p
  {
    if p == |v| || v[p] == NL then p else LineEnd(v, p + 1)
  }

  /** The index of the line holding offset `p`, computed as the editor's
      handlers compute it: the number of pieces of `v[..p]` split on newlines,
      minus one. */
  function LineOf(v: string, p: nat): (r: nat)
    requires p <= |v|
    ensures r == Count(v[..p], NL)
  {
    |Split(v[..p], NL)| - 1
  }

  /** Newline counts agree at both ends of a newline-free stretch. */
  lemma CountAcross(v: string, a: nat, b: nat)
    requires a <= b <= |v|
    requires forall i :: a <= i < b ==> v[i] != NL
    ensures Count(v[..a], NL) == Count(v[..b], NL)
  {
    assert v[..b] == v[..a] + v[a..b];
    assert Free(v[a..b], NL);
    CountFree(v[a..b], NL);
    CountConcat(v[..a], v[a..b], NL);
  }

  /** More of the buffer holds at least as many newlines. */
  lemma CountMono(v: string, p: nat, q: nat)
    requires p <= q <= |v|
    ensures Count(v[..p], NL) <= Count(v[..q], NL) <= Count(v, NL)
  {
    assert v[..q] == v[..p] + v[p..q];
    CountConcat(v[..p], v[p..q], NL);
    assert v == v[..q] + v[q..];
    CountConcat(v[..q], v[q..], NL);
  }

  /** An offset lies on the first line exactly when no newline precedes it. */
  lemma FirstLine(v: string, p: nat)
    requires p <= |v|
    ensures LineStart(v, p) == 0 <==> Count(v[..p], NL) == 0
  {
    var B := LineStart(v, p);
    CountAcross(v, B, p);
    if B > 0 {
      assert v[..B] == v[..B - 1] + [NL];
      CountConcat(v[..B - 1], [NL], NL);
    }
  }

  /** Cutting the buffer at a newline (or at its end) cuts its lines. */
  lemma SplitPrefix(v: string, q: nat)
    requires q <= |v| && (q == |v| || v[q] == NL)
    ensures var lines := Split(v, NL);
            var k := Count(v[..q], NL);
            && k < |lines|
            && lines[..k + 1] == Split(v[..q], NL)
            && v[q..] == Trailing(lines[k + 1..], NL)
  {
    var lines := Split(v, NL);
    var L := Split(v[..q], NL);
    if q == |v| {
      assert v[..q] == v;
    } else {
      assert v == v[..q] + [NL] + v[q + 1..];
      SplitAtSep(v[..q], v[q + 1..], NL);
      JoinSplit(v[q + 1..], NL);
      assert lines == L + Split(v[q + 1..], NL);
      assert lines[|L|..] == Split(v[q + 1..], NL);
      assert v[q..] == [NL] + v[q + 1..];
    }
  }

  /** The lines before a line start are the text before it. */
  lemma SplitBefore(v: string, b: nat)
    requires 0 < b <= |v| && v[b - 1] == NL
    ensures var lines := Split(v, NL);
            var k := Count(v[..b], NL);
            && 0 < k < |lines|
            && v[..b] == Leading(lines[..k], NL)
  {
    var lines := Split(v, NL);
    SplitPrefix(v, b - 1);
    var k0 := Count(v[..b - 1], NL);
    assert v[..b] == v[..b - 1] + [NL];
    CountConcat(v[..b - 1], [NL], NL);
    assert Count(v[..b], NL) == k0 + 1;
    JoinSplit(v[..b - 1], NL);
    assert lines[..k0 + 1] == Split(v[..b - 1], NL);
  }

  /** The buffer seen as lines around offset `p`: line number
      `Count(v[..p], NL)` is the text between `LineStart` and `LineEnd`, the
      lines before it are the text before `LineStart`, and the lines after it
      are the text after `LineEnd`. */
  lemma LineAt(v: string, p: nat)
    requires p <= |v|
    ensures var lines := Split(v, NL);
            var k := Count(v[..p], NL);
            && k < |lines|
            && lines[k] == v[LineStart(v, p)..LineEnd(v, p)]
            && v[..LineStart(v, p)] == Leading(lines[..k], NL)
            && v[..LineEnd(v, p)] == Join(lines[..k + 1], NL)
            && v[LineEnd(v, p)..] == Trailing(lines[k + 1..], NL)
  {
    var lines := Split(v, NL);
    var B, E := LineStart(v, p), LineEnd(v, p);
    var k := Count(v[..p], NL);
    assert Count(v[..E], NL) == k && Count(v[..B], NL) == k by {
      CountAcross(v, p, E);
      CountAcross(v, B, p);
    }
    assert k < |lines| && lines[..k + 1] == Split(v[..E], NL) && v[E..] == Trailing(lines[k + 1..], NL) by {
      SplitPrefix(v, E);
    }
    var L := lines[..k + 1];
    assert v[..E] == Join(L, NL) by {
      JoinSplit(v[..E], NL);
    }
    LineAtStart(v, B, E, k, L);
    assert L[..k] == lines[..k];
  }

  lemma LineAtStart(v: string, B: nat, E: nat, k: nat, L: seq<string>)
    requires B <= E <= |v| && (B == 0 || v[B - 1] == NL) && (E == |v| || v[E] == NL)
    requires forall i :: B <= i < E ==> v[i] != NL
    requires Count(v[..B], NL) == k && |L| == k + 1 && L == Split(v[..E], NL)
    ensures L[k] == v[B..E] && v[..B] == Leading(L[..k], NL)
  {
    assert Free(v[B..E], NL);
    if B == 0 {
      assert v[..E] == v[B..E];
      SplitFree(v[..E], NL);
    } else {
      var lines := Split(v, NL);
      assert 0 < k && v[..B] == Leading(lines[..k], NL) by {
        SplitBefore(v, B);
      }
      assert L[..k] == lines[..k] by {
        SplitPrefix(v, E);
        assert L == lines[..k + 1];
      }
      assert v[..B] + v[B..E] == v[..E];
      LineAfterLeading(L, k, v[..B], v[B..E]);
    }
  }

  /** A line that follows the text of the lines before it is the next line. */
  lemma LineAfterLeading(ls: seq<string>, k: nat, pre: string, line: string)
    requires 0 < k < |ls| && |ls| == k + 1
    requires pre == Leading(ls[..k], NL)
    requires Free(line, NL)
    requires Split(pre + line, NL) == ls
    ensures ls[k] == line
  {
    assert pre == Join(ls[..k], NL) + [NL];
    var j := Join(ls[..k], NL);
    assert pre + line == j + [NL] + line;
    SplitAtSep(j, line, NL);
    SplitFree(line, NL);
    assert ls == Split(j, NL) + [line];
  }

  /** The text after the end of the line holding `p` is the lines after
      it. */
  lemma AfterLine(v: string, p: nat)
    requires p <= |v|
    ensures var lines := Split(v, NL);
            var k := Count(v[..p], NL);
            k < |lines| && v[LineEnd(v, p)..] == Trailing(lines[k + 1..], NL)
  {
    LineAt(v, p);
  }

  /** One more character adds one to the count exactly when it is `c`. */
  lemma CountStep(v: string, i: nat, c: char)
    requires i < |v|
    ensures Count(v[..i + 1], c) == Count(v[..i], c) + (if v[i] == c then 1 else 0)
  {
    assert v[..i + 1] == v[..i] + [v[i]];
    CountConcat(v[..i], [v[i]], c);
  }

  /** The line before a line start `b`, which holds `k` newlines before it,
      is line `k - 1`; the lines before that are the text before it. */
  lemma PrevLine(v: string, b: nat, k: nat)
    requires 0 < b <= |v| && v[b - 1] == NL && Count(v[..b], NL) == k
    ensures var lines := Split(v, NL);
            var P := LineStart(v, b - 1);
            && 0 < k <= |lines|
            && lines[k - 1] == v[P..b - 1]
            && v[..P] == Leading(lines[..k - 1], NL)
  {
    CountStep(v, b - 1, NL);
    assert LineEnd(v, b - 1) == b - 1;
    LineAt(v, b - 1);
  }

  /** The line after the newline at `e`, which holds `k` newlines up to and
      including it, is line `k`; the lines after it are the text after its
      end. */
  lemma NextLine(v: string, e: nat, k: nat)
    requires e < |v| && v[e] == NL && Count(v[..e + 1], NL) == k
    ensures var lines := Split(v, NL);
            var N := LineEnd(v, e + 1);
            && e < N
            && k < |lines|
            && lines[k] == v[e + 1..N]
            && v[N..] == Trailing(lines[k + 1..], NL)
  {
    assert LineStart(v, e + 1) == e + 1;
    LineAt(v, e + 1);
  }

  /** The lines from the one holding `p` to the one holding `q`, joined, are
      the text from the start of the first to the end of the last. */
  lemma BlockText(v: string, p: nat, q: nat)
    requires p <= q <= |v|
    ensures var lines := Split(v, NL);
            var s, e := Count(v[..p], NL), Count(v[..q], NL);
            && s <= e < |lines|
            && LineStart(v, p) <= LineEnd(v, q)
            && Join(lines[s..e + 1], NL) == v[LineStart(v, p)..LineEnd(v, q)]
  {
    BlockPrefix(v, p, q);
    var lines := Split(v, NL);
    var s, e := Count(v[..p], NL), Count(v[..q], NL);
    CutAt(v, LineStart(v, p), LineEnd(v, q), Join(lines[s..e + 1], NL));
  }

  /** The text up to the end of the line holding `q` is the text before the
      line holding `p` followed by the lines from `p`'s to `q`'s. */
  lemma BlockPrefix(v: string, p: nat, q: nat)
    requires p <= q <= |v|
    ensures var lines := Split(v, NL);
            var s, e := Count(v[..p], NL), Count(v[..q], NL);
            && s <= e < |lines|
            && LineStart(v, p) <= LineEnd(v, q)
            && v[..LineEnd(v, q)] == v[..LineStart(v, p)] + Join(lines[s..e + 1], NL)
  {
    var lines := Split(v, NL);
    var s, e := Count(v[..p], NL), Count(v[..q], NL);
    CountMono(v, p, q);
    BeforeLine(v, p);
    ThroughLine(v, q);
    JoinPrefix(lines, s, e + 1);
    Rewrite(v[..LineEnd(v, q)], Join(lines[..e + 1], NL), Leading(lines[..s], NL), Join(lines[s..e + 1], NL), v[..LineStart(v, p)]);
  }

  /** Replacing equals by equals in a concatenation. */
  lemma Rewrite(x: string, y: string, l: string, j: string, z: string)
    requires x == y && y == l + j && z == l
    ensures x == z + j
  {
  }

  /** The text before the line holding `p` is the lines before it. */
  lemma BeforeLine(v: string, p: nat)
    requires p <= |v|
    ensures var lines := Split(v, NL);
            var k := Count(v[..p], NL);
            k < |lines| && v[..LineStart(v, p)] == Leading(lines[..k], NL)
  {
    LineAt(v, p);
  }

  /** The text through the end of the line holding `p` is the lines up to
      and including it. */
  lemma ThroughLine(v: string, p: nat)
    requires p <= |v|
    ensures var lines := Split(v, NL);
            var k := Count(v[..p], NL);
            k < |lines| && v[..LineEnd(v, p)] == Join(lines[..k + 1], NL)
  {
    LineAt(v, p);
  }

  /** The first `n` lines joined are the first `s` of them followed by the
      rest. */
  lemma JoinPrefix(ls: seq<string>, s: nat, n: nat)
    requires s < n <= |ls|
    ensures Join(ls[..n], NL) == Leading(ls[..s], NL) + Join(ls[s..n], NL)
  {
    assert ls[..n] == ls[..s] + ls[s..n] + [];
    JoinAround(ls[..s], ls[s..n], [], NL);
  }

  /** The text between `b` and `e` is what follows `v[..b]` in `v[..e]`. */
  lemma CutAt(v: string, b: nat, e: nat, j: string)
    requires b <= e <= |v| && v[..e] == v[..b] + j
    ensures v[b..e] == j
  {
    assert v[..e] == v[..b] + v[b..e];
    PrefixCancel(v[..b], j, v[b..e]);
  }

  lemma PrefixCancel(a: string, x: string, y: string)
    requires a + x == a + y
    ensures x == y
  {
    assert x == (a + x)[|a|..];
    assert y == (a + y)[|a|..];
  }

  /** `pat` occurs in `s` at offset `i`. The comparison is made character
      by character (`OccursAtIff` states it as an equality of slices). */
  predicate OccursAt(s: string, pat: string, i: int)
  {
    0 <= i && i + |pat| <= |s| && SameFrom(s, pat, i, 0)
  }

  /** With `pat` laid at offset `i` of `s`, its characters from the `k`-th
      on are those of `s`. */
  predicate SameFrom(s: string, pat: string, i: nat, k: nat)
    requires i + |pat| <= |s|
    decreases |pat| - k
  {
    k >= |pat| || (s[i + k] == pat[k] && SameFrom(s, pat, i, k + 1))
  }

  lemma {:induction false} SameFromIff(s: string, pat: string, i: nat, k: nat)
    requires i + |pat| <= |s| && k <= |pat|
    ensures SameFrom(s, pat, i, k) <==> s[i + k..i + |pat|] == pat[k..]
    decreases |pat| - k
  {
    if k < |pat| {
      SameFromIff(s, pat, i, k + 1);
      assert s[i + k..i + |pat|] == [s[i + k]] + s[i + k + 1..i + |pat|];
      assert pat[k..] == [pat[k]] + pat[k + 1..];
    }
  }

  lemma OccursAtIff(s: string, pat: string, i: int)
    ensures OccursAt(s, pat, i) <==> 0 <= i && i + |pat| <= |s| && s[i..i + |pat|] == pat
  {
    if 0 <= i && i + |pat| <= |s| {
      SameFromIff(s, pat, i, 0);
    }
  }

  lemma OccursNL(s: string, i: int)
    ensures OccursAt(s, [NL], i) <==> 0 <= i < |s| && s[i] == NL
  {
    if 0 <= i < |s| {
      assert SameFrom(s, [NL], i, 1);
    }
  }

  /** `x` clamped into `[0, hi]`, as `indexOf` and `lastIndexOf` clamp
      their position argument. */
  function Clamp(x: int, hi: nat): (r: nat)
    ensures r <= hi
  {
    if x < 0 then 0 else if x > hi then hi else x
  }

  /** `s.indexOf(pat, from)`: the first offset at or after `from` (clamped)
      where `pat` occurs, or -1 when there is none. */
  function IndexOf(s: string, pat: string, from: int): (r: int)
    ensures r == -1 || (Clamp(from, |s|) <= r && OccursAt(s, pat, r))
    ensures forall i :: Clamp(from, |s|) <= i && (r == -1 || i < r) ==> !OccursAt(s, pat, i)
  {
    IndexFrom(s, pat, Clamp(from, |s|))
  }

  function IndexFrom(s: string, pat: string, i: nat): (r: int)
    requires i <= |s|
    ensures r == -1 || (i <= r && OccursAt(s, pat, r))
    ensures forall j :: i <= j && (r == -1 || j < r) ==> !OccursAt(s, pat, j)
    decreases |s| - i
  {
    if i + |pat| > |s| then -1
    else if OccursAt(s, pat, i) then i
    else
      assert |pat| > 0;
      IndexFrom(s, pat, i + 1)
  }

  /** `s.lastIndexOf(pat, from)`: the last offset at or before `from`
      (clamped) where `pat` occurs, or -1 when there is none. */
  function LastIndexOf(s: string, pat: string, from: int): (r: int)
    ensures r == -1 || (r <= Clamp(from, |s|) && OccursAt(s, pat, r))
    ensures forall i :: r < i <= Clamp(from, |s|) ==> !OccursAt(s, pat, i)
  {
    var start := Clamp(from, |s|);
    LastFrom(s, pat, if |s| - |pat| < start then |s| - |pat| else start)
  }

  function LastFrom(s: string, pat: string, i: int): (r: int)
    ensures r == -1 || (0 <= r <= i && OccursAt(s, pat, r))
    ensures forall j :: r < j <= i ==> !OccursAt(s, pat, j)
    decreases i + 1
  {
    if i < 0 then -1
    else if OccursAt(s, pat, i) then i
    else LastFrom(s, pat, i - 1)
  }
}
