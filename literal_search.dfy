/**
 * Literal keyword search: the scan that getme performs with a regular
 * expression built from a quoted (hence literal) keyword and asked for all of
 * its matches.  Such a scan is leftmost and non-overlapping: it looks for the
 * keyword at each position from left to right and, after a match, resumes at
 * the end of that match.  Texts are sequences of units (one `char` per byte of
 * the source's strings).
 */
module LiteralSearch {

  /** A half-open range [start, end) of positions in a text. */
  datatype Span = Span(start: nat, end: nat)

  /** The keyword `k` occurs in `s` beginning at position `i`. */
  predicate OccursAt(s: string, k: string, i: nat)
  {
    i + |k| <= |s| && s[i..i + |k|] == k
  }

  /** The spans lie in [from, n), each one ending at or before the start of
      every later one. */
  ghost predicate Ordered(ms: seq<Span>, from: nat, n: nat)
  {
    && from <= n
    && (forall i :: 0 <= i < |ms| ==> from <= ms[i].start <= ms[i].end <= n)
    && (forall i, j :: 0 <= i < j < |ms| ==> ms[i].end <= ms[j].start)
  }

  /** Every span covers exactly one occurrence of the keyword. */
  ghost predicate AllOccurrences(s: string, k: string, ms: seq<Span>)
  {
    forall i :: 0 <= i < |ms| ==> ms[i].end == ms[i].start + |k| && OccursAt(s, k, ms[i].start)
  }

  /** Position `q` lies inside one of the spans. */
  ghost predicate Covered(ms: seq<Span>, q: nat)
  {
    exists i :: 0 <= i < |ms| && ms[i].start <= q < ms[i].end
  }

  /**
   * The reference definition of a leftmost, non-overlapping scan of `s` for
   * `k` starting at `from`: the spans are ordered occurrences of `k`, and
   * every occurrence of `k` at or after `from` begins inside one of them, so
   * the scan skipped no occurrence in the stretches between its matches.
   */
  ghost predicate IsLeftmostScan(s: string, k: string, from: nat, ms: seq<Span>)
  {
    && Ordered(ms, from, |s|)
    && AllOccurrences(s, k, ms)
    && forall q: nat {:trigger Covered(ms, q)} :: from <= q && OccursAt(s, k, q) ==> Covered(ms, q)
  }

  /** The scan from position `pos`: try the keyword at `pos`; on a match,
      record it and resume at its end, otherwise move on by one position. */
  function MatchesFrom(s: string, k: string, pos: nat): seq<Span>
    requires |k| > 0 && pos <= |s|
    decreases |s| - pos
  {
    if pos + |k| > |s| then []
    else if OccursAt(s, k, pos) then [Span(pos, pos + |k|)] + MatchesFrom(s, k, pos + |k|)
    else MatchesFrom(s, k, pos + 1)
  }

  /**
   * All the matches of `k` in `s`, as the source obtains them: half-open
   * spans within the text, left to right and non-overlapping, each one
   * covering the keyword.
   */
  function FindAll(s: string, k: string): (ms: seq<Span>)
    requires |k| > 0
    ensures forall i :: 0 <= i < |ms| ==> ms[i].start < ms[i].end <= |s| && s[ms[i].start..ms[i].end] == k
    ensures forall i, j :: 0 <= i < j < |ms| ==> ms[i].start < ms[j].start && ms[i].end <= ms[j].start
  {
    MatchesFromIsLeftmost(s, k, 0);
    MatchesFrom(s, k, 0)
  }

  /** Dropping the first span of an ordered list leaves an ordered list that
      starts where that span ends. */
  lemma OrderedTail(ms: seq<Span>, from: nat, n: nat)
    requires Ordered(ms, from, n) && |ms| > 0
    ensures Ordered(ms[1..], ms[0].end, n)
  {
    assert forall i :: 0 <= i < |ms| - 1 ==> ms[1..][i] == ms[i + 1];
  }

  /** A match at `pos` followed by a leftmost scan from its end is a leftmost
      scan from `pos`. */
  lemma LeftmostCons(s: string, k: string, pos: nat, rest: seq<Span>)
    requires |k| > 0 && OccursAt(s, k, pos)
    requires IsLeftmostScan(s, k, pos + |k|, rest)
    ensures IsLeftmostScan(s, k, pos, [Span(pos, pos + |k|)] + rest)
  {
    var ms := [Span(pos, pos + |k|)] + rest;
    assert forall i :: 0 < i < |ms| ==> ms[i] == rest[i - 1];
    assert Ordered(ms, pos, |s|);
    assert AllOccurrences(s, k, ms);
    forall q: nat | pos <= q && OccursAt(s, k, q) ensures Covered(ms, q) {
      if q < pos + |k| {
        assert ms[0].start <= q < ms[0].end;
      } else {
        assert Covered(rest, q);
        var i :| 0 <= i < |rest| && rest[i].start <= q < rest[i].end;
        assert ms[i + 1] == rest[i];
      }
    }
  }

  /** Without a match at `pos`, a leftmost scan from `pos + 1` is a leftmost
      scan from `pos`. */
  lemma LeftmostSkip(s: string, k: string, pos: nat, ms: seq<Span>)
    requires pos < |s| && !OccursAt(s, k, pos)
    requires IsLeftmostScan(s, k, pos + 1, ms)
    ensures IsLeftmostScan(s, k, pos, ms)
  {
    forall q: nat | pos <= q && OccursAt(s, k, q) ensures Covered(ms, q) {
      assert q != pos;
    }
  }

  /** The scan from `pos` is the leftmost non-overlapping scan from `pos`. */
  lemma {:induction false} MatchesFromIsLeftmost(s: string, k: string, pos: nat)
    requires |k| > 0 && pos <= |s|
    ensures IsLeftmostScan(s, k, pos, MatchesFrom(s, k, pos))
    decreases |s| - pos
  {
    var ms := MatchesFrom(s, k, pos);
    if pos + |k| > |s| {
      assert ms == [];
    } else if OccursAt(s, k, pos) {
      MatchesFromIsLeftmost(s, k, pos + |k|);
      LeftmostCons(s, k, pos, MatchesFrom(s, k, pos + |k|));
    } else {
      MatchesFromIsLeftmost(s, k, pos + 1);
      LeftmostSkip(s, k, pos, MatchesFrom(s, k, pos + 1));
    }
  }

  /** FindAll is the leftmost non-overlapping scan of the whole text. */
  lemma FindAllIsLeftmost(s: string, k: string)
    requires |k| > 0
    ensures IsLeftmostScan(s, k, 0, FindAll(s, k))
  {
    MatchesFromIsLeftmost(s, k, 0);
  }

  /** A leftmost scan stays one, from the end of its first span, once that
      span is dropped. */
  lemma LeftmostTail(s: string, k: string, from: nat, ms: seq<Span>)
    requires IsLeftmostScan(s, k, from, ms) && |ms| > 0
    ensures IsLeftmostScan(s, k, ms[0].end, ms[1..])
  {
    var tail := ms[1..];
    assert Ordered(tail, ms[0].end, |s|) by {
      forall i | 0 <= i < |tail| ensures tail[i] == ms[i + 1] { }
    }
    assert AllOccurrences(s, k, tail);
    forall q: nat | ms[0].end <= q && OccursAt(s, k, q) ensures Covered(tail, q) {
      assert Covered(ms, q);
      var i :| 0 <= i < |ms| && ms[i].start <= q < ms[i].end;
      assert i != 0;
      assert tail[i - 1] == ms[i];
    }
  }

  /** Two leftmost scans from the same position are both empty or begin with
      the same span: each one's first match is covered by the other, so
      neither can begin before the other. */
  lemma LeftmostHeadsAgree(s: string, k: string, from: nat, a: seq<Span>, b: seq<Span>)
    requires IsLeftmostScan(s, k, from, a) && IsLeftmostScan(s, k, from, b)
    ensures a == [] <==> b == []
    ensures a != [] ==> a[0] == b[0]
  {
    if a != [] {
      assert Covered(b, a[0].start);
      var i :| 0 <= i < |b| && b[i].start <= a[0].start < b[i].end;
      assert b[0].start <= a[0].start;
    }
    if b != [] {
      assert Covered(a, b[0].start);
      var i :| 0 <= i < |a| && a[i].start <= b[0].start < a[i].end;
      assert a[0].start <= b[0].start;
    }
  }

  /** There is only one leftmost non-overlapping scan: any two lists of spans
      meeting the reference definition are equal. */
  lemma {:induction false} LeftmostScanUnique(s: string, k: string, from: nat, a: seq<Span>, b: seq<Span>)
    requires IsLeftmostScan(s, k, from, a) && IsLeftmostScan(s, k, from, b)
    ensures a == b
    decreases |a|
  {
    LeftmostHeadsAgree(s, k, from, a, b);
    if a != [] {
      LeftmostTail(s, k, from, a);
      LeftmostTail(s, k, from, b);
      LeftmostScanUnique(s, k, a[0].end, a[1..], b[1..]);
      assert a == [a[0]] + a[1..] && b == [b[0]] + b[1..];
    }
  }

  /** The scan finds nothing exactly when the keyword occurs nowhere in the
      text; finding nothing is a normal outcome, not an error. */
  lemma NoMatchesIffAbsent(s: string, k: string)
    requires |k| > 0
    ensures FindAll(s, k) == [] <==> forall q: nat :: !OccursAt(s, k, q)
  {
    var ms := FindAll(s, k);
    FindAllIsLeftmost(s, k);
    if ms != [] {
      assert OccursAt(s, k, ms[0].start);
    } else {
      forall q: nat ensures !OccursAt(s, k, q) {
        assert !Covered(ms, q);
      }
    }
  }

  /** No two occurrences of `k` in `s` overlap. */
  ghost predicate NoOverlappingOccurrences(s: string, k: string)
  {
    forall p: nat, q: nat :: p < q < p + |k| && OccursAt(s, k, p) ==> !OccursAt(s, k, q)
  }

  /** No proper suffix of `k` is also a prefix of it, so `k` cannot overlap
      itself (as with `hello`, but not with `aaa`). */
  ghost predicate Unbordered(k: string)
  {
    forall d :: 0 < d < |k| ==> k[d..] != k[..|k| - d]
  }

  /** A keyword that cannot overlap itself has no overlapping occurrences in
      any text. */
  lemma UnborderedNoOverlap(s: string, k: string)
    requires Unbordered(k)
    ensures NoOverlappingOccurrences(s, k)
  {
    forall p: nat, q: nat | p < q < p + |k| && OccursAt(s, k, p)
      ensures !OccursAt(s, k, q)
    {
      var d := q - p;
      assert k[d..] != k[..|k| - d];
      var j :| 0 <= j < |k| - d && k[d..][j] != k[..|k| - d][j];
      assert s[p..p + |k|][d + j] == s[q + j];
      assert s[q + j] != k[j];
      assert q + |k| > |s| || s[q..q + |k|][j] != k[j];
    }
  }

  /** An occurrence inside a stretch of a text is an occurrence in the text,
      shifted by the stretch's start. */
  lemma OccursInSlice(s: string, k: string, a: nat, b: nat, p: nat)
    requires a <= b <= |s| && OccursAt(s[a..b], k, p)
    ensures OccursAt(s, k, a + p)
  {
    forall j | 0 <= j < |k| ensures s[a + p..a + p + |k|][j] == k[j] {
      assert s[a..b][p..p + |k|][j] == s[a + p + j];
    }
    assert s[a + p..a + p + |k|] == k;
  }

  /** A stretch of a text without overlapping occurrences has none either. */
  lemma NoOverlapInSlice(s: string, k: string, a: nat, b: nat)
    requires a <= b <= |s| && NoOverlappingOccurrences(s, k)
    ensures NoOverlappingOccurrences(s[a..b], k)
  {
    forall p: nat, q: nat | p < q < p + |k| && OccursAt(s[a..b], k, p)
      ensures !OccursAt(s[a..b], k, q)
    {
      OccursInSlice(s, k, a, b, p);
      if OccursAt(s[a..b], k, q) {
        OccursInSlice(s, k, a, b, q);
        assert false;
      }
    }
  }

  /** When occurrences of the keyword never overlap, the scan reports every
      one of them. */
  lemma OccurrenceIsMatch(s: string, k: string, o: nat)
    requires |k| > 0 && NoOverlappingOccurrences(s, k) && OccursAt(s, k, o)
    ensures Span(o, o + |k|) in FindAll(s, k)
  {
    var ms := FindAll(s, k);
    FindAllIsLeftmost(s, k);
    assert Covered(ms, o);
    var i :| 0 <= i < |ms| && ms[i].start <= o < ms[i].end;
    assert OccursAt(s, k, ms[i].start);
    assert ms[i] == Span(o, o + |k|);
  }

  /** The leading spans of `ms` that end by `e`; for ordered spans these are
      all the spans that end by `e`. */
  function EndingBy(ms: seq<Span>, e: nat): (r: seq<Span>)
    ensures |r| <= |ms| && r == ms[..|r|]
    ensures forall i :: 0 <= i < |r| ==> r[i].end <= e
  {
    if ms == [] || ms[0].end > e then [] else [ms[0]] + EndingBy(ms[1..], e)
  }

  /** Scanning a prefix of a text finds exactly the matches of the whole text
      that end within the prefix. */
  lemma {:induction false} PrefixScan(s: string, k: string, e: nat, pos: nat)
    requires |k| > 0 && pos <= e <= |s|
    ensures MatchesFrom(s[..e], k, pos) == EndingBy(MatchesFrom(s, k, pos), e)
    decreases |s| - pos
  {
    var ms := MatchesFrom(s, k, pos);
    MatchesFromIsLeftmost(s, k, pos);
    if pos + |k| > e {
      assert ms != [] ==> ms[0].start >= pos;
    } else {
      assert s[..e][pos..pos + |k|] == s[pos..pos + |k|];
      if OccursAt(s, k, pos) {
        PrefixScan(s, k, e, pos + |k|);
        assert ms[1..] == MatchesFrom(s, k, pos + |k|);
      } else {
        PrefixScan(s, k, e, pos + 1);
      }
    }
  }

  /** Where EndingBy stops, the next span ends after the bound. */
  lemma {:induction false} EndingByStops(ms: seq<Span>, e: nat, n: nat)
    requires n == |EndingBy(ms, e)| < |ms|
    ensures ms[n].end > e
  {
    if ms[0].end <= e {
      EndingByStops(ms[1..], e, n - 1);
    }
  }
}
