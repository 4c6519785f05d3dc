/**
 * Keyword highlighting (getme's highlightKeyword): a second, independent
 * leftmost scan of a snippet for the keyword, replacing every match with the
 * match itself wrapped in an opening and a closing marker.
 *
 * The output is described as a list of pieces: the unmarked stretches of the
 * snippet and the matched stretches.  `Render` is the highlighted text,
 * `Erase` the same text with every marker pair deleted.
 */
module Highlighting {
  import opened LiteralSearch

  /** The opening marker (the terminal escape sequence for red text). */
  const Red: string := "\U{1B}[31m"
  /** The closing marker (the terminal escape sequence that resets colours). */
  const Reset: string := "\U{1B}[0m"

  /** A stretch of the highlighted text: left as it is, or wrapped in markers. */
  datatype Piece = Plain(text: string) | Marked(text: string)

  /** The text as printed: each marked stretch between `Red` and `Reset`. */
  function Render(ps: seq<Piece>): string
  {
    if ps == [] then []
    else
      (match ps[0]
       case Plain(t) => t
       case Marked(t) => Red + t + Reset)
      + Render(ps[1..])
  }

  /** The text with every marker pair deleted. */
  function Erase(ps: seq<Piece>): string
  {
    if ps == [] then [] else ps[0].text + Erase(ps[1..])
  }

  /** How many stretches are wrapped in markers. */
  function MarkedCount(ps: seq<Piece>): nat
  {
    if ps == [] then 0 else (if ps[0].Marked? then 1 else 0) + MarkedCount(ps[1..])
  }

  /** Where the marked stretches lie in `Erase(ps)`, counting positions from
      `offset`. */
  function MarkedSpans(ps: seq<Piece>, offset: nat): seq<Span>
  {
    if ps == [] then []
    else if ps[0].Marked? then [Span(offset, offset + |ps[0].text|)] + MarkedSpans(ps[1..], offset + |ps[0].text|)
    else MarkedSpans(ps[1..], offset + |ps[0].text|)
  }

  /** Splitting `s[from..]` at the ordered spans `ms`: the stretch before each
      span is left plain, the span itself is marked. */
  function PiecesOf(s: string, ms: seq<Span>, from: nat): seq<Piece>
    requires Ordered(ms, from, |s|)
    decreases |ms|
  {
    if ms == [] then [Plain(s[from..])]
    else
      OrderedTail(ms, from, |s|);
      [Plain(s[from..ms[0].start]), Marked(s[ms[0].start..ms[0].end])] + PiecesOf(s, ms[1..], ms[0].end)
  }

  /** Deleting the markers from a plain-then-marked pair leaves the two
      texts side by side. */
  lemma PairCounts(a: string, b: string, rest: seq<Piece>)
    ensures Erase([Plain(a), Marked(b)] + rest) == a + b + Erase(rest)
    ensures MarkedCount([Plain(a), Marked(b)] + rest) == 1 + MarkedCount(rest)
  {
    var ps := [Plain(a), Marked(b)] + rest;
    assert ps[1..] == [Marked(b)] + rest;
    assert ps[1..][1..] == rest;
  }

  /** The pieces cut from `s[from..]` spell it once their markers are
      deleted, and one of them is marked per span. */
  lemma {:induction false} PiecesOfErase(s: string, ms: seq<Span>, from: nat)
    requires Ordered(ms, from, |s|)
    ensures Erase(PiecesOf(s, ms, from)) == s[from..]
    ensures MarkedCount(PiecesOf(s, ms, from)) == |ms|
    decreases |ms|
  {
    if ms != [] {
      var m := ms[0];
      OrderedTail(ms, from, |s|);
      PiecesOfErase(s, ms[1..], m.end);
      PairCounts(s[from..m.start], s[m.start..m.end], PiecesOf(s, ms[1..], m.end));
      assert s[from..] == s[from..m.start] + s[m.start..m.end] + s[m.end..];
    }
  }

  /** The snippet cut at the keyword's matches. */
  function Pieces(s: string, k: string): seq<Piece>
    requires |k| > 0
  {
    PiecesOf(s, FindAll(s, k), 0)
  }

  /** highlightKeyword: every match of the keyword wrapped in the markers. */
  function Highlight(s: string, k: string): string
    requires |k| > 0
  {
    Render(Pieces(s, k))
  }

  /** Rendering adds exactly one marker pair per marked stretch. */
  lemma {:induction false} RenderLength(ps: seq<Piece>)
    ensures |Render(ps)| == |Erase(ps)| + MarkedCount(ps) * (|Red| + |Reset|)
  {
    if ps != [] {
      RenderLength(ps[1..]);
    }
  }

  /** Without marked stretches, rendering changes nothing. */
  lemma {:induction false} RenderUnmarked(ps: seq<Piece>)
    requires MarkedCount(ps) == 0
    ensures Render(ps) == Erase(ps)
  {
    if ps != [] {
      RenderUnmarked(ps[1..]);
    }
  }

  /** Deleting every inserted marker pair from the highlighted snippet gives
      back the snippet, and there is one pair per match of the keyword. */
  lemma HighlightErases(s: string, k: string)
    requires |k| > 0
    ensures Erase(Pieces(s, k)) == s
    ensures MarkedCount(Pieces(s, k)) == |FindAll(s, k)|
  {
    PiecesOfErase(s, FindAll(s, k), 0);
    assert s[0..] == s;
  }

  /** The highlighted snippet is longer than the snippet by the length of one
      marker pair per match. */
  lemma HighlightLength(s: string, k: string)
    requires |k| > 0
    ensures |Highlight(s, k)| == |s| + |FindAll(s, k)| * (|Red| + |Reset|)
  {
    HighlightErases(s, k);
    RenderLength(Pieces(s, k));
  }

  /** Where the marked stretch of a plain-then-marked pair lies. */
  lemma MarkedSpansPair(a: string, b: string, rest: seq<Piece>, offset: nat)
    ensures MarkedSpans([Plain(a), Marked(b)] + rest, offset)
            == [Span(offset + |a|, offset + |a| + |b|)] + MarkedSpans(rest, offset + |a| + |b|)
  {
    var ps := [Plain(a), Marked(b)] + rest;
    assert ps[1..] == [Marked(b)] + rest;
    assert ps[1..][1..] == rest;
  }

  /** The stretches split off at ordered spans lie exactly at those spans. */
  lemma {:induction false} MarkedSpansOf(s: string, ms: seq<Span>, from: nat)
    requires Ordered(ms, from, |s|)
    ensures MarkedSpans(PiecesOf(s, ms, from), from) == ms
    decreases |ms|
  {
    if ms != [] {
      var m := ms[0];
      OrderedTail(ms, from, |s|);
      var rest := PiecesOf(s, ms[1..], m.end);
      MarkedSpansPair(s[from..m.start], s[m.start..m.end], rest, from);
      MarkedSpansOf(s, ms[1..], m.end);
      assert ms == [m] + ms[1..];
    }
  }

  /** Each marked stretch is a match of the keyword. */
  lemma {:induction false} MarkedAreKeyword(s: string, k: string, ms: seq<Span>, from: nat)
    requires Ordered(ms, from, |s|) && AllOccurrences(s, k, ms)
    ensures forall i :: 0 <= i < |PiecesOf(s, ms, from)| && PiecesOf(s, ms, from)[i].Marked? ==>
              PiecesOf(s, ms, from)[i].text == k
    decreases |ms|
  {
    if ms != [] {
      var m := ms[0];
      OrderedTail(ms, from, |s|);
      assert AllOccurrences(s, k, ms[1..]) by {
        assert forall i :: 0 <= i < |ms| - 1 ==> ms[1..][i] == ms[i + 1];
      }
      MarkedAreKeyword(s, k, ms[1..], m.end);
      var rest := PiecesOf(s, ms[1..], m.end);
      var ps := PiecesOf(s, ms, from);
      assert ps == [Plain(s[from..m.start]), Marked(s[m.start..m.end])] + rest;
      assert OccursAt(s, k, m.start);
      forall i | 0 <= i < |ps| && ps[i].Marked? ensures ps[i].text == k {
        if i >= 2 {
          assert ps[i] == rest[i - 2];
        }
      }
    }
  }

  /**
   * The markers surround exactly the matches of the keyword: the marked
   * stretches lie at the spans the scan finds, and each one is the keyword.
   */
  lemma HighlightMarksMatches(s: string, k: string)
    requires |k| > 0
    ensures MarkedSpans(Pieces(s, k), 0) == FindAll(s, k)
    ensures forall i :: 0 <= i < |Pieces(s, k)| && Pieces(s, k)[i].Marked? ==> Pieces(s, k)[i].text == k
  {
    FindAllIsLeftmost(s, k);
    MarkedSpansOf(s, FindAll(s, k), 0);
    MarkedAreKeyword(s, k, FindAll(s, k), 0);
  }

  /** Highlighting leaves the snippet unchanged exactly when the keyword does
      not occur in it. */
  lemma HighlightUnchangedIffAbsent(s: string, k: string)
    requires |k| > 0
    ensures Highlight(s, k) == s <==> forall q: nat :: !OccursAt(s, k, q)
  {
    NoMatchesIffAbsent(s, k);
    HighlightErases(s, k);
    HighlightLength(s, k);
    if FindAll(s, k) == [] {
      RenderUnmarked(Pieces(s, k));
    }
  }
}
