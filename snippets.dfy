/**
 * Snippet extraction (getme's extractSnippets): for each match of the keyword
 * in a document, the stretch of at most ContextLength units on either side of
 * it, clamped to the document, highlighted and labelled for printing.
 */
module Snippets {
  import opened LiteralSearch
  import opened Highlighting

  /** How many units of context are kept on each side of a match. */
  const ContextLength: nat := 200

  /** The marker that colours the "Snippet:" label (magenta). */
  const Magenta: string := "\U{1B}[35m"

  /**
   * The window around match `m` in a document of length `n`: it reaches back
   * ContextLength units before the match and forward ContextLength units
   * after it, clamped to the document.  It contains the match, lies within
   * the document, and is never longer than the match plus twice the context;
   * it has exactly that length when the match is at least ContextLength away
   * from both ends of the document.
   */
  function Window(n: nat, m: Span): (w: Span)
    requires m.start <= m.end <= n
    ensures w.start <= m.start && m.end <= w.end <= n
    ensures w.end - w.start <= 2 * ContextLength + (m.end - m.start)
    ensures w.end - w.start == 2 * ContextLength + (m.end - m.start)
            <==> ContextLength <= m.start && ContextLength <= n - m.end
  {
    Span(if m.start < ContextLength then 0 else m.start - ContextLength,
         if m.end + ContextLength > n then n else m.end + ContextLength)
  }

  /** The document text inside the window around `m`. */
  function Snippet(content: string, m: Span): string
    requires m.start <= m.end <= |content|
  {
    var w := Window(|content|, m);
    content[w.start..w.end]
  }

  /** One printed entry: the coloured label line, the highlighted snippet and
      a blank line. */
  function Block(colored: string): string
  {
    Magenta + "Snippet:" + Reset + "\n" + colored + "\n\n"
  }

  /** What getme prints for the match `m` of the keyword. */
  function BlockFor(content: string, keyword: string, m: Span): string
    requires |keyword| > 0 && m.start <= m.end <= |content|
  {
    Block(Highlight(Snippet(content, m), keyword))
  }

  /**
   * extractSnippets: one printed entry per match of the keyword, in the order
   * of the matches; none, and no error, when the keyword does not occur.
   */
  method ExtractSnippets(content: string, keyword: string) returns (blocks: seq<string>)
    requires |keyword| > 0
    ensures |blocks| == |FindAll(content, keyword)|
    ensures forall i :: 0 <= i < |blocks| ==>
              blocks[i] == BlockFor(content, keyword, FindAll(content, keyword)[i])
    ensures blocks == [] <==> forall q: nat :: !OccursAt(content, keyword, q)
  {
    var matches := FindAll(content, keyword);
    blocks := [];
    for i := 0 to |matches|
      invariant |blocks| == i
      invariant forall j :: 0 <= j < i ==> blocks[j] == BlockFor(content, keyword, matches[j])
    {
      var m := matches[i];
      var start := m.start - ContextLength;
      if start < 0 {
        start := 0;
      }
      var end := m.end + ContextLength;
      if end > |content| {
        end := |content|;
      }
      assert Span(start, end) == Window(|content|, m);
      var snippet := content[start..end];
      var colored := Highlight(snippet, keyword);
      assert Block(colored) == BlockFor(content, keyword, m);
      blocks := blocks + [Block(colored)];
    }
    NoMatchesIffAbsent(content, keyword);
  }

  /** The match that produced a snippet sits inside it, at its offset from
      the window's start.  This holds of every match the scan reports, as
      each one is an occurrence of the keyword. */
  lemma TriggerInSnippet(content: string, keyword: string, m: Span)
    requires m.start <= m.end <= |content| && content[m.start..m.end] == keyword
    ensures var w := Window(|content|, m);
            Snippet(content, m)[m.start - w.start..m.end - w.start] == keyword
  {
    var w := Window(|content|, m);
    var sn := content[w.start..w.end];
    var lo, hi := m.start - w.start, m.end - w.start;
    forall j | 0 <= j < hi - lo ensures sn[lo..hi][j] == content[m.start..m.end][j] {
      assert sn[lo..hi][j] == sn[lo + j] == content[w.start + lo + j];
    }
    assert sn[lo..hi] == content[m.start..m.end];
  }

  /** Every snippet contains the keyword, so highlighting always changes it:
      it carries at least one marker pair. */
  lemma SnippetHighlighted(content: string, keyword: string, m: Span)
    requires |keyword| > 0
    requires m.start <= m.end <= |content| && content[m.start..m.end] == keyword
    ensures Highlight(Snippet(content, m), keyword) != Snippet(content, m)
  {
    var w := Window(|content|, m);
    var sn := Snippet(content, m);
    TriggerInSnippet(content, keyword, m);
    assert OccursAt(sn, keyword, m.start - w.start);
    HighlightUnchangedIffAbsent(sn, keyword);
  }

  /** A document no longer than ContextLength is shown whole in every one of
      its snippets. */
  lemma ShortDocumentShownWhole(content: string, m: Span)
    requires m.start <= m.end <= |content| <= ContextLength
    ensures Snippet(content, m) == content
  {
    assert content[0..|content|] == content;
  }

  /**
   * A match that begins at most ContextLength into the document is
   * itself one of the occurrences highlighted in its snippet: there the
   * window begins where the document does, so the second scan retraces the
   * first.
   */
  lemma TriggerHighlightedNearStart(content: string, keyword: string, i: nat)
    requires |keyword| > 0 && i < |FindAll(content, keyword)|
    requires FindAll(content, keyword)[i].start <= ContextLength
    ensures var m := FindAll(content, keyword)[i];
            m in MarkedSpans(Pieces(Snippet(content, m), keyword), 0)
  {
    var ms := FindAll(content, keyword);
    var m := ms[i];
    var w := Window(|content|, m);
    var sn := Snippet(content, m);
    assert sn == content[..w.end];
    PrefixScan(content, keyword, w.end, 0);
    var r := EndingBy(ms, w.end);
    assert FindAll(sn, keyword) == r;
    if i >= |r| {
      // the first match cut off would end after the window, yet it comes no
      // later than m, which ends inside it
      EndingByStops(ms, w.end, |r|);
      assert false;
    }
    assert r[i] == m;
    HighlightMarksMatches(sn, keyword);
  }

  /**
   * When occurrences of the keyword never overlap in the document (always so
   * for a keyword that cannot overlap itself), the match a snippet was cut
   * for is one of the stretches highlighted in it, at its offset from the
   * window's start.
   */
  lemma TriggerHighlighted(content: string, keyword: string, m: Span)
    requires |keyword| > 0
    requires m.start <= m.end <= |content| && content[m.start..m.end] == keyword
    requires NoOverlappingOccurrences(content, keyword)
    ensures var w := Window(|content|, m);
            Span(m.start - w.start, m.end - w.start) in MarkedSpans(Pieces(Snippet(content, m), keyword), 0)
  {
    var w := Window(|content|, m);
    var sn := Snippet(content, m);
    TriggerInSnippet(content, keyword, m);
    assert OccursAt(sn, keyword, m.start - w.start);
    NoOverlapInSlice(content, keyword, w.start, w.end);
    OccurrenceIsMatch(sn, keyword, m.start - w.start);
    HighlightMarksMatches(sn, keyword);
  }
}
