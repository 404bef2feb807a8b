/** What `parse_company_regulations` ignores: text before the first chapter
    marker (src/chunk_data.py lines 9-17) and, inside a chapter with
    articles, text before the first article marker (lines 21-30).  Both
    follow from one fact: cutting off a prefix in which no marker starts
    moves every match by the same distance and keeps every slice. */
module Preamble {
  import opened Wrappers
  import opened Text
  import opened Chunker

  /** A marker match in `s` is found at the same place, moved by `d`, once
      the first `d` characters are cut off. */
  lemma MatchSurvivesCut(s: string, tail: string, d: nat, i: nat)
    requires TailOk(tail) && d <= i && d <= |s|
    ensures MarkerEnd(s, i, tail).Some? ==>
              MarkerEnd(s[d..], i - d, tail) == Some(MarkerEnd(s, i, tail).value - d)
  {
    if MarkerEnd(s, i, tail).Some? {
      var e := MarkerEnd(s, i, tail).value;
      FoundIsMatch(s, i, e, tail);
      SliceAfterCut(s, d, i, e);
      MatchIsFound(s[d..], i - d, e - d, tail);
    }
  }

  /** Cutting off a prefix creates no new match. */
  lemma CutAddsNoMatch(s: string, tail: string, d: nat, i: nat)
    requires TailOk(tail) && d <= i && d <= |s|
    ensures MarkerEnd(s[d..], i - d, tail).Some? ==>
              MarkerEnd(s, i, tail) == Some(MarkerEnd(s[d..], i - d, tail).value + d)
  {
    var t := s[d..];
    if MarkerEnd(t, i - d, tail).Some? {
      var e := MarkerEnd(t, i - d, tail).value;
      FoundIsMatch(t, i - d, e, tail);
      SliceAfterCut(s, d, i, e + d);
      MatchIsFound(s, i, e + d, tail);
    }
  }

  /** The matches `ms`, each moved `d` places to the right. */
  function Moved(ms: seq<Match>, d: nat): (r: seq<Match>)
    ensures |r| == |ms|
  {
    if |ms| == 0 then [] else [Match(ms[0].start + d, ms[0].end + d)] + Moved(ms[1..], d)
  }

  /** Every match of `t` at `i` is the match of `s` at `i + d`, moved `d`
      places to the left, and `t` has no other matches. */
  predicate SameMatchesMoved(s: string, t: string, tail: string, d: nat)
    requires TailOk(tail)
  {
    && |t| + d == |s|
    && (forall i :: d <= i <= |s| ==> MarkerEnd(s, i, tail).Some? == MarkerEnd(t, i - d, tail).Some?)
    && (forall i :: d <= i <= |s| && MarkerEnd(s, i, tail).Some? ==>
          MarkerEnd(t, i - d, tail).value + d == MarkerEnd(s, i, tail).value)
  }

  /** Cutting off the first `d` characters moves every later match by `d`. */
  lemma CutMovesMatches(s: string, tail: string, d: nat)
    requires TailOk(tail) && d <= |s|
    ensures SameMatchesMoved(s, s[d..], tail, d)
  {
    forall i | d <= i <= |s|
      ensures MarkerEnd(s, i, tail).Some? == MarkerEnd(s[d..], i - d, tail).Some?
      ensures MarkerEnd(s, i, tail).Some? ==> MarkerEnd(s[d..], i - d, tail).value + d == MarkerEnd(s, i, tail).value
    {
      MatchSurvivesCut(s, tail, d, i);
      CutAddsNoMatch(s, tail, d, i);
    }
  }

  /** `finditer` from a position at or after `d` finds the same matches in
      `t`, each moved `d` places to the left. */
  lemma {:induction false} FindIterMoved(s: string, t: string, tail: string, d: nat, from: nat)
    requires TailOk(tail) && d <= from <= |s| && SameMatchesMoved(s, t, tail, d)
    ensures Moved(FindIter(t, tail, from - d), d) == FindIter(s, tail, from)
    decreases |s| - from, 1
  {
    if from < |s| {
      if MarkerEnd(s, from, tail).Some? {
        MovedFromMatch(s, t, tail, d, from);
      } else {
        MovedFromNoMatch(s, t, tail, d, from);
      }
    }
  }

  lemma {:induction false} MovedFromMatch(s: string, t: string, tail: string, d: nat, from: nat)
    requires TailOk(tail) && d <= from < |s| && SameMatchesMoved(s, t, tail, d)
    requires MarkerEnd(s, from, tail).Some?
    ensures Moved(FindIter(t, tail, from - d), d) == FindIter(s, tail, from)
    decreases |s| - from, 0
  {
    var e := MarkerEnd(s, from, tail).value;
    FindIterMoved(s, t, tail, d, e);
    ShiftAtMatch(s, t, tail, d, from, e);
  }

  lemma {:induction false} MovedFromNoMatch(s: string, t: string, tail: string, d: nat, from: nat)
    requires TailOk(tail) && d <= from < |s| && SameMatchesMoved(s, t, tail, d)
    requires MarkerEnd(s, from, tail).None?
    ensures Moved(FindIter(t, tail, from - d), d) == FindIter(s, tail, from)
    decreases |s| - from, 0
  {
    FindIterMoved(s, t, tail, d, from + 1);
    ShiftAtNoMatch(s, t, tail, d, from);
  }

  /** The step of `FindIterMoved` at a position where a match starts, for
      any `t` whose match there is the same one moved by `d`. */
  lemma ShiftAtMatch(s: string, t: string, tail: string, d: nat, from: nat, e: nat)
    requires TailOk(tail) && d <= from < e <= |s| && e - d <= |t|
    requires MarkerEnd(s, from, tail) == Some(e)
    requires MarkerEnd(t, from - d, tail) == Some(e - d)
    requires Moved(FindIter(t, tail, e - d), d) == FindIter(s, tail, e)
    ensures Moved(FindIter(t, tail, from - d), d) == FindIter(s, tail, from)
  {
    FindIterAtMatch(t, tail, from - d, e - d);
    FindIterAtMatch(s, tail, from, e);
    MovedStep(FindIter(t, tail, from - d), FindIter(t, tail, e - d), FindIter(s, tail, from), FindIter(s, tail, e), d, from, e);
  }

  /** The step of `FindIterMoved` at a position where no match starts. */
  lemma ShiftAtNoMatch(s: string, t: string, tail: string, d: nat, from: nat)
    requires TailOk(tail) && d <= from < |s| && from - d < |t|
    requires MarkerEnd(s, from, tail).None? && MarkerEnd(t, from - d, tail).None?
    requires Moved(FindIter(t, tail, from + 1 - d), d) == FindIter(s, tail, from + 1)
    ensures Moved(FindIter(t, tail, from - d), d) == FindIter(s, tail, from)
  {
  }

  /** Where a match starts, `finditer` reports it and resumes at its end. */
  lemma FindIterAtMatch(s: string, tail: string, from: nat, e: nat)
    requires TailOk(tail) && from < e <= |s|
    requires MarkerEnd(s, from, tail) == Some(e)
    ensures FindIter(s, tail, from) == [Match(from, e)] + FindIter(s, tail, e)
  {
  }

  /** One match in front of lists related by `Moved` keeps them related. */
  lemma MovedStep(a: seq<Match>, a1: seq<Match>, b: seq<Match>, b1: seq<Match>, d: nat, from: nat, e: nat)
    requires d <= from < e
    requires a == [Match(from - d, e - d)] + a1
    requires b == [Match(from, e)] + b1
    requires Moved(a1, d) == b1
    ensures Moved(a, d) == b
  {
    MovedCons(Match(from - d, e - d), a1, d);
  }

  /** Moving commutes with putting a match in front. */
  lemma MovedCons(m: Match, ms: seq<Match>, d: nat)
    ensures Moved([m] + ms, d) == [Match(m.start + d, m.end + d)] + Moved(ms, d)
  {
    assert ([m] + ms)[1..] == ms;
  }

  /** Positions where no marker starts are skipped by `finditer`. */
  lemma {:induction false} FindIterSkip(s: string, tail: string, from: nat, p: nat)
    requires TailOk(tail) && from <= p <= |s|
    requires forall q :: from <= q < p ==> MarkerEnd(s, q, tail).None?
    ensures FindIter(s, tail, from) == FindIter(s, tail, p)
    decreases p - from
  {
    if from < p {
      FindIterSkip(s, tail, from + 1, p);
    }
  }

  /** No match of `제\d+<tail>` starts before `d`. */
  predicate NoMarkerBefore(s: string, tail: string, d: nat)
    requires TailOk(tail)
  {
    forall q :: 0 <= q < d ==> MarkerEnd(s, q, tail).None?
  }

  /** With no marker before `d`, the matches in `s[d..]` are those of `s`,
      each moved `d` places to the left. */
  lemma MatchesAfterPrefix(s: string, tail: string, d: nat)
    requires TailOk(tail) && d <= |s| && NoMarkerBefore(s, tail, d)
    ensures Moved(FindIter(s[d..], tail, 0), d) == FindIter(s, tail, 0)
  {
    CutMovesMatches(s, tail, d);
    FindIterMoved(s, s[d..], tail, d, d);
    FindIterSkip(s, tail, 0, d);
  }

  /** Lists related by `Moved` agree index by index. */
  lemma {:induction false} MovedAt(ma: seq<Match>, mb: seq<Match>, d: nat, k: nat)
    requires Moved(ma, d) == mb && k < |mb|
    ensures |ma| == |mb| && ma[k].start + d == mb[k].start && ma[k].end + d == mb[k].end
    decreases k
  {
    if k > 0 {
      MovedAt(ma[1..], mb[1..], d, k - 1);
    }
  }

  /** A slice of `s[d..]` is the slice of `s` `d` places further on. */
  lemma SliceAfterCut(s: string, d: nat, i: nat, j: nat)
    requires d <= i <= j <= |s|
    ensures s[d..][i - d..j - d] == s[i..j]
  {
  }

  /** Two spans cut at matches related by `Moved` are related the same way. */
  lemma MovedSpan(s: string, d: nat, ma: seq<Match>, mb: seq<Match>, k: nat, a: Span, b: Span)
    requires d <= |s| && Moved(ma, d) == mb && k < |mb|
    requires ma[k].start <= ma[k].end <= |s| - d
    requires a.start == ma[k].start && a.marker == s[d..][ma[k].start..ma[k].end]
    requires k + 1 < |ma| ==> a.end == ma[k + 1].start
    requires k + 1 == |ma| ==> a.end == |s| - d
    requires b.start == mb[k].start && mb[k].start <= mb[k].end <= |s| && b.marker == s[mb[k].start..mb[k].end]
    requires k + 1 < |mb| ==> b.end == mb[k + 1].start
    requires k + 1 == |mb| ==> b.end == |s|
    requires b.start <= b.end <= |s|
    ensures a.start + d == b.start && a.end + d == b.end && a.marker == b.marker
    ensures a.start <= a.end <= |s| - d && s[d..][a.start..a.end] == s[b.start..b.end]
  {
    MovedAt(ma, mb, d, k);
    if k + 1 < |mb| {
      MovedAt(ma, mb, d, k + 1);
    }
    SliceAfterCut(s, d, mb[k].start, mb[k].end);
    SliceAfterCut(s, d, b.start, b.end);
  }

  /** Span `k` of `s[d..]` is span `k` of `s` moved by `d`: same marker,
      same text. */
  lemma SpanAfterPrefix(s: string, tail: string, d: nat, k: nat)
    requires TailOk(tail) && d <= |s| && NoMarkerBefore(s, tail, d)
    requires k < |Spans(s, tail)|
    ensures |Spans(s[d..], tail)| == |Spans(s, tail)|
    ensures var a := Spans(s[d..], tail)[k];
            var b := Spans(s, tail)[k];
            && a.start + d == b.start && a.end + d == b.end && a.marker == b.marker
            && a.start <= a.end <= |s| - d
            && s[d..][a.start..a.end] == s[b.start..b.end]
  {
    var ma := FindIter(s[d..], tail, 0);
    var mb := FindIter(s, tail, 0);
    MatchesAfterPrefix(s, tail, d);
    MovedAt(ma, mb, d, k);
    MovedSpan(s, d, ma, mb, k, Spans(s[d..], tail)[k], Spans(s, tail)[k]);
  }

  /** Chapter lists that name the same markers over the same slices give the
      same records. */
  lemma {:induction false} ChaptersAgree(t1: string, c1: seq<Span>, t2: string, c2: seq<Span>)
    requires forall k :: 0 <= k < |c1| ==> c1[k].start <= c1[k].end <= |t1|
    requires forall k :: 0 <= k < |c2| ==> c2[k].start <= c2[k].end <= |t2|
    requires |c1| == |c2|
    requires forall k :: 0 <= k < |c1| ==>
               c1[k].marker == c2[k].marker && t1[c1[k].start..c1[k].end] == t2[c2[k].start..c2[k].end]
    ensures ParseChapters(t1, c1) == ParseChapters(t2, c2)
    decreases |c1|
  {
    if |c1| > 0 {
      ChaptersAgree(t1, c1[1..], t2, c2[1..]);
    }
  }

  /** Lines 9-17: cutting off a prefix in which no chapter marker starts
      changes no record, so nothing before the first chapter marker reaches
      the output. */
  lemma ParseIgnoresPreamble(text: string, d: nat)
    requires d <= |text| && NoMarkerBefore(text, ChapterTail, d)
    ensures Parse(text[d..]) == Parse(text)
  {
    var c1 := Spans(text[d..], ChapterTail);
    var c2 := Spans(text, ChapterTail);
    SpanBounds(text[d..], ChapterTail);
    SpanBounds(text, ChapterTail);
    forall k | 0 <= k < |c2|
      ensures |c1| == |c2| && c1[k].marker == c2[k].marker
              && text[d..][c1[k].start..c1[k].end] == text[c2[k].start..c2[k].end]
    {
      SpanAfterPrefix(text, ChapterTail, d, k);
    }
    assert |c1| == |c2| by {
      if |c2| > 0 {
        SpanAfterPrefix(text, ChapterTail, d, 0);
      } else {
        MatchesAfterPrefix(text, ChapterTail, d);
      }
    }
    ChaptersAgree(text[d..], c1, text, c2);
  }

  /** The document parses the same from its first chapter marker on. */
  lemma PreambleIsDropped(text: string)
    ensures var chapters := Spans(text, ChapterTail);
            |chapters| > 0 ==> Parse(text[chapters[0].start..]) == Parse(text)
  {
    var chapters := Spans(text, ChapterTail);
    if |chapters| > 0 {
      var d := chapters[0].start;
      SpanBounds(text, ChapterTail);
      forall q | 0 <= q < d
        ensures MarkerEnd(text, q, ChapterTail).None?
      {
        NoMarkerBeforeFirstSpan(text, ChapterTail, q);
      }
      ParseIgnoresPreamble(text, d);
    }
  }

  /** Lines 21-30: in a chapter with articles, the text between the chapter
      marker and the first article marker reaches no record. */
  lemma ChapterIgnoresIntro(marker: string, chapter: string)
    ensures var articles := Spans(chapter, ArticleTail);
            |articles| > 0 ==> ParseChapter(marker, chapter[articles[0].start..]) == ParseChapter(marker, chapter)
  {
    var a2 := Spans(chapter, ArticleTail);
    if |a2| > 0 {
      var d := a2[0].start;
      SpanBounds(chapter, ArticleTail);
      forall q | 0 <= q < d
        ensures MarkerEnd(chapter, q, ArticleTail).None?
      {
        NoMarkerBeforeFirstSpan(chapter, ArticleTail, q);
      }
      var rest := chapter[d..];
      var a1 := Spans(rest, ArticleTail);
      SpanAfterPrefix(chapter, ArticleTail, d, 0);
      var r1 := ParseChapter(marker, rest);
      var r2 := ParseChapter(marker, chapter);
      forall k | 0 <= k < |a2|
        ensures r1[k] == r2[k]
      {
        SpanAfterPrefix(chapter, ArticleTail, d, k);
        assert r1[k] == SplitArticle(marker, rest[a1[k].start..a1[k].end]);
        assert r2[k] == SplitArticle(marker, chapter[a2[k].start..a2[k].end]);
      }
    }
  }
}
