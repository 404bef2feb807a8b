/** The offline regulation chunker, `parse_company_regulations` in
    src/chunk_data.py.  A document is cut at every chapter marker `제<n>장`;
    each chapter is cut at every article marker `제<n>조(`; each article block
    is split into a title and a content at its first `") "`.  The output
    records are the corpus the bots load. */
module Chunker {
  import opened Wrappers
  import opened Text

  /** One output object `{"section": …, "title": …, "content": …}`. */
  datatype Record = Record(section: string, title: string, content: string)

  /** A regex match: the half-open range `[start, end)` of the searched string. */
  datatype Match = Match(start: nat, end: nat)

  /** A piece of the searched string opened by a marker: the marker's own text
      (the regex group) and the slice `[start, end)` that runs from the marker
      to the next marker, or to the end of the string. */
  datatype Span = Span(marker: string, start: nat, end: nat)

  const MarkerHead: char := '제'
  /** What follows the digits of a chapter marker `제<n>장`. */
  const ChapterTail: string := "장"
  /** What follows the digits of an article marker `제<n>조(`. */
  const ArticleTail: string := "조("

  /** The literal after `\d+` in a marker pattern: it starts with a non-digit
      and never contains the marker's first character. */
  predicate TailOk(tail: string) {
    |tail| > 0 && !IsDigit(tail[0]) && MarkerHead !in tail
  }

  /** `m` is a whole match of the regex `제\d+<tail>`. */
  predicate IsMarker(m: string, tail: string) {
    && |m| >= 2 + |tail|
    && m[0] == MarkerHead
    && (forall j :: 1 <= j < |m| - |tail| ==> IsDigit(m[j]))
    && m[|m| - |tail|..] == tail
  }

  /** Length of the run of digits that starts at `i`. */
  function DigitRun(s: string, i: nat): (n: nat)
    requires i <= |s|
    ensures i + n <= |s|
    ensures forall j :: i <= j < i + n ==> IsDigit(s[j])
    ensures i + n == |s| || !IsDigit(s[i + n])
    decreases |s| - i
  {
    if i < |s| && IsDigit(s[i]) then 1 + DigitRun(s, i + 1) else 0
  }

  /** Where the match of `제\d+<tail>` that starts at `i` ends, if there is one.
      The greedy `\d+` takes the whole run of digits; backtracking cannot help,
      because the tail does not start with a digit. */
  function MarkerEnd(s: string, i: nat, tail: string): (r: Option<nat>)
    requires TailOk(tail)
    ensures r.Some? ==> i < r.value <= |s|
  {
    if i < |s| && s[i] == MarkerHead then
      var d := DigitRun(s, i + 1);
      var e := i + 1 + d + |tail|;
      if d > 0 && e <= |s| && s[i + 1 + d..e] == tail then
        Some(e)
      else
        None
    else
      None
  }

  /** `MarkerEnd` finds exactly the matches the regex has: a match of
      `제\d+<tail>` occupies `[i, e)` if and only if `MarkerEnd` reports `e`. */
  lemma MarkerEndIsRegexMatch(s: string, i: nat, e: nat, tail: string)
    requires TailOk(tail) && i < e <= |s|
    ensures MarkerEnd(s, i, tail) == Some(e) <==> IsMarker(s[i..e], tail)
  {
    if IsMarker(s[i..e], tail) {
      MatchIsFound(s, i, e, tail);
    }
    if MarkerEnd(s, i, tail) == Some(e) {
      FoundIsMatch(s, i, e, tail);
    }
  }

  lemma MatchIsFound(s: string, i: nat, e: nat, tail: string)
    requires TailOk(tail) && i < e <= |s| && IsMarker(s[i..e], tail)
    ensures MarkerEnd(s, i, tail) == Some(e)
  {
    var m := s[i..e];
    var digits := e - |tail| - i - 1;
    forall j | i + 1 <= j < i + 1 + digits
      ensures IsDigit(s[j])
    {
      assert s[j] == m[j - i];
    }
    var d := DigitRun(s, i + 1);
    assert d >= digits;
    assert s[i + 1 + digits] == m[|m| - |tail|] == tail[0];
    assert d <= digits;
    assert s[i + 1 + d..e] == m[|m| - |tail|..];
  }

  lemma FoundIsMatch(s: string, i: nat, e: nat, tail: string)
    requires TailOk(tail) && i < e <= |s| && MarkerEnd(s, i, tail) == Some(e)
    ensures IsMarker(s[i..e], tail)
  {
    var m := s[i..e];
    var d := DigitRun(s, i + 1);
    assert e == i + 1 + d + |tail|;
    forall j | 1 <= j < |m| - |tail|
      ensures IsDigit(m[j])
    {
      assert m[j] == s[i + j];
    }
    assert m[|m| - |tail|..] == s[i + 1 + d..e];
  }

  /** Inside a match there are only digits and tail characters, and neither
      is the character a match starts with. */
  lemma NoHeadInsideMatch(s: string, tail: string, i: nat, q: nat)
    requires TailOk(tail) && MarkerEnd(s, i, tail).Some?
    ensures i < q < MarkerEnd(s, i, tail).value ==> s[q] != MarkerHead
  {
    var e := MarkerEnd(s, i, tail).value;
    if i < q < e {
      var m := s[i..e];
      assert s[q] == m[q - i];
      if q - i >= |m| - |tail| {
        assert m[q - i] == m[|m| - |tail|..][q - i - (|m| - |tail|)];
      }
    }
  }

  /** Two matches never overlap. */
  lemma MatchesDoNotOverlap(s: string, tail: string, i: nat, q: nat)
    requires TailOk(tail) && i < q
    requires MarkerEnd(s, i, tail).Some? && MarkerEnd(s, q, tail).Some?
    ensures MarkerEnd(s, i, tail).value <= q
  {
    NoHeadInsideMatch(s, tail, i, q);
  }

  /** `re.finditer` from position `from`: the leftmost match, then the search
      resumes where that match ends. */
  function FindIter(s: string, tail: string, from: nat): (ms: seq<Match>)
    requires TailOk(tail) && from <= |s|
    ensures forall k :: 0 <= k < |ms| ==> from <= ms[k].start && MarkerEnd(s, ms[k].start, tail) == Some(ms[k].end)
    ensures forall j, k :: 0 <= j < k < |ms| ==> ms[j].end <= ms[k].start
    decreases |s| - from
  {
    if from == |s| then []
    else
      match MarkerEnd(s, from, tail)
      case Some(e) => [Match(from, e)] + FindIter(s, tail, e)
      case None => FindIter(s, tail, from + 1)
  }

  /** `finditer` misses no match: every position at or after `from` where the
      pattern matches opens one of the matches it returns. */
  lemma {:induction false} FindIterComplete(s: string, tail: string, from: nat, p: nat)
    requires TailOk(tail) && from <= p < |s| && MarkerEnd(s, p, tail).Some?
    ensures exists k :: 0 <= k < |FindIter(s, tail, from)| && FindIter(s, tail, from)[k].start == p
    decreases |s| - from
  {
    var ms := FindIter(s, tail, from);
    match MarkerEnd(s, from, tail)
    case Some(e) =>
      if from == p {
        assert ms[0].start == p;
      } else {
        MatchesDoNotOverlap(s, tail, from, p);
        FindIterComplete(s, tail, e, p);
        var k :| 0 <= k < |FindIter(s, tail, e)| && FindIter(s, tail, e)[k].start == p;
        assert ms[k + 1].start == p;
      }
    case None =>
      FindIterComplete(s, tail, from + 1, p);
  }

  /** The `k`-th piece that the matches `ms` of `s` cut it into. */
  function SpanAt(s: string, tail: string, ms: seq<Match>, k: nat): (sp: Span)
    requires TailOk(tail) && ms == FindIter(s, tail, 0) && k < |ms|
    ensures sp.start == ms[k].start && sp.marker == s[ms[k].start..ms[k].end]
    ensures sp.start < sp.end <= |s|
    ensures k + 1 < |ms| ==> sp.end == ms[k + 1].start
    ensures k + 1 == |ms| ==> sp.end == |s|
  {
    var end := if k + 1 < |ms| then ms[k + 1].start else |s|;
    assert ms[k].end <= end;
    Span(s[ms[k].start..ms[k].end], ms[k].start, end)
  }

  /** The `k`-th piece opens with its marker, a whole match of the pattern. */
  lemma SpanOpensWithMarker(s: string, tail: string, k: nat)
    requires TailOk(tail) && k < |Spans(s, tail)|
    ensures var sp := Spans(s, tail)[k];
            IsMarker(sp.marker, tail) && StartsWith(s[sp.start..sp.end], sp.marker)
  {
    var ms := FindIter(s, tail, 0);
    var sp := Spans(s, tail)[k];
    assert sp == SpanAt(s, tail, ms, k);
    FoundIsMatch(s, ms[k].start, ms[k].end, tail);
    SliceStartsWithSlice(s, ms[k].start, ms[k].end, sp.end);
  }

  /** A slice starts with each of its shorter slices from the same start. */
  lemma SliceStartsWithSlice(s: string, i: nat, j: nat, k: nat)
    requires i <= j <= k <= |s|
    ensures StartsWith(s[i..k], s[i..j])
  {
    assert s[i..k][..j - i] == s[i..j];
  }

  /** The pieces the marker matches cut `s` into (lines 12-17 for chapters,
      lines 21-30 for articles), one per match and in match order: each runs
      from its marker to the next marker, the last one to the end of `s`.
      `SpansContiguous` and `LastSpanReachesEnd` state the tiling; they are
      lemmas so that proofs that do not need them do not carry them. */
  function Spans(s: string, tail: string): (sp: seq<Span>)
    requires TailOk(tail)
    ensures |sp| == |FindIter(s, tail, 0)|
    ensures forall k :: 0 <= k < |sp| ==> sp[k] == SpanAt(s, tail, FindIter(s, tail, 0), k)
  {
    var ms := FindIter(s, tail, 0);
    var sp := seq(|ms|, k requires 0 <= k < |ms| => SpanAt(s, tail, ms, k));
    assert forall k :: 0 <= k < |sp| ==> sp[k] == SpanAt(s, tail, ms, k);
    sp
  }

  /** Consecutive pieces meet with no gap. */
  lemma SpansContiguous(s: string, tail: string)
    requires TailOk(tail)
    ensures var sp := Spans(s, tail);
            forall j, k :: 0 <= j < k < |sp| && k == j + 1 ==> sp[j].end == sp[k].start
  {
    SpanAtContiguous(s, tail, FindIter(s, tail, 0));
  }

  /** Each piece built from the matches ends where the next match starts. */
  lemma SpanAtContiguous(s: string, tail: string, ms: seq<Match>)
    requires TailOk(tail) && ms == FindIter(s, tail, 0)
    ensures forall j, k :: 0 <= j < k < |ms| && k == j + 1 ==> SpanAt(s, tail, ms, j).end == SpanAt(s, tail, ms, k).start
  {
    forall j, k | 0 <= j < k < |ms| && k == j + 1
      ensures SpanAt(s, tail, ms, j).end == SpanAt(s, tail, ms, k).start
    {
      assert SpanAt(s, tail, ms, j).end == ms[k].start;
    }
  }

  /** The last piece reaches the end of `s`. */
  lemma LastSpanReachesEnd(s: string, tail: string)
    requires TailOk(tail)
    ensures var sp := Spans(s, tail);
            |sp| > 0 ==> sp[|sp| - 1].end == |s|
  {
    var sp := Spans(s, tail);
    if |sp| > 0 {
      assert sp[|sp| - 1] == SpanAt(s, tail, FindIter(s, tail, 0), |sp| - 1);
    }
  }

  /** A position opens a span exactly when a marker starts there. */
  lemma SpanStartsAreMarkers(s: string, tail: string, p: nat)
    requires TailOk(tail)
    ensures (exists k :: 0 <= k < |Spans(s, tail)| && Spans(s, tail)[k].start == p)
            <==> (p < |s| && MarkerEnd(s, p, tail).Some?)
  {
    var ms := FindIter(s, tail, 0);
    var sp := Spans(s, tail);
    if exists k :: 0 <= k < |sp| && sp[k].start == p {
      var k :| 0 <= k < |sp| && sp[k].start == p;
      assert sp[k] == SpanAt(s, tail, ms, k);
      assert MarkerEnd(s, ms[k].start, tail) == Some(ms[k].end);
    }
    if p < |s| && MarkerEnd(s, p, tail).Some? {
      FindIterComplete(s, tail, 0, p);
      var k :| 0 <= k < |ms| && ms[k].start == p;
      assert sp[k] == SpanAt(s, tail, ms, k);
    }
  }

  /** The first span opens at the first marker of `s`. */
  lemma FirstSpanIsFirstMarker(s: string, tail: string, p: nat)
    requires TailOk(tail)
    ensures p < |s| && MarkerEnd(s, p, tail).Some? ==>
              |Spans(s, tail)| > 0 && Spans(s, tail)[0].start <= p
  {
    var ms := FindIter(s, tail, 0);
    if p < |s| && MarkerEnd(s, p, tail).Some? {
      FindIterComplete(s, tail, 0, p);
      var k :| 0 <= k < |ms| && ms[k].start == p;
      assert k == 0 || ms[0].end <= ms[k].start;
    }
  }

  /** No marker starts before the first span, nor anywhere when there are no spans. */
  lemma NoMarkerBeforeFirstSpan(s: string, tail: string, p: nat)
    requires TailOk(tail) && p < |s|
    requires |Spans(s, tail)| == 0 || p < Spans(s, tail)[0].start
    ensures MarkerEnd(s, p, tail).None?
  {
    FirstSpanIsFirstMarker(s, tail, p);
  }

  function Max1(n: nat): nat {
    if n == 0 then 1 else n
  }

  /** Line 43: an article body with each line break turned into a space. */
  function JoinLines(s: string): (r: string)
    ensures |r| == |s|
    ensures forall i :: 0 <= i < |s| ==> r[i] == (if s[i] == '\n' then ' ' else s[i])
  {
    ReplaceChar(s, '\n', ' ');
    ReplaceAll(s, "\n", " ")
  }

  /** Lines 32-43 on an already stripped block: cut at its first `") "`.  The
      title needs no stripping, the content holds no line break, and the two
      together are shorter than the block when it was cut. */
  function SplitBlock(section: string, block: string): (r: Record)
    requires Stripped(block)
    ensures r.section == section && Stripped(r.title) && '\n' !in r.content
    ensures Contains(block, ") ") ==> |r.title| + |r.content| < |block|
    ensures !Contains(block, ") ") ==> r.title == block && r.content == ""
  {
    var k := Find(block, ") ");
    if k != -1 then
      var content := JoinLines(Strip(block[k + 2..]));
      assert forall i :: 0 <= i < |content| ==> content[i] != '\n';
      Record(section, Strip(block[..k + 1]), content)
    else
      Record(section, block, "")
  }

  /** Lines 30-43: one article slice, stripped, then cut at its first `") "`.
      The record keeps the section, its title needs no stripping, its content
      holds no line break, and it never holds more characters than the slice. */
  function SplitArticle(section: string, slice: string): (r: Record)
    ensures r.section == section && Stripped(r.title) && '\n' !in r.content
    ensures |r.title| + |r.content| <= |slice|
  {
    SplitBlock(section, Strip(slice))
  }

  /** Lines 19-57: the records of one chapter.  Without an article marker the
      chapter is one record with an empty title; otherwise there is one
      record per article. */
  function ParseChapter(marker: string, chapter: string): (rs: seq<Record>)
    ensures |rs| == Max1(|Spans(chapter, ArticleTail)|)
    ensures forall i :: 0 <= i < |rs| ==> rs[i].section == marker
  {
    var articles := Spans(chapter, ArticleTail);
    if |articles| == 0 then
      [Record(marker, "", ReplaceAll(Strip(chapter), "\n", ""))]
    else
      seq(|articles|, i requires 0 <= i < |articles| =>
        SplitArticle(marker, chapter[articles[i].start..articles[i].end]))
  }

  function ParseChapters(text: string, chapters: seq<Span>): seq<Record>
    requires forall k :: 0 <= k < |chapters| ==> chapters[k].start <= chapters[k].end <= |text|
  {
    if |chapters| == 0 then []
    else
      ParseChapter(chapters[0].marker, text[chapters[0].start..chapters[0].end])
      + ParseChapters(text, chapters[1..])
  }

  /** The records of a whole document: chapter by chapter, in document order.
      Summed over the chapters, there are as many records as the larger of 1
      and the chapter's number of articles. */
  function Parse(text: string): (rs: seq<Record>)
    ensures |rs| == RecordCount(text, Spans(text, ChapterTail))
  {
    ChaptersCount(text, Spans(text, ChapterTail));
    ParseChapters(text, Spans(text, ChapterTail))
  }

  /** What every record promises: a content without line breaks, and a title
      and content without whitespace at either end. */
  predicate WellFormed(r: Record) {
    '\n' !in r.content && Stripped(r.title) && Stripped(r.content)
  }

  /** The part of a stripped block up to and including the `)` of its first
      `") "` needs no stripping, ends in `)` and holds no `") "`. */
  lemma TitleBeforeFirstDelimiter(block: string, k: nat)
    requires Stripped(block) && OccursAt(block, ") ", k)
    requires forall i: nat :: i < k ==> !OccursAt(block, ") ", i)
    ensures Strip(block[..k + 1]) == block[..k + 1]
    ensures block[k] == ')' && !Contains(block[..k + 1], ") ")
  {
    var title := block[..k + 1];
    assert block[k] == block[k..k + 2][0];
    assert title[0] == block[0] && title[k] == block[k];
    StrippedIsFixed(title);
    if Contains(title, ") ") {
      var j :| 0 <= j <= |title| && OccursAt(title, ") ", j);
      assert block[j..j + 2] == title[j..j + 2];
      assert OccursAt(block, ") ", j);
    }
  }

  /** A block with `") "` at `k` is the part up to the `)`, the space, some
      whitespace, and the stripped rest. */
  lemma BlockAroundDelimiter(block: string, k: nat)
    requires Stripped(block) && OccursAt(block, ") ", k)
    ensures var rest := Strip(block[k + 2..]);
            && k + 2 + |rest| <= |block|
            && block == block[..k + 1] + " " + block[k + 2..|block| - |rest|] + rest
            && AllSpace(block[k + 2..|block| - |rest|])
  {
    var rest := Strip(block[k + 2..]);
    assert block[k + 1] == ' ' by {
      assert block[k + 1] == block[k..k + 2][1];
    }
    StripSuffixOfStripped(block, k + 2);
    assert block == block[..k + 1] + " " + block[k + 2..|block| - |rest|] + rest by {
      assert block == block[..k + 1] + [block[k + 1]] + block[k + 2..|block| - |rest|] + block[|block| - |rest|..];
    }
  }

  /** Lines 32-37 and 43, when the stripped block has its first `") "` at `k`:
      the title is the block up to and including that `)` (stripping it
      changes nothing), so it ends in `)` and holds no `") "`; the rest of the
      block is the space, some whitespace, and the content, whose line breaks
      each became one space. */
  lemma SplitAtFirstDelimiter(section: string, block: string, k: nat)
    requires Stripped(block) && OccursAt(block, ") ", k)
    requires forall i: nat :: i < k ==> !OccursAt(block, ") ", i)
    ensures var r := SplitBlock(section, block);
            var rest := Strip(block[k + 2..]);
            && r.section == section
            && r.title == block[..k + 1]
            && r.title[|r.title| - 1] == ')'
            && !Contains(r.title, ") ")
            && k + 2 + |rest| <= |block|
            && block == r.title + " " + block[k + 2..|block| - |rest|] + rest
            && AllSpace(block[k + 2..|block| - |rest|])
            && r.content == JoinLines(rest)
  {
    FindFirst(block, ") ", k);
    TitleBeforeFirstDelimiter(block, k);
    BlockAroundDelimiter(block, k);
  }

  /** Lines 38-40: without `") "` the whole stripped block is the title and the
      content is empty. */
  lemma SplitWithoutDelimiter(section: string, slice: string)
    requires !Contains(Strip(slice), ") ")
    ensures SplitArticle(section, slice) == Record(section, Strip(slice), "")
  {
  }

  /** An article marker neither starts nor ends with whitespace, and none of
      its characters is `)`. */
  lemma ArticleMarkerChars(m: string)
    requires IsMarker(m, ArticleTail)
    ensures Stripped(m)
    ensures forall j :: 0 <= j < |m| ==> m[j] != ')'
  {
    assert m[|m| - 2] == '조' && m[|m| - 1] == '(' by {
      assert m[|m| - 2..] == ArticleTail;
      assert m[|m| - 2] == m[|m| - 2..][0] && m[|m| - 1] == m[|m| - 2..][1];
    }
    forall j | 0 <= j < |m| ensures m[j] != ')' {
      if 1 <= j < |m| - 2 {
        assert IsDigit(m[j]);
      }
    }
  }

  /** Lines 30-43 on a slice opened by an article marker: stripping keeps the
      marker, and the first `") "` lies past it, so the record's title starts
      with the marker. */
  lemma ArticleTitleStartsWithMarker(section: string, slice: string, m: string)
    requires IsMarker(m, ArticleTail) && StartsWith(slice, m)
    ensures StartsWith(SplitArticle(section, slice).title, m)
  {
    ArticleMarkerChars(m);
    StripKeepsPrefix(slice, m);
    var block := Strip(slice);
    var k := Find(block, ") ");
    if k != -1 {
      assert block[k] == ')' by {
        assert block[k] == block[k..k + 2][0];
      }
      assert forall j :: 0 <= j < |m| ==> block[j] != ')' by {
        forall j | 0 <= j < |m| ensures block[j] != ')' {
          assert block[j] == block[..|m|][j];
        }
      }
      assert |m| <= k;
      TitleBeforeFirstDelimiter(block, k);
      assert SplitArticle(section, slice).title == block[..k + 1];
      assert block[..k + 1][..|m|] == block[..|m|];
    }
  }

  /** Lines 21-43 for a chapter with article markers: record `i` is article
      slice `i` (from its marker to the next marker, or to the chapter's end)
      stripped and cut, and its title starts with that article's marker.
      Article slices come in marker order and meet with no gap. */
  lemma ChapterWithArticles(marker: string, chapter: string, i: nat)
    requires i < |Spans(chapter, ArticleTail)|
    ensures var a := Spans(chapter, ArticleTail);
            var rs := ParseChapter(marker, chapter);
            && a[i].start < a[i].end <= |chapter|
            && rs[i] == SplitArticle(marker, chapter[a[i].start..a[i].end])
            && IsMarker(a[i].marker, ArticleTail)
            && StartsWith(rs[i].title, a[i].marker)
            && (i + 1 < |a| ==> a[i].end == a[i + 1].start)
            && (i + 1 == |a| ==> a[i].end == |chapter|)
  {
    var a := Spans(chapter, ArticleTail);
    assert a[i] == SpanAt(chapter, ArticleTail, FindIter(chapter, ArticleTail, 0), i);
    SpanOpensWithMarker(chapter, ArticleTail, i);
    ArticleTitleStartsWithMarker(marker, chapter[a[i].start..a[i].end], a[i].marker);
  }

  /** Every article record is well formed. */
  lemma ArticleRecordWellFormed(section: string, slice: string)
    ensures WellFormed(SplitArticle(section, slice))
  {
    var block := Strip(slice);
    var k := Find(block, ") ");
    if k != -1 {
      var rest := Strip(block[k + 2..]);
      assert SplitArticle(section, slice) == Record(section, Strip(block[..k + 1]), JoinLines(rest));
      TitleBeforeFirstDelimiter(block, k);
      var content := JoinLines(rest);
      assert '\n' !in content by {
        assert forall i :: 0 <= i < |rest| ==> content[i] != '\n';
      }
      assert Stripped(content) by {
        assert |rest| > 0 ==> content[0] == rest[0] && content[|rest| - 1] == rest[|rest| - 1];
      }
    }
  }

  /** Lines 51-57: the record of a chapter with no article marker.  Its title
      is empty and its content is the stripped chapter with every line break
      deleted; everything else in the chapter is kept. */
  lemma ChapterWithoutArticles(marker: string, chapter: string)
    requires forall p :: 0 <= p < |chapter| ==> MarkerEnd(chapter, p, ArticleTail).None?
    ensures var rs := ParseChapter(marker, chapter);
            && |rs| == 1
            && rs[0].section == marker && rs[0].title == ""
            && WellFormed(rs[0])
            && rs[0].content == Without(Strip(chapter), '\n')
            && multiset(rs[0].content) == multiset(Strip(chapter))['\n' := 0]
  {
    var articles := Spans(chapter, ArticleTail);
    if |articles| > 0 {
      SpanStartsAreMarkers(chapter, ArticleTail, articles[0].start);
    }
    assert |articles| == 0;
    var body := Strip(chapter);
    assert ParseChapter(marker, chapter) == [Record(marker, "", ReplaceAll(body, "\n", ""))];
    DeleteChar(body, '\n');
    if |body| > 0 {
      DeleteCharKeepsEnds(body, '\n');
    }
  }

  /** Every record of a chapter carries the chapter's marker and is well formed. */
  lemma ChapterRecordsWellFormed(marker: string, chapter: string)
    ensures forall i :: 0 <= i < |ParseChapter(marker, chapter)| ==>
              ParseChapter(marker, chapter)[i].section == marker && WellFormed(ParseChapter(marker, chapter)[i])
  {
    var articles := Spans(chapter, ArticleTail);
    var rs := ParseChapter(marker, chapter);
    if |articles| == 0 {
      var body := Strip(chapter);
      DeleteChar(body, '\n');
      if |body| > 0 {
        DeleteCharKeepsEnds(body, '\n');
      }
    } else {
      forall i | 0 <= i < |rs|
        ensures WellFormed(rs[i])
      {
        ArticleRecordWellFormed(marker, chapter[articles[i].start..articles[i].end]);
      }
    }
  }

  lemma {:induction false} ChaptersWellFormed(text: string, chapters: seq<Span>)
    requires forall k :: 0 <= k < |chapters| ==> chapters[k].start <= chapters[k].end <= |text|
    requires forall k :: 0 <= k < |chapters| ==> IsMarker(chapters[k].marker, ChapterTail)
    ensures forall i :: 0 <= i < |ParseChapters(text, chapters)| ==>
              IsMarker(ParseChapters(text, chapters)[i].section, ChapterTail)
              && WellFormed(ParseChapters(text, chapters)[i])
    decreases |chapters|
  {
    if |chapters| > 0 {
      ChapterRecordsWellFormed(chapters[0].marker, text[chapters[0].start..chapters[0].end]);
      ChaptersWellFormed(text, chapters[1..]);
    }
  }

  /** Every record of a document names a chapter marker `제<n>장` as its
      section, has no line break in its content, and has no whitespace at
      either end of its title or content. */
  lemma ParsedRecordsWellFormed(text: string)
    ensures forall i :: 0 <= i < |Parse(text)| ==>
              IsMarker(Parse(text)[i].section, ChapterTail) && WellFormed(Parse(text)[i])
  {
    ChaptersWellFormed(text, Spans(text, ChapterTail));
  }

  /** A document yields no record at all exactly when it has no chapter marker. */
  lemma ParseEmptyIffNoChapter(text: string)
    ensures Parse(text) == [] <==>
            forall p :: 0 <= p < |text| ==> MarkerEnd(text, p, ChapterTail).None?
  {
    var chapters := Spans(text, ChapterTail);
    if |chapters| > 0 {
      SpanStartsAreMarkers(text, ChapterTail, chapters[0].start);
      assert |ParseChapter(chapters[0].marker, text[chapters[0].start..chapters[0].end])| > 0;
    } else {
      forall p | 0 <= p < |text|
        ensures MarkerEnd(text, p, ChapterTail).None?
      {
        NoMarkerBeforeFirstSpan(text, ChapterTail, p);
      }
    }
  }

  /** The number of records the chapters should give: one per article, or
      one for a chapter without articles. */
  function RecordCount(text: string, chapters: seq<Span>): nat
    requires forall k :: 0 <= k < |chapters| ==> chapters[k].start <= chapters[k].end <= |text|
  {
    if |chapters| == 0 then 0
    else
      Max1(|Spans(text[chapters[0].start..chapters[0].end], ArticleTail)|) + RecordCount(text, chapters[1..])
  }

  lemma {:induction false} ChaptersCount(text: string, chapters: seq<Span>)
    requires forall k :: 0 <= k < |chapters| ==> chapters[k].start <= chapters[k].end <= |text|
    ensures |ParseChapters(text, chapters)| == RecordCount(text, chapters)
    decreases |chapters|
  {
    if |chapters| > 0 {
      ChaptersCount(text, chapters[1..]);
    }
  }

  /** Concatenation of the slices the spans cover, in order. */
  function Join(s: string, sp: seq<Span>): string
    requires forall k :: 0 <= k < |sp| ==> sp[k].start <= sp[k].end <= |s|
  {
    if |sp| == 0 then "" else s[sp[0].start..sp[0].end] + Join(s, sp[1..])
  }

  /** Spans that follow one another without a gap, the last reaching the end
      of `s`, concatenate to the suffix of `s` where the first one starts. */
  lemma {:induction false} JoinContiguous(s: string, sp: seq<Span>)
    requires |sp| > 0
    requires forall k :: 0 <= k < |sp| ==> sp[k].start <= sp[k].end <= |s|
    requires forall j, k :: 0 <= j < k < |sp| && k == j + 1 ==> sp[j].end == sp[k].start
    requires sp[|sp| - 1].end == |s|
    ensures s[sp[0].start..] == Join(s, sp)
    decreases |sp|
  {
    if |sp| > 1 {
      assert sp[0].end == sp[1].start;
      JoinContiguous(s, sp[1..]);
      assert s[sp[0].start..] == s[sp[0].start..sp[0].end] + s[sp[0].end..];
    }
  }

  /** Every span is a non-empty slice of `s` that opens with a marker. */
  lemma SpanBounds(s: string, tail: string)
    requires TailOk(tail)
    ensures forall k :: 0 <= k < |Spans(s, tail)| ==>
              Spans(s, tail)[k].start < Spans(s, tail)[k].end <= |s| && IsMarker(Spans(s, tail)[k].marker, tail)
  {
    var sp := Spans(s, tail);
    var ms := FindIter(s, tail, 0);
    forall k | 0 <= k < |sp|
      ensures sp[k].start < sp[k].end <= |s| && IsMarker(sp[k].marker, tail)
    {
      assert sp[k] == SpanAt(s, tail, ms, k);
      SpanOpensWithMarker(s, tail, k);
    }
  }

  /** Lines 14-17: the chapters tile the document from the first chapter
      marker to the end: each chapter ends where the next begins and the last
      ends with the text, so the chapter texts, concatenated in order, give
      back the document minus the text before the first marker. */
  lemma ChaptersTileText(text: string)
    ensures var chapters := Spans(text, ChapterTail);
            && (forall j, k :: 0 <= j < k < |chapters| && k == j + 1 ==> chapters[j].end == chapters[k].start)
            && (|chapters| > 0 ==> chapters[|chapters| - 1].end == |text|)
            && (|chapters| > 0 ==> text[chapters[0].start..] == Join(text, chapters))
  {
    SpanBounds(text, ChapterTail);
    var chapters := Spans(text, ChapterTail);
    SpansContiguous(text, ChapterTail);
    LastSpanReachesEnd(text, ChapterTail);
    if |chapters| > 0 {
      JoinContiguous(text, chapters);
    }
  }

  /** The article loop of lines 23-57 for one chapter. */
  method ChapterRecords(chapterTitle: string, chapterText: string) returns (rs: seq<Record>)
    ensures rs == ParseChapter(chapterTitle, chapterText)
  {
    var articles := Spans(chapterText, ArticleTail);
    if |articles| > 0 {
      ghost var expected := ParseChapter(chapterTitle, chapterText);
      rs := [];
      var i := 0;
      while i < |articles|
        invariant 0 <= i <= |articles|
        invariant rs == expected[..i]
      {
        assert expected[i] == SplitArticle(chapterTitle, chapterText[articles[i].start..articles[i].end]);
        var block := chapterText[articles[i].start..articles[i].end];
        rs := rs + [SplitArticle(chapterTitle, block)];
        i := i + 1;
      }
      assert rs == expected;
    } else {
      rs := [Record(chapterTitle, "", ReplaceAll(Strip(chapterText), "\n", ""))];
    }
  }

  /** The records of the chapters from `idx` on are those of chapter `idx`
      followed by those of the rest. */
  lemma ParseChaptersStep(text: string, chapters: seq<Span>, idx: nat)
    requires forall k :: 0 <= k < |chapters| ==> chapters[k].start <= chapters[k].end <= |text|
    requires idx < |chapters|
    ensures ParseChapters(text, chapters[idx..])
            == ParseChapter(chapters[idx].marker, text[chapters[idx].start..chapters[idx].end])
               + ParseChapters(text, chapters[idx + 1..])
  {
    assert chapters[idx..][1..] == chapters[idx + 1..];
  }

  /** `parse_company_regulations` as the source writes it: a loop over the
      chapters appending each chapter's records. */
  method ParseCompanyRegulations(text: string) returns (results: seq<Record>)
    ensures results == Parse(text)
  {
    var chapters := Spans(text, ChapterTail);
    SpanBounds(text, ChapterTail);
    results := ChaptersRecords(text, chapters);
  }

  /** The loop of `parse_company_regulations` over the chapter spans: the
      records of each chapter, in chapter order. */
  method ChaptersRecords(text: string, chapters: seq<Span>) returns (results: seq<Record>)
    requires forall k :: 0 <= k < |chapters| ==> chapters[k].start <= chapters[k].end <= |text|
    ensures results == ParseChapters(text, chapters)
  {
    results := [];
    var idx := 0;
    while idx < |chapters|
      invariant 0 <= idx <= |chapters|
      invariant results + ParseChapters(text, chapters[idx..]) == ParseChapters(text, chapters)
    {
      ParseChaptersStep(text, chapters, idx);
      var chapterRecords := ChapterRecords(chapters[idx].marker, text[chapters[idx].start..chapters[idx].end]);
      results := results + chapterRecords;
      idx := idx + 1;
    }
    assert chapters[idx..] == [];
  }
}
