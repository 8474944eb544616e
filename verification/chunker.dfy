/**
 The adaptive chunker: one section body is cut into chunks of at most the
 base size, each cut moved left to a word boundary, each next start moved
 back by an overlap of 15% of what remains (at most 200 characters) and then
 right to a word boundary. Every chunk's text is the section title and its
 keyword line followed by the chunk's slice of the body.
 */
module Chunker {
  import opened Text

  /** What a non-first chunk records about the text it shares with the
      chunk before it. */
  datatype OverlapInfo = OverlapInfo(overlapSize: nat, previousChunkEnd: string)

  datatype Chunk = Chunk(
    text: string,
    sectionPath: string,
    hierarchyLevel: nat,
    sectionTitle: string,
    keywords: seq<string>,
    overlap: Option<OverlapInfo>)

  const DefaultChunkSize: nat := 1250

  /** The overlap never exceeds this many characters. */
  const MaxOverlap: nat := 200

  /** The overlap is this percentage of the remaining content. */
  const OverlapPercent: nat := 15

  const KeywordLabel := "Ключевые слова: "

  function Min(a: int, b: int): int { if a <= b then a else b }
  function Max(a: int, b: int): int { if a >= b then a else b }

  /** The characters `find_word_boundary` stops at. */
  predicate IsBoundary(c: char)
  {
    c == ' ' || c == '\t' || c == '\n'
  }

  /** Moves `target` left until it is 0 or the character before it is a
      boundary character. */
  function SnapLeft(text: string, target: nat): (p: nat)
    requires target <= |text|
    ensures p <= target
    ensures p == 0 || IsBoundary(text[p - 1])
    ensures forall i :: p <= i < target ==> !IsBoundary(text[i])
  {
    if target > 0 && !IsBoundary(text[target - 1]) then SnapLeft(text, target - 1) else target
  }

  /** Moves `target` right until it reaches the end or a boundary
      character. */
  function SnapRight(text: string, target: nat): (p: nat)
    ensures target <= p
    ensures target <= |text| ==> p <= |text|
    ensures target >= |text| ==> p == target
    ensures p == |text| || p > |text| || IsBoundary(text[p])
    ensures forall i :: target <= i < p ==> !IsBoundary(text[i])
    decreases |text| - target
  {
    if target < |text| && !IsBoundary(text[target]) then SnapRight(text, target + 1) else target
  }

  /** `find_word_boundary(text, target_pos, direction)`: leftward for
      direction -1, rightward for any other direction. */
  function FindWordBoundary(text: string, target: nat, direction: int): (p: nat)
    requires direction == -1 ==> target <= |text|
    ensures direction == -1 ==>
      && p <= target
      && (p == 0 || IsBoundary(text[p - 1]))
      && forall i :: p <= i < target ==> !IsBoundary(text[i])
    ensures direction != -1 ==>
      && target <= p
      && (p < |text| ==> IsBoundary(text[p]))
      && forall i :: target <= i < p ==> i < |text| && !IsBoundary(text[i])
  {
    if direction == -1 then SnapLeft(text, target) else SnapRight(text, target)
  }

  /** A position already at a boundary does not move, so snapping twice is
      snapping once. */
  lemma {:induction false} SnapIdempotent(text: string, target: nat)
    requires target <= |text|
    ensures SnapLeft(text, SnapLeft(text, target)) == SnapLeft(text, target)
    ensures SnapRight(text, SnapRight(text, target)) == SnapRight(text, target)
  {
  }

  /** Python's `s[i:j]` for `0 <= i, j <= |s|`: empty when `j <= i`. */
  function Slice(s: string, i: nat, j: nat): (r: string)
    requires i <= |s| && j <= |s|
    ensures |r| == Max(0, j - i)
    ensures forall k :: 0 <= k < |r| ==> r[k] == s[i + k]
  {
    if j <= i then [] else s[i..j]
  }

  /** `min(200, int(remaining * 0.15))`. */
  function OverlapSize(remaining: nat): (n: nat)
    ensures n <= MaxOverlap
    ensures n * 100 <= remaining * OverlapPercent
    ensures n == MaxOverlap || (n + 1) * 100 > remaining * OverlapPercent
  {
    Min(MaxOverlap, remaining * OverlapPercent / 100)
  }

  /** The first lines of every chunk's text: the section title and its
      keywords. */
  function Header(sectionTitle: string, keywords: seq<string>): (h: string)
    ensures |h| == |sectionTitle| + 2 + |KeywordLabel| + |Join(", ", keywords)| + 2
    ensures StartsWith(h, sectionTitle)
    ensures h[|sectionTitle|..|sectionTitle| + 2] == "\n\n"
    ensures h[|sectionTitle| + 2..|sectionTitle| + 2 + |KeywordLabel|] == KeywordLabel
    ensures h[|h| - 2 - |Join(", ", keywords)|..|h| - 2] == Join(", ", keywords)
    ensures h[|h| - 2..] == "\n\n"
  {
    sectionTitle + "\n\n" + KeywordLabel + Join(", ", keywords) + "\n\n"
  }

  /** The slice `[start, end)` of the content one chunk shows, with the
      overlap size computed at `start`. */
  datatype Span = Span(start: nat, end: nat, overlap: nat)

  /** The split loop needs the base size to exceed every overlap; it runs
      only on content longer than the base size that is not blank. */
  predicate Splittable(content: string, base: nat)
  {
    AllSpace(content) || |content| <= base || base > MaxOverlap
  }

  /** One iteration's chunk boundaries, starting at `start`. */
  function SpanAt(content: string, base: nat, start: nat): (sp: Span)
    requires start < |content|
    ensures sp.start == start
    ensures sp.end <= Min(start + base, |content|)
    ensures sp.end == |content| || sp.end == 0 || IsBoundary(content[sp.end - 1])
    ensures forall i :: sp.end <= i < Min(start + base, |content|) ==> !IsBoundary(content[i])
    ensures sp.overlap == OverlapSize(|content| - start)
  {
    var end := Min(start + base, |content|);
    var end := if end < |content| then FindWordBoundary(content, end, -1) else end;
    Span(start, end, OverlapSize(|content| - start))
  }

  /** Where the chunk after `sp` starts:
      `max(start + base - overlap, end - overlap)`, moved right to a word
      boundary. */
  function NextStart(content: string, base: nat, sp: Span): (next: nat)
    requires base > MaxOverlap && sp.overlap <= MaxOverlap
    ensures next >= sp.start + base - sp.overlap > sp.start
    ensures next >= sp.end - sp.overlap
    ensures next < |content| ==> IsBoundary(content[next])
    ensures forall i :: Max(sp.start + base - sp.overlap, sp.end - sp.overlap) <= i < next ==>
      i < |content| && !IsBoundary(content[i])
  {
    var next := Max(sp.start + base - sp.overlap, sp.end - sp.overlap);
    FindWordBoundary(content, next, 1)
  }

  /** The spans the split loop visits from `start` on. */
  function SpansFrom(content: string, base: nat, start: nat): (spans: seq<Span>)
    requires base > MaxOverlap
    ensures spans == [] <==> start >= |content|
    ensures spans != [] ==> spans[0] == SpanAt(content, base, start)
    ensures forall k :: 0 <= k < |spans| ==> start <= spans[k].start < |content|
    ensures forall k :: 0 <= k < |spans| ==> spans[k].end <= |content|
    decreases |content| - start
  {
    if start >= |content| then []
    else
      var sp := SpanAt(content, base, start);
      if sp.end >= |content| then [sp]
      else [sp] + SpansFrom(content, base, NextStart(content, base, sp))
  }

  predicate SpansInRange(content: string, spans: seq<Span>)
  {
    forall k :: 0 <= k < |spans| ==> spans[k].start < |content| && spans[k].end <= |content|
  }

  /** The chunk of one span: header plus the slice of the content; a
      non-first chunk also records the overlap it shares with the previous
      chunk's content, which is not added to its text. */
  function ChunkOf(content: string, sectionTitle: string, keywords: seq<string>, sp: Span): (c: Chunk)
    requires sp.start < |content| && sp.end <= |content|
    ensures StartsWith(c.text, Header(sectionTitle, keywords))
    ensures c.text[|Header(sectionTitle, keywords)|..] == Slice(content, sp.start, sp.end)
    ensures c.sectionPath == sectionTitle && c.sectionTitle == sectionTitle
    ensures c.keywords == keywords && c.hierarchyLevel == 1
    ensures c.overlap.Some? <==> sp.start > 0
    ensures c.overlap.Some? ==>
      && c.overlap.value.overlapSize == sp.overlap
      && |c.overlap.value.previousChunkEnd| == Min(sp.overlap, sp.start)
      && c.overlap.value.previousChunkEnd == content[sp.start - |c.overlap.value.previousChunkEnd|..sp.start]
  {
    var overlap :=
      if sp.start > 0 then Some(OverlapInfo(sp.overlap, content[Max(0, sp.start - sp.overlap)..sp.start]))
      else None;
    Chunk(Header(sectionTitle, keywords) + Slice(content, sp.start, sp.end),
      sectionTitle, 1, sectionTitle, keywords, overlap)
  }

  function ChunksOf(content: string, sectionTitle: string, keywords: seq<string>, spans: seq<Span>): (r: seq<Chunk>)
    requires SpansInRange(content, spans)
    ensures |r| == |spans|
    ensures forall k :: 0 <= k < |spans| ==> r[k] == ChunkOf(content, sectionTitle, keywords, spans[k])
  {
    if spans == [] then []
    else [ChunkOf(content, sectionTitle, keywords, spans[0])] + ChunksOf(content, sectionTitle, keywords, spans[1..])
  }

  /** `create_adaptive_chunks(content, section_title, keywords, base)`. */
  function AdaptiveChunks(content: string, sectionTitle: string, keywords: seq<string>, base: nat): (r: seq<Chunk>)
    requires Splittable(content, base)
    ensures r == [] <==> AllSpace(content)
    ensures !AllSpace(content) && |content| <= base ==>
      |r| == 1 && r[0].text == Header(sectionTitle, keywords) + content && r[0].overlap.None?
    ensures !AllSpace(content) && |content| > base ==>
      var spans := SpansFrom(content, base, 0);
      |r| == |spans| && forall k :: 0 <= k < |r| ==> r[k] == ChunkOf(content, sectionTitle, keywords, spans[k])
    ensures forall k :: 0 <= k < |r| ==>
      && StartsWith(r[k].text, Header(sectionTitle, keywords))
      && r[k].sectionPath == sectionTitle
      && r[k].sectionTitle == sectionTitle
      && r[k].keywords == keywords
      && r[k].hierarchyLevel == 1
  {
    if Strip(content) == [] then []
    else if |content| <= base then
      [Chunk(Header(sectionTitle, keywords) + content, sectionTitle, 1, sectionTitle, keywords, None)]
    else ChunksOf(content, sectionTitle, keywords, SpansFrom(content, base, 0))
  }

  /** The chunks the split loop emits from `start` on. */
  function ChunksFrom(content: string, sectionTitle: string, keywords: seq<string>, base: nat, start: nat): seq<Chunk>
    requires base > MaxOverlap
  {
    ChunksOf(content, sectionTitle, keywords, SpansFrom(content, base, start))
  }

  /** The split loop itself. */
  method CreateAdaptiveChunks(content: string, sectionTitle: string, keywords: seq<string>, base: nat)
    returns (chunks: seq<Chunk>)
    requires Splittable(content, base)
    ensures chunks == AdaptiveChunks(content, sectionTitle, keywords, base)
    ensures chunks == [] <==> AllSpace(content)
  {
    if Strip(content) == [] {
      return [];
    }
    if |content| <= base {
      return [Chunk(Header(sectionTitle, keywords) + content, sectionTitle, 1, sectionTitle, keywords, None)];
    }
    ghost var all := ChunksFrom(content, sectionTitle, keywords, base, 0);
    chunks := [];
    var start: nat := 0;
    var contentLength := |content|;
    while start < contentLength
      invariant chunks + ChunksFrom(content, sectionTitle, keywords, base, start) == all
      decreases contentLength - start
    {
      var chunk, next := LoopPass(content, sectionTitle, keywords, base, start);
      AppendAssoc(chunks, [chunk], ChunksFrom(content, sectionTitle, keywords, base, next));
      chunks := chunks + [chunk];
      start := next;
    }
    AppendEmpty(chunks);
  }

  /** One pass of the split loop: the chunk cut at `start` and where the
      next pass begins; the loop's `break` after the last chunk is the
      step to `|content|`. */
  method LoopPass(content: string, sectionTitle: string, keywords: seq<string>, base: nat, start: nat)
    returns (chunk: Chunk, next: nat)
    requires base > MaxOverlap && start < |content|
    ensures start < next
    ensures ChunksFrom(content, sectionTitle, keywords, base, start)
      == [chunk] + ChunksFrom(content, sectionTitle, keywords, base, next)
  {
    var sp := SpanAt(content, base, start);
    chunk := ChunkOf(content, sectionTitle, keywords, sp);
    ChunksFromUnfold(content, sectionTitle, keywords, base, start);
    if sp.end >= |content| {
      next := |content|;
      AppendEmpty([chunk]);
    } else {
      next := NextStart(content, base, sp);
    }
  }

  /** One unfolding of the split loop, at the level of chunks. */
  lemma ChunksFromUnfold(content: string, sectionTitle: string, keywords: seq<string>, base: nat, start: nat)
    requires base > MaxOverlap && start < |content|
    ensures var sp := SpanAt(content, base, start);
      ChunksFrom(content, sectionTitle, keywords, base, start)
        == [ChunkOf(content, sectionTitle, keywords, sp)]
          + (if sp.end >= |content| then []
             else ChunksFrom(content, sectionTitle, keywords, base, NextStart(content, base, sp)))
  {
    var sp := SpanAt(content, base, start);
    var spans := SpansFrom(content, base, start);
    if sp.end < |content| {
      assert spans[1..] == SpansFrom(content, base, NextStart(content, base, sp));
    } else {
      assert spans[1..] == [];
    }
  }

  /** What holds between consecutive spans: the earlier one stops short of
      the end, the later one starts on a boundary character at least
      `base - overlap` further on, and whatever lies between the earlier
      end and the later start is part of a single word. */
  predicate Follows(content: string, base: nat, prev: Span, next: Span)
  {
    && prev.end < |content|
    && next.start < |content|
    && next.start >= prev.start + base - prev.overlap
    && IsBoundary(content[next.start])
    && (forall i :: prev.end <= i < next.start ==> !IsBoundary(content[i]))
  }

  predicate Advances(content: string, base: nat, spans: seq<Span>)
  {
    forall j, k :: 0 <= j < |spans| && 0 <= k < |spans| && k == j + 1 ==> Follows(content, base, spans[j], spans[k])
  }

  /** A cut that falls after `start`'s span leaves out no boundary
      character: either the next span starts at or before the cut, or the
      skipped characters are one word's. */
  lemma NextStartSkipsNoBoundary(content: string, base: nat, start: nat)
    requires base > MaxOverlap && start < |content|
    requires SpanAt(content, base, start).end < |content|
    ensures var sp := SpanAt(content, base, start);
      forall i :: sp.end <= i < NextStart(content, base, sp) ==> !IsBoundary(content[i])
  {
    var sp := SpanAt(content, base, start);
    var cut := start + base;
    assert cut < |content|;
    assert sp.end == SnapLeft(content, cut);
    var from := Max(cut - sp.overlap, sp.end - sp.overlap);
    assert from == cut - sp.overlap;
    assert NextStart(content, base, sp) == SnapRight(content, from);
  }

  /** A cut inside the content loses text, in that the next start lies
      beyond the snapped end, exactly when none of the `overlap`
      characters just before the cut is a space, tab or newline. */
  lemma SkipsTextIff(content: string, base: nat, start: nat)
    requires base > MaxOverlap && start + base < |content|
    ensures var sp := SpanAt(content, base, start);
      (NextStart(content, base, sp) > sp.end) <==>
      (forall i :: start + base - sp.overlap <= i < start + base ==> !IsBoundary(content[i]))
  {
    var sp := SpanAt(content, base, start);
    var cut := start + base;
    assert sp.end == SnapLeft(content, cut);
    assert sp.overlap >= 30;
    var from := cut - sp.overlap;
    assert Max(cut - sp.overlap, sp.end - sp.overlap) == from;
    var next := NextStart(content, base, sp);
    assert next == SnapRight(content, from);
    if !forall i :: from <= i < cut ==> !IsBoundary(content[i]) {
      var b :| from <= b < cut && IsBoundary(content[b]);
      assert next <= b;
      assert b < sp.end;
    }
  }

  lemma {:induction false} SpansAdvance(content: string, base: nat, start: nat)
    requires base > MaxOverlap
    ensures Advances(content, base, SpansFrom(content, base, start))
    decreases |content| - start
  {
    var spans := SpansFrom(content, base, start);
    if start < |content| {
      var sp := SpanAt(content, base, start);
      if sp.end < |content| {
        var next := NextStart(content, base, sp);
        var rest := SpansFrom(content, base, next);
        SpansAdvance(content, base, next);
        NextStartSkipsNoBoundary(content, base, start);
        if next < |content| {
          assert rest[0].start == next;
        }
        AdvancesCons(content, base, sp, rest);
      }
    }
  }

  /** The split loop's last span either reaches the end of the content or
      would be followed by a start past it. */
  lemma {:induction false} SpansLast(content: string, base: nat, start: nat)
    requires base > MaxOverlap && start < |content|
    ensures var spans := SpansFrom(content, base, start);
      var last := spans[|spans| - 1];
      last.overlap <= MaxOverlap
      && (last.end == |content| || NextStart(content, base, last) >= |content|)
    decreases |content| - start
  {
    var sp := SpanAt(content, base, start);
    if sp.end < |content| {
      var next := NextStart(content, base, sp);
      if next < |content| {
        SpansLast(content, base, next);
        var rest := SpansFrom(content, base, next);
        assert SpansFrom(content, base, start) == [sp] + rest;
      }
    }
  }

  /** A span of at most `base` characters, within the content, whose
      overlap is at most 200 characters. */
  predicate SpanOk(content: string, base: nat, sp: Span)
  {
    sp.start < |content| && sp.end <= |content| && sp.end <= sp.start + base && sp.overlap <= MaxOverlap
  }

  predicate AllSpansOk(content: string, base: nat, spans: seq<Span>)
  {
    forall k :: 0 <= k < |spans| ==> SpanOk(content, base, spans[k])
  }

  lemma {:induction false} SpansOk(content: string, base: nat, start: nat)
    requires base > MaxOverlap
    ensures AllSpansOk(content, base, SpansFrom(content, base, start))
    decreases |content| - start
  {
    if start < |content| {
      var sp := SpanAt(content, base, start);
      assert SpanOk(content, base, sp);
      if sp.end < |content| {
        var next := NextStart(content, base, sp);
        SpansOk(content, base, next);
        AllSpansOkCons(content, base, sp, SpansFrom(content, base, next));
      }
    }
  }

  lemma AllSpansOkCons(content: string, base: nat, sp: Span, rest: seq<Span>)
    requires SpanOk(content, base, sp) && AllSpansOk(content, base, rest)
    ensures AllSpansOk(content, base, [sp] + rest)
  {
    assert forall k :: 0 < k <= |rest| ==> ([sp] + rest)[k] == rest[k - 1];
  }

  lemma AdvancesCons(content: string, base: nat, sp: Span, rest: seq<Span>)
    requires Advances(content, base, rest)
    requires rest != [] ==> Follows(content, base, sp, rest[0])
    ensures Advances(content, base, [sp] + rest)
  {
    var spans := [sp] + rest;
    forall j, k | 0 <= j < |spans| && 0 <= k < |spans| && k == j + 1
      ensures Follows(content, base, spans[j], spans[k])
    {
      if j > 0 {
        assert spans[j] == rest[j - 1] && spans[k] == rest[k - 1];
      }
    }
  }

  /** The chunk of a span carries overlap information exactly when the span
      does not start at 0. */
  lemma ChunkOfShape(content: string, sectionTitle: string, keywords: seq<string>, base: nat, sp: Span, k: nat)
    requires SpanOk(content, base, sp)
    requires k == 0 <==> sp.start == 0
    ensures OverlapShape(ChunkOf(content, sectionTitle, keywords, sp), k, sectionTitle, keywords, base)
  {
  }

  /** `OverlapShape` for every chunk of the split loop. */
  lemma SplitChunksOverlap(content: string, sectionTitle: string, keywords: seq<string>, base: nat)
    requires base > MaxOverlap
    ensures var r := ChunksFrom(content, sectionTitle, keywords, base, 0);
      forall k :: 0 <= k < |r| ==> OverlapShape(r[k], k, sectionTitle, keywords, base)
  {
    var spans := SpansFrom(content, base, 0);
    var r := ChunksFrom(content, sectionTitle, keywords, base, 0);
    SpansAdvance(content, base, 0);
    SpansOk(content, base, 0);
    forall k | 0 <= k < |r| ensures OverlapShape(r[k], k, sectionTitle, keywords, base) {
      assert SpanOk(content, base, spans[k]);
      assert r[k] == ChunkOf(content, sectionTitle, keywords, spans[k]);
      if k > 0 {
        assert Follows(content, base, spans[k - 1], spans[k]);
      }
      ChunkOfShape(content, sectionTitle, keywords, base, spans[k], k);
    }
  }

  /** The `k`-th chunk carries overlap information exactly when `k > 0`;
      the recorded overlap is at most 200 characters and its text at most
      that long; the chunk shows at most `base` characters of content. */
  predicate OverlapShape(c: Chunk, k: nat, sectionTitle: string, keywords: seq<string>, base: nat)
  {
    && (c.overlap == None <==> k == 0)
    && (c.overlap.Some? ==>
          c.overlap.value.overlapSize <= MaxOverlap
          && |c.overlap.value.previousChunkEnd| <= c.overlap.value.overlapSize)
    && |c.text| <= |Header(sectionTitle, keywords)| + base
  }

  lemma AdaptiveChunksOverlap(content: string, sectionTitle: string, keywords: seq<string>, base: nat)
    requires Splittable(content, base)
    ensures var r := AdaptiveChunks(content, sectionTitle, keywords, base);
      forall k :: 0 <= k < |r| ==> OverlapShape(r[k], k, sectionTitle, keywords, base)
  {
    var r := AdaptiveChunks(content, sectionTitle, keywords, base);
    if AllSpace(content) {
      assert r == [];
    } else if |content| <= base {
      assert |r| == 1 && r[0].overlap == None;
      assert |r[0].text| == |Header(sectionTitle, keywords)| + |content|;
    } else {
      assert r == ChunksFrom(content, sectionTitle, keywords, base, 0);
      SplitChunksOverlap(content, sectionTitle, keywords, base);
    }
  }

  /** The spans are the loop's: each is `SpanAt` its own start, and each
      later one starts where `NextStart` of the one before puts it. */
  predicate LoopSpans(content: string, base: nat, spans: seq<Span>)
    requires base > MaxOverlap
  {
    && (forall k :: 0 <= k < |spans| ==>
          spans[k].start < |content| && spans[k] == SpanAt(content, base, spans[k].start))
    && (forall j, k :: 0 <= j < |spans| && 0 <= k < |spans| && k == j + 1 ==>
          spans[j].overlap <= MaxOverlap && spans[k].start == NextStart(content, base, spans[j]))
  }

  lemma LoopSpansCons(content: string, base: nat, sp: Span, rest: seq<Span>)
    requires base > MaxOverlap && sp.start < |content| && sp == SpanAt(content, base, sp.start)
    requires LoopSpans(content, base, rest)
    requires rest != [] ==> rest[0].start == NextStart(content, base, sp)
    ensures LoopSpans(content, base, [sp] + rest)
  {
    var spans := [sp] + rest;
    forall k | 0 < k < |spans| ensures spans[k] == rest[k - 1] { }
  }

  lemma {:induction false} SpansFollowLoop(content: string, base: nat, start: nat)
    requires base > MaxOverlap
    ensures LoopSpans(content, base, SpansFrom(content, base, start))
    decreases |content| - start
  {
    if start < |content| {
      var sp := SpanAt(content, base, start);
      if sp.end < |content| {
        var next := NextStart(content, base, sp);
        SpansFollowLoop(content, base, next);
        LoopSpansCons(content, base, sp, SpansFrom(content, base, next));
      } else {
        LoopSpansCons(content, base, sp, []);
        assert SpansFrom(content, base, start) == [sp] + [];
      }
    }
  }

  /** The chunk of a span, value by value: the header and then
      `content[start:end]`; overlap information exactly when the span does
      not start at 0, holding the overlap computed from what remains at
      the start and the (at most that many) characters just before it. */
  predicate ChunkExact(content: string, sectionTitle: string, keywords: seq<string>, c: Chunk, sp: Span)
    requires sp.start < |content| && sp.end <= |content|
  {
    && c.text == Header(sectionTitle, keywords) + Slice(content, sp.start, sp.end)
    && (c.overlap.None? <==> sp.start == 0)
    && (sp.start > 0 ==>
          var n := OverlapSize(|content| - sp.start);
          c.overlap == Some(OverlapInfo(n, content[sp.start - Min(n, sp.start)..sp.start])))
  }

  lemma ChunkOfExact(content: string, sectionTitle: string, keywords: seq<string>, base: nat, sp: Span)
    requires base > MaxOverlap && sp.start < |content| && sp == SpanAt(content, base, sp.start)
    ensures ChunkExact(content, sectionTitle, keywords, ChunkOf(content, sectionTitle, keywords, sp), sp)
  {
    var c := ChunkOf(content, sectionTitle, keywords, sp);
    var h := Header(sectionTitle, keywords);
    assert c.text == c.text[..|h|] + c.text[|h|..];
  }

  /** The chunks of a body longer than `base`, value by value: the spans
      are the loop's, only the first starts at 0, and each chunk is
      `ChunkExact` for its span. */
  lemma AdaptiveChunksExact(content: string, sectionTitle: string, keywords: seq<string>, base: nat)
    requires Splittable(content, base) && !AllSpace(content) && |content| > base
    ensures var spans := SpansFrom(content, base, 0);
      var r := AdaptiveChunks(content, sectionTitle, keywords, base);
      && |r| == |spans|
      && LoopSpans(content, base, spans)
      && forall k :: 0 <= k < |r| ==>
           && (spans[k].start == 0 <==> k == 0)
           && ChunkExact(content, sectionTitle, keywords, r[k], spans[k])
  {
    var spans := SpansFrom(content, base, 0);
    var r := AdaptiveChunks(content, sectionTitle, keywords, base);
    SpansFollowLoop(content, base, 0);
    SpansAdvance(content, base, 0);
    forall k | 0 <= k < |r|
      ensures spans[k].start == 0 <==> k == 0
      ensures ChunkExact(content, sectionTitle, keywords, r[k], spans[k])
    {
      if k > 0 {
        assert Follows(content, base, spans[k - 1], spans[k]);
      }
      ChunkOfExact(content, sectionTitle, keywords, base, spans[k]);
    }
  }

  /** When no boundary character falls within the first `base` characters,
      the first chunk shows no content at all: only its header. */
  lemma FirstChunkOfLongWord(content: string, sectionTitle: string, keywords: seq<string>, base: nat)
    requires base > MaxOverlap && |content| > base && !AllSpace(content)
    requires forall i :: 0 <= i < base ==> !IsBoundary(content[i])
    ensures AdaptiveChunks(content, sectionTitle, keywords, base)[0].text == Header(sectionTitle, keywords)
  {
    var spans := SpansFrom(content, base, 0);
    assert spans[0].end == 0;
    assert AdaptiveChunks(content, sectionTitle, keywords, base)[0] == ChunkOf(content, sectionTitle, keywords, spans[0]);
  }
}
