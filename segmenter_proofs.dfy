/** Properties of `split_text`, proved about the specification functions of Segmenter (and so,
    through SplitText's postcondition, about the method). */
module SegmenterProofs {
  import opened PageMaps
  import opened Segmenter

  // ---------------------------------------------------------------------------------------
  // One pass: slice bounds

  /** Every chunk is a slice `all_text[s:e]` with `0 <= s <= cursor + 1`, ending after the
      overlap and no later than one past the forward search limit; with a search limit of at
      least 1 it is at most MAX + 2 * SSL long, and with an overlap of at least 1 it is never
      empty. */
  lemma ChunkBounds(pageMap: seq<PageEntry>, text: string, cfg: Config, cursor: nat)
    requires Valid(cfg) && cursor + cfg.sectionOverlap < |text|
    ensures var ch := ChunkAt(pageMap, text, cfg, cursor);
      && ch.start <= cursor + 1
      && ch.start <= ch.end <= |text|
      && ch.end <= cursor + cfg.maxSectionLength + cfg.sentenceSearchLimit + 1
      && ch.content == text[ch.start..ch.end]
      && (cfg.sentenceSearchLimit >= 1 ==> ch.end - ch.start <= cfg.maxSectionLength + 2 * cfg.sentenceSearchLimit)
      && (cfg.sectionOverlap >= 1 ==> ch.start < ch.end)
  {
    var e := ChunkEnd(text, cfg, cursor);
    var bound := e - cfg.maxSectionLength - 2 * cfg.sentenceSearchLimit;
    var (stop, lastWord) := ScanBackward(text, bound, cursor, -1);
    assert ChunkStart(text, cfg, cursor, e) >= stop;
  }

  // ---------------------------------------------------------------------------------------
  // One pass: where the chunk ends (lines 70-84)

  /** When the tentative end lies past the text, the chunk runs to the end of the text. */
  lemma ChunkEndClamped(text: string, cfg: Config, cursor: nat)
    requires Valid(cfg) && cursor + cfg.sectionOverlap < |text|
    requires cursor + cfg.maxSectionLength > |text|
    ensures ChunkEnd(text, cfg, cursor) == |text|
  {
  }

  /** The forward scan stops on the first sentence end at or after the tentative end (up to
      the search limit, inclusive): that character becomes the chunk's last one. */
  lemma ChunkEndAtSentenceEnd(text: string, cfg: Config, cursor: nat, p: nat)
    requires Valid(cfg) && cursor + cfg.sectionOverlap < |text|
    requires cursor + cfg.maxSectionLength <= p <= cursor + cfg.maxSectionLength + cfg.sentenceSearchLimit
    requires p < |text| && IsSentenceEnding(text[p])
    requires forall k | cursor + cfg.maxSectionLength <= k < p :: !IsSentenceEnding(text[k])
    ensures ChunkEnd(text, cfg, cursor) == p + 1
    ensures IsSentenceEnding(text[ChunkEnd(text, cfg, cursor) - 1])
  {
    var (scanned, lastWord) := ScanForward(text, cfg, cursor, cursor + cfg.maxSectionLength, -1);
    assert scanned == p;
  }

  /** When the scan gives up at the search limit without a sentence end, the chunk ends just
      after the last word break the scan saw. */
  lemma ChunkEndAtWordBreak(text: string, cfg: Config, cursor: nat, p: nat)
    requires Valid(cfg) && cursor + cfg.sectionOverlap < |text|
    requires cursor + cfg.maxSectionLength + cfg.sentenceSearchLimit < |text|
    requires forall k | cursor + cfg.maxSectionLength <= k <= cursor + cfg.maxSectionLength + cfg.sentenceSearchLimit ::
               !IsSentenceEnding(text[k])
    requires cursor + cfg.maxSectionLength <= p < cursor + cfg.maxSectionLength + cfg.sentenceSearchLimit
    requires IsWordBreak(text[p])
    requires forall k | p < k < cursor + cfg.maxSectionLength + cfg.sentenceSearchLimit :: !IsWordBreak(text[k])
    ensures ChunkEnd(text, cfg, cursor) == p + 1
    ensures IsWordBreak(text[ChunkEnd(text, cfg, cursor) - 1])
  {
    var (scanned, lastWord) := ScanForward(text, cfg, cursor, cursor + cfg.maxSectionLength, -1);
    assert scanned == cursor + cfg.maxSectionLength + cfg.sentenceSearchLimit;
    assert lastWord == p;
  }

  /** With neither a sentence end nor a word break inside the search window, the chunk is cut
      mid-word just past the search limit. */
  lemma ChunkEndAtSearchLimit(text: string, cfg: Config, cursor: nat)
    requires Valid(cfg) && cursor + cfg.sectionOverlap < |text|
    requires cursor + cfg.maxSectionLength + cfg.sentenceSearchLimit < |text|
    requires forall k | cursor + cfg.maxSectionLength <= k <= cursor + cfg.maxSectionLength + cfg.sentenceSearchLimit ::
               !IsSentenceEnding(text[k])
    requires forall k | cursor + cfg.maxSectionLength <= k < cursor + cfg.maxSectionLength + cfg.sentenceSearchLimit ::
               !IsWordBreak(text[k])
    ensures ChunkEnd(text, cfg, cursor) == cursor + cfg.maxSectionLength + cfg.sentenceSearchLimit + 1
  {
    var (scanned, lastWord) := ScanForward(text, cfg, cursor, cursor + cfg.maxSectionLength, -1);
    assert scanned == cursor + cfg.maxSectionLength + cfg.sentenceSearchLimit;
  }

  /** When the scan reaches the end of the text without a sentence end, the chunk runs to the
      end of the text. */
  lemma ChunkEndAtTextEnd(text: string, cfg: Config, cursor: nat)
    requires Valid(cfg) && cursor + cfg.sectionOverlap < |text|
    requires cursor + cfg.maxSectionLength <= |text| <= cursor + cfg.maxSectionLength + cfg.sentenceSearchLimit
    requires forall k | cursor + cfg.maxSectionLength <= k < |text| :: !IsSentenceEnding(text[k])
    ensures ChunkEnd(text, cfg, cursor) == |text|
  {
    var (scanned, lastWord) := ScanForward(text, cfg, cursor, cursor + cfg.maxSectionLength, -1);
    assert scanned == |text|;
  }

  // ---------------------------------------------------------------------------------------
  // One pass: where the chunk starts (lines 86-95)

  function Max(a: int, b: int): int
  {
    if a <= b then b else a
  }

  /** The lowest position the backward scan can stop at: it never passes position 0 nor the
      bound `end - MAX - 2 * SSL`, and it does not move when the cursor is already there. */
  function BackwardFloor(cfg: Config, cursor: nat, e: int): nat
  {
    Min(cursor, Max(0, e - cfg.maxSectionLength - 2 * cfg.sentenceSearchLimit))
  }

  /** The backward scan stops on the nearest sentence end at or before the cursor (no lower
      than the floor); the chunk then begins immediately after it, or at 0 if it is at 0. */
  lemma ChunkStartAfterSentenceEnd(text: string, cfg: Config, cursor: nat, e: int, p: nat)
    requires cursor < |text|
    requires BackwardFloor(cfg, cursor, e) <= p <= cursor && IsSentenceEnding(text[p])
    requires forall k | p < k <= cursor :: !IsSentenceEnding(text[k])
    ensures ChunkStart(text, cfg, cursor, e) == if p > 0 then p + 1 else 0
  {
    var (stop, lastWord) := ScanBackward(text, e - cfg.maxSectionLength - 2 * cfg.sentenceSearchLimit, cursor, -1);
    assert stop == p;
  }

  /** Without a sentence end between the floor and the cursor, the chunk begins just after the
      farthest-back word break the scan saw. */
  lemma ChunkStartAfterWordBreak(text: string, cfg: Config, cursor: nat, e: int, p: nat)
    requires cursor < |text|
    requires forall k | BackwardFloor(cfg, cursor, e) <= k <= cursor :: !IsSentenceEnding(text[k])
    requires BackwardFloor(cfg, cursor, e) < p <= cursor && IsWordBreak(text[p])
    requires forall k | BackwardFloor(cfg, cursor, e) < k < p :: !IsWordBreak(text[k])
    ensures ChunkStart(text, cfg, cursor, e) == p + 1
  {
    var (stop, lastWord) := ScanBackward(text, e - cfg.maxSectionLength - 2 * cfg.sentenceSearchLimit, cursor, -1);
    assert stop == BackwardFloor(cfg, cursor, e);
    assert lastWord == p;
  }

  /** Without a sentence end or a word break, the chunk begins at the floor, one past it when
      the floor is not 0. */
  lemma ChunkStartAtFloor(text: string, cfg: Config, cursor: nat, e: int)
    requires cursor < |text|
    requires forall k | BackwardFloor(cfg, cursor, e) <= k <= cursor :: !IsSentenceEnding(text[k])
    requires forall k | BackwardFloor(cfg, cursor, e) < k <= cursor :: !IsWordBreak(text[k])
    ensures var floor := BackwardFloor(cfg, cursor, e);
      ChunkStart(text, cfg, cursor, e) == if floor > 0 then floor + 1 else 0
  {
    var (stop, lastWord) := ScanBackward(text, e - cfg.maxSectionLength - 2 * cfg.sentenceSearchLimit, cursor, -1);
    assert stop == BackwardFloor(cfg, cursor, e);
  }

  /** The first pass never moves the start: the first chunk begins at 0. */
  lemma FirstChunkStartsAtZero(pageMap: seq<PageEntry>, text: string, cfg: Config)
    requires Valid(cfg) && cfg.sectionOverlap < |text|
    ensures ChunkAt(pageMap, text, cfg, 0).start == 0
  {
  }

  // ---------------------------------------------------------------------------------------
  // One pass: the next cursor (lines 100-107)

  /** When the backward scan can take at least one step from a cursor that is neither a
      sentence end nor a word break, the chunk starts at or before the cursor. */
  lemma ChunkStartNotAfterCursor(text: string, cfg: Config, cursor: nat, e: int)
    requires 0 < cursor < |text| && e - cfg.maxSectionLength - 2 * cfg.sentenceSearchLimit < cursor
    requires !IsSentenceEnding(text[cursor]) && !IsWordBreak(text[cursor])
    ensures ChunkStart(text, cfg, cursor, e) <= cursor
  {
    var (stop, lastWord) := ScanBackward(text, e - cfg.maxSectionLength - 2 * cfg.sentenceSearchLimit, cursor, -1);
    assert stop < cursor;
    assert lastWord != cursor;
  }

  /** A pass whose cursor sits on a `<` (after position 0) starts its chunk at or before it,
      once the search limit is at least 2. */
  lemma ChunkAtTag(pageMap: seq<PageEntry>, text: string, cfg: Config, cursor: nat)
    requires Valid(cfg) && cfg.sentenceSearchLimit >= 2 && cursor + cfg.sectionOverlap < |text|
    requires 0 < cursor && text[cursor] == '<'
    ensures ChunkAt(pageMap, text, cfg, cursor).start <= cursor
  {
    var e := ChunkEnd(text, cfg, cursor);
    ChunkStartNotAfterCursor(text, cfg, cursor, e);
  }

  /** The last `<table` of a chunk, when there is one, begins with a `<`. */
  lemma TableOpenIsTag(content: string)
    requires RFind(content, TableOpen) >= 0
    ensures content[RFind(content, TableOpen)] == '<'
  {
    var lts := RFind(content, TableOpen);
    assert content[lts..lts + |TableOpen|] == TableOpen;
    assert content[lts..lts + |TableOpen|][0] == content[lts];
  }

  /** When the table rule fires on a chunk that does not reach the end of the text, the move to
      the table advances the cursor, so the next cursor is no later than the chunk's last
      `<table`. */
  lemma NextCursorAtTable(cfg: Config, length: nat, cursor: nat, ch: Chunk)
    requires cursor + cfg.sectionOverlap < ch.end < length
    requires cursor <= ch.start + 2 * cfg.sentenceSearchLimit
    requires TableRuleFires(cfg, ch.content)
    ensures NextCursor(cfg, cursor, ch) <= ch.start + RFind(ch.content, TableOpen)
  {
  }

  /** The table rule keeps an unclosed table whole: when it fires and another pass follows,
      the next chunk starts at or before the `<` of the chunk's last `<table` (given a search
      limit of at least 2, so that the backward scan of the next pass always takes a step). */
  lemma TableSafety(pageMap: seq<PageEntry>, text: string, cfg: Config, cursor: nat)
    requires Valid(cfg) && cfg.sentenceSearchLimit >= 2 && cursor + cfg.sectionOverlap < |text|
    requires TableRuleFires(cfg, ChunkAt(pageMap, text, cfg, cursor).content)
    requires var ch := ChunkAt(pageMap, text, cfg, cursor);
      NextCursor(cfg, cursor, ch) + cfg.sectionOverlap < |text|
    ensures var ch := ChunkAt(pageMap, text, cfg, cursor);
      var tablePos := ch.start + RFind(ch.content, TableOpen);
      tablePos < |text| && text[tablePos] == '<' &&
      ChunkAt(pageMap, text, cfg, NextCursor(cfg, cursor, ch)).start <= tablePos
  {
    var ch := ChunkAt(pageMap, text, cfg, cursor);
    var tablePos := ch.start + RFind(ch.content, TableOpen);
    TableOpenIsTag(ch.content);
    assert text[tablePos] == ch.content[tablePos - ch.start];
    var next := NextCursor(cfg, cursor, ch);
    if ch.end < |text| {
      NextCursorAtTable(cfg, |text|, cursor, ch);
    }
    if next == tablePos {
      ChunkAtTag(pageMap, text, cfg, next);
    }
  }

  /** A pass is the chunk end of lines 70-84 and the chunk start of lines 86-95 for that end. */
  lemma ChunkAtParts(pageMap: seq<PageEntry>, text: string, cfg: Config, cursor: nat)
    requires Valid(cfg) && cursor + cfg.sectionOverlap < |text|
    ensures ChunkAt(pageMap, text, cfg, cursor).end == ChunkEnd(text, cfg, cursor)
    ensures ChunkAt(pageMap, text, cfg, cursor).start == ChunkStart(text, cfg, cursor, ChunkEnd(text, cfg, cursor))
  {
  }

  /** The backward scan stops no earlier when it starts later and its bound is higher. */
  lemma ScanBackwardStopMonotone(text: string, b0: int, b: int, c0: nat, c: nat)
    requires b0 <= b && c0 <= c < |text|
    ensures ScanBackward(text, b0, c0, -1).0 <= ScanBackward(text, b, c, -1).0
  {
    var (t0, w0) := ScanBackward(text, b0, c0, -1);
    var (t, w) := ScanBackward(text, b, c, -1);
    if t < t0 {
      // t0 lies in the stretch the later scan passed over, so it is no stopping point for it
      assert false;
    }
  }

  /** The position lines 92-93 settle on after a backward scan: the farthest-back word break
      it saw, unless it stopped on a sentence end or saw none. */
  function ScanOrigin(text: string, scan: (nat, int)): int
    requires scan.0 < |text|
  {
    if !IsSentenceEnding(text[scan.0]) && scan.1 > 0 then scan.1 else scan.0
  }

  /** That position moves no earlier when the scan starts later and its bound is higher. */
  lemma ScanOriginMonotone(text: string, b0: int, b: int, c0: nat, c: nat)
    requires b0 <= b && c0 <= c < |text|
    ensures ScanOrigin(text, ScanBackward(text, b0, c0, -1)) <= ScanOrigin(text, ScanBackward(text, b, c, -1))
  {
    var (t0, w0) := ScanBackward(text, b0, c0, -1);
    var (t, w) := ScanBackward(text, b, c, -1);
    ScanBackwardStopMonotone(text, b0, b, c0, c);
    if !IsSentenceEnding(text[t0]) && w0 > 0 && t < w0 {
      // the later scan passed over the word break at w0, so it settles on a word break too
      if t == t0 {
        assert IsWordBreak(text[w0]);
      } else {
        assert !IsSentenceEnding(text[t]);
        assert IsWordBreak(text[w0]);
      }
      if w <= c0 {
        assert IsWordBreak(text[w]);
      }
    }
  }

  /** Lines 94-95: the chunk starts one past the settled position of the scan bounded by
      `end - MAX - 2 * SSL`, unless that position is 0. */
  lemma ChunkStartOrigin(text: string, cfg: Config, cursor: nat, e: int, bound: int)
    requires cursor < |text| && bound == e - cfg.maxSectionLength - 2 * cfg.sentenceSearchLimit
    ensures var origin := ScanOrigin(text, ScanBackward(text, bound, cursor, -1));
      ChunkStart(text, cfg, cursor, e) == if origin > 0 then origin + 1 else origin
  {
  }

  /** The chunk start never moves back when the cursor and the chunk end both move forward. */
  lemma ChunkStartMonotone(text: string, cfg: Config, c0: nat, c: nat, e0: int, e: int)
    requires c0 <= c < |text| && e0 <= e
    ensures ChunkStart(text, cfg, c0, e0) <= ChunkStart(text, cfg, c, e)
  {
    var b0 := e0 - cfg.maxSectionLength - 2 * cfg.sentenceSearchLimit;
    var b := e - cfg.maxSectionLength - 2 * cfg.sentenceSearchLimit;
    ScanOriginMonotone(text, b0, b, c0, c);
    ChunkStartOrigin(text, cfg, c0, e0, b0);
    ChunkStartOrigin(text, cfg, c, e, b);
  }

  /** A pattern occurs in a chunk's slice exactly where it occurs in the text. */
  lemma OccursInSlice(text: string, s: nat, e: nat, pat: string, i: nat)
    requires s <= i && i + |pat| <= e <= |text|
    ensures OccursAt(text[s..e], pat, i - s) <==> OccursAt(text, pat, i)
  {
    var slice := text[s..e];
    var part := slice[i - s..i - s + |pat|];
    assert |part| == |pat| == |text[i..i + |pat|]|;
    forall k | 0 <= k < |pat|
      ensures part[k] == text[i..i + |pat|][k]
    {
      assert part[k] == slice[i - s + k] == text[i + k];
    }
    assert part == text[i..i + |pat|];
  }

  // ---------------------------------------------------------------------------------------
  // The whole loop

  /** A chunk is a non-reversed slice of the text, attributed to the page of its start. */
  predicate SliceOf(pageMap: seq<PageEntry>, text: string, ch: Chunk)
  {
    && ch.start <= ch.end <= |text|
    && ch.content == text[ch.start..ch.end]
    && ch.page == FindPage(pageMap, ch.start)
  }

  /** A slice of the text attributed to the page of its start, of length at most
      MAX + 2 * SSL when SSL >= 1, and non-empty when the overlap is at least 1. */
  predicate BoundedSlice(pageMap: seq<PageEntry>, text: string, cfg: Config, ch: Chunk)
  {
    && SliceOf(pageMap, text, ch)
    && (cfg.sectionOverlap >= 1 ==> ch.start < ch.end)
    && (cfg.sentenceSearchLimit >= 1 ==> ch.end - ch.start <= cfg.maxSectionLength + 2 * cfg.sentenceSearchLimit)
  }

  /** One unfolding of the loop: a pass emits ChunkAt and continues from NextCursor. */
  lemma SplitFromStep(pageMap: seq<PageEntry>, text: string, cfg: Config, cursor: nat)
    requires Valid(cfg) && cursor + cfg.sectionOverlap < |text|
    ensures var ch := ChunkAt(pageMap, text, cfg, cursor);
      SplitFrom(pageMap, text, cfg, cursor) == [ch] + SplitFrom(pageMap, text, cfg, NextCursor(cfg, cursor, ch))
  {
  }

  /** Every chunk the loop emits from `cursor` on is a slice of the text attributed to the page
      of its start, of length at most MAX + 2 * SSL when SSL >= 1, and non-empty when the overlap
      is at least 1. */
  lemma {:induction false} SplitFromSlices(pageMap: seq<PageEntry>, text: string, cfg: Config, cursor: nat)
    requires Valid(cfg)
    ensures var chunks := SplitFrom(pageMap, text, cfg, cursor);
      forall i | 0 <= i < |chunks| :: BoundedSlice(pageMap, text, cfg, chunks[i])
    decreases |text| - cursor
  {
    if cursor + cfg.sectionOverlap < |text| {
      var ch := ChunkAt(pageMap, text, cfg, cursor);
      var next := NextCursor(cfg, cursor, ch);
      SplitFromStep(pageMap, text, cfg, cursor);
      ChunkBounds(pageMap, text, cfg, cursor);
      SplitFromSlices(pageMap, text, cfg, next);
      var rest := SplitFrom(pageMap, text, cfg, next);
      var chunks := [ch] + rest;
      forall i | 0 <= i < |chunks|
        ensures BoundedSlice(pageMap, text, cfg, chunks[i])
      {
        if i > 0 {
          assert chunks[i] == rest[i - 1];
        }
      }
    }
  }

  /** The loop from `cursor` yields a chunk exactly when `cursor + SECTION_OVERLAP < length`;
      its first chunk then starts no later than `cursor + 1` and its last chunk ends exactly at
      `length`. */
  lemma SplitFromEnds(pageMap: seq<PageEntry>, text: string, cfg: Config, cursor: nat)
    requires Valid(cfg)
    ensures var chunks := SplitFrom(pageMap, text, cfg, cursor);
      && (chunks != [] <==> cursor + cfg.sectionOverlap < |text|)
      && (chunks != [] ==> chunks[0].start <= cursor + 1 && chunks[|chunks| - 1].end == |text|)
  {
    SplitFromFirst(pageMap, text, cfg, cursor);
    SplitFromLast(pageMap, text, cfg, cursor);
  }

  /** Whether the loop from `cursor` yields anything, and where its first chunk starts. */
  lemma SplitFromFirst(pageMap: seq<PageEntry>, text: string, cfg: Config, cursor: nat)
    requires Valid(cfg)
    ensures var chunks := SplitFrom(pageMap, text, cfg, cursor);
      && (chunks != [] <==> cursor + cfg.sectionOverlap < |text|)
      && (chunks != [] ==> chunks[0].start <= cursor + 1)
  {
    if cursor + cfg.sectionOverlap < |text| {
      SplitFromStep(pageMap, text, cfg, cursor);
    }
  }

  /** The last chunk the loop yields ends at the end of the text. */
  lemma {:induction false} SplitFromLast(pageMap: seq<PageEntry>, text: string, cfg: Config, cursor: nat)
    requires Valid(cfg)
    ensures var chunks := SplitFrom(pageMap, text, cfg, cursor);
      chunks != [] ==> chunks[|chunks| - 1].end == |text|
    decreases |text| - cursor
  {
    if cursor + cfg.sectionOverlap < |text| {
      var ch := ChunkAt(pageMap, text, cfg, cursor);
      var next := NextCursor(cfg, cursor, ch);
      SplitFromStep(pageMap, text, cfg, cursor);
      SplitFromFirst(pageMap, text, cfg, next);
      SplitFromLast(pageMap, text, cfg, next);
      var rest := SplitFrom(pageMap, text, cfg, next);
      var chunks := [ch] + rest;
      if rest == [] {
        assert chunks[|chunks| - 1] == ch;
      } else {
        assert chunks[|chunks| - 1] == rest[|rest| - 1];
      }
    }
  }

  /** Each chunk starts no later than one past the previous chunk's end minus the overlap; so,
      with an overlap of at least 1, there is no gap between consecutive chunks. */
  lemma {:induction false} SplitFromLinks(pageMap: seq<PageEntry>, text: string, cfg: Config, cursor: nat)
    requires Valid(cfg)
    ensures var chunks := SplitFrom(pageMap, text, cfg, cursor);
      forall i | 0 < i < |chunks| :: chunks[i].start + cfg.sectionOverlap <= chunks[i - 1].end + 1
    decreases |text| - cursor
  {
    if cursor + cfg.sectionOverlap < |text| {
      var ch := ChunkAt(pageMap, text, cfg, cursor);
      var next := NextCursor(cfg, cursor, ch);
      SplitFromStep(pageMap, text, cfg, cursor);
      SplitFromLinks(pageMap, text, cfg, next);
      SplitFromFirst(pageMap, text, cfg, next);
      var rest := SplitFrom(pageMap, text, cfg, next);
      var chunks := [ch] + rest;
      assert next + cfg.sectionOverlap <= ch.end;
      forall i | 0 < i < |chunks|
        ensures chunks[i].start + cfg.sectionOverlap <= chunks[i - 1].end + 1
      {
        if i == 1 {
          assert chunks[1] == rest[0] && rest[0].start <= next + 1;
        } else {
          assert chunks[i] == rest[i - 1] && chunks[i - 1] == rest[i - 2];
          assert rest[i - 1].start + cfg.sectionOverlap <= rest[i - 2].end + 1;
        }
      }
    }
  }

  /** The cursor strictly increases and stays below `length - SECTION_OVERLAP`, so the loop from
      `cursor` makes at most `length - SECTION_OVERLAP - cursor` passes. */
  lemma {:induction false} SplitFromCount(pageMap: seq<PageEntry>, text: string, cfg: Config, cursor: nat)
    requires Valid(cfg)
    ensures |SplitFrom(pageMap, text, cfg, cursor)| <= Max(0, |text| - cfg.sectionOverlap - cursor)
    decreases |text| - cursor
  {
    if cursor + cfg.sectionOverlap < |text| {
      var ch := ChunkAt(pageMap, text, cfg, cursor);
      var next := NextCursor(cfg, cursor, ch);
      SplitFromStep(pageMap, text, cfg, cursor);
      SplitFromCount(pageMap, text, cfg, next);
    }
  }

  /** A text no longer than SECTION_OVERLAP yields no chunk at all. */
  lemma ShortInputYieldsNothing(pageMap: seq<PageEntry>, cfg: Config)
    requires Valid(cfg) && |JoinTexts(pageMap)| <= cfg.sectionOverlap
    ensures Split(pageMap, cfg) == []
  {
  }

  /** The first chunk starts at offset 0. */
  lemma SplitStartsAtZero(pageMap: seq<PageEntry>, cfg: Config)
    requires Valid(cfg) && cfg.sectionOverlap < |JoinTexts(pageMap)|
    ensures Split(pageMap, cfg) != [] && Split(pageMap, cfg)[0].start == 0
  {
    FirstChunkStartsAtZero(pageMap, JoinTexts(pageMap), cfg);
  }

  /** A text longer than the overlap but no longer than MAX_SECTION_LENGTH is emitted first as
      one chunk holding the whole text, attributed to the page of offset 0; that chunk is the
      only one unless the table rule fires on it with its last `<table` more than OVERLAP
      characters before the end, in which case the loop goes on from that `<table`. */
  lemma ShortTextChunks(pageMap: seq<PageEntry>, cfg: Config)
    requires Valid(cfg)
    requires var text := JoinTexts(pageMap); cfg.sectionOverlap < |text| <= cfg.maxSectionLength
    ensures var text := JoinTexts(pageMap);
      var chunks := Split(pageMap, cfg);
      && chunks != [] && chunks[0] == Chunk(0, |text|, text, FindPage(pageMap, 0))
      && (|chunks| == 1 <==> !(TableRuleFires(cfg, text) && RFind(text, TableOpen) + cfg.sectionOverlap < |text|))
  {
    var text := JoinTexts(pageMap);
    var ch := ChunkAt(pageMap, text, cfg, 0);
    if cfg.maxSectionLength == |text| {
      var (scanned, lastWord) := ScanForward(text, cfg, 0, cfg.maxSectionLength, -1);
      assert scanned == |text|;
    }
    assert ch.end == |text|;
    FirstChunkStartsAtZero(pageMap, text, cfg);
    assert text[0..|text|] == text;
    SplitFromStep(pageMap, text, cfg, 0);
    var next := NextCursor(cfg, 0, ch);
    SplitFromFirst(pageMap, text, cfg, next);
  }

  /** Position o lies in the chunk. */
  predicate Covers(ch: Chunk, o: int)
  {
    ch.start <= o < ch.end
  }

  /** Position o lies in one of the chunks. */
  predicate Covered(chunks: seq<Chunk>, o: int)
  {
    exists i :: 0 <= i < |chunks| && Covers(chunks[i], o)
  }

  /** Chunks that start no later than one past the previous end, the first at 0, cover every
      position before the last chunk's end. */
  lemma {:induction false} ContiguousCover(chunks: seq<Chunk>, o: int)
    requires chunks != [] && chunks[0].start == 0
    requires forall i | 0 < i < |chunks| :: chunks[i].start <= chunks[i - 1].end
    requires 0 <= o < chunks[|chunks| - 1].end
    ensures Covered(chunks, o)
  {
    var last := |chunks| - 1;
    if o < chunks[last].start {
      var prefix := chunks[..last];
      ContiguousCover(prefix, o);
      var i :| 0 <= i < |prefix| && Covers(prefix[i], o);
      assert chunks[i] == prefix[i];
    } else {
      assert Covers(chunks[last], o);
    }
  }

  /** With an overlap of at least 1 and a text longer than it, the chunks cover `[0, length)`
      without a gap: the first starts at 0, each later one starts no later than the previous one
      ends (strictly before it once the overlap is at least 2), and the last ends at `length`. */
  lemma SplitCoversText(pageMap: seq<PageEntry>, cfg: Config)
    requires Valid(cfg) && cfg.sectionOverlap >= 1
    requires cfg.sectionOverlap < |JoinTexts(pageMap)|
    ensures var text := JoinTexts(pageMap); var chunks := Split(pageMap, cfg);
      && chunks != []
      && chunks[0].start == 0
      && chunks[|chunks| - 1].end == |text|
      && (forall i | 0 < i < |chunks| :: chunks[i].start <= chunks[i - 1].end)
      && (cfg.sectionOverlap >= 2 ==> forall i | 0 < i < |chunks| :: chunks[i].start < chunks[i - 1].end)
      && (forall o | 0 <= o < |text| :: Covered(chunks, o))
  {
    var text := JoinTexts(pageMap);
    var chunks := Split(pageMap, cfg);
    SplitFromEnds(pageMap, text, cfg, 0);
    SplitFromLinks(pageMap, text, cfg, 0);
    SplitStartsAtZero(pageMap, cfg);
    forall o | 0 <= o < |text|
      ensures Covered(chunks, o)
    {
      ContiguousCover(chunks, o);
    }
  }

  /** The chunk is non-empty, attributed to a page of the map, and that page holds the chunk's
      first character. */
  predicate OnOwnPage(pageMap: seq<PageEntry>, ch: Chunk)
  {
    && ch.start < ch.end
    && |ch.content| > 0
    && 0 <= ch.page < |pageMap|
    && pageMap[ch.page].offset <= ch.start < pageMap[ch.page].offset + |pageMap[ch.page].text|
    && ch.content[0] == pageMap[ch.page].text[ch.start - pageMap[ch.page].offset]
  }

  /** With a positive overlap, chunk i of the loop from `cursor` over a well-formed page map is
      attributed to a real page, and that page holds the chunk's first character. */
  lemma ChunkOnOwnPage(pageMap: seq<PageEntry>, cfg: Config, cursor: nat, i: int)
    requires Valid(cfg) && cfg.sectionOverlap >= 1 && WellFormed(pageMap)
    requires 0 <= i < |SplitFrom(pageMap, JoinTexts(pageMap), cfg, cursor)|
    ensures OnOwnPage(pageMap, SplitFrom(pageMap, JoinTexts(pageMap), cfg, cursor)[i])
  {
    var text := JoinTexts(pageMap);
    SplitFromSlices(pageMap, text, cfg, cursor);
    var ch := SplitFrom(pageMap, text, cfg, cursor)[i];
    assert BoundedSlice(pageMap, text, cfg, ch);
    FindPageLocates(pageMap, ch.start);
    assert ch.content[0] == text[ch.start];
  }

  /** With a positive overlap, every chunk of a well-formed page map is attributed to a real page
      (never -1), and that page holds the chunk's first character. */
  lemma ChunkPagesHoldChunkStarts(pageMap: seq<PageEntry>, cfg: Config)
    requires Valid(cfg) && cfg.sectionOverlap >= 1 && WellFormed(pageMap)
    ensures var chunks := Split(pageMap, cfg);
      forall i | 0 <= i < |chunks| :: OnOwnPage(pageMap, chunks[i])
  {
    forall i | 0 <= i < |Split(pageMap, cfg)|
      ensures OnOwnPage(pageMap, Split(pageMap, cfg)[i])
    {
      ChunkOnOwnPage(pageMap, cfg, 0, i);
    }
  }
}
