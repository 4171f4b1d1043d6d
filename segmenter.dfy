/** `split_text` of 2_setup_embedding.py: a cursor runs over the concatenated page texts; each
    pass picks a chunk end (preferring a sentence end, then a word break), pulls the chunk start
    back to a sentence start or word boundary, emits the slice with the page of its start, and
    moves the cursor on, by the standard overlap or so as to re-include an unclosed `<table`.

    The passes are specified by pure functions that follow the source's loops one step at a
    time (ScanForward, ScanBackward, ChunkEnd, ChunkStart, NextCursor); SplitText is the method
    with the source's loops, proved equal to Split. */
module Segmenter {
  import opened PageMaps
  import Seqs

  /** MAX_SECTION_LENGTH, SENTENCE_SEARCH_LIMIT and SECTION_OVERLAP. */
  datatype Config = Config(maxSectionLength: nat, sentenceSearchLimit: nat, sectionOverlap: nat)

  /** The constants the script ships with. */
  const Shipped: Config := Config(1000, 100, 100)

  /** A chunk must be longer than the overlap, otherwise the cursor cannot advance. */
  predicate Valid(cfg: Config)
  {
    cfg.sectionOverlap < cfg.maxSectionLength
  }

  const SentenceEndings: seq<char> := ['.', '!', '?']

  /** The word-break list exactly as the script writes it: the space appears twice and the
      newline not at all. */
  const WordBreaks: seq<char> := [',', ';', ':', ' ', '(', ')', '[', ']', '{', '}', '\t', ' ']

  predicate IsSentenceEnding(c: char)
  {
    c in SentenceEndings
  }

  predicate IsWordBreak(c: char)
  {
    c in WordBreaks
  }

  const TableOpen: string := "<table"
  const TableClose: string := "</table"

  /** A yielded section: the slice `all_text[start:end]` and `find_page(start)`. */
  datatype Chunk = Chunk(start: nat, end: nat, content: string, page: int)

  function Min(a: int, b: int): int
  {
    if a <= b then a else b
  }

  /** The pattern occurs in s at index i. */
  predicate OccursAt(s: string, pat: string, i: nat)
  {
    i + |pat| <= |s| && s[i..i + |pat|] == pat
  }

  /** `str.rfind` searching downwards from index i. */
  function RFindAt(s: string, pat: string, i: nat): (r: int)
    requires i + |pat| <= |s|
    ensures -1 <= r <= i
    ensures r >= 0 ==> OccursAt(s, pat, r)
    ensures forall j: nat | r < j <= i :: !OccursAt(s, pat, j)
    decreases i
  {
    if OccursAt(s, pat, i) then i else if i == 0 then -1 else RFindAt(s, pat, i - 1)
  }

  /** `str.rfind`: the index of the last occurrence of pat in s, or -1 when there is none. */
  function RFind(s: string, pat: string): (r: int)
    ensures -1 <= r
    ensures r >= 0 ==> OccursAt(s, pat, r)
    ensures forall j: nat | r < j :: !OccursAt(s, pat, j)
  {
    if |pat| > |s| then -1 else RFindAt(s, pat, |s| - |pat|)
  }

  /** The forward scan loop (`while end < length and (end - start - MAX) < SSL and
      all_text[end] not in SENTENCE_ENDINGS`), from position e with the last word break seen so
      far. Result: where the scan stopped and the last word break it saw. */
  function ScanForward(text: string, cfg: Config, cursor: nat, e: nat, lastWord: int): (r: (nat, int))
    requires cursor + cfg.maxSectionLength <= e <= |text|
    requires lastWord == -1 || (cursor + cfg.maxSectionLength <= lastWord < e && IsWordBreak(text[lastWord]))
    ensures e <= r.0 <= |text|
    ensures e <= cursor + cfg.maxSectionLength + cfg.sentenceSearchLimit ==>
              r.0 <= cursor + cfg.maxSectionLength + cfg.sentenceSearchLimit
    ensures r.0 == |text| || r.0 - cursor - cfg.maxSectionLength >= cfg.sentenceSearchLimit || IsSentenceEnding(text[r.0])
    ensures forall k {:trigger IsSentenceEnding(text[k])} | e <= k < r.0 :: !IsSentenceEnding(text[k])
    ensures r.1 == lastWord || (e <= r.1 < r.0 && IsWordBreak(text[r.1]))
    ensures forall k {:trigger IsWordBreak(text[k])} | e <= k < r.0 && IsWordBreak(text[k]) :: k <= r.1
    ensures r.1 == -1 || (cursor + cfg.maxSectionLength <= r.1 < r.0 && IsWordBreak(text[r.1]))
    decreases |text| - e
  {
    if e < |text| && e - cursor - cfg.maxSectionLength < cfg.sentenceSearchLimit && !IsSentenceEnding(text[e]) then
      ScanForward(text, cfg, cursor, e + 1, if IsWordBreak(text[e]) then e else lastWord)
    else
      (e, lastWord)
  }

  /** Lines 70-84: the end of the chunk that starts its pass at `cursor`. */
  function ChunkEnd(text: string, cfg: Config, cursor: nat): (e: nat)
    requires Valid(cfg) && cursor + cfg.sectionOverlap < |text|
    ensures cursor + cfg.sectionOverlap < e <= |text|
    ensures e <= cursor + cfg.maxSectionLength + cfg.sentenceSearchLimit + 1
    ensures cursor + cfg.maxSectionLength <= |text| ==> cursor + cfg.maxSectionLength <= e
    ensures cursor + cfg.maxSectionLength > |text| ==> e == |text|
  {
    var tentative := cursor + cfg.maxSectionLength;
    var stop: int :=
      if tentative > |text| then |text|
      else
        var (scanned, lastWord) := ScanForward(text, cfg, cursor, tentative, -1);
        // fall back to at least keeping a whole word
        if scanned < |text| && !IsSentenceEnding(text[scanned]) && lastWord > 0 then lastWord else scanned;
    if stop < |text| then stop + 1 else stop
  }

  /** The backward scan loop (`while start > 0 and start > bound and all_text[start] not in
      SENTENCE_ENDINGS`), from position s with the last (farthest back) word break seen so far. */
  function ScanBackward(text: string, bound: int, s: nat, lastWord: int): (r: (nat, int))
    requires s < |text|
    requires lastWord == -1 || s < lastWord
    ensures r.0 <= s
    ensures r.0 == 0 || r.0 <= bound || IsSentenceEnding(text[r.0])
    ensures r.0 == s || bound <= r.0
    ensures forall k {:trigger IsSentenceEnding(text[k])} | r.0 < k <= s :: !IsSentenceEnding(text[k])
    ensures r.1 == lastWord || (r.0 < r.1 <= s && IsWordBreak(text[r.1]))
    ensures forall k {:trigger IsWordBreak(text[k])} | r.0 < k <= s && IsWordBreak(text[k]) :: r.0 < r.1 <= k
    decreases s
  {
    if s > 0 && s > bound && !IsSentenceEnding(text[s]) then
      ScanBackward(text, bound, s - 1, if IsWordBreak(text[s]) then s else lastWord)
    else
      (s, lastWord)
  }

  /** Lines 87-95: the start of the chunk whose pass began at `cursor` and which ends at e. */
  function ChunkStart(text: string, cfg: Config, cursor: nat, e: int): (s: nat)
    requires cursor < |text|
    ensures s <= cursor + 1
    ensures cursor + cfg.maxSectionLength <= e ==> cursor <= s + 2 * cfg.sentenceSearchLimit
  {
    var (stop, lastWord) := ScanBackward(text, e - cfg.maxSectionLength - 2 * cfg.sentenceSearchLimit, cursor, -1);
    var s: int := if !IsSentenceEnding(text[stop]) && lastWord > 0 then lastWord else stop;
    if s > 0 then s + 1 else s
  }

  /** One pass of the loop: the chunk emitted for cursor `cursor` (lines 70-98). */
  function ChunkAt(pageMap: seq<PageEntry>, text: string, cfg: Config, cursor: nat): (ch: Chunk)
    requires Valid(cfg) && cursor + cfg.sectionOverlap < |text|
    ensures ch.start <= cursor + 1 && ch.start <= ch.end
    ensures cursor + cfg.sectionOverlap < ch.end <= |text|
    ensures ch.content == text[ch.start..ch.end]
    ensures ch.page == FindPage(pageMap, ch.start)
    ensures ch.end < |text| ==> cursor <= ch.start + 2 * cfg.sentenceSearchLimit
  {
    var e := ChunkEnd(text, cfg, cursor);
    var s := ChunkStart(text, cfg, cursor, e);
    Chunk(s, e, text[s..e], FindPage(pageMap, s))
  }

  /** The condition of line 101: the chunk's last `<table` lies beyond 2 * SSL and after its
      last `</table`, that is, no `</table` begins at or after it. */
  predicate TableRuleFires(cfg: Config, content: string): (r: bool)
    ensures r <==> var lastTableStart := RFind(content, TableOpen);
      && lastTableStart > 2 * cfg.sentenceSearchLimit
      && forall j: nat | lastTableStart <= j :: !OccursAt(content, TableClose, j)
  {
    var lastTableStart := RFind(content, TableOpen);
    lastTableStart > 2 * cfg.sentenceSearchLimit && lastTableStart > RFind(content, TableClose)
  }

  /** Lines 100-107, with the move to the table taken only when it advances the cursor. As
      written, the move is also taken when `start + last_table_start` does not lie after the
      cursor; that can only happen on a pass whose end was clamped to the text length, and the
      next pass then repeats the same chunk forever (see SegmenterFinding). */
  function NextCursor(cfg: Config, cursor: nat, ch: Chunk): (r: nat)
    requires cursor + cfg.sectionOverlap < ch.end
    ensures cursor < r <= ch.end - cfg.sectionOverlap
  {
    var lastTableStart := RFind(ch.content, TableOpen);
    if TableRuleFires(cfg, ch.content) && cursor < ch.start + lastTableStart then
      Min(ch.end - cfg.sectionOverlap, ch.start + lastTableStart)
    else
      ch.end - cfg.sectionOverlap
  }

  /** The chunks the loop yields from cursor `cursor` on. */
  function SplitFrom(pageMap: seq<PageEntry>, text: string, cfg: Config, cursor: nat): (r: seq<Chunk>)
    requires Valid(cfg)
    ensures r != [] <==> cursor + cfg.sectionOverlap < |text|
    decreases |text| - cursor
  {
    if cursor + cfg.sectionOverlap < |text| then
      var ch := ChunkAt(pageMap, text, cfg, cursor);
      [ch] + SplitFrom(pageMap, text, cfg, NextCursor(cfg, cursor, ch))
    else
      []
  }

  /** Everything `split_text(page_map)` yields. */
  function Split(pageMap: seq<PageEntry>, cfg: Config): (r: seq<Chunk>)
    requires Valid(cfg)
    ensures r != [] <==> cfg.sectionOverlap < |JoinTexts(pageMap)|
  {
    SplitFrom(pageMap, JoinTexts(pageMap), cfg, 0)
  }

  /** Lines 77-80: the forward scan loop from the tentative end `start + MAX`. */
  method ScanToSentenceEnd(allText: string, cfg: Config, start: nat) returns (end: nat, lastWord: int)
    requires start + cfg.maxSectionLength <= |allText|
    ensures (end, lastWord) == ScanForward(allText, cfg, start, start + cfg.maxSectionLength, -1)
  {
    var length := |allText|;
    lastWord := -1;
    end := start + cfg.maxSectionLength;
    ghost var scan := ScanForward(allText, cfg, start, end, lastWord);
    while end < length && end - start - cfg.maxSectionLength < cfg.sentenceSearchLimit && !IsSentenceEnding(allText[end])
      invariant start + cfg.maxSectionLength <= end <= length
      invariant lastWord == -1 || (start + cfg.maxSectionLength <= lastWord < end && IsWordBreak(allText[lastWord]))
      invariant ScanForward(allText, cfg, start, end, lastWord) == scan
      decreases length - end
    {
      if IsWordBreak(allText[end]) {
        lastWord := end;
      }
      end := end + 1;
    }
  }

  /** Lines 70-84: the end of the chunk for cursor `start`. */
  method FindChunkEnd(allText: string, cfg: Config, start: nat) returns (end: int)
    requires Valid(cfg) && start + cfg.sectionOverlap < |allText|
    ensures end == ChunkEnd(allText, cfg, start)
  {
    var length := |allText|;
    end := start + cfg.maxSectionLength;
    if end > length {
      end := length;
    } else {
      // Try to find the end of the sentence
      var lastWord;
      end, lastWord := ScanToSentenceEnd(allText, cfg, start);
      if end < length && !IsSentenceEnding(allText[end]) && lastWord > 0 {
        end := lastWord;  // fall back to at least keeping a whole word
      }
    }
    if end < length {
      end := end + 1;
    }
  }

  /** Lines 88-91: the backward scan loop from the cursor, bounded by
      `end - MAX - 2 * SSL`. */
  method ScanToSentenceStart(allText: string, cfg: Config, cursor: nat, end: int) returns (start: nat, lastWord: int)
    requires cursor < |allText|
    ensures (start, lastWord) == ScanBackward(allText, end - cfg.maxSectionLength - 2 * cfg.sentenceSearchLimit, cursor, -1)
  {
    start := cursor;
    lastWord := -1;
    ghost var scan := ScanBackward(allText, end - cfg.maxSectionLength - 2 * cfg.sentenceSearchLimit, start, lastWord);
    while start > 0 && start > end - cfg.maxSectionLength - 2 * cfg.sentenceSearchLimit && !IsSentenceEnding(allText[start])
      invariant start <= cursor
      invariant lastWord == -1 || start < lastWord
      invariant ScanBackward(allText, end - cfg.maxSectionLength - 2 * cfg.sentenceSearchLimit, start, lastWord) == scan
      decreases start
    {
      if IsWordBreak(allText[start]) {
        lastWord := start;
      }
      start := start - 1;
    }
  }

  /** Lines 86-95: the start of the chunk for cursor `cursor` that ends at `end`. */
  method FindChunkStart(allText: string, cfg: Config, cursor: nat, end: int) returns (start: int)
    requires cursor < |allText|
    ensures start == ChunkStart(allText, cfg, cursor, end)
  {
    var lastWord;
    start, lastWord := ScanToSentenceStart(allText, cfg, cursor, end);
    if !IsSentenceEnding(allText[start]) && lastWord > 0 {
      start := lastWord;
    }
    if start > 0 {
      start := start + 1;
    }
  }

  /** Lines 70-98: one pass from cursor `start` computes the chunk's end, then its start, and
      yields the slice with the page of its start. */
  method NextChunk(pageMap: seq<PageEntry>, allText: string, cfg: Config, cursor: nat) returns (chunk: Chunk)
    requires Valid(cfg) && cursor + cfg.sectionOverlap < |allText|
    ensures chunk == ChunkAt(pageMap, allText, cfg, cursor)
  {
    var end := FindChunkEnd(allText, cfg, cursor);
    var start := FindChunkStart(allText, cfg, cursor, end);
    var sectionText := allText[start..end];
    chunk := Chunk(start, end, sectionText, FindPage(pageMap, start));
  }

  /** Lines 100-107 (with the move to the table taken only when it advances the cursor): the
      cursor of the next pass. */
  method NextStart(cfg: Config, cursor: nat, chunk: Chunk) returns (start: int)
    requires cursor + cfg.sectionOverlap < chunk.end
    ensures start == NextCursor(cfg, cursor, chunk)
  {
    var lastTableStart := RFind(chunk.content, TableOpen);
    if lastTableStart > 2 * cfg.sentenceSearchLimit && lastTableStart > RFind(chunk.content, TableClose)
      && cursor < chunk.start + lastTableStart
    {
      // the section ends with an unclosed table: start the next section with the table
      start := Min(chunk.end - cfg.sectionOverlap, chunk.start + lastTableStart);
    } else {
      start := chunk.end - cfg.sectionOverlap;
    }
  }

  /** `split_text` with its loop; the generator's yields append to `chunks`. */
  method SplitText(pageMap: seq<PageEntry>, cfg: Config) returns (chunks: seq<Chunk>)
    requires Valid(cfg)
    ensures chunks == Split(pageMap, cfg)
  {
    var allText := JoinTexts(pageMap);
    var length := |allText|;
    var start: int := 0;
    var end: int := length;
    chunks := [];
    while start + cfg.sectionOverlap < length
      invariant 0 <= start && end <= length
      invariant chunks + SplitFrom(pageMap, allText, cfg, start) == Split(pageMap, cfg)
      invariant start + cfg.sectionOverlap >= length ==> end <= start + cfg.sectionOverlap
      decreases length - start
    {
      var cursor: nat := start;
      var chunk := NextChunk(pageMap, allText, cfg, cursor);
      end := chunk.end;
      ghost var before := chunks;
      chunks := chunks + [chunk];

      start := NextStart(cfg, cursor, chunk);
      ghost var rest := SplitFrom(pageMap, allText, cfg, start);
      assert SplitFrom(pageMap, allText, cfg, cursor) == [chunk] + rest;
      Seqs.AppendAssociative(before, [chunk], rest);
    }
    if start + cfg.sectionOverlap < end {
      // the loop only stops once start + SECTION_OVERLAP >= length >= end
      assert false;
    }
    assert chunks + [] == chunks;
  }
}
