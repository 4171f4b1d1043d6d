/** The table rule of `split_text` exactly as the script writes it (lines 100-107): the cursor
    moves to `min(end - SECTION_OVERLAP, start + last_table_start)` whenever the chunk's last
    `<table` lies beyond 2 * SSL and after its last `</table`, even when that position is not
    after the cursor. On a pass whose tentative end was clamped to the text length, the backward
    scan may stop more than 2 * SSL before the cursor, the move then gives back the cursor
    itself, and the loop never ends. The corrected rule of Segmenter.NextCursor takes the move
    only when it advances the cursor; whenever the loop as written does stop, it has yielded
    exactly what the corrected loop yields. */
module SegmenterFinding {
  import opened Wrappers
  import opened PageMaps
  import opened Segmenter
  import SegmenterProofs
  import Seqs

  /** Lines 100-107 as written. */
  function NextCursorAsWritten(cfg: Config, ch: Chunk): (r: nat)
    requires cfg.sectionOverlap <= ch.end
    ensures r <= ch.end - cfg.sectionOverlap
    ensures TableRuleFires(cfg, ch.content) ==> r <= ch.start + RFind(ch.content, TableOpen)
  {
    if TableRuleFires(cfg, ch.content) then
      Min(ch.end - cfg.sectionOverlap, ch.start + RFind(ch.content, TableOpen))
    else
      ch.end - cfg.sectionOverlap
  }

  /** The loop as written, started at `cursor`, stops after yielding exactly `chunks`: each pass
      yields its chunk and moves the cursor by the written rule, until no more than the overlap
      is left. A loop that never stops yields no such list. */
  predicate AsWrittenYields(pageMap: seq<PageEntry>, text: string, cfg: Config, cursor: nat, chunks: seq<Chunk>)
    requires Valid(cfg)
    decreases |chunks|
  {
    if cursor + cfg.sectionOverlap >= |text| then
      chunks == []
    else
      var ch := ChunkAt(pageMap, text, cfg, cursor);
      |chunks| > 0 && chunks[0] == ch && AsWrittenYields(pageMap, text, cfg, NextCursorAsWritten(cfg, ch), chunks[1..])
  }

  /** The corrected rule takes the written move exactly when that move advances the cursor. */
  lemma NextCursorAgrees(cfg: Config, cursor: nat, ch: Chunk)
    requires cursor + cfg.sectionOverlap < ch.end
    ensures cursor < NextCursorAsWritten(cfg, ch) <==> NextCursorAsWritten(cfg, ch) == NextCursor(cfg, cursor, ch)
  {
  }

  /** The two rules can only disagree where the written move does not advance the cursor; that
      happens only on a chunk that runs to the end of the text, after which the corrected loop
      stops. */
  lemma RulesDisagreeOnlyAtTheEnd(pageMap: seq<PageEntry>, text: string, cfg: Config, cursor: nat)
    requires Valid(cfg) && cursor + cfg.sectionOverlap < |text|
    ensures var ch := ChunkAt(pageMap, text, cfg, cursor);
      var next := NextCursor(cfg, cursor, ch);
      NextCursorAsWritten(cfg, ch) != next ==>
        NextCursorAsWritten(cfg, ch) <= cursor && ch.end == |text| && next + cfg.sectionOverlap == |text|
  {
    var ch := ChunkAt(pageMap, text, cfg, cursor);
    NextCursorAgrees(cfg, cursor, ch);
  }

  /** The written rule never sends a cursor it reached by moving forward back behind itself
      (given an overlap that keeps a whole `<table` before the end of the previous chunk).

      Were it to, the pass at `c` would end at the end of the text, and its last `<table`, at
      some p before `c`, would lie in the previous chunk, which starts no later (the chunk
      start never moves back) and ends after `c + OVERLAP`. That `<table` would then be the
      previous chunk's last one, with no `</table` after it, more than 2 * SSL into it: the
      rule would have fired there too and sent the cursor to p or before, not to `c`. */
  lemma WrittenNeverBacksUp(pageMap: seq<PageEntry>, text: string, cfg: Config, c0: nat, c: nat)
    requires Valid(cfg) && |TableOpen| <= cfg.sectionOverlap + 1
    requires c0 < c && c + cfg.sectionOverlap < |text|
    requires c == NextCursorAsWritten(cfg, ChunkAt(pageMap, text, cfg, c0))
    ensures c <= NextCursorAsWritten(cfg, ChunkAt(pageMap, text, cfg, c))
  {
    var ch0 := ChunkAt(pageMap, text, cfg, c0);
    var ch := ChunkAt(pageMap, text, cfg, c);
    if NextCursorAsWritten(cfg, ch) < c {
      assert TableRuleFires(cfg, ch.content) && ch.end == |text|;
      SegmenterProofs.ChunkAtParts(pageMap, text, cfg, c0);
      SegmenterProofs.ChunkAtParts(pageMap, text, cfg, c);
      SegmenterProofs.ChunkStartMonotone(text, cfg, c0, c, ch0.end, ch.end);
      TableSeenBefore(text, cfg, c, ch0, ch);
    }
  }

  /** The core of WrittenNeverBacksUp, on two slices of the text: a chunk running to the end of
      the text whose written move lies before `c` leaves the earlier chunk `ch0`, which starts
      no later and ends after `c + OVERLAP`, with a written move before `c` as well. */
  lemma TableSeenBefore(text: string, cfg: Config, c: nat, ch0: Chunk, ch: Chunk)
    requires |TableOpen| <= cfg.sectionOverlap + 1
    requires ch0.start <= ch.start <= ch.end && ch0.start <= ch0.end <= ch.end == |text| && c + cfg.sectionOverlap <= ch0.end
    requires ch0.content == text[ch0.start..ch0.end] && ch.content == text[ch.start..ch.end]
    requires NextCursorAsWritten(cfg, ch) < c
    ensures NextCursorAsWritten(cfg, ch0) < c
  {
    var lts := RFind(ch.content, TableOpen);
    assert TableRuleFires(cfg, ch.content) && ch.start + lts < c;
    // the last `<table` of the later chunk lies in the earlier one, and is its last one too
    LastOccurrenceShared(text, TableOpen, ch0.start, ch0.end, ch.start, ch.end);
    // with no `</table` after it, for the same reason
    NoLaterOccurrence(text, TableClose, ch0.start, ch0.end, ch.start, ch.end, ch.start + lts);
  }

  /** Of two windows of the text, [s0, e0) starting and ending no later than [s, e): when the last
      occurrence of `pat` in the later window lies in the earlier one, it is the earlier window's
      last occurrence as well. */
  lemma LastOccurrenceShared(text: string, pat: string, s0: nat, e0: nat, s: nat, e: nat)
    requires s0 <= s <= e && s0 <= e0 <= e <= |text|
    requires RFind(text[s..e], pat) >= 0 && s + RFind(text[s..e], pat) + |pat| <= e0
    ensures s0 + RFind(text[s0..e0], pat) == s + RFind(text[s..e], pat)
  {
    var p := s + RFind(text[s..e], pat);
    SegmenterProofs.OccursInSlice(text, s, e, pat, p);
    SegmenterProofs.OccursInSlice(text, s0, e0, pat, p);
    var p0 := s0 + RFind(text[s0..e0], pat);
    SegmenterProofs.OccursInSlice(text, s0, e0, pat, p0);
    SegmenterProofs.OccursInSlice(text, s, e, pat, p0);
  }

  /** Of the same two windows: an occurrence of `pat` in the earlier window at or after position
      `p >= s` is one of the later window too, so it comes no later than the later window's last. */
  lemma NoLaterOccurrence(text: string, pat: string, s0: nat, e0: nat, s: nat, e: nat, p: nat)
    requires s0 <= s <= p && s0 <= e0 <= e <= |text| && s <= e
    ensures s0 + RFind(text[s0..e0], pat) >= p ==> s0 + RFind(text[s0..e0], pat) <= s + RFind(text[s..e], pat)
  {
    var q := s0 + RFind(text[s0..e0], pat);
    if q >= p {
      SegmenterProofs.OccursInSlice(text, s0, e0, pat, q);
      SegmenterProofs.OccursInSlice(text, s, e, pat, q);
    }
  }

  /** A cursor that the loop as written sends back to itself is never left: the loop does not
      stop from there, whatever it is taken to yield. */
  lemma {:induction false} FixedPointLoopsForever(pageMap: seq<PageEntry>, text: string, cfg: Config, cursor: nat, chunks: seq<Chunk>)
    requires Valid(cfg) && cursor + cfg.sectionOverlap < |text|
    requires NextCursorAsWritten(cfg, ChunkAt(pageMap, text, cfg, cursor)) == cursor
    ensures !AsWrittenYields(pageMap, text, cfg, cursor, chunks)
    decreases |chunks|
  {
    if |chunks| > 0 {
      FixedPointLoopsForever(pageMap, text, cfg, cursor, chunks[1..]);
    }
  }

  /** The written rule does not send `cursor` back. */
  predicate NoBackUp(pageMap: seq<PageEntry>, text: string, cfg: Config, cursor: nat)
    requires Valid(cfg)
  {
    cursor + cfg.sectionOverlap < |text| ==> cursor <= NextCursorAsWritten(cfg, ChunkAt(pageMap, text, cfg, cursor))
  }

  /** One pass of the induction: from a cursor the written rule does not send back, a loop that
      stops moves forward to another such cursor, the move agrees with the corrected one, and
      both loops yield this pass's chunk and then what they yield from the next cursor. */
  lemma AgreesStep(pageMap: seq<PageEntry>, text: string, cfg: Config, cursor: nat, chunks: seq<Chunk>) returns (next: nat)
    requires Valid(cfg) && |TableOpen| <= cfg.sectionOverlap + 1
    requires NoBackUp(pageMap, text, cfg, cursor) && cursor + cfg.sectionOverlap < |text|
    requires AsWrittenYields(pageMap, text, cfg, cursor, chunks)
    ensures next == NextCursorAsWritten(cfg, ChunkAt(pageMap, text, cfg, cursor)) && NoBackUp(pageMap, text, cfg, next)
    ensures |chunks| > 0 && chunks[0] == ChunkAt(pageMap, text, cfg, cursor)
    ensures AsWrittenYields(pageMap, text, cfg, next, chunks[1..])
    ensures SplitFrom(pageMap, text, cfg, cursor) == [chunks[0]] + SplitFrom(pageMap, text, cfg, next)
  {
    var ch := ChunkAt(pageMap, text, cfg, cursor);
    next := NextCursorAsWritten(cfg, ch);
    if next == cursor {
      FixedPointLoopsForever(pageMap, text, cfg, cursor, chunks);
      assert false;
    }
    if next + cfg.sectionOverlap < |text| {
      WrittenNeverBacksUp(pageMap, text, cfg, cursor, next);
    }
    NextCursorAgrees(cfg, cursor, ch);
    SegmenterProofs.SplitFromStep(pageMap, text, cfg, cursor);
  }

  /** From a cursor the written rule does not send back, whatever the loop as written yields
      before it stops is exactly what the corrected loop yields. */
  lemma {:induction false} AsWrittenAgreesFrom(pageMap: seq<PageEntry>, text: string, cfg: Config, cursor: nat, chunks: seq<Chunk>)
    requires Valid(cfg) && |TableOpen| <= cfg.sectionOverlap + 1
    requires NoBackUp(pageMap, text, cfg, cursor)
    requires AsWrittenYields(pageMap, text, cfg, cursor, chunks)
    ensures chunks == SplitFrom(pageMap, text, cfg, cursor)
    decreases |chunks|
  {
    if cursor + cfg.sectionOverlap < |text| {
      var next := AgreesStep(pageMap, text, cfg, cursor, chunks);
      AsWrittenAgreesFrom(pageMap, text, cfg, next, chunks[1..]);
      Seqs.Uncons(chunks);
    }
  }

  /** The script either never stops or yields exactly `Split`: whatever the loop as written
      yields before it stops is what the corrected loop yields (for an overlap of at least 5, as
      the shipped 100 is). */
  lemma AsWrittenAgrees(pageMap: seq<PageEntry>, cfg: Config, chunks: seq<Chunk>)
    requires Valid(cfg) && |TableOpen| <= cfg.sectionOverlap + 1
    requires AsWrittenYields(pageMap, JoinTexts(pageMap), cfg, 0, chunks)
    ensures chunks == Split(pageMap, cfg)
  {
    AsWrittenAgreesFrom(pageMap, JoinTexts(pageMap), cfg, 0, chunks);
  }

  // ---------------------------------------------------------------------------------------
  // The counterexample, with the shipped constants

  /** 1500 characters, all `x` except a `<table` at offset 600. */
  const Example: string := seq(1500, i requires 0 <= i < 1500 => if 600 <= i < 606 then TableOpen[i - 600] else 'x')

  /** The example as the text of a single page. */
  const ExamplePages: seq<PageEntry> := [PageEntry(0, 0, Example)]

  lemma ExampleText()
    ensures JoinTexts(ExamplePages) == Example
    ensures WellFormed(ExamplePages)
  {
    assert ExamplePages[..0] == [];
  }

  /** The example has no sentence ending, no word break and no `/`, and its only `<` is at 600. */
  lemma ExampleChar(k: nat)
    requires k < |Example|
    ensures !IsSentenceEnding(Example[k]) && !IsWordBreak(Example[k])
    ensures Example[k] == '<' <==> k == 600
    ensures Example[k] != '/'
  {
  }

  lemma ExampleHasNoBreaks()
    ensures forall k | 0 <= k < |Example| :: !IsSentenceEnding(Example[k]) && !IsWordBreak(Example[k])
  {
    forall k | 0 <= k < |Example|
      ensures !IsSentenceEnding(Example[k]) && !IsWordBreak(Example[k])
    {
      ExampleChar(k);
    }
  }

  /** In a slice of the example around offset 600, the last `<table` is the one at 600 and there
      is no `</table`. */
  lemma ExampleTables(s: nat, e: nat)
    requires s <= 600 && 606 <= e <= |Example|
    ensures RFind(Example[s..e], TableOpen) == 600 - s
    ensures RFind(Example[s..e], TableClose) == -1
  {
    ExampleTableOpen(s, e);
    ExampleNoTableClose(s, e);
  }

  /** The last `<table` in any window around position 600 is the one at 600. */
  lemma ExampleTableOpen(s: nat, e: nat)
    requires s <= 600 && 606 <= e <= |Example|
    ensures RFind(Example[s..e], TableOpen) == 600 - s
  {
    var content := Example[s..e];
    forall k | 0 <= k < |TableOpen|
      ensures content[600 - s..606 - s][k] == TableOpen[k]
    {
      assert content[600 - s + k] == Example[600 + k];
    }
    assert content[600 - s..606 - s] == TableOpen;
    assert OccursAt(content, TableOpen, 600 - s);
    var r := RFind(content, TableOpen);
    assert r >= 600 - s;
    assert content[r..r + |TableOpen|] == TableOpen;
    assert Example[s + r] == content[r] == content[r..r + |TableOpen|][0] == TableOpen[0] == '<';
    ExampleChar(s + r);
  }

  /** No window of the example holds `</`. */
  lemma ExampleNoTableClose(s: nat, e: nat)
    requires s <= e <= |Example|
    ensures RFind(Example[s..e], TableClose) == -1
  {
    var content := Example[s..e];
    var c := RFind(content, TableClose);
    if c >= 0 {
      assert content[c..c + |TableClose|] == TableClose;
      assert Example[s + c + 1] == content[c + 1] == content[c..c + |TableClose|][1] == TableClose[1] == '/';
      ExampleChar(s + c + 1);
      assert false;
    }
  }

  // The lemmas below take the cursor as a parameter pinned by a `requires` rather than as a
  // literal, so that the verifier does not evaluate the scans over the 1500 characters.

  /** The first pass: the forward scan runs the full search limit, finds nothing to cut at, and
      the chunk is [0, 1101). */
  lemma ExampleFirstPass(pageMap: seq<PageEntry>, cursor: nat)
    requires cursor == 0
    ensures ChunkAt(pageMap, Example, Shipped, cursor).start == 0
    ensures ChunkAt(pageMap, Example, Shipped, cursor).end == 1101
  {
    ExampleHasNoBreaks();
    var (scanned, lastWord) := ScanForward(Example, Shipped, cursor, cursor + 1000, -1);
    assert scanned == 1100;
    assert lastWord == -1;
    assert ChunkEnd(Example, Shipped, cursor) == 1101;
  }

  /** The pass at 600: the end is clamped to 1500, the backward scan stops at its bound 300, and
      the chunk is [301, 1500). */
  lemma ExampleClampedPass(pageMap: seq<PageEntry>, cursor: nat)
    requires cursor == 600
    ensures ChunkAt(pageMap, Example, Shipped, cursor).start == 301
    ensures ChunkAt(pageMap, Example, Shipped, cursor).end == 1500
  {
    ExampleHasNoBreaks();
    var e := ChunkEnd(Example, Shipped, cursor);
    assert e == 1500;
    var (stop, lastWord) := ScanBackward(Example, e - 1200, cursor, -1);
    assert stop == 300;
    assert lastWord == -1;
  }

  /** As written, the first pass moves the cursor to the `<table` at 600. */
  lemma ExampleFirstNext(pageMap: seq<PageEntry>, cursor: nat)
    requires cursor == 0
    ensures NextCursorAsWritten(Shipped, ChunkAt(pageMap, Example, Shipped, cursor)) == 600
  {
    ExampleFirstPass(pageMap, cursor);
    ExampleTables(0, 1101);
  }

  /** As written, the pass at 600 moves the cursor to 600 again. */
  lemma ExampleFixedPoint(pageMap: seq<PageEntry>, cursor: nat)
    requires cursor == 600
    ensures NextCursorAsWritten(Shipped, ChunkAt(pageMap, Example, Shipped, cursor)) == cursor
  {
    ExampleClampedPass(pageMap, cursor);
    ExampleTables(301, 1500);
  }

  /** Finding: with the shipped constants, the loop as written never stops on any page map whose
      pages concatenate to the example: there is no list of chunks after which it stops. */
  lemma AsWrittenLoopsForever(pageMap: seq<PageEntry>, chunks: seq<Chunk>)
    requires JoinTexts(pageMap) == Example
    ensures !AsWrittenYields(pageMap, JoinTexts(pageMap), Shipped, 0, chunks)
  {
    var text := JoinTexts(pageMap);
    var cursor: nat := 0;
    var table: nat := 600;
    ExampleFirstNext(pageMap, cursor);
    ExampleFixedPoint(pageMap, table);
    if |chunks| > 0 {
      FixedPointLoopsForever(pageMap, text, Shipped, table, chunks[1..]);
    }
  }

  /** The corrected loop yields two chunks on the example: [0, 1101) and [301, 1500). */
  lemma CorrectedSplitOfExample(pageMap: seq<PageEntry>)
    requires JoinTexts(pageMap) == Example
    ensures Split(pageMap, Shipped) ==
      [Chunk(0, 1101, Example[0..1101], FindPage(pageMap, 0)), Chunk(301, 1500, Example[301..1500], FindPage(pageMap, 301))]
  {
    var text := JoinTexts(pageMap);
    var cursor: nat := 0;
    var table: nat := 600;
    ExampleFirstPass(pageMap, cursor);
    ExampleTables(0, 1101);
    var first := ChunkAt(pageMap, text, Shipped, cursor);
    assert NextCursor(Shipped, cursor, first) == table;
    ExampleClampedPass(pageMap, table);
    ExampleTables(301, 1500);
    var second := ChunkAt(pageMap, text, Shipped, table);
    var last := NextCursor(Shipped, table, second);
    assert last == 1400;
    assert SplitFrom(pageMap, text, Shipped, last) == [];
    SegmenterProofs.SplitFromStep(pageMap, text, Shipped, table);
    SegmenterProofs.SplitFromStep(pageMap, text, Shipped, cursor);
  }
}
