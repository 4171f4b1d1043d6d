# Document segmentation and indexing pipeline: verified model

`2_setup_embedding.py` prepares a PDF for hybrid search in five steps:

1. It records each page's text together with the page's character offset in the concatenated text. This is the *page map*.
2. It cuts the concatenated text into overlapping chunks with `split_text`. A chunk is at most about `MAX_SECTION_LENGTH` characters long. The cut prefers a sentence end, then a word break. The split avoids cutting an unclosed `<table` off from the chunk that follows. Each chunk is attributed to the page of its first character by `find_page`.
3. It turns every chunk into a record. The record holds:
   - an id derived from the file name by `filename_to_id`;
   - the chunk text;
   - the embedding of the text with its newlines replaced;
   - a `<stem>-<page>.pdf` label;
   - the file name.
4. It uploads the records in batches of 1000.
5. It queries the index.

This project models steps 1–4 in Dafny and proves what the script relies on.

| file | module | what it holds |
|---|---|---|
| `wrappers.dfy` | `Wrappers` | `Option` |
| `seqs.dfy` | `Seqs` | two facts about sequence concatenation, used where lists are built step by step |
| `pagemap.dfy` | `PageMaps` | the page-map loop (a method) and `find_page` (a recursive function) |
| `segmenter.dfy` | `Segmenter` | the passes of `split_text` as step functions, and the methods with the script's loops, proved equal to them |
| `segmenter_proofs.dfy` | `SegmenterProofs` | slice bounds, boundary preference, cursor progress, table safety, coverage and page attribution |
| `segmenter_finding.dfy` | `SegmenterFinding` | the table rule exactly as written, the proof that the loop as written yields `Split` whenever it stops, and an input on which it never stops |
| `fileids.dfy` | `FileIds` | `filename_to_id`: sanitisation, UTF-8 (RFC 3629), and Base16 (section 8 of RFC 4648) with its decoder |
| `sections.dfy` | `Sections` | decimal rendering, the `id` and `sourcepage` fields, the newline normalisation, and the loop that builds the records |
| `uploads.dfy` | `Uploads` | the batching loop and the batch sequence it submits |

`MAX_SECTION_LENGTH`, `SENTENCE_SEARCH_LIMIT` and `SECTION_OVERLAP` are a `Config`. The shipped values (1000, 100, 100) are `Segmenter.Shipped`. Every proof about the loop requires `Valid(cfg)`, which means `SECTION_OVERLAP < MAX_SECTION_LENGTH`. Some properties need more, and their lemmas say so:
- no empty chunk and no gap between chunks need an overlap of at least 1;
- the length bound `e - s <= MAX + 2*SSL` needs a search limit of at least 1;
- table safety needs a search limit of at least 2.

The shipped constants meet all three.

`SplitText` is the method with the script's `while` loop. Its postcondition ties its result to `Split`, and every property of `Split` holds for it. The generator's `yield`s become appends to the result sequence.

The source has one defect, described under Findings: the loop as written does not always terminate. On a pass whose end is clamped to `length`, the table rule can send the cursor back to where it is. `Split` and `SplitText` take the table move only when it advances the cursor, so the loop can be proved to end with `decreases length - start`. The rule as written is `SegmenterFinding.NextCursorAsWritten`. The loop as written is the relation `AsWrittenYields`: it holds of a cursor and a list of chunks when the loop, started there, stops after yielding exactly that list. `AsWrittenAgrees` proves that whenever the loop as written stops, it has yielded exactly `Split`. This needs an overlap of at least 5, the length of `<table` minus one; the shipped overlap is 100. So the correction changes nothing on inputs where the script stops.

A few details of the code are easy to misread:
- The chunk end is advanced past the stop position (line 84) only when it is below `length`.
- The backward scan stops at `end - MAX - 2*SSL`, where `end` is the current pass's end (line 88). It does not go back a fixed distance from the cursor.
- The loop need not terminate (see Findings). With the corrected rule, the proved bound is `length - OVERLAP` chunks, because the table rule can move the cursor forward by a single character.

## Model

| member | source | states |
|---|---|---|
| PageMaps.BuildPageMap | 2_setup_embedding.py:32-42 | entry i is `(i, sum of the lengths of pages 0..i-1, page i's text)`; the map is well formed; the concatenated text is as long as all pages together |
| PageMaps.PrefixLength | 2_setup_embedding.py:39-42 | the text of the first k entries is as long as the first k pages together |
| PageMaps.EntriesWellFormed | 2_setup_embedding.py:32-42 | entries `(i, sum of the earlier lengths, page i)` form a well-formed map whose text is as long as all pages together |
| PageMaps.OffsetsStep | 2_setup_embedding.py:39-42 | in a well-formed map, entry i + 1 starts where entry i ends |
| PageMaps.OffsetsMonotone | 2_setup_embedding.py:39-42 | page offsets never decrease along the map |
| PageMaps.JoinTexts | 2_setup_embedding.py:65 | `"".join(p[2] for p in page_map)` (a definition; JoinTextsPrefix and JoinTextsLength state its properties) |
| PageMaps.JoinTextsLength | 2_setup_embedding.py:65-66 | on a well-formed map, `length` is the last page's offset plus its length |
| PageMaps.JoinTextsPrefix | 2_setup_embedding.py:65 | the text of the first k pages is a prefix of the whole concatenated text |
| PageMaps.FindPageFrom | 2_setup_embedding.py:60-63 | the search from index i returns the first index at or after i whose interval `[offset[j], offset[j+1])` holds the offset, or l - 1 when none does |
| PageMaps.FindPage | 2_setup_embedding.py:58-63 | -1 on an empty map; otherwise a page index in [0, l); that page's interval holds the offset unless it is l - 1; no earlier interval holds the offset |
| PageMaps.FindPageLocates | 2_setup_embedding.py:58-63 | for every offset of the text, the page returned contains the offset, and the page yields the same character as the text does at that offset |
| PageMaps.FindPageAtPageStart | 2_setup_embedding.py:58-63 | an offset equal to a page's start maps to that later page (the page must be non-empty, or the last one) |
| Segmenter.RFind | 2_setup_embedding.py:100-101 | `str.rfind`: -1, or the index of an occurrence with no occurrence after it |
| Segmenter.ScanForward | 2_setup_embedding.py:77-80 | the forward loop stops at `length`, at the search limit or on a sentence end; no sentence end lies before the stop position; it records the last word break seen |
| Segmenter.ChunkEnd | 2_setup_embedding.py:70-84 | the end lies after `cursor + OVERLAP` and at most `cursor + MAX + SSL + 1`; it is not before `cursor + MAX` unless clamped, and when clamped it equals `length` |
| Segmenter.ScanBackward | 2_setup_embedding.py:86-91 | the backward loop stops at 0, at its bound or on a sentence end; no sentence end lies between the stop position and the cursor; it records the farthest-back word break seen |
| Segmenter.ChunkStart | 2_setup_embedding.py:86-95 | the start is at most `cursor + 1`; on an unclamped pass it lies at most `2 * SSL` before the cursor |
| Segmenter.ChunkAt | 2_setup_embedding.py:70-98 | a pass yields the slice `text[s:e]` with `s <= cursor + 1` and `cursor + OVERLAP < e <= length`, attributed to `find_page(s)` |
| Segmenter.NextCursor | 2_setup_embedding.py:100-107 | the next cursor is strictly greater than the current one and at most `e - OVERLAP`; the move to the last `<table` is taken whenever the rule fires and the move advances the cursor |
| Segmenter.TableRuleFires | 2_setup_embedding.py:100-101 | the rule fires exactly when the chunk's last `<table` lies more than `2*SSL` into it and no `</table` begins at or after it |
| Segmenter.FindChunkEnd | 2_setup_embedding.py:70-84 | the method with the forward loop computes ChunkEnd |
| Segmenter.ScanToSentenceEnd | 2_setup_embedding.py:77-80 | the forward `while` loop stops where ScanForward stops and records the same last word break |
| Segmenter.FindChunkStart | 2_setup_embedding.py:86-95 | the method with the backward loop computes ChunkStart |
| Segmenter.ScanToSentenceStart | 2_setup_embedding.py:87-91 | the backward `while` loop stops where ScanBackward stops and records the same word break |
| Segmenter.NextChunk | 2_setup_embedding.py:70-98 | one pass of the loop body yields ChunkAt: the slice `text[s:e]` and `find_page(s)` |
| Segmenter.NextStart | 2_setup_embedding.py:100-107 | the cursor update computes NextCursor |
| Segmenter.SplitText | 2_setup_embedding.py:54-110 | the method with the script's loop yields exactly `Split`; the post-loop yield can never fire |
| Segmenter.SplitFrom | 2_setup_embedding.py:69-107 | the chunks the loop yields from a cursor; there is one exactly when `cursor + OVERLAP < length` (its other properties are the SplitFrom lemmas below) |
| Segmenter.Split | 2_setup_embedding.py:54-110 | everything `split_text` yields: the loop from cursor 0 over the joined page texts; it is non-empty exactly when the text is longer than OVERLAP |
| SegmenterProofs.ChunkBounds | 2_setup_embedding.py:70-98 | `0 <= s <= cursor + 1`, `s <= e <= length`, `e <= cursor + MAX + SSL + 1`, the content is `text[s:e]`, `e - s <= MAX + 2*SSL` when SSL >= 1, and the chunk is non-empty when OVERLAP >= 1 |
| SegmenterProofs.ChunkEndClamped | 2_setup_embedding.py:73-74 | when `cursor + MAX` is past the text, the chunk runs to `length` |
| SegmenterProofs.ChunkEndAtSentenceEnd | 2_setup_embedding.py:77-84 | the first sentence end in the forward window becomes the chunk's last character |
| SegmenterProofs.ChunkEndAtWordBreak | 2_setup_embedding.py:77-84 | when the window has no sentence end, the chunk ends with the last word break seen |
| SegmenterProofs.ChunkEndAtSearchLimit | 2_setup_embedding.py:77-84 | with neither a sentence end nor a word break in the window, the chunk ends at `cursor + MAX + SSL + 1` |
| SegmenterProofs.ChunkEndAtTextEnd | 2_setup_embedding.py:77-84 | when the scan reaches `length` without a sentence end, the chunk ends at `length` |
| SegmenterProofs.ChunkStartAfterSentenceEnd | 2_setup_embedding.py:88-95 | the backward scan stops on the nearest sentence end, and the chunk begins just after it (or at 0) |
| SegmenterProofs.ChunkStartAfterWordBreak | 2_setup_embedding.py:88-95 | without a sentence end, the chunk begins just after the farthest-back word break seen |
| SegmenterProofs.ChunkStartAtFloor | 2_setup_embedding.py:88-95 | without either, the chunk begins at the scan's floor (one past it unless it is 0) |
| SegmenterProofs.FirstChunkStartsAtZero | 2_setup_embedding.py:67-95 | the first pass's chunk starts at 0 |
| SegmenterProofs.ChunkStartNotAfterCursor | 2_setup_embedding.py:88-95 | from a cursor that is neither a sentence end nor a word break, where the scan can step, the chunk starts at or before the cursor |
| SegmenterProofs.ChunkAtTag | 2_setup_embedding.py:86-95 | a pass whose cursor is on a `<` (SSL >= 2) starts its chunk at or before that `<` |
| SegmenterProofs.TableOpenIsTag | 2_setup_embedding.py:100 | the last `<table` found by `rfind` begins with `<` |
| SegmenterProofs.NextCursorAtTable | 2_setup_embedding.py:100-105 | when the table rule fires, the next cursor is no later than the last `<table` |
| SegmenterProofs.TableSafety | 2_setup_embedding.py:100-105 | when the table rule fires and another pass follows, the next chunk starts at or before the `<` of the unclosed `<table` |
| SegmenterProofs.SplitFromStep | 2_setup_embedding.py:69-107 | one turn of the loop emits ChunkAt and continues from NextCursor |
| SegmenterProofs.SplitFromSlices | 2_setup_embedding.py:97-98 | every chunk is a slice `text[s:e]` attributed to `find_page(s)`, at most `MAX + 2*SSL` long (SSL >= 1), and non-empty (OVERLAP >= 1) |
| SegmenterProofs.SplitFromEnds | 2_setup_embedding.py:69-107 | the loop yields a chunk exactly when `cursor + OVERLAP < length`; its first chunk starts at most at `cursor + 1` and its last chunk ends at `length` |
| SegmenterProofs.SplitFromFirst | 2_setup_embedding.py:69-95 | the loop yields a chunk exactly when `cursor + OVERLAP < length`, and the first starts at most at `cursor + 1` |
| SegmenterProofs.SplitFromLast | 2_setup_embedding.py:69-107 | the last chunk the loop yields ends at `length` |
| SegmenterProofs.SplitFromLinks | 2_setup_embedding.py:100-107 | each chunk starts no later than one past the previous chunk's end minus OVERLAP |
| SegmenterProofs.SplitFromCount | 2_setup_embedding.py:69-107 | the loop from a cursor makes at most `length - OVERLAP - cursor` passes |
| SegmenterProofs.ShortInputYieldsNothing | 2_setup_embedding.py:69 | a text of length at most OVERLAP yields no chunk |
| SegmenterProofs.SplitStartsAtZero | 2_setup_embedding.py:67-95 | a longer text yields at least one chunk, and the first starts at 0 |
| SegmenterProofs.ShortTextChunks | 2_setup_embedding.py:69-107 | a text longer than OVERLAP and at most MAX long yields first the whole text, attributed to `find_page(0)`; that is the only chunk unless the table rule fires with its `<table` more than OVERLAP before the end |
| SegmenterProofs.ContiguousCover | 2_setup_embedding.py:67-107 | chunks that start at 0 and each start no later than the previous end cover every position before the last end |
| SegmenterProofs.SplitCoversText | 2_setup_embedding.py:67-107 | with OVERLAP >= 1: the first chunk starts at 0, the last ends at `length`, each chunk starts no later than the previous one ends (strictly before it when OVERLAP >= 2), and every position of the text lies in a chunk |
| SegmenterProofs.ChunkAtParts | 2_setup_embedding.py:70-95 | a pass's end is ChunkEnd and its start is ChunkStart for that end |
| SegmenterProofs.ScanBackwardStopMonotone | 2_setup_embedding.py:88-91 | the backward scan stops no earlier when it starts later and its bound is higher |
| SegmenterProofs.ScanOriginMonotone | 2_setup_embedding.py:88-93 | the position lines 92-93 settle on moves no earlier when the scan starts later and its bound is higher |
| SegmenterProofs.ChunkStartOrigin | 2_setup_embedding.py:88-95 | the chunk starts one past the settled position of the backward scan, unless that position is 0 |
| SegmenterProofs.ChunkStartMonotone | 2_setup_embedding.py:86-95 | the chunk start never moves back when the cursor and the chunk end both move forward |
| SegmenterProofs.OccursInSlice | 2_setup_embedding.py:97-101 | a pattern occurs in the slice `text[s:e]` exactly where it occurs in the text |
| SegmenterProofs.ChunkOnOwnPage | 2_setup_embedding.py:58-63 | every chunk from any cursor is attributed to a real page that holds its first character |
| SegmenterProofs.ChunkPagesHoldChunkStarts | 2_setup_embedding.py:58-98 | on a well-formed map (OVERLAP >= 1), no chunk gets page -1, and each chunk's page holds its first character |
| SegmenterFinding.NextCursorAsWritten | 2_setup_embedding.py:100-107 | the rule as written: at most `e - OVERLAP`, and no later than the last `<table` when the rule fires |
| SegmenterFinding.NextCursorAgrees | 2_setup_embedding.py:100-107 | the written move is the corrected one exactly when it advances the cursor |
| SegmenterFinding.RulesDisagreeOnlyAtTheEnd | 2_setup_embedding.py:100-107 | the rules can disagree only on a pass whose chunk runs to `length`, where the written move does not advance and the corrected loop stops next |
| SegmenterFinding.AsWrittenYields | 2_setup_embedding.py:69-107 | the loop as written, started at a cursor, stops after yielding exactly the given chunks (a definition; AsWrittenAgrees and AsWrittenLoopsForever state its properties) |
| SegmenterFinding.FixedPointLoopsForever | 2_setup_embedding.py:69-107 | from a cursor that the rule as written maps to itself, the loop as written yields no list of chunks and stops |
| SegmenterFinding.TableSeenBefore | 2_setup_embedding.py:97-105 | if a chunk that runs to `length` has its written move before `c`, so does an earlier chunk that starts no later and ends after `c + OVERLAP` |
| SegmenterFinding.LastOccurrenceShared | 2_setup_embedding.py:97-100 | when the last occurrence of a pattern in a later window lies inside an earlier window, it is the earlier window's last occurrence too |
| SegmenterFinding.NoLaterOccurrence | 2_setup_embedding.py:97-101 | an earlier window's last occurrence at or after p is no later than the later window's last occurrence |
| SegmenterFinding.WrittenNeverBacksUp | 2_setup_embedding.py:69-107 | a cursor reached by a forward move of the rule as written is not sent back behind itself by the next pass (overlap at least 5) |
| SegmenterFinding.AgreesStep | 2_setup_embedding.py:69-107 | from a cursor the written rule does not send back, a loop that stops advances to another such cursor, by the corrected move, and both loops yield this pass's chunk first |
| SegmenterFinding.AsWrittenAgreesFrom | 2_setup_embedding.py:69-107 | from such a cursor, whatever the loop as written yields before it stops equals SplitFrom |
| SegmenterFinding.AsWrittenAgrees | 2_setup_embedding.py:54-110 | whenever the loop as written stops, it has yielded exactly `Split` (overlap at least 5) |
| SegmenterFinding.ExampleFirstPass | 2_setup_embedding.py:70-98 | on the counterexample, the first chunk is [0, 1101) |
| SegmenterFinding.ExampleClampedPass | 2_setup_embedding.py:70-98 | on the counterexample, the pass at 600 gives [301, 1500) |
| SegmenterFinding.ExampleFirstNext | 2_setup_embedding.py:100-105 | on the counterexample, the first pass sends the cursor to the `<table` at 600 |
| SegmenterFinding.ExampleFixedPoint | 2_setup_embedding.py:100-105 | as written, the pass at 600 sends the cursor back to 600 |
| SegmenterFinding.AsWrittenLoopsForever | 2_setup_embedding.py:69-107 | with the shipped constants, the loop as written never stops on the counterexample: it yields no list of chunks after which it stops |
| SegmenterFinding.CorrectedSplitOfExample | 2_setup_embedding.py:69-107 | the corrected loop yields exactly [0, 1101) and [301, 1500) on the counterexample |
| FileIds.FileId | 2_setup_embedding.py:49-52 | `filename_to_id`: `file-`, the sanitised name, `-`, the hex of the UTF-8 bytes (a definition; FileIdShape, FileIdRecoversBytes and FileIdInjective state its properties) |
| FileIds.Sanitize | 2_setup_embedding.py:50 | same length; characters in `[0-9a-zA-Z_-]` are kept, every other character becomes `_`; the result holds id characters only |
| FileIds.SanitizeIdempotent | 2_setup_embedding.py:50 | sanitising twice is sanitising once |
| FileIds.SanitizeKeepsIdNames | 2_setup_embedding.py:50 | a name made of id characters is unchanged |
| FileIds.EncodeChar | 2_setup_embedding.py:51 | one to four bytes per character, one byte exactly for ASCII, equal to its code |
| FileIds.Utf8Encode | 2_setup_embedding.py:51 | between one and four bytes per character |
| FileIds.Utf8EncodeAscii | 2_setup_embedding.py:51 | ASCII text encodes to its character codes, one byte each |
| FileIds.Utf8RoundTrip | 2_setup_embedding.py:51 | the UTF-8 decoder recovers the name from its encoding |
| FileIds.HexValue | 2_setup_embedding.py:51 | each alphabet character has a value below 16 that maps back to it |
| FileIds.HexDigit | 2_setup_embedding.py:51 | a value below 16 becomes the character at that position of `0123456789ABCDEF` |
| FileIds.Base16Encode | 2_setup_embedding.py:51 | two characters per byte |
| FileIds.Base16EncodeDigits | 2_setup_embedding.py:51 | character 2i is the digit of the high four bits of byte i, character 2i + 1 that of its low four bits; the encoding holds upper-case hex digits only |
| FileIds.Base16RoundTrip | 2_setup_embedding.py:51 | `b16decode(b16encode(b)) == b` |
| FileIds.Base16DecodeInverse | 2_setup_embedding.py:51 | a string that decodes is the encoding of its decoding |
| FileIds.FileIdShape | 2_setup_embedding.py:49-52 | the id is `file-`, the sanitised name, `-`, then the hex of the name's UTF-8 bytes (2 per byte, hex digits only) |
| FileIds.FileIdNameChars | 2_setup_embedding.py:50-52 | the id holds id characters where the name sits, and keeps each id character of the name in place |
| FileIds.LastIndexOf | 2_setup_embedding.py:49-52 | the last index of a character, or -1 |
| FileIds.AfterLastDashOfJoin | 2_setup_embedding.py:49-52 | what follows the last `-` of `p + "-" + t` is t when t has no `-` |
| FileIds.FileIdRecoversBytes | 2_setup_embedding.py:49-52 | decoding what follows the id's last `-` gives the name's UTF-8 bytes |
| FileIds.FileIdInjective | 2_setup_embedding.py:49-52 | different file names get different ids |
| FileIds.Base16EncodeAppend | 2_setup_embedding.py:51 | the encoding of a concatenation is the concatenation of the encodings |
| FileIds.FileIdOfExample | 2_setup_embedding.py:49-52 | `My File.pdf` gets the id `file-My_File_pdf-4D792046696C652E706466` |
| Sections.NatToDecimal | 2_setup_embedding.py:116 | at least one character, decimal digits only, no leading zero |
| Sections.IntToDecimal | 2_setup_embedding.py:119 | non-empty, and it starts with `-` exactly for a negative number |
| Sections.NatDecimalRoundTrip | 2_setup_embedding.py:116 | the digits of n read back as n |
| Sections.DecimalRoundTrip | 2_setup_embedding.py:116-119 | `int(str(n)) == n` for every integer |
| Sections.NegativeRoundTrip | 2_setup_embedding.py:119 | `int(str(n)) == n` for a negative n: a minus sign, then the digits of -n |
| Sections.NonNegativeRoundTrip | 2_setup_embedding.py:116-119 | `int(str(n)) == n` for n >= 0 |
| Sections.DecimalInjective | 2_setup_embedding.py:116-119 | different integers are rendered differently |
| Sections.SectionId | 2_setup_embedding.py:116 | `f"{file_id}-page-{i}"` (a definition; SectionIdIndex and SectionIdsDistinct state its properties) |
| Sections.SectionIdIndex | 2_setup_embedding.py:116 | the id starts with the file id and `-page-`; the section number is parsed back from the rest |
| Sections.SectionIdsDistinct | 2_setup_embedding.py:116 | sections of one file with different numbers have different ids |
| Sections.SourcePage | 2_setup_embedding.py:119 | the stem, `-`, the page number, `.pdf` (a definition; SourcePagePage and SourcePagesDistinct state its properties) |
| Sections.SourcePagePage | 2_setup_embedding.py:119 | the label is the stem, `-`, the page number, `.pdf`; the page is parsed back from the middle |
| Sections.SourcePagesDistinct | 2_setup_embedding.py:119 | different pages of one file get different labels |
| Sections.Normalize | 2_setup_embedding.py:27 | same length; each newline becomes a space, other characters are kept; no newline remains |
| Sections.NormalizeKeepsPlainText | 2_setup_embedding.py:27 | a text without newlines is unchanged |
| Sections.NormalizeIdempotent | 2_setup_embedding.py:27 | normalising twice is normalising once |
| Sections.SectionFor | 2_setup_embedding.py:115-121 | the record for chunk i: its id, text, embedding of the normalised text, page label and file name (a definition; NumberSections and BuildSections state what the loop builds from it) |
| Sections.NumberedIdsDistinct | 2_setup_embedding.py:114-116 | records numbered in order with one file id have pairwise different ids |
| Sections.NumberSections | 2_setup_embedding.py:112-122 | the `enumerate` loop appends, for chunk i, the record with id number i, its text, its embedding and its page label; no two records share an id |
| Sections.BuildSections | 2_setup_embedding.py:112-122 | one record per chunk of `split_text`, in order: id `<file id>-page-<i>`, the chunk's text, the embedding of its normalised text, the label of its page, the file name; no two records share an id |
| Uploads.Batches | 2_setup_embedding.py:142-158 | the batches the loop submits: full batches of 1000, then the non-empty rest (a definition; BatchesFlatten, BatchSizes and BatchCount state its properties) |
| Uploads.BatchesFlatten | 2_setup_embedding.py:142-158 | the submitted batches, concatenated in order, are the sections |
| Uploads.BatchSizes | 2_setup_embedding.py:142-158 | no batch is empty; all but the last hold 1000 sections; the last holds `n % 1000` sections, or 1000 when that is 0 |
| Uploads.BatchesFront | 2_setup_embedding.py:145-152 | at least 1000 sections start with one full batch |
| Uploads.BatchCount | 2_setup_embedding.py:142-158 | there are `ceil(n / 1000)` upload calls |
| Uploads.BatchesSplit | 2_setup_embedding.py:145-152 | cutting the sections after a multiple of 1000 cuts the batch sequence in the same place |
| Uploads.BatchesExtend | 2_setup_embedding.py:148-152 | a flush after 1000 more sections appends exactly those sections as one batch |
| Uploads.UploadInBatches | 2_setup_embedding.py:142-158 | the method with the counter and accumulator submits exactly `Batches(sections)`: full batches on every 1000th section, then the non-empty remainder |

## Left out

- `init_index.py`: it only builds search-service schema objects and calls the service. It has no logic of its own.
- PDF reading and `extract_text`: a foreign library. The page texts are the input of `BuildPageMap`.
- The embedding service, client setup and `dotenv` configuration: network and environment. The embedding is a parameter `embed: string -> Embedding` applied to the normalised text, with floats modelled as reals.
- The results of `upload_documents`, the `succeeded` count and the printed messages: these depend only on the service's opaque answer. Each call is recorded as the batch it is given.
- The search query, `nonewlines` and the printing of results: display only.
- `os.path.basename` and `os.path.splitext`: `BuildSections` takes the file stem as a parameter.
- Python strings may hold lone surrogates. Dafny characters are Unicode scalar values, so the UTF-8 model never meets one. Python's `encode` would raise on one.
- The chunk-count bound `ceil(length / (MAX - OVERLAP)) + 1` and an upper bound on the overlap between consecutive chunks (`OVERLAP + MAX`) are not proved. The bound proved instead is `length - OVERLAP` chunks (`SplitFromCount`).
- SegmenterFinding.AsWrittenAgrees: the agreement of the loop as written with `Split` is proved for overlaps of at least 5 (`|"<table"| <= OVERLAP + 1`), not for smaller ones.

## Findings

| source | as written | input that shows it | evidently intended | confidence | as-written member | corrected member |
|---|---|---|---|---|---|---|
| 2_setup_embedding.py:100-107 | The table rule is also applied on the last pass, where `end` was clamped to `length`. That pass's start can lie more than `2*SSL` before the cursor, so `min(end - SECTION_OVERLAP, start + last_table_start)` can return the cursor itself. The loop then repeats the same pass forever, despite the comment at 102-104. | Shipped constants (1000, 100, 100). The text is 1500 characters, all `x` except `<table` at offset 600, on a page map of any shape. The cursor goes 0 → 600 → 600 → … | Every pass moves the cursor forward. Taking the table move only when it advances the cursor achieves this. That changes nothing where the script stops (AsWrittenAgrees), and it yields [0, 1101) and [301, 1500) on this input. | not executed | SegmenterFinding.AsWrittenLoopsForever | Segmenter.NextCursor |
