/** The page map of 2_setup_embedding.py: one entry per PDF page, holding the page number,
    the page's character offset in the concatenated text, and the page text; and the
    linear lookup `find_page` from a character offset back to a page. */
module PageMaps {

  /** A page-map tuple `(page_num, offset, page_text)`. */
  datatype PageEntry = PageEntry(pageNum: nat, offset: nat, text: string)

  /** Sum of the lengths of a sequence of page texts. */
  function SumLengths(pages: seq<string>): nat
  {
    if pages == [] then 0 else SumLengths(pages[..|pages| - 1]) + |pages[|pages| - 1]|
  }

  /** `"".join(p[2] for p in page_map)`: the page texts concatenated in page order. */
  function JoinTexts(pageMap: seq<PageEntry>): string
  {
    if pageMap == [] then "" else JoinTexts(pageMap[..|pageMap| - 1]) + pageMap[|pageMap| - 1].text
  }

  /** Entry i has page number i and starts where the text of the pages before it ends. */
  predicate WellFormed(pageMap: seq<PageEntry>)
  {
    forall i | 0 <= i < |pageMap| :: pageMap[i].pageNum == i && pageMap[i].offset == |JoinTexts(pageMap[..i])|
  }

  /** The loop that enumerates the extracted pages, appends `(page_num, offset, page_text)`
      and advances the running offset by the page's length. */
  method BuildPageMap(pages: seq<string>) returns (pageMap: seq<PageEntry>)
    ensures |pageMap| == |pages|
    ensures forall i | 0 <= i < |pages| :: pageMap[i] == PageEntry(i, SumLengths(pages[..i]), pages[i])
    ensures WellFormed(pageMap)
    ensures |JoinTexts(pageMap)| == SumLengths(pages)
  {
    var offset := 0;
    pageMap := [];
    for pageNum := 0 to |pages|
      invariant |pageMap| == pageNum
      invariant forall i | 0 <= i < pageNum :: pageMap[i] == PageEntry(i, SumLengths(pages[..i]), pages[i])
      invariant offset == SumLengths(pages[..pageNum])
    {
      var pageText := pages[pageNum];
      pageMap := pageMap + [PageEntry(pageNum, offset, pageText)];
      SumLengthsStep(pages, pageNum);
      offset := offset + |pageText|;
    }
    EntriesWellFormed(pages, pageMap);
  }

  /** One more page adds its length to the running sum. */
  lemma SumLengthsStep(pages: seq<string>, k: nat)
    requires k < |pages|
    ensures SumLengths(pages[..k + 1]) == SumLengths(pages[..k]) + |pages[k]|
  {
    assert pages[..k + 1][..k] == pages[..k];
  }

  /** The concatenated texts of the first k entries are as long as the first k pages. */
  lemma {:induction false} PrefixLength(pages: seq<string>, pageMap: seq<PageEntry>, k: nat)
    requires |pageMap| == |pages| && k <= |pages|
    requires forall i | 0 <= i < |pages| :: pageMap[i].text == pages[i]
    ensures |JoinTexts(pageMap[..k])| == SumLengths(pages[..k])
    decreases k
  {
    if k > 0 {
      PrefixLength(pages, pageMap, k - 1);
      assert pageMap[..k][..k - 1] == pageMap[..k - 1];
      assert pages[..k][..k - 1] == pages[..k - 1];
    }
  }

  /** Entries numbered in order, at the running sums of the page lengths, form a well-formed
      page map whose text is as long as all the pages. */
  lemma EntriesWellFormed(pages: seq<string>, pageMap: seq<PageEntry>)
    requires |pageMap| == |pages|
    requires forall i | 0 <= i < |pages| :: pageMap[i] == PageEntry(i, SumLengths(pages[..i]), pages[i])
    ensures WellFormed(pageMap)
    ensures |JoinTexts(pageMap)| == SumLengths(pages)
  {
    forall i | 0 <= i < |pageMap|
      ensures pageMap[i].pageNum == i && pageMap[i].offset == |JoinTexts(pageMap[..i])|
    {
      PrefixLength(pages, pageMap, i);
    }
    PrefixLength(pages, pageMap, |pages|);
    assert pageMap[..|pages|] == pageMap;
    assert pages[..|pages|] == pages;
  }

  /** The page-map lemma behind `find_page`: entry i + 1 starts where entry i ends. */
  lemma OffsetsStep(pageMap: seq<PageEntry>, i: nat)
    requires WellFormed(pageMap) && i + 1 < |pageMap|
    ensures pageMap[i + 1].offset == pageMap[i].offset + |pageMap[i].text|
  {
    assert pageMap[..i + 1][..i] == pageMap[..i];
  }

  /** Offsets never decrease along the page map. */
  lemma {:induction false} OffsetsMonotone(pageMap: seq<PageEntry>, i: nat, j: nat)
    requires WellFormed(pageMap) && i <= j < |pageMap|
    ensures pageMap[i].offset <= pageMap[j].offset
    decreases j - i
  {
    if i < j {
      OffsetsStep(pageMap, i);
      OffsetsMonotone(pageMap, i + 1, j);
    }
  }

  /** The concatenation of a prefix of the page map is a prefix of the whole concatenation. */
  lemma {:induction false} JoinTextsPrefix(pageMap: seq<PageEntry>, k: nat)
    requires k <= |pageMap|
    ensures JoinTexts(pageMap[..k]) <= JoinTexts(pageMap)
    decreases |pageMap| - k
  {
    if k < |pageMap| {
      var longer := pageMap[..k + 1];
      assert longer[..|longer| - 1] == pageMap[..k];
      JoinTextsPrefix(pageMap, k + 1);
    } else {
      assert pageMap[..k] == pageMap;
    }
  }

  /** The total text ends where the last page ends. */
  lemma JoinTextsLength(pageMap: seq<PageEntry>)
    requires WellFormed(pageMap) && |pageMap| > 0
    ensures |JoinTexts(pageMap)| == pageMap[|pageMap| - 1].offset + |pageMap[|pageMap| - 1].text|
  {
  }

  /** Offset `offset` lies in the half-open interval between page i's offset and page i + 1's. */
  predicate InInterval(pageMap: seq<PageEntry>, i: nat, offset: int)
    requires i + 1 < |pageMap|
  {
    pageMap[i].offset <= offset < pageMap[i + 1].offset
  }

  /** The `for i in range(l - 1)` search of `find_page`, resumed at index i. */
  function FindPageFrom(pageMap: seq<PageEntry>, offset: int, i: nat): (r: nat)
    requires i < |pageMap|
    ensures i <= r < |pageMap|
    ensures r < |pageMap| - 1 ==> InInterval(pageMap, r, offset)
    ensures forall j | i <= j < r :: !InInterval(pageMap, j, offset)
    decreases |pageMap| - i
  {
    if i < |pageMap| - 1 then
      if InInterval(pageMap, i, offset) then i else FindPageFrom(pageMap, offset, i + 1)
    else
      |pageMap| - 1
  }

  /** `find_page`: the first i < l - 1 whose interval holds the offset, else l - 1
      (which is -1 on an empty page map). */
  function FindPage(pageMap: seq<PageEntry>, offset: int): (r: int)
    ensures |pageMap| == 0 ==> r == -1
    ensures |pageMap| > 0 ==> 0 <= r < |pageMap|
    ensures 0 <= r < |pageMap| - 1 ==> InInterval(pageMap, r, offset)
    ensures forall j | 0 <= j < r && j < |pageMap| - 1 :: !InInterval(pageMap, j, offset)
  {
    if |pageMap| == 0 then -1 else FindPageFrom(pageMap, offset, 0)
  }

  /** Every offset at or past the start of the text is at or past the start of each page
      whose earlier intervals it missed. */
  lemma {:induction false} PastEarlierPages(pageMap: seq<PageEntry>, offset: int, k: nat)
    requires WellFormed(pageMap) && 0 <= offset && 0 < |pageMap| && k < |pageMap|
    requires forall j | 0 <= j < k :: !InInterval(pageMap, j, offset)
    ensures pageMap[k].offset <= offset
  {
    if k == 0 {
      assert pageMap[..0] == [];
    } else {
      PastEarlierPages(pageMap, offset, k - 1);
      assert !InInterval(pageMap, k - 1, offset);
    }
  }

  /** The page that `find_page` returns for a character of the text is the page holding that
      character: the offset falls inside the page, and the character read from the
      concatenated text is the one read from the page. */
  lemma FindPageLocates(pageMap: seq<PageEntry>, offset: int)
    requires WellFormed(pageMap) && 0 <= offset < |JoinTexts(pageMap)|
    ensures 0 <= FindPage(pageMap, offset) < |pageMap|
    ensures var p := pageMap[FindPage(pageMap, offset)];
      p.offset <= offset < p.offset + |p.text| && JoinTexts(pageMap)[offset] == p.text[offset - p.offset]
  {
    assert pageMap != [];
    var r := FindPage(pageMap, offset);
    PastEarlierPages(pageMap, offset, r);
    if r < |pageMap| - 1 {
      OffsetsStep(pageMap, r);
    } else {
      JoinTextsLength(pageMap);
    }
    JoinTextsPrefix(pageMap, r + 1);
    var upTo := pageMap[..r + 1];
    assert upTo[..|upTo| - 1] == pageMap[..r];
    assert JoinTexts(upTo) == JoinTexts(pageMap[..r]) + pageMap[r].text;
    assert JoinTexts(pageMap)[offset] == JoinTexts(upTo)[offset];
  }

  /** An offset exactly equal to a page's start offset maps to that page, provided the page is
      non-empty or the last one (an empty page shares its offset with the page after it). */
  lemma FindPageAtPageStart(pageMap: seq<PageEntry>, k: nat)
    requires WellFormed(pageMap) && k < |pageMap|
    requires k == |pageMap| - 1 || |pageMap[k].text| > 0
    ensures FindPage(pageMap, pageMap[k].offset) == k
  {
    var o := pageMap[k].offset;
    forall j | 0 <= j < k
      ensures !InInterval(pageMap, j, o)
    {
      OffsetsMonotone(pageMap, j + 1, k);
    }
    if k < |pageMap| - 1 {
      OffsetsStep(pageMap, k);
      assert InInterval(pageMap, k, o);
    }
  }
}
