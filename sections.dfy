/** The section records of 2_setup_embedding.py: each chunk of `split_text` becomes a record
    with the id `<file id>-page-<i>`, its content, the embedding of its newline-free content,
    the label `<stem>-<page>.pdf` and the source file name. */
module Sections {
  import opened Wrappers
  import opened PageMaps
  import opened Segmenter
  import FileIds

  // ---------------------------------------------------------------------------------------
  // f"{i}": Python's decimal rendering of an integer

  predicate IsDigit(c: char)
  {
    '0' <= c <= '9'
  }

  predicate AllDigits(s: string)
  {
    forall k | 0 <= k < |s| :: IsDigit(s[k])
  }

  function DigitChar(d: nat): (c: char)
    requires d < 10
    ensures IsDigit(c) && c as int - '0' as int == d
  {
    ('0' as int + d) as char
  }

  /** The decimal digits of n, most significant first, without leading zeros. */
  function NatToDecimal(n: nat): (s: string)
    ensures 1 <= |s| && AllDigits(s)
    ensures s[0] == '0' ==> n == 0
  {
    if n < 10 then [DigitChar(n)] else NatToDecimal(n / 10) + [DigitChar(n % 10)]
  }

  /** `str(n)` for any integer: a minus sign before the digits of a negative number. */
  function IntToDecimal(n: int): (s: string)
    ensures 1 <= |s|
    ensures n < 0 <==> s[0] == '-'
  {
    if n < 0 then "-" + NatToDecimal(-n) else NatToDecimal(n)
  }

  function DigitValue(c: char): (d: nat)
    requires IsDigit(c)
    ensures d < 10 && DigitChar(d) == c
  {
    c as int - '0' as int
  }

  /** The value of a string of decimal digits. */
  function DecimalValue(s: string): nat
    requires AllDigits(s)
  {
    if s == [] then 0 else DecimalValue(s[..|s| - 1]) * 10 + DigitValue(s[|s| - 1])
  }

  /** `int(s)` on the strings that `str` produces: an optional minus sign and digits; None on
      anything else. */
  function ParseDecimal(s: string): Option<int>
  {
    if |s| > 0 && s[0] == '-' then
      if AllDigits(s[1..]) then Some(0 - DecimalValue(s[1..])) else None
    else if AllDigits(s) then Some(DecimalValue(s)) else None
  }

  /** Reading the digits of n back gives n. */
  lemma {:induction false} NatDecimalRoundTrip(n: nat)
    ensures DecimalValue(NatToDecimal(n)) == n
  {
    if n >= 10 {
      NatDecimalRoundTrip(n / 10);
      var s := NatToDecimal(n);
      assert s[..|s| - 1] == NatToDecimal(n / 10);
    }
  }

  /** Parsing a minus sign followed by digits. */
  lemma ParseNegative(digits: string)
    requires AllDigits(digits)
    ensures ParseDecimal("-" + digits) == Some(0 - DecimalValue(digits))
  {
    assert ("-" + digits)[1..] == digits;
  }

  /** Parsing the rendering of a negative integer: a minus sign followed by its digits. */
  lemma NegativeRoundTrip(n: int)
    requires n < 0
    ensures ParseDecimal(IntToDecimal(n)) == Some(n)
  {
    var digits := NatToDecimal(-n);
    NatDecimalRoundTrip(-n);
    ParseNegative(digits);
    assert IntToDecimal(n) == "-" + digits;
  }

  /** Parsing the rendering of a natural number: digits only. */
  lemma NonNegativeRoundTrip(n: int)
    requires n >= 0
    ensures ParseDecimal(IntToDecimal(n)) == Some(n)
  {
    var s := IntToDecimal(n);
    NatDecimalRoundTrip(n);
    assert s == NatToDecimal(n);
    assert IsDigit(s[0]);
  }

  /** Parsing the rendering of any integer gives the integer back. */
  lemma DecimalRoundTrip(n: int)
    ensures ParseDecimal(IntToDecimal(n)) == Some(n)
  {
    if n < 0 {
      NegativeRoundTrip(n);
    } else {
      NonNegativeRoundTrip(n);
    }
  }

  /** Different integers are rendered differently. */
  lemma DecimalInjective(a: int, b: int)
    ensures IntToDecimal(a) == IntToDecimal(b) ==> a == b
  {
    DecimalRoundTrip(a);
    DecimalRoundTrip(b);
  }

  // ---------------------------------------------------------------------------------------
  // The id and sourcepage fields

  const PageInfix := "-page-"
  const PdfSuffix := ".pdf"

  /** `f"{file_id}-page-{i}"`. */
  function SectionId(fileId: string, i: nat): string
  {
    fileId + PageInfix + IntToDecimal(i)
  }

  /** The section number is read back from what follows the file id and `-page-`. */
  lemma SectionIdIndex(fileId: string, i: nat)
    ensures var id := SectionId(fileId, i);
      && id[..|fileId| + |PageInfix|] == fileId + PageInfix
      && ParseDecimal(id[|fileId| + |PageInfix|..]) == Some(i)
  {
    var id := SectionId(fileId, i);
    assert id[|fileId| + |PageInfix|..] == IntToDecimal(i);
    DecimalRoundTrip(i);
  }

  /** Sections of one file with different numbers have different ids. */
  lemma SectionIdsDistinct(fileId: string, i: nat, j: nat)
    requires i != j
    ensures SectionId(fileId, i) != SectionId(fileId, j)
  {
    SectionIdIndex(fileId, i);
    SectionIdIndex(fileId, j);
  }

  /** `stem + f"-{pagenum}" + ".pdf"`, where `stem` is the file name without directory and
      extension. */
  function SourcePage(stem: string, page: int): string
  {
    stem + "-" + IntToDecimal(page) + PdfSuffix
  }

  /** The label starts with the stem and a dash, ends with `.pdf`, and the page number is read
      back from what lies between. */
  lemma SourcePagePage(stem: string, page: int)
    ensures var pageLabel := SourcePage(stem, page);
      && |pageLabel| >= |stem| + 1 + |PdfSuffix|
      && pageLabel[..|stem| + 1] == stem + "-"
      && pageLabel[|pageLabel| - |PdfSuffix|..] == PdfSuffix
      && ParseDecimal(pageLabel[|stem| + 1..|pageLabel| - |PdfSuffix|]) == Some(page)
  {
    var pageLabel := SourcePage(stem, page);
    assert pageLabel[|stem| + 1..|pageLabel| - |PdfSuffix|] == IntToDecimal(page);
    DecimalRoundTrip(page);
  }

  /** Within one file, different pages get different labels. */
  lemma SourcePagesDistinct(stem: string, a: int, b: int)
    requires a != b
    ensures SourcePage(stem, a) != SourcePage(stem, b)
  {
    SourcePagePage(stem, a);
    SourcePagePage(stem, b);
  }

  // ---------------------------------------------------------------------------------------
  // compute_embedding: text.replace("\n", " ") and then the embedding service

  /** `text.replace("\n", " ")`. */
  function Normalize(text: string): (r: string)
    ensures |r| == |text|
    ensures forall k | 0 <= k < |text| :: r[k] == (if text[k] == '\n' then ' ' else text[k])
    ensures '\n' !in r
  {
    if text == [] then [] else [if text[0] == '\n' then ' ' else text[0]] + Normalize(text[1..])
  }

  /** A text without newlines is left as it is. */
  lemma NormalizeKeepsPlainText(text: string)
    requires '\n' !in text
    ensures Normalize(text) == text
  {
    assert forall k | 0 <= k < |text| :: text[k] != '\n';
  }

  /** Normalising twice is the same as normalising once. */
  lemma NormalizeIdempotent(text: string)
    ensures Normalize(Normalize(text)) == Normalize(text)
  {
    NormalizeKeepsPlainText(Normalize(text));
  }

  // ---------------------------------------------------------------------------------------
  // The sections loop

  /** The embedding vector the service returns (floating point, modelled as reals). */
  type Embedding = seq<real>

  /** One record of `sections`. */
  datatype Section = Section(id: string, content: string, embedding: Embedding, sourcepage: string, sourcefile: string)

  /** The record built for the i-th chunk; `embed` stands for the embedding service, which is
      given the content with its newlines replaced. */
  function SectionFor(fileId: string, stem: string, filename: string, embed: string -> Embedding, i: nat, ch: Chunk): Section
  {
    Section(SectionId(fileId, i), ch.content, embed(Normalize(ch.content)), SourcePage(stem, ch.page), filename)
  }

  /** Records numbered in order with ids of one file have pairwise different ids. */
  lemma NumberedIdsDistinct(sections: seq<Section>, fileId: string)
    requires forall k | 0 <= k < |sections| :: sections[k].id == SectionId(fileId, k)
    ensures forall i, j | 0 <= i < j < |sections| :: sections[i].id != sections[j].id
  {
    forall i, j | 0 <= i < j < |sections|
      ensures sections[i].id != sections[j].id
    {
      SectionIdsDistinct(fileId, i, j);
    }
  }

  /** The loop over `enumerate(...)` that appends one record per chunk: record i holds chunk i's
      slice of the text, the embedding of that slice with newlines replaced, the id with number
      i and the label of the chunk's page; no two records share an id. */
  method NumberSections(chunks: seq<Chunk>, fileId: string, stem: string, filename: string, embed: string -> Embedding)
    returns (sections: seq<Section>)
    ensures |sections| == |chunks|
    ensures forall i | 0 <= i < |chunks| :: sections[i] == SectionFor(fileId, stem, filename, embed, i, chunks[i])
    ensures forall i, j | 0 <= i < j < |sections| :: sections[i].id != sections[j].id
  {
    sections := [];
    for i := 0 to |chunks|
      invariant |sections| == i
      invariant forall k | 0 <= k < i :: sections[k] == SectionFor(fileId, stem, filename, embed, k, chunks[k])
    {
      var section := SectionFor(fileId, stem, filename, embed, i, chunks[i]);
      ghost var before := sections;
      sections := sections + [section];
      assert sections[..i] == before;
    }
    NumberedIdsDistinct(sections, fileId);
  }

  /** The sections of one file: one record per chunk of `split_text(page_map)`, in order, with
      the file's id. */
  method BuildSections(pageMap: seq<PageEntry>, cfg: Config, filename: string, stem: string, embed: string -> Embedding)
    returns (sections: seq<Section>)
    requires Valid(cfg)
    ensures var chunks := Split(pageMap, cfg);
      && |sections| == |chunks|
      && forall i | 0 <= i < |chunks| :: sections[i] == SectionFor(FileIds.FileId(filename), stem, filename, embed, i, chunks[i])
    ensures forall i, j | 0 <= i < j < |sections| :: sections[i].id != sections[j].id
  {
    var chunks := SplitText(pageMap, cfg);
    sections := NumberSections(chunks, FileIds.FileId(filename), stem, filename, embed);
  }
}
