/** `filename_to_id` of 2_setup_embedding.py: the file name with every character outside
    `[0-9a-zA-Z_-]` replaced by `_`, followed by the uppercase Base16 encoding (section 8 of
    RFC 4648) of the name's UTF-8 bytes: `file-<sanitised>-<hex>`. */
module FileIds {
  import opened Wrappers

  newtype byte = x: int | 0 <= x < 0x100

  // ---------------------------------------------------------------------------------------
  // re.sub("[^0-9a-zA-Z_-]", "_", filename)

  /** The characters the pattern `[^0-9a-zA-Z_-]` leaves alone. */
  predicate IsIdChar(c: char)
  {
    ('0' <= c <= '9') || ('a' <= c <= 'z') || ('A' <= c <= 'Z') || c == '_' || c == '-'
  }

  /** Every character that is not an id character becomes `_`. */
  function Sanitize(name: string): (r: string)
    ensures |r| == |name|
    ensures forall i | 0 <= i < |name| :: IsIdChar(name[i]) ==> r[i] == name[i]
    ensures forall i | 0 <= i < |name| :: !IsIdChar(name[i]) ==> r[i] == '_'
    ensures forall i | 0 <= i < |r| :: IsIdChar(r[i])
  {
    if name == [] then "" else [if IsIdChar(name[0]) then name[0] else '_'] + Sanitize(name[1..])
  }

  /** Sanitising twice changes nothing more. */
  lemma SanitizeIdempotent(name: string)
    ensures Sanitize(Sanitize(name)) == Sanitize(name)
  {
    var once := Sanitize(name);
    assert forall i | 0 <= i < |once| :: Sanitize(once)[i] == once[i];
  }

  /** A name made of id characters only is its own sanitisation. */
  lemma SanitizeKeepsIdNames(name: string)
    requires forall i | 0 <= i < |name| :: IsIdChar(name[i])
    ensures Sanitize(name) == name
  {
  }

  // ---------------------------------------------------------------------------------------
  // filename.encode('utf-8')

  /** A Unicode scalar value: a code point that is not a surrogate. */
  predicate IsScalar(n: int)
  {
    (0 <= n < 0xD800) || (0xE000 <= n < 0x11_0000)
  }

  /** The UTF-8 bytes of one character (section 3 of RFC 3629). */
  function EncodeChar(c: char): (r: seq<byte>)
    ensures 1 <= |r| <= 4
    ensures c as int < 0x80 <==> |r| == 1
    ensures |r| == 1 ==> r[0] as int == c as int
  {
    var n := c as int;
    var q1 := n / 64;
    var q2 := q1 / 64;
    var q3 := q2 / 64;
    if n < 0x80 then
      [n as byte]
    else if n < 0x800 then
      [(0xC0 + q1) as byte, (0x80 + n % 64) as byte]
    else if n < 0x1_0000 then
      [(0xE0 + q2) as byte, (0x80 + q1 % 64) as byte, (0x80 + n % 64) as byte]
    else
      [(0xF0 + q3) as byte, (0x80 + q2 % 64) as byte, (0x80 + q1 % 64) as byte, (0x80 + n % 64) as byte]
  }

  /** `str.encode('utf-8')`: the characters' encodings in order. */
  function Utf8Encode(s: string): (r: seq<byte>)
    ensures |s| <= |r| <= 4 * |s|
  {
    if s == [] then [] else EncodeChar(s[0]) + Utf8Encode(s[1..])
  }

  /** ASCII text encodes to one byte per character, each equal to the character's code. */
  lemma {:induction false} Utf8EncodeAscii(s: string)
    requires forall i | 0 <= i < |s| :: s[i] as int < 0x80
    ensures |Utf8Encode(s)| == |s|
    ensures forall i | 0 <= i < |s| :: Utf8Encode(s)[i] as int == s[i] as int
  {
    if s != [] {
      Utf8EncodeAscii(s[1..]);
    }
  }

  /** The number of bytes a sequence starting with lead byte b takes, or 0 when b cannot begin
      one. */
  function SequenceLength(b: byte): nat
  {
    if b < 0x80 then 1
    else if 0xC0 <= b < 0xE0 then 2
    else if 0xE0 <= b < 0xF0 then 3
    else if 0xF0 <= b < 0xF8 then 4
    else 0
  }

  predicate IsContinuation(b: byte)
  {
    0x80 <= b < 0xC0
  }

  /** The code point carried by a lead byte and its continuation bytes. */
  function CodePoint(bs: seq<byte>): int
    requires 1 <= |bs| <= 4
  {
    var six := (k: nat) requires k < |bs| => bs[k] as int - 0x80;
    if |bs| == 1 then bs[0] as int
    else if |bs| == 2 then (bs[0] as int - 0xC0) * 64 + six(1)
    else if |bs| == 3 then ((bs[0] as int - 0xE0) * 64 + six(1)) * 64 + six(2)
    else (((bs[0] as int - 0xF0) * 64 + six(1)) * 64 + six(2)) * 64 + six(3)
  }

  /** The decoder of UTF-8 byte sequences, used to show that the encoding loses nothing. */
  function Utf8Decode(bytes: seq<byte>): Option<string>
    decreases |bytes|
  {
    if bytes == [] then Some("")
    else
      var n := SequenceLength(bytes[0]);
      if n == 0 || |bytes| < n || !(forall k | 1 <= k < n :: IsContinuation(bytes[k])) then None
      else
        var v := CodePoint(bytes[..n]);
        if !IsScalar(v) then None
        else match Utf8Decode(bytes[n..])
          case None => None
          case Some(rest) => Some([v as char] + rest)
  }

  /** The encoding of one character decodes back to it, whatever follows. */
  lemma DecodeChar(c: char, rest: seq<byte>)
    ensures var enc := EncodeChar(c);
      SequenceLength(enc[0]) == |enc| &&
      (forall k | 1 <= k < |enc| :: IsContinuation(enc[k])) &&
      CodePoint(enc) == c as int && IsScalar(c as int) &&
      (enc + rest)[..|enc|] == enc && (enc + rest)[|enc|..] == rest
  {
  }

  /** Decoding inverts encoding, so the UTF-8 encoding is injective. */
  lemma {:induction false} Utf8RoundTrip(s: string)
    ensures Utf8Decode(Utf8Encode(s)) == Some(s)
  {
    if s != [] {
      var enc := EncodeChar(s[0]);
      var rest := Utf8Encode(s[1..]);
      DecodeChar(s[0], rest);
      Utf8RoundTrip(s[1..]);
      assert [s[0]] + s[1..] == s;
    }
  }

  // ---------------------------------------------------------------------------------------
  // base64.b16encode(...).decode('ascii')

  /** The Base16 alphabet of section 8 of RFC 4648: digits, then upper-case A to F. */
  const HexAlphabet: string := "0123456789ABCDEF"

  predicate IsHexDigit(c: char)
  {
    ('0' <= c <= '9') || ('A' <= c <= 'F')
  }

  function HexDigit(v: nat): (c: char)
    requires v < 16
    ensures IsHexDigit(c) && c == HexAlphabet[v]
  {
    if v < 10 then ('0' as int + v) as char else ('A' as int + v - 10) as char
  }

  function HexValue(c: char): (v: nat)
    requires IsHexDigit(c)
    ensures v < 16 && HexDigit(v) == c
  {
    if c <= '9' then c as int - '0' as int else c as int - 'A' as int + 10
  }

  /** Each digit value is read back from its digit. */
  lemma HexValueOfDigit(v: nat)
    requires v < 16
    ensures HexValue(HexDigit(v)) == v
  {
  }

  /** Each byte becomes its high and then its low four bits as two alphabet characters. */
  function Base16Encode(bytes: seq<byte>): (s: string)
    ensures |s| == 2 * |bytes|
  {
    if bytes == [] then ""
    else [HexDigit(bytes[0] as int / 16), HexDigit(bytes[0] as int % 16)] + Base16Encode(bytes[1..])
  }

  /** Character 2i of the encoding is the high digit of byte i, character 2i + 1 its low digit;
      so the encoding holds alphabet characters only. */
  lemma {:induction false} Base16EncodeDigits(bytes: seq<byte>)
    ensures var s := Base16Encode(bytes);
      && (forall i | 0 <= i < |bytes| ::
            s[2 * i] == HexDigit(bytes[i] as int / 16) && s[2 * i + 1] == HexDigit(bytes[i] as int % 16))
      && (forall i | 0 <= i < |s| :: IsHexDigit(s[i]))
  {
    if bytes != [] {
      Base16EncodeDigits(bytes[1..]);
      var s := Base16Encode(bytes);
      var rest := Base16Encode(bytes[1..]);
      assert s == [s[0], s[1]] + rest;
      forall i | 1 <= i < |bytes|
        ensures s[2 * i] == HexDigit(bytes[i] as int / 16) && s[2 * i + 1] == HexDigit(bytes[i] as int % 16)
      {
        assert s[2 * i] == rest[2 * (i - 1)] && s[2 * i + 1] == rest[2 * (i - 1) + 1];
        assert bytes[1..][i - 1] == bytes[i];
      }
      forall i | 2 <= i < |s|
        ensures IsHexDigit(s[i])
      {
        assert s[i] == rest[i - 2];
      }
    }
  }

  /** `base64.b16decode`: None on an odd length or a character outside the alphabet (lower
      case included). */
  function Base16Decode(s: string): Option<seq<byte>>
  {
    if s == [] then Some([])
    else if |s| == 1 || !IsHexDigit(s[0]) || !IsHexDigit(s[1]) then None
    else match Base16Decode(s[2..])
      case None => None
      case Some(rest) => Some([(HexValue(s[0]) * 16 + HexValue(s[1])) as byte] + rest)
  }

  /** A byte is its high digit times 16 plus its low digit. */
  lemma SplitByte(b: byte)
    ensures b as int / 16 < 16 && ((b as int / 16) * 16 + b as int % 16) as byte == b
  {
  }

  /** Two digit values joined into a byte are its high and low digits. */
  lemma JoinDigits(hi: nat, lo: nat)
    requires hi < 16 && lo < 16
    ensures hi * 16 + lo < 256
    ensures ((hi * 16 + lo) as byte) as int / 16 == hi && ((hi * 16 + lo) as byte) as int % 16 == lo
  {
  }

  /** A string that decodes starts with two digits, and its rest decodes to all but the first
      byte. */
  lemma Base16DecodeStep(s: string)
    requires Base16Decode(s).Some? && s != []
    ensures |s| >= 2 && IsHexDigit(s[0]) && IsHexDigit(s[1]) && Base16Decode(s[2..]).Some?
    ensures Base16Decode(s).value == [(HexValue(s[0]) * 16 + HexValue(s[1])) as byte] + Base16Decode(s[2..]).value
  {
  }

  /** Two digits followed by a string that decodes. */
  lemma Base16DecodeCons(s: string)
    requires |s| >= 2 && IsHexDigit(s[0]) && IsHexDigit(s[1]) && Base16Decode(s[2..]).Some?
    ensures Base16Decode(s) == Some([(HexValue(s[0]) * 16 + HexValue(s[1])) as byte] + Base16Decode(s[2..]).value)
  {
  }

  /** Decoding inverts encoding. */
  lemma {:induction false} Base16RoundTrip(bytes: seq<byte>)
    ensures Base16Decode(Base16Encode(bytes)) == Some(bytes)
  {
    if bytes != [] {
      var b := bytes[0];
      var hi, lo := b as int / 16, b as int % 16;
      var s := Base16Encode(bytes);
      SplitByte(b);
      assert s == [HexDigit(hi), HexDigit(lo)] + Base16Encode(bytes[1..]);
      assert s[0] == HexDigit(hi) && s[1] == HexDigit(lo) && s[2..] == Base16Encode(bytes[1..]);
      HexValueOfDigit(hi);
      HexValueOfDigit(lo);
      Base16RoundTrip(bytes[1..]);
      Base16DecodeCons(s);
      assert [b] + bytes[1..] == bytes;
    }
  }

  /** Encoding inverts decoding: a string that decodes is the encoding of what it decodes to. */
  lemma {:induction false} Base16DecodeInverse(s: string)
    requires Base16Decode(s).Some?
    ensures Base16Encode(Base16Decode(s).value) == s
    decreases |s|
  {
    if s != [] {
      Base16DecodeStep(s);
      var tail := s[2..];
      var hi, lo := HexValue(s[0]), HexValue(s[1]);
      var rest := Base16Decode(tail).value;
      Base16DecodeInverse(tail);
      JoinDigits(hi, lo);
      var bytes := [(hi * 16 + lo) as byte] + rest;
      assert bytes[1..] == rest;
      assert Base16Encode(bytes) == [HexDigit(hi), HexDigit(lo)] + tail;
      assert [s[0], s[1]] + tail == s;
    }
  }

  // ---------------------------------------------------------------------------------------
  // filename_to_id

  const FilePrefix: string := "file-"

  /** `f"file-{filename_ascii}-{filename_hash}"` */
  function FileId(filename: string): string
  {
    FilePrefix + Sanitize(filename) + "-" + Base16Encode(Utf8Encode(filename))
  }

  /** The id is `file-`, then the sanitised name (as long as the name, id characters only, the
      name's id characters in place), then `-`, then the upper-case hex of the name's UTF-8 bytes,
      two characters per byte. */
  lemma FileIdShape(filename: string)
    ensures var id := FileId(filename);
      var hex := Base16Encode(Utf8Encode(filename));
      |id| == |FilePrefix| + |filename| + 1 + 2 * |Utf8Encode(filename)| &&
      id[..|FilePrefix|] == FilePrefix &&
      id[|FilePrefix| + |filename|] == '-' &&
      (forall i | 0 <= i < |filename| ::
         IsIdChar(id[|FilePrefix| + i]) && (IsIdChar(filename[i]) ==> id[|FilePrefix| + i] == filename[i])) &&
      id[|FilePrefix| + |filename| + 1..] == hex &&
      (forall i | 0 <= i < |hex| :: IsHexDigit(hex[i]))
  {
    FileIdParts(FileId(filename), FilePrefix, Sanitize(filename), Base16Encode(Utf8Encode(filename)));
    Base16EncodeDigits(Utf8Encode(filename));
    FileIdNameChars(filename);
  }

  /** The positions of the sanitised name within the id: id characters, and the name's own
      where it has an id character. */
  lemma FileIdNameChars(filename: string)
    ensures var id := FileId(filename);
      |id| >= |FilePrefix| + |filename| &&
      forall i | 0 <= i < |filename| ::
        IsIdChar(id[|FilePrefix| + i]) && (IsIdChar(filename[i]) ==> id[|FilePrefix| + i] == filename[i])
  {
    var id := FileId(filename);
    var sanitized := Sanitize(filename);
    FileIdParts(id, FilePrefix, sanitized, Base16Encode(Utf8Encode(filename)));
    forall i | 0 <= i < |filename|
      ensures IsIdChar(id[|FilePrefix| + i]) && (IsIdChar(filename[i]) ==> id[|FilePrefix| + i] == filename[i])
    {
      assert id[|FilePrefix| + i] == id[|FilePrefix|..|FilePrefix| + |sanitized|][i] == sanitized[i];
    }
  }

  /** The three parts of a joined id, read back by position. */
  lemma FileIdParts(id: string, prefix: string, sanitized: string, hex: string)
    requires id == prefix + sanitized + "-" + hex
    ensures |id| == |prefix| + |sanitized| + 1 + |hex|
    ensures id[..|prefix|] == prefix
    ensures id[|prefix|..|prefix| + |sanitized|] == sanitized
    ensures id[|prefix| + |sanitized|] == '-'
    ensures id[|prefix| + |sanitized| + 1..] == hex
  {
  }

  /** `str.rfind` of a single character: the index of its last occurrence, or -1. */
  function LastIndexOf(s: string, c: char): (r: int)
    ensures -1 <= r < |s|
    ensures r >= 0 ==> s[r] == c
    ensures forall j | r < j < |s| :: s[j] != c
    decreases |s|
  {
    if s == [] then -1 else if s[|s| - 1] == c then |s| - 1 else LastIndexOf(s[..|s| - 1], c)
  }

  /** The part of s after its last `-` (all of s when it has none). */
  function AfterLastDash(s: string): string
  {
    s[LastIndexOf(s, '-') + 1..]
  }

  /** What follows the last `-` of `prefix + "-" + tail` is tail, when tail has no `-`. */
  lemma AfterLastDashOfJoin(prefix: string, tail: string)
    requires forall i | 0 <= i < |tail| :: tail[i] != '-'
    ensures AfterLastDash(prefix + "-" + tail) == tail
  {
    var s := prefix + "-" + tail;
    var dash := |prefix|;
    assert s[dash] == '-';
    forall j | dash < j < |s|
      ensures s[j] != '-'
    {
      assert s[j] == tail[j - dash - 1];
    }
    assert LastIndexOf(s, '-') == dash;
    assert s[dash + 1..] == tail;
  }

  /** Since the hex part never contains `-`, decoding what follows the id's last `-` recovers
      the UTF-8 bytes of the file name. */
  lemma FileIdRecoversBytes(filename: string)
    ensures Base16Decode(AfterLastDash(FileId(filename))) == Some(Utf8Encode(filename))
  {
    var hex := Base16Encode(Utf8Encode(filename));
    Base16EncodeDigits(Utf8Encode(filename));
    assert forall i | 0 <= i < |hex| :: hex[i] != '-' by {
      forall i | 0 <= i < |hex| ensures hex[i] != '-' {
        assert IsHexDigit(hex[i]);
      }
    }
    AfterLastDashOfJoin(FilePrefix + Sanitize(filename), hex);
    Base16RoundTrip(Utf8Encode(filename));
  }

  /** Different file names get different ids. */
  lemma FileIdInjective(a: string, b: string)
    requires FileId(a) == FileId(b)
    ensures a == b
  {
    FileIdRecoversBytes(a);
    FileIdRecoversBytes(b);
    Utf8RoundTrip(a);
    Utf8RoundTrip(b);
  }

  lemma ExampleSanitized(name: string)
    requires name == "My File.pdf"
    ensures Sanitize(name) == "My_File_pdf"
  {
  }

  lemma ExampleBytes(name: string)
    requires name == "My File.pdf"
    ensures Utf8Encode(name) == [0x4D, 0x79, 0x20, 0x46, 0x69, 0x6C, 0x65, 0x2E, 0x70, 0x64, 0x66]
  {
    var bytes: seq<byte> := [0x4D, 0x79, 0x20, 0x46, 0x69, 0x6C, 0x65, 0x2E, 0x70, 0x64, 0x66];
    Utf8EncodeAscii(name);
    forall i | 0 <= i < |bytes|
      ensures Utf8Encode(name)[i] == bytes[i]
    {
      assert Utf8Encode(name)[i] as int == name[i] as int;
    }
  }

  /** The encoding of a concatenation is the concatenation of the encodings. */
  lemma {:induction false} Base16EncodeAppend(a: seq<byte>, b: seq<byte>)
    ensures Base16Encode(a + b) == Base16Encode(a) + Base16Encode(b)
  {
    if a != [] {
      var pair := [HexDigit(a[0] as int / 16), HexDigit(a[0] as int % 16)];
      assert (a + b)[0] == a[0];
      assert (a + b)[1..] == a[1..] + b;
      assert Base16Encode(a + b) == pair + Base16Encode(a[1..] + b);
      Base16EncodeAppend(a[1..], b);
      assert Base16Encode(a) == pair + Base16Encode(a[1..]);
    } else {
      assert a + b == b;
    }
  }

  lemma ExampleHexHead()
    ensures Base16Encode([0x4D, 0x79, 0x20, 0x46]) == "4D792046"
  {
    var bytes: seq<byte> := [0x4D, 0x79, 0x20, 0x46];
    assert bytes[3..][1..] == bytes[4..];
    assert Base16Encode(bytes[3..]) == "46";
    assert bytes[2..][1..] == bytes[3..];
    assert Base16Encode(bytes[2..]) == "2046";
    assert bytes[1..][1..] == bytes[2..];
    assert Base16Encode(bytes[1..]) == "792046";
    assert bytes[0..][1..] == bytes[1..];
    assert Base16Encode(bytes[0..]) == "4D792046";
    assert bytes[0..] == bytes;
  }

  lemma ExampleHexMiddle()
    ensures Base16Encode([0x69, 0x6C, 0x65, 0x2E]) == "696C652E"
  {
    var bytes: seq<byte> := [0x69, 0x6C, 0x65, 0x2E];
    assert bytes[3..][1..] == bytes[4..];
    assert Base16Encode(bytes[3..]) == "2E";
    assert bytes[2..][1..] == bytes[3..];
    assert Base16Encode(bytes[2..]) == "652E";
    assert bytes[1..][1..] == bytes[2..];
    assert Base16Encode(bytes[1..]) == "6C652E";
    assert bytes[0..][1..] == bytes[1..];
    assert Base16Encode(bytes[0..]) == "696C652E";
    assert bytes[0..] == bytes;
  }

  lemma ExampleHexTail()
    ensures Base16Encode([0x70, 0x64, 0x66]) == "706466"
  {
    var bytes: seq<byte> := [0x70, 0x64, 0x66];
    assert bytes[2..][1..] == bytes[3..];
    assert Base16Encode(bytes[2..]) == "66";
    assert bytes[1..][1..] == bytes[2..];
    assert Base16Encode(bytes[1..]) == "6466";
    assert bytes[0..][1..] == bytes[1..];
    assert Base16Encode(bytes[0..]) == "706466";
    assert bytes[0..] == bytes;
  }

  lemma ExampleHex(head: seq<byte>, middle: seq<byte>, tail: seq<byte>)
    requires head == [0x4D, 0x79, 0x20, 0x46] && middle == [0x69, 0x6C, 0x65, 0x2E] && tail == [0x70, 0x64, 0x66]
    ensures Base16Encode(head + middle + tail) == "4D792046" + "696C652E" + "706466"
  {
    ExampleHexHead();
    ExampleHexMiddle();
    ExampleHexTail();
    Base16EncodeAppend(head, middle);
    Base16EncodeAppend(head + middle, tail);
  }

  /** The id of the example name, assembled from its three parts. */
  lemma ExampleParts(id: string, sanitized: string, hex: string)
    requires sanitized == "My_File_pdf" && hex == "4D792046" + "696C652E" + "706466"
    requires id == FilePrefix + sanitized + "-" + hex
    ensures id == "file-My_File_pdf-4D792046696C652E706466"
  {
  }

  /** A worked example: the id of a name with a space and a dot, character for character. */
  lemma FileIdOfExample(name: string)
    requires name == "My File.pdf"
    ensures FileId(name) == "file-My_File_pdf-4D792046696C652E706466"
  {
    ExampleSanitized(name);
    ExampleBytes(name);
    var bytes := Utf8Encode(name);
    ExampleHex(bytes[..4], bytes[4..8], bytes[8..]);
    assert bytes[..4] + bytes[4..8] + bytes[8..] == bytes;
    ExampleParts(FileId(name), Sanitize(name), Base16Encode(bytes));
  }
}
