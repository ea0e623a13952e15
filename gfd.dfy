/**
 * GFD font tables: version identification, the two record layouts (version 1
 * and version 2, densely packed, little-endian), the packed accessors of a
 * glyph entry, and the read sequence that turns a file into a font table.
 */
module Gfd {
  import opened Wrappers
  import opened Bytes
  import opened Packed
  import opened Bits
  import opened BinaryReader

  /** File contents by path; a path that is not a key does not exist. */
  type FileSystem = map<string, seq<byte>>

  type Quad = s: seq<byte> | |s| == 4 witness [0, 0, 0, 0]

  /** A single-precision float kept as its raw 32-bit pattern. */
  type Float32 = u32

  // ---------------------------------------------------------------- Identify

  /** `Support.Ident`. */
  datatype Ident = NotFound | NotSupported | Version1 | Version2

  const VERSION1: u32 := 0x0001_0c06
  const VERSION2: u32 := 0x0001_0f06

  /** The numeric values of the enumeration members. */
  function IdentValue(i: Ident): int
  {
    match i
    case NotFound => 0
    case NotSupported => 1
    case Version1 => 0x0001_0c06
    case Version2 => 0x0001_0f06
  }

  /** The outcome for a version word: a supported one is cast to the enumeration. */
  function Classify(version: u32): (r: Ident)
    ensures r != NotFound
    ensures r == Version1 <==> version == VERSION1
    ensures r == Version2 <==> version == VERSION2
    ensures r != NotSupported ==> IdentValue(r) == version
  {
    if version == VERSION1 then Version1
    else if version == VERSION2 then Version2
    else NotSupported
  }

  /** What `Identify` yields: only the word at bytes 4 to 8 is looked at. */
  function IdentifyResult(fs: FileSystem, path: string): (r: Result<Ident, ReadError>)
    ensures r == Ok(NotFound) <==> path !in fs
    ensures path in fs ==> (r.Ok? <==> |fs[path]| >= 8)
  {
    if path !in fs then Ok(NotFound)
    else if |fs[path]| < 8 then Err(EndOfData)
    else Ok(Classify(U32Of(fs[path][4..8])))
  }

  /** Classifies a GFD file: missing, unsupported, version 1 or version 2. */
  method Identify(fs: FileSystem, path: string) returns (r: Result<Ident, ReadError>)
    ensures r == IdentifyResult(fs, path)
  {
    if path !in fs {
      return Ok(NotFound);
    }
    var br := new Reader(fs[path]);
    br.Seek(4);
    var version :- br.ReadUInt32();
    r := Ok(Classify(version));
  }

  /** Two files that agree on bytes 4 to 8 (the magic may differ) identify alike. */
  lemma {:induction false} IdentifyReadsOnlyVersion(fs: FileSystem, path: string, other: seq<byte>)
    requires path in fs && |fs[path]| >= 8 && |other| >= 8
    requires other[4..8] == fs[path][4..8]
    ensures IdentifyResult(fs[path := other], path) == IdentifyResult(fs, path)
  {
  }

  // ----------------------------------------------------------------- Layouts

  datatype Version = V1 | V2

  /** Headerv1 and Headerv2: the magic, then 32-bit words. */
  datatype Header =
    | Header1(magic: Quad, version: u32, unk0: i32, unk1: i32, unk2: i32,
              fontSize: i32, fontTexCount: i32, charCount: i32, fCount: i32,
              baseLine: Float32, descentLine: Float32)
    | Header2(magic: Quad, version: u32, unk0: i32, unk1: i32, unk2: i32,
              fontSize: i32, fontTexCount: i32, charCount: i32, unk3: i32, fCount: i32,
              maxCharacterWidth: Float32, maxCharacterHeight: Float32,
              baseLine: Float32, descentLine: Float32)

  /** Entryv1 and Entryv2, with the packed 3-byte fields kept raw as in the file. */
  datatype Entry =
    | Entry1(character: u32, texId: byte, glyphPos: Triple, unk1: byte, glyphSize: Triple,
             charWidth: byte, xCorrection: byte, yCorrection: byte, padding: byte)
    | Entry2(character: u32, texId: byte, glyphPos: Triple, glyphSize: Triple, unk0: byte,
             charSize: Triple, unk1: byte, xCorrection: byte, yCorrection: byte, endMark: i16)
  {
    /** The low 12 bits of GlyphPos. */
    function GlyphPosX(): (r: nat)
      ensures r < 0x1000
    {
      LeValue(glyphPos) % 0x1000
    }

    /** The high 12 bits of GlyphPos. */
    function GlyphPosY(): (r: nat)
      ensures r < 0x1000
    {
      LeValue(glyphPos) / 0x1000
    }

    /** The low 12 bits of GlyphSize. */
    function GlyphWidth(): (r: nat)
      ensures r < 0x1000
    {
      LeValue(glyphSize) % 0x1000
    }

    /** The high 12 bits of GlyphSize. */
    function GlyphHeight(): (r: nat)
      ensures r < 0x1000
    {
      LeValue(glyphSize) / 0x1000
    }

    /** Version 1: the raw byte; version 2: the low 12 bits of CharSize. */
    function CharWidth(): (r: nat)
      ensures r < 0x1000
      ensures Entry1? ==> r < 0x100
    {
      if Entry1? then charWidth else LeValue(charSize) % 0x1000
    }

    /** Version 2 only: the high 12 bits of CharSize. */
    function CharHeight(): (r: nat)
      requires Entry2?
      ensures r < 0x1000
    {
      LeValue(charSize) / 0x1000
    }
  }

  /**
   * The accessors are the bit operations on the packed fields: the stored
   * bytes reversed and folded with `(output << 8) | b`, then `& 0xFFF` for
   * the low component and `>> 12` for the high one.
   */
  lemma {:induction false} AccessorsAreBitFields(e: Entry)
    ensures e.GlyphPosX() == And(Field(e.glyphPos), 0xFFF) && e.GlyphPosY() == Shr(Field(e.glyphPos), 12)
    ensures e.GlyphWidth() == And(Field(e.glyphSize), 0xFFF) && e.GlyphHeight() == Shr(Field(e.glyphSize), 12)
    ensures e.Entry2? ==> e.CharWidth() == And(Field(e.charSize), 0xFFF) && e.CharHeight() == Shr(Field(e.charSize), 12)
  {
    var pos, size := Split(e.glyphPos), Split(e.glyphSize);
    if e.Entry2? {
      var chars := Split(e.charSize);
    }
  }

  /** The file's content: header, trailing floats, name, glyph entries. */
  datatype FontTable = FontTable(header: Header, headerF: seq<Float32>, name: seq<byte>, characters: seq<Entry>)

  function HeaderWordCount(v: Version): nat
  {
    match v
    case V1 => 10
    case V2 => 13
  }

  /** Header bytes: 44 for version 1, 56 for version 2. */
  function HeaderSize(v: Version): nat
  {
    4 + 4 * HeaderWordCount(v)
  }

  /** Entry bytes: 16 for version 1, 20 for version 2. */
  function EntrySize(v: Version): nat
  {
    match v
    case V1 => 16
    case V2 => 20
  }

  function HeaderVersion(h: Header): Version
  {
    if h.Header1? then V1 else V2
  }

  function EntryVersion(e: Entry): Version
  {
    if e.Entry1? then V1 else V2
  }

  function HeaderWords(h: Header): (w: seq<u32>)
    ensures |w| == HeaderWordCount(HeaderVersion(h))
  {
    match h
    case Header1(_, version, unk0, unk1, unk2, fontSize, fontTexCount, charCount, fCount, baseLine, descentLine) =>
      [version, AsU32(unk0), AsU32(unk1), AsU32(unk2), AsU32(fontSize), AsU32(fontTexCount),
       AsU32(charCount), AsU32(fCount), baseLine, descentLine]
    case Header2(_, version, unk0, unk1, unk2, fontSize, fontTexCount, charCount, unk3, fCount,
                 maxW, maxH, baseLine, descentLine) =>
      [version, AsU32(unk0), AsU32(unk1), AsU32(unk2), AsU32(fontSize), AsU32(fontTexCount),
       AsU32(charCount), AsU32(unk3), AsU32(fCount), maxW, maxH, baseLine, descentLine]
  }

  /** Header word k: the little-endian word after the magic and k earlier words. */
  function HeaderWord(raw: seq<byte>, k: nat): u32
    requires 8 + 4 * k <= |raw|
  {
    U32At(raw, 4 + 4 * k)
  }

  /** The header at the start of `raw`: the magic, then one field per word. */
  function DecodeHeader(v: Version, raw: seq<byte>): (h: Header)
    requires HeaderSize(v) <= |raw|
    ensures HeaderVersion(h) == v
  {
    var magic: Quad := [raw[0], raw[1], raw[2], raw[3]];
    match v
    case V1 =>
      Header1(magic, HeaderWord(raw, 0), AsI32(HeaderWord(raw, 1)), AsI32(HeaderWord(raw, 2)),
              AsI32(HeaderWord(raw, 3)), AsI32(HeaderWord(raw, 4)), AsI32(HeaderWord(raw, 5)),
              AsI32(HeaderWord(raw, 6)), AsI32(HeaderWord(raw, 7)), HeaderWord(raw, 8), HeaderWord(raw, 9))
    case V2 =>
      Header2(magic, HeaderWord(raw, 0), AsI32(HeaderWord(raw, 1)), AsI32(HeaderWord(raw, 2)),
              AsI32(HeaderWord(raw, 3)), AsI32(HeaderWord(raw, 4)), AsI32(HeaderWord(raw, 5)),
              AsI32(HeaderWord(raw, 6)), AsI32(HeaderWord(raw, 7)), AsI32(HeaderWord(raw, 8)),
              HeaderWord(raw, 9), HeaderWord(raw, 10), HeaderWord(raw, 11), HeaderWord(raw, 12))
  }

  /** Only the header's own bytes decide the header. */
  lemma {:induction false} DecodeHeaderPrefix(v: Version, a: seq<byte>, b: seq<byte>)
    requires HeaderSize(v) <= |a| && HeaderSize(v) <= |b|
    requires forall j :: 0 <= j < HeaderSize(v) ==> a[j] == b[j]
    ensures DecodeHeader(v, a) == DecodeHeader(v, b)
  {
  }

  /** Word k of an encoding made of the magic and words `ws` is `ws[k]`. */
  lemma {:induction false} HeaderWordOf(data: seq<byte>, magic: Quad, ws: seq<u32>, post: seq<byte>, k: nat)
    requires data == magic + EncodeWords(ws) + post && k < |ws|
    ensures 8 + 4 * k <= |data| && HeaderWord(data, k) == ws[k]
  {
    WordsRoundTrip(magic, ws, post);
    WordsAtIndex(data, 4, |ws|, k);
  }

  function EncodeHeader(h: Header): (s: seq<byte>)
  {
    h.magic + EncodeWords(HeaderWords(h))
  }

  function DecodeEntry(v: Version, raw: seq<byte>): (e: Entry)
    requires |raw| == EntrySize(v)
    ensures EntryVersion(e) == v
  {
    match v
    case V1 =>
      Entry1(U32Of(raw[0..4]), raw[4], raw[5..8], raw[8], raw[9..12], raw[12], raw[13], raw[14], raw[15])
    case V2 =>
      Entry2(U32Of(raw[0..4]), raw[4], raw[5..8], raw[8..11], raw[11], raw[12..15], raw[15],
             raw[16], raw[17], I16Of(raw[18..20]))
  }

  /** The entry record at offset `p`, read field by field. */
  function DecodeEntryAt(v: Version, s: seq<byte>, p: nat): (e: Entry)
    requires p + EntrySize(v) <= |s|
    ensures EntryVersion(e) == v
  {
    match v
    case V1 =>
      Entry1(U32At(s, p), s[p + 4], [s[p + 5], s[p + 6], s[p + 7]], s[p + 8],
             [s[p + 9], s[p + 10], s[p + 11]], s[p + 12], s[p + 13], s[p + 14], s[p + 15])
    case V2 =>
      Entry2(U32At(s, p), s[p + 4], [s[p + 5], s[p + 6], s[p + 7]], [s[p + 8], s[p + 9], s[p + 10]],
             s[p + 11], [s[p + 12], s[p + 13], s[p + 14]], s[p + 15], s[p + 16], s[p + 17],
             I16Of([s[p + 18], s[p + 19]]))
  }

  /** Reading the record in place is decoding its bytes. */
  lemma {:induction false} DecodeEntryAtSlice(v: Version, s: seq<byte>, p: nat)
    requires p + EntrySize(v) <= |s|
    ensures DecodeEntryAt(v, s, p) == DecodeEntry(v, s[p .. p + EntrySize(v)])
  {
    var raw := s[p .. p + EntrySize(v)];
    U32AtSlice(s, p);
    assert raw[0..4] == s[p .. p + 4];
    Slice3(raw, 5);
    if v == V1 {
      Slice3(raw, 9);
    } else {
      Slice3(raw, 8);
      Slice3(raw, 12);
      Slice2(raw, 18);
    }
  }

  function EncodeEntry(e: Entry): (s: seq<byte>)
    ensures |s| == EntrySize(EntryVersion(e))
  {
    match e
    case Entry1(c, texId, pos, unk1, size, cw, xc, yc, pad) =>
      U32Bytes(c) + [texId] + pos + [unk1] + size + [cw, xc, yc, pad]
    case Entry2(c, texId, pos, size, unk0, charSize, unk1, xc, yc, endMark) =>
      U32Bytes(c) + [texId] + pos + size + [unk0] + charSize + [unk1, xc, yc] + I16Bytes(endMark)
  }

  function DecodeEntries(v: Version, blocks: seq<seq<byte>>): (es: seq<Entry>)
    requires Uniform(blocks, EntrySize(v))
    ensures |es| == |blocks|
  {
    seq(|blocks|, i requires 0 <= i < |blocks| => DecodeEntry(v, blocks[i]))
  }

  // ----------------------------------------------------------- Read sequence

  /** Offset of the name-size word: after the header and the FCount floats. */
  function NameSizeAt(v: Version, h: Header): nat
    requires h.fCount >= 0
  {
    HeaderSize(v) + Span(h.fCount, 4)
  }

  /**
   * The table a file holds: the header, exactly FCount floats, a 4-byte name
   * size that is read and ignored, the name up to its NUL, and exactly
   * CharCount entries. Negative counts and every read past the end fail.
   */
  function Parse(v: Version, data: seq<byte>): (r: Result<FontTable, ReadError>)
    ensures r.Ok? ==> HeaderVersion(r.value.header) == v
    ensures r.Ok? ==> |r.value.headerF| == r.value.header.fCount
    ensures r.Ok? ==> |r.value.characters| == r.value.header.charCount
    ensures r.Ok? ==> forall i :: 0 <= i < |r.value.characters| ==> EntryVersion(r.value.characters[i]) == v
    ensures r.Ok? ==> forall i :: 0 <= i < |r.value.name| ==> r.value.name[i] != 0
    ensures |data| < HeaderSize(v) ==> r == Err(EndOfData)
  {
    var hs := HeaderSize(v);
    if |data| < hs then Err(EndOfData)
    else ParseBody(v, data, DecodeHeader(v, data))
  }

  /** Everything after the header: the floats, the name size and the name. */
  function ParseBody(v: Version, data: seq<byte>, header: Header): (r: Result<FontTable, ReadError>)
    requires HeaderVersion(header) == v && HeaderSize(v) <= |data|
    ensures r.Ok? ==> |r.value.headerF| == header.fCount && r.value.header == header
    ensures r.Ok? ==> |r.value.characters| == header.charCount
    ensures r.Ok? ==> forall i :: 0 <= i < |r.value.characters| ==> EntryVersion(r.value.characters[i]) == v
    ensures r.Ok? ==> forall i :: 0 <= i < |r.value.name| ==> r.value.name[i] != 0
  {
    var hs := HeaderSize(v);
    if header.fCount < 0 then Err(NegativeCount)
    else if hs + Span(header.fCount, 4) > |data| then Err(EndOfData)
    else
      var floats := WordsAt(data, hs, header.fCount);
      var nameAt := NameSizeAt(v, header) + 4;
      if nameAt > |data| then Err(EndOfData)
      else ParseName(v, data, header, floats, nameAt)
  }

  /** The NUL-terminated name at `nameAt`, then the entries after its NUL. */
  function ParseName(v: Version, data: seq<byte>, header: Header, floats: seq<Float32>, nameAt: nat)
    : (r: Result<FontTable, ReadError>)
    ensures r.Ok? ==> r.value.header == header && r.value.headerF == floats
    ensures r.Ok? ==> |r.value.characters| == header.charCount
    ensures r.Ok? ==> forall i :: 0 <= i < |r.value.characters| ==> EntryVersion(r.value.characters[i]) == v
    ensures r.Ok? ==> forall i :: 0 <= i < |r.value.name| ==> r.value.name[i] != 0
  {
    match NulIndex(data, nameAt)
    case None => Err(EndOfData)
    case Some(z) =>
      NulIndexFirst(data, nameAt);
      ParseEntries(v, data, header, floats, data[nameAt..z], z + 1)
  }

  /** The CharCount entries that start at `tableAt`. */
  function ParseEntries(v: Version, data: seq<byte>, header: Header, floats: seq<Float32>,
                        name: seq<byte>, tableAt: nat): (r: Result<FontTable, ReadError>)
    ensures r.Ok? ==> r.value == FontTable(header, floats, name, r.value.characters)
    ensures r.Ok? ==> |r.value.characters| == header.charCount
    ensures r.Ok? ==> forall i :: 0 <= i < |r.value.characters| ==> EntryVersion(r.value.characters[i]) == v
  {
    var es := EntrySize(v);
    if header.charCount < 0 then Err(NegativeCount)
    else if tableAt + Span(header.charCount, es) > |data| then Err(EndOfData)
    else Ok(FontTable(header, floats, name, EntriesAt(v, data, tableAt, header.charCount)))
  }

  /** The `n` consecutive entry records that start at offset `p`. */
  function EntriesAt(v: Version, data: seq<byte>, p: nat, n: nat): (es: seq<Entry>)
    requires p + Span(n, EntrySize(v)) <= |data|
    ensures |es| == n
    ensures forall i :: 0 <= i < n ==> EntryVersion(es[i]) == v
    decreases n
  {
    if n == 0 then []
    else [DecodeEntryAt(v, data, p)] + EntriesAt(v, data, p + EntrySize(v), n - 1)
  }

  /** Reading `n` records into blocks and decoding each gives the entries at that offset. */
  lemma {:induction false} EntriesAtBlocks(v: Version, data: seq<byte>, p: nat, n: nat)
    requires p + Span(n, EntrySize(v)) <= |data|
    ensures DecodeEntries(v, Blocks(data, p, n, EntrySize(v))) == EntriesAt(v, data, p, n)
    decreases n
  {
    if n > 0 {
      var size := EntrySize(v);
      var blocks := Blocks(data, p, n, size);
      assert blocks[1..] == Blocks(data, p + size, n - 1, size);
      assert DecodeEntries(v, blocks)[1..] == DecodeEntries(v, blocks[1..]);
      DecodeEntryAtSlice(v, data, p);
      EntriesAtBlocks(v, data, p + size, n - 1);
    }
  }

  /** Once the floats fit and the name-size word is there, the name is read where it follows. */
  lemma {:induction false} ParseBodyAt(v: Version, data: seq<byte>, h: Header)
    requires HeaderVersion(h) == v && h.fCount >= 0
    requires NameSizeAt(v, h) + 4 <= |data|
    ensures ParseBody(v, data, h)
         == ParseName(v, data, h, WordsAt(data, HeaderSize(v), h.fCount), NameSizeAt(v, h) + 4)
  {
  }

  /** A name whose NUL is at `z` is followed by the entries at `z + 1`. */
  lemma {:induction false} ParseNameAt(v: Version, data: seq<byte>, h: Header, floats: seq<Float32>, nameAt: nat, z: nat)
    requires NulIndex(data, nameAt) == Some(z)
    ensures ParseName(v, data, h, floats, nameAt) == ParseEntries(v, data, h, floats, data[nameAt..z], z + 1)
  {
  }

  /** The GFDv1 / GFDv2 constructors: the read sequence through a binary reader. */
  method Load(v: Version, data: seq<byte>) returns (r: Result<FontTable, ReadError>)
    ensures r == Parse(v, data)
  {
    var br := new Reader(data);
    var raw :- br.ReadBytes(HeaderSize(v));
    var header := DecodeHeader(v, raw);
    assert forall j :: 0 <= j < HeaderSize(v) ==> raw[j] == data[j];
    DecodeHeaderPrefix(v, raw, data);
    r := LoadBody(br, v, header);
  }

  /** The reads that follow the header: floats, name size, name, then the entries. */
  method LoadBody(br: Reader, v: Version, header: Header) returns (r: Result<FontTable, ReadError>)
    requires HeaderVersion(header) == v && br.pos == HeaderSize(v) <= |br.data|
    modifies br
    ensures r == ParseBody(v, br.data, header)
  {
    var floatBlocks :- br.ReadMultiple(header.fCount, 4);
    var floats := WordsOf(floatBlocks);
    WordsAtBlocks(br.data, HeaderSize(v), header.fCount);
    var nameSize :- br.ReadInt32();
    ParseBodyAt(v, br.data, header);
    r := LoadName(br, v, header, floats);
  }

  /** The NUL-terminated name, read from the current position, then the entries. */
  method LoadName(br: Reader, v: Version, header: Header, floats: seq<Float32>) returns (r: Result<FontTable, ReadError>)
    requires br.pos <= |br.data|
    modifies br
    ensures r == ParseName(v, br.data, header, floats, old(br.pos))
  {
    var nameAt := br.pos;
    var name :- br.ReadCStringA();
    ParseNameAt(v, br.data, header, floats, nameAt, br.pos - 1);
    r := LoadEntries(br, v, header, floats, name);
  }

  /** The CharCount entries, read from the current position. */
  method LoadEntries(br: Reader, v: Version, header: Header, floats: seq<Float32>, name: seq<byte>)
    returns (r: Result<FontTable, ReadError>)
    requires br.pos <= |br.data|
    modifies br
    ensures r == ParseEntries(v, br.data, header, floats, name, old(br.pos))
  {
    var entryBlocks :- br.ReadMultiple(header.charCount, EntrySize(v));
    EntriesAtBlocks(v, br.data, old(br.pos), header.charCount);
    r := Ok(FontTable(header, floats, name, DecodeEntries(v, entryBlocks)));
  }
}
