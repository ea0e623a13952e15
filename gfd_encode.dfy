/**
 * The inverse of the GFD read sequence: the byte layout of a font table, and
 * the facts that tie it to the parser (a table survives a write and a read,
 * a cut-off file is rejected, and entries sit at fixed offsets).
 */
module GfdEncode {
  import opened Wrappers
  import opened Bytes
  import opened BinaryReader
  import opened Gfd

  /** A table whose counts match its contents and whose name has no NUL. */
  ghost predicate WellFormed(t: FontTable)
  {
    && |t.headerF| == t.header.fCount
    && |t.characters| == t.header.charCount
    && (forall i :: 0 <= i < |t.characters| ==> EntryVersion(t.characters[i]) == HeaderVersion(t.header))
    && (forall i :: 0 <= i < |t.name| ==> t.name[i] != 0)
  }

  function EntryBlocks(v: Version, es: seq<Entry>): (r: seq<seq<byte>>)
    requires forall i :: 0 <= i < |es| ==> EntryVersion(es[i]) == v
    ensures |r| == |es| && Uniform(r, EntrySize(v))
  {
    seq(|es|, i requires 0 <= i < |es| => EncodeEntry(es[i]))
  }

  /** The file layout of a table, with `nameSize` in the ignored name-size word. */
  function Encode(t: FontTable, nameSize: i32): seq<byte>
    requires WellFormed(t)
  {
    EncodeHeader(t.header) + EncodeWords(t.headerF) + I32Bytes(nameSize) + t.name + [0]
      + Flatten(EntryBlocks(HeaderVersion(t.header), t.characters))
  }

  lemma {:induction false} HeaderRoundTrip(h: Header, post: seq<byte>)
    ensures |EncodeHeader(h)| == HeaderSize(HeaderVersion(h))
    ensures DecodeHeader(HeaderVersion(h), EncodeHeader(h) + post) == h
  {
    var ws := HeaderWords(h);
    var data := EncodeHeader(h) + post;
    WordsRoundTrip(h.magic, ws, post);
    assert data == h.magic + EncodeWords(ws) + post;
    forall k | 0 <= k < |ws| ensures 8 + 4 * k <= |data| && HeaderWord(data, k) == ws[k] {
      HeaderWordOf(data, h.magic, ws, post, k);
    }
    assert [data[0], data[1], data[2], data[3]] == h.magic;
  }

  lemma {:induction false} EntryRoundTrip(e: Entry)
    ensures DecodeEntry(EntryVersion(e), EncodeEntry(e)) == e
  {
    var raw := EncodeEntry(e);
    U32RoundTrip(e.character);
    assert raw[0..4] == U32Bytes(e.character);
    assert raw[5..8] == e.glyphPos;
    if e.Entry1? {
      assert raw[9..12] == e.glyphSize;
    } else {
      assert raw[8..11] == e.glyphSize;
      assert raw[12..15] == e.charSize;
      I16RoundTrip(e.endMark);
      assert raw[18..20] == I16Bytes(e.endMark);
    }
  }

  lemma {:induction false} EntriesRoundTrip(v: Version, pre: seq<byte>, es: seq<Entry>, post: seq<byte>)
    requires forall i :: 0 <= i < |es| ==> EntryVersion(es[i]) == v
    ensures |Flatten(EntryBlocks(v, es))| == Span(|es|, EntrySize(v))
    ensures EntriesAt(v, pre + Flatten(EntryBlocks(v, es)) + post, |pre|, |es|) == es
  {
    var blocks := EntryBlocks(v, es);
    BlocksOfFlatten(pre, blocks, EntrySize(v), post);
    EntriesAtBlocks(v, pre + Flatten(blocks) + post, |pre|, |es|);
    forall i | 0 <= i < |es| ensures DecodeEntry(v, blocks[i]) == es[i] {
      EntryRoundTrip(es[i]);
    }
  }

  /** An encoded header decodes to itself. */
  lemma {:induction false} HeaderRead(h: Header)
    ensures |EncodeHeader(h)| == HeaderSize(HeaderVersion(h))
    ensures DecodeHeader(HeaderVersion(h), EncodeHeader(h)) == h
  {
    HeaderRoundTrip(h, []);
    assert EncodeHeader(h) + [] == EncodeHeader(h);
  }

  /** Encoded entries read back as themselves from their start. */
  lemma {:induction false} EntriesRead(v: Version, es: seq<Entry>)
    requires forall i :: 0 <= i < |es| ==> EntryVersion(es[i]) == v
    ensures |Flatten(EntryBlocks(v, es))| == Span(|es|, EntrySize(v))
    ensures EntriesAt(v, Flatten(EntryBlocks(v, es)), 0, |es|) == es
  {
    EntriesRoundTrip(v, [], es, []);
    assert [] + Flatten(EntryBlocks(v, es)) + [] == Flatten(EntryBlocks(v, es));
  }

  /** A file that holds a whole header goes on to the body with the decoded header. */
  lemma {:induction false} ParseAt(v: Version, data: seq<byte>)
    requires HeaderSize(v) <= |data|
    ensures Parse(v, data) == ParseBody(v, data, DecodeHeader(v, data))
  {
  }

  /**
   * `data` holds header `h` and, after it, the floats `ws`; the name-size word;
   * the name, whose NUL is at `z`; and then the entries `es`.
   */
  ghost predicate ReadsAs(v: Version, data: seq<byte>, h: Header, ws: seq<u32>, z: nat, name: seq<byte>, es: seq<Entry>)
  {
    ReadsHead(v, data, h, ws) && ReadsTail(v, data, h, z, name, es)
  }

  /** The header and the floats. */
  ghost predicate ReadsHead(v: Version, data: seq<byte>, h: Header, ws: seq<u32>)
  {
    && HeaderVersion(h) == v && h.fCount == |ws|
    && HeaderSize(v) <= |data| && DecodeHeader(v, data) == h
    && NameSizeAt(v, h) + 4 <= |data|
    && WordsAt(data, HeaderSize(v), h.fCount) == ws
  }

  /** The name, whose NUL is at `z`, and the entries after it. */
  ghost predicate ReadsTail(v: Version, data: seq<byte>, h: Header, z: nat, name: seq<byte>, es: seq<Entry>)
    requires HeaderVersion(h) == v && h.fCount >= 0
  {
    && h.charCount == |es|
    && NameSizeAt(v, h) + 4 <= |data|
    && NulIndex(data, NameSizeAt(v, h) + 4) == Some(z)
    && data[NameSizeAt(v, h) + 4 .. z] == name
    && z + 1 + Span(|es|, EntrySize(v)) <= |data|
    && EntriesAt(v, data, z + 1, |es|) == es
  }

  /** A file whose header, floats, name and entries read as given parses to the table they make up. */
  lemma {:induction false} ParseOfParts(v: Version, data: seq<byte>, h: Header, ws: seq<u32>, z: nat, name: seq<byte>, es: seq<Entry>)
    requires ReadsAs(v, data, h, ws, z, name, es)
    ensures Parse(v, data) == Ok(FontTable(h, ws, name, es))
  {
    ParseAt(v, data);
    ParseBodyAt(v, data, h);
    ParseNameAt(v, data, h, ws, NameSizeAt(v, h) + 4, z);
  }

  /** A NUL-free name followed by a NUL is what the NUL search finds and the name read returns. */
  lemma {:induction false} NameFound(data: seq<byte>, at: nat, name: seq<byte>)
    requires at + |name| < |data| && data[at + |name|] == 0
    requires forall j :: 0 <= j < |name| ==> data[at + j] == name[j]
    requires forall i :: 0 <= i < |name| ==> name[i] != 0
    ensures NulIndex(data, at) == Some(at + |name|)
    ensures data[at .. at + |name|] == name
  {
    forall j | at <= j < at + |name| ensures data[j] != 0 {
      assert data[at + (j - at)] == name[j - at];
    }
    NulIndexIs(data, at, at + |name|);
  }

  /** The header bytes at the front of a laid-out file decode as they do alone. */
  lemma {:induction false} LayoutHeader(v: Version, H: seq<byte>, W: seq<byte>, N: seq<byte>, name: seq<byte>, E: seq<byte>, post: seq<byte>)
    requires |H| == HeaderSize(v)
    ensures var data := H + W + N + name + [0] + E + post;
      HeaderSize(v) <= |data| && DecodeHeader(v, data) == DecodeHeader(v, H)
  {
    var data := H + W + N + name + [0] + E + post;
    assert forall j :: 0 <= j < HeaderSize(v) ==> H[j] == data[j];
    DecodeHeaderPrefix(v, H, data);
  }

  /** The float words of a laid-out file read as they do alone. */
  lemma {:induction false} LayoutWords(H: seq<byte>, W: seq<byte>, N: seq<byte>, name: seq<byte>, E: seq<byte>, post: seq<byte>, n: nat)
    requires Span(n, 4) <= |W|
    ensures var data := H + W + N + name + [0] + E + post;
      |H| + Span(n, 4) <= |data| && WordsAt(data, |H|, n) == WordsAt(W, 0, n)
  {
    var data := H + W + N + name + [0] + E + post;
    forall j | 0 <= j < |W| ensures data[|H| + j] == W[j] { }
    WordsAtShift(data, |H|, W, n);
  }

  /** The NUL search from the name's start in a laid-out file stops at the NUL after it. */
  lemma {:induction false} LayoutName(H: seq<byte>, W: seq<byte>, N: seq<byte>, name: seq<byte>, E: seq<byte>, post: seq<byte>)
    requires forall i :: 0 <= i < |name| ==> name[i] != 0
    ensures var data := H + W + N + name + [0] + E + post;
      var at := |H + W + N|;
      && at + |name| < |data|
      && NulIndex(data, at) == Some(at + |name|)
      && data[at .. at + |name|] == name
  {
    var data := H + W + N + name + [0] + E + post;
    var at := |H + W + N|;
    forall j | 0 <= j < |name| ensures data[at + j] == name[j] { }
    assert data[at + |name|] == 0;
    NameFound(data, at, name);
  }

  /** The entries after the name's NUL in a laid-out file read as they do alone. */
  lemma {:induction false} LayoutEntries(v: Version, H: seq<byte>, W: seq<byte>, N: seq<byte>, name: seq<byte>, E: seq<byte>,
                                         post: seq<byte>, n: nat)
    requires Span(n, EntrySize(v)) <= |E|
    ensures var data := H + W + N + name + [0] + E + post;
      var at := |H + W + N + name + [0]|;
      at + Span(n, EntrySize(v)) <= |data| && EntriesAt(v, data, at, n) == EntriesAt(v, E, 0, n)
  {
    var data := H + W + N + name + [0] + E + post;
    var at := |H + W + N + name + [0]|;
    forall j | 0 <= j < |E| ensures data[at + j] == E[j] { }
    EntriesAtShift(v, data, at, E, n);
  }

  /** The header and floats of a laid-out file read as `h` and `ws`. */
  lemma {:induction false} LayoutHead(h: Header, H: seq<byte>, ws: seq<u32>, W: seq<byte>, N: seq<byte>, name: seq<byte>,
                                      E: seq<byte>, post: seq<byte>)
    requires |H| == HeaderSize(HeaderVersion(h)) && DecodeHeader(HeaderVersion(h), H) == h
    requires h.fCount == |ws| && |W| == Span(|ws|, 4) && WordsAt(W, 0, |ws|) == ws && |N| == 4
    ensures ReadsHead(HeaderVersion(h), H + W + N + name + [0] + E + post, h, ws)
  {
    var v := HeaderVersion(h);
    LayoutHeader(v, H, W, N, name, E, post);
    LayoutWords(H, W, N, name, E, post, |ws|);
  }

  /** The name and entries of a laid-out file read as `name` and `es`. */
  lemma {:induction false} LayoutTail(h: Header, H: seq<byte>, W: seq<byte>, N: seq<byte>, name: seq<byte>,
                                      es: seq<Entry>, E: seq<byte>, post: seq<byte>)
    requires |H| == HeaderSize(HeaderVersion(h)) && h.fCount >= 0 && |W| == Span(h.fCount, 4)
    requires h.charCount == |es| && |N| == 4
    requires forall i :: 0 <= i < |name| ==> name[i] != 0
    requires |E| == Span(|es|, EntrySize(HeaderVersion(h)))
    requires EntriesAt(HeaderVersion(h), E, 0, |es|) == es
    ensures var v := HeaderVersion(h);
      ReadsTail(v, H + W + N + name + [0] + E + post, h, NameSizeAt(v, h) + 4 + |name|, name, es)
  {
    var v := HeaderVersion(h);
    assert |H + W + N| == NameSizeAt(v, h) + 4;
    assert |H + W + N + name + [0]| == NameSizeAt(v, h) + 4 + |name| + 1;
    LayoutName(H, W, N, name, E, post);
    LayoutEntries(v, H, W, N, name, E, post, |es|);
  }

  /** The parse of a file laid out as header, floats, name-size word, name, NUL and entries. */
  lemma {:induction false} ParseLayout(h: Header, H: seq<byte>, ws: seq<u32>, W: seq<byte>, N: seq<byte>, name: seq<byte>,
                    es: seq<Entry>, E: seq<byte>, post: seq<byte>)
    requires |H| == HeaderSize(HeaderVersion(h)) && DecodeHeader(HeaderVersion(h), H) == h
    requires h.fCount == |ws| && |W| == Span(|ws|, 4) && WordsAt(W, 0, |ws|) == ws
    requires h.charCount == |es| && |N| == 4
    requires forall i :: 0 <= i < |name| ==> name[i] != 0
    requires |E| == Span(|es|, EntrySize(HeaderVersion(h)))
    requires EntriesAt(HeaderVersion(h), E, 0, |es|) == es
    ensures Parse(HeaderVersion(h), H + W + N + name + [0] + E + post)
         == Ok(FontTable(h, ws, name, es))
  {
    var v := HeaderVersion(h);
    LayoutHead(h, H, ws, W, N, name, E, post);
    LayoutTail(h, H, W, N, name, es, E, post);
    ParseOfParts(v, H + W + N + name + [0] + E + post, h, ws, NameSizeAt(v, h) + 4 + |name|, name, es);
  }

  /**
   * Parsing an encoded table gives it back, whatever the name-size word
   * holds and whatever bytes follow the last entry.
   */
  lemma {:induction false} ParseEncode(t: FontTable, nameSize: i32, post: seq<byte>)
    requires WellFormed(t)
    ensures Parse(HeaderVersion(t.header), Encode(t, nameSize) + post) == Ok(t)
  {
    var v := HeaderVersion(t.header);
    var H := EncodeHeader(t.header);
    var W := EncodeWords(t.headerF);
    var E := Flatten(EntryBlocks(v, t.characters));
    HeaderRead(t.header);
    WordsRead(t.headerF);
    EntriesRead(v, t.characters);
    ParseLayout(t.header, H, t.headerF, W, I32Bytes(nameSize), t.name, t.characters, E, post);
  }

  /** A file that ends before the name-size word's end fails once the header is read. */
  lemma {:induction false} TruncBody(v: Version, data: seq<byte>, h: Header)
    requires HeaderVersion(h) == v && h.fCount >= 0
    requires HeaderSize(v) <= |data| < NameSizeAt(v, h) + 4
    requires DecodeHeader(v, data) == h
    ensures Parse(v, data) == Err(EndOfData)
  {
    ParseAt(v, data);
  }

  /** A name with no NUL before the end of the file fails. */
  lemma {:induction false} TruncName(v: Version, data: seq<byte>, h: Header)
    requires HeaderVersion(h) == v && h.fCount >= 0
    requires HeaderSize(v) <= NameSizeAt(v, h) + 4 <= |data|
    requires DecodeHeader(v, data) == h
    requires forall j :: NameSizeAt(v, h) + 4 <= j < |data| ==> data[j] != 0
    ensures Parse(v, data) == Err(EndOfData)
  {
    ParseAt(v, data);
    ParseBodyAt(v, data, h);
    NulIndexNone(data, NameSizeAt(v, h) + 4);
  }

  /** Entries that do not all fit after the name's NUL fail. */
  lemma {:induction false} TruncEntries(v: Version, data: seq<byte>, h: Header, z: nat)
    requires HeaderVersion(h) == v && h.fCount >= 0 && h.charCount >= 0
    requires HeaderSize(v) <= NameSizeAt(v, h) + 4 <= |data|
    requires DecodeHeader(v, data) == h
    requires NulIndex(data, NameSizeAt(v, h) + 4) == Some(z)
    requires z + 1 + Span(h.charCount, EntrySize(v)) > |data|
    ensures Parse(v, data) == Err(EndOfData)
  {
    ParseAt(v, data);
    ParseBodyAt(v, data, h);
    var floats := WordsAt(data, HeaderSize(v), h.fCount);
    ParseNameAt(v, data, h, floats, NameSizeAt(v, h) + 4, z);
    EntriesShort(v, data, h, floats, data[NameSizeAt(v, h) + 4 .. z], z + 1);
  }

  lemma {:induction false} EntriesShort(v: Version, data: seq<byte>, h: Header, floats: seq<Float32>, name: seq<byte>, tableAt: nat)
    requires h.charCount >= 0 && tableAt + Span(h.charCount, EntrySize(v)) > |data|
    ensures ParseEntries(v, data, h, floats, name, tableAt) == Err(EndOfData)
  {
  }

  /** Where an encoded table keeps its header, its name, the name's NUL and its entries. */
  lemma {:induction false} EncodeLayout(t: FontTable, nameSize: i32)
    requires WellFormed(t)
    ensures Laid(HeaderVersion(t.header), t.header, Encode(t, nameSize), |t.name|)
  {
    var v := HeaderVersion(t.header);
    HeaderRead(t.header);
    WordsRead(t.headerF);
    EntriesRead(v, t.characters);
    LayoutLaid(t.header, EncodeHeader(t.header), EncodeWords(t.headerF), I32Bytes(nameSize), t.name,
               Flatten(EntryBlocks(v, t.characters)));
  }

  lemma {:induction false} LayoutLaid(h: Header, H: seq<byte>, W: seq<byte>, N: seq<byte>, name: seq<byte>, E: seq<byte>)
    requires |H| == HeaderSize(HeaderVersion(h)) && DecodeHeader(HeaderVersion(h), H) == h
    requires h.fCount >= 0 && |W| == Span(h.fCount, 4) && h.charCount >= 0 && |N| == 4
    requires |E| == Span(h.charCount, EntrySize(HeaderVersion(h)))
    requires forall i :: 0 <= i < |name| ==> name[i] != 0
    ensures Laid(HeaderVersion(h), h, H + W + N + name + [0] + E, |name|)
  {
    var v := HeaderVersion(h);
    var full := H + W + N + name + [0] + E;
    var nameAt := |H| + |W| + |N|;
    assert nameAt == NameSizeAt(v, h) + 4;
    assert forall j :: 0 <= j < HeaderSize(v) ==> H[j] == full[j];
    DecodeHeaderPrefix(v, H, full);
    forall j | nameAt <= j < nameAt + |name| ensures full[j] != 0 {
      assert full[j] == name[j - nameAt];
    }
    assert full[nameAt + |name|] == 0;
  }

  /**
   * `full` holds the header `h`, then the floats and the name-size word, a
   * name of `len` non-NUL bytes, its NUL and the entries.
   */
  ghost predicate Laid(v: Version, h: Header, full: seq<byte>, len: nat)
  {
    && HeaderVersion(h) == v && h.fCount >= 0 && h.charCount >= 0
    && HeaderSize(v) <= |full| && DecodeHeader(v, full) == h
    && |full| == NameSizeAt(v, h) + 4 + len + 1 + Span(h.charCount, EntrySize(v))
    && (forall j :: NameSizeAt(v, h) + 4 <= j < NameSizeAt(v, h) + 4 + len ==> full[j] != 0)
    && full[NameSizeAt(v, h) + 4 + len] == 0
  }

  /** A prefix that holds the whole header decodes to the same header. */
  lemma {:induction false} PrefixHeader(v: Version, h: Header, full: seq<byte>, len: nat, n: nat)
    requires Laid(v, h, full, len) && HeaderSize(v) <= n <= |full|
    ensures DecodeHeader(v, full[..n]) == h
  {
    assert forall j :: 0 <= j < HeaderSize(v) ==> full[..n][j] == full[j];
    DecodeHeaderPrefix(v, full[..n], full);
  }

  /** A prefix that ends inside the name holds no NUL from the name's start on. */
  lemma {:induction false} PrefixNoNul(v: Version, h: Header, full: seq<byte>, len: nat, n: nat)
    requires Laid(v, h, full, len)
    requires NameSizeAt(v, h) + 4 <= n <= NameSizeAt(v, h) + 4 + len
    ensures forall j :: NameSizeAt(v, h) + 4 <= j < n ==> full[..n][j] != 0
  {
  }

  /** A prefix that goes past the name's NUL finds that NUL first. */
  lemma {:induction false} PrefixNul(v: Version, h: Header, full: seq<byte>, len: nat, n: nat)
    requires Laid(v, h, full, len)
    requires NameSizeAt(v, h) + 4 + len < n <= |full|
    ensures NulIndex(full[..n], NameSizeAt(v, h) + 4) == Some(NameSizeAt(v, h) + 4 + len)
  {
    var nameAt := NameSizeAt(v, h) + 4;
    var data := full[..n];
    assert forall j :: nameAt <= j < nameAt + len ==> data[j] == full[j];
    NulIndexIs(data, nameAt, nameAt + len);
  }

  /** The truncation lemma on a layout given by where its parts sit. */
  lemma {:induction false} TruncLayout(v: Version, h: Header, full: seq<byte>, len: nat, n: nat)
    requires Laid(v, h, full, len) && n < |full|
    ensures Parse(v, full[..n]) == Err(EndOfData)
  {
    var hs := HeaderSize(v);
    var nameAt := NameSizeAt(v, h) + 4;
    if n >= hs {
      PrefixHeader(v, h, full, len, n);
      if n < nameAt {
        TruncBody(v, full[..n], h);
      } else if n <= nameAt + len {
        PrefixNoNul(v, h, full, len, n);
        TruncName(v, full[..n], h);
      } else {
        PrefixNul(v, h, full, len, n);
        TruncEntries(v, full[..n], h, nameAt + len);
      }
    }
  }

  /** A prefix of an encoded table is too short to be read: the parser never fabricates data. */
  lemma {:induction false} ParseTruncated(t: FontTable, nameSize: i32, n: nat)
    requires WellFormed(t) && n < |Encode(t, nameSize)|
    ensures Parse(HeaderVersion(t.header), Encode(t, nameSize)[..n]) == Err(EndOfData)
  {
    EncodeLayout(t, nameSize);
    TruncLayout(HeaderVersion(t.header), t.header, Encode(t, nameSize), |t.name|, n);
  }

  /** Entry k of the entries at `p` is decoded from the record at `p + k * size`. */
  lemma {:induction false} EntriesAtIndex(v: Version, data: seq<byte>, p: nat, n: nat, k: nat)
    requires p + Span(n, EntrySize(v)) <= |data| && k < n
    ensures p + Span(k, EntrySize(v)) + EntrySize(v) <= |data|
    ensures EntriesAt(v, data, p, n)[k] == DecodeEntryAt(v, data, p + Span(k, EntrySize(v)))
    decreases k
  {
    if k > 0 {
      EntriesAtIndex(v, data, p + EntrySize(v), n - 1, k - 1);
    }
  }

  /** Where `s` holds the bytes of `E` from `p` on, a record read there is the one read from `E`. */
  lemma {:induction false} DecodeEntryAtShift(v: Version, s: seq<byte>, p: nat, E: seq<byte>, o: nat)
    requires o + EntrySize(v) <= |E| && p + |E| <= |s|
    requires forall j :: 0 <= j < |E| ==> s[p + j] == E[j]
    ensures DecodeEntryAt(v, s, p + o) == DecodeEntryAt(v, E, o)
  {
    forall j | o <= j < o + EntrySize(v) ensures s[p + j] == E[j] {
    }
  }

  /** Where `s` holds the bytes of `E` from `p` on, the entries read there are those read from `E`. */
  lemma {:induction false} EntriesAtShift(v: Version, s: seq<byte>, p: nat, E: seq<byte>, n: nat)
    requires Span(n, EntrySize(v)) <= |E| && p + |E| <= |s|
    requires forall j :: 0 <= j < |E| ==> s[p + j] == E[j]
    ensures p + Span(n, EntrySize(v)) <= |s| && EntriesAt(v, s, p, n) == EntriesAt(v, E, 0, n)
  {
    var a := EntriesAt(v, s, p, n);
    var b := EntriesAt(v, E, 0, n);
    forall k | 0 <= k < n ensures a[k] == b[k] {
      EntriesAtIndex(v, s, p, n, k);
      EntriesAtIndex(v, E, 0, n, k);
      DecodeEntryAtShift(v, s, p, E, Span(k, EntrySize(v)));
    }
  }

  /** Entry k of a successful entry parse is decoded from the k-th record at `tableAt`. */
  lemma {:induction false} EntriesLayout(v: Version, data: seq<byte>, h: Header, floats: seq<Float32>, name: seq<byte>, tableAt: nat)
    requires ParseEntries(v, data, h, floats, name, tableAt).Ok?
    ensures var es := ParseEntries(v, data, h, floats, name, tableAt).value.characters;
      forall k :: 0 <= k < |es| ==>
        tableAt + k * EntrySize(v) + EntrySize(v) <= |data|
        && es[k] == DecodeEntryAt(v, data, tableAt + k * EntrySize(v))
  {
    var size := EntrySize(v);
    var es := ParseEntries(v, data, h, floats, name, tableAt).value.characters;
    assert es == EntriesAt(v, data, tableAt, h.charCount);
    forall k | 0 <= k < |es|
      ensures tableAt + k * size + size <= |data|
      ensures es[k] == DecodeEntryAt(v, data, tableAt + k * size)
    {
      EntriesAtIndex(v, data, tableAt, h.charCount, k);
      SpanIsMul(k, size);
    }
  }

  /** A parsed table's name ends at the first NUL after the name-size word, and its entries follow that NUL. */
  lemma {:induction false} ParseSplit(v: Version, data: seq<byte>)
    requires Parse(v, data).Ok?
    ensures var t := Parse(v, data).value;
      var nameAt := NameSizeAt(v, t.header) + 4;
      && NulIndex(data, nameAt) == Some(nameAt + |t.name|)
      && Parse(v, data) == ParseEntries(v, data, t.header, t.headerF, t.name, nameAt + |t.name| + 1)
  {
    var h := DecodeHeader(v, data);
    ParseAt(v, data);
    var nameAt := NameSizeAt(v, h) + 4;
    ParseBodyAt(v, data, h);
    var floats := WordsAt(data, HeaderSize(v), h.fCount);
    var z := NulIndex(data, nameAt).value;
    ParseNameAt(v, data, h, floats, nameAt, z);
  }

  /** Entry k of a parsed table is decoded from the k-th record after the name's NUL. */
  lemma {:induction false} EntryLayout(v: Version, data: seq<byte>)
    requires Parse(v, data).Ok?
    ensures var t := Parse(v, data).value;
      var tableAt := NameSizeAt(v, t.header) + 4 + |t.name| + 1;
      && tableAt <= |data| && data[tableAt - 1] == 0
      && forall k :: 0 <= k < |t.characters| ==>
           tableAt + k * EntrySize(v) + EntrySize(v) <= |data|
           && t.characters[k] == DecodeEntryAt(v, data, tableAt + k * EntrySize(v))
  {
    ParseSplit(v, data);
    var t := Parse(v, data).value;
    var tableAt := NameSizeAt(v, t.header) + 4 + |t.name| + 1;
    EntriesLayout(v, data, t.header, t.headerF, t.name, tableAt);
    var es := ParseEntries(v, data, t.header, t.headerF, t.name, tableAt).value.characters;
    assert t.characters == es;
  }
}
