/**
 * Bytes, the fixed-width integers of the GFD layout, little-endian decoding
 * and encoding, and fixed-size blocks within a byte sequence.
 */
module Bytes {
  import opened Wrappers

  type byte = b: int | 0 <= b < 256
  type u32 = n: int | 0 <= n < 0x1_0000_0000
  type i32 = n: int | -0x8000_0000 <= n < 0x8000_0000
  type i16 = n: int | -0x8000 <= n < 0x8000

  /** A little-endian unsigned 32-bit integer: byte 0 is the least significant. */
  function U32Of(s: seq<byte>): u32
    requires |s| == 4
  {
    var b0: int, b1: int, b2: int, b3: int := s[0], s[1], s[2], s[3];
    b0 + 0x100 * b1 + 0x1_0000 * b2 + 0x100_0000 * b3
  }

  function U32Bytes(n: u32): (s: seq<byte>)
    ensures |s| == 4
  {
    [n % 0x100, (n / 0x100) % 0x100, (n / 0x1_0000) % 0x100, n / 0x100_0000]
  }

  lemma {:induction false} U32RoundTrip(n: u32)
    ensures U32Of(U32Bytes(n)) == n
  {
    var a := n / 0x100;
    var a2 := a / 0x100;
    assert n == n % 0x100 + 0x100 * a;
    assert a == a % 0x100 + 0x100 * a2;
    assert a2 == a2 % 0x100 + 0x100 * (a2 / 0x100);
    DivMod65536(n, n % 0x100 + 0x100 * (a % 0x100), a2);
    DivMod16M(n, n % 0x100 + 0x100 * (a % 0x100) + 0x1_0000 * (a2 % 0x100), a2 / 0x100);
  }

  lemma {:induction false} DivMod256(n: int, lo: int, hi: int)
    requires 0 <= lo < 0x100 && n == lo + 0x100 * hi
    ensures n % 0x100 == lo && n / 0x100 == hi
  {
  }

  lemma {:induction false} DivMod65536(n: int, lo: int, hi: int)
    requires 0 <= lo < 0x1_0000 && n == lo + 0x1_0000 * hi
    ensures n / 0x1_0000 == hi
  {
  }

  lemma {:induction false} DivMod16M(n: int, lo: int, hi: int)
    requires 0 <= lo < 0x100_0000 && n == lo + 0x100_0000 * hi
    ensures n / 0x100_0000 == hi
  {
  }

  lemma {:induction false} Slice3(s: seq<byte>, i: nat)
    requires i + 3 <= |s|
    ensures s[i .. i + 3] == [s[i], s[i + 1], s[i + 2]]
  {
  }

  lemma {:induction false} Slice2(s: seq<byte>, i: nat)
    requires i + 2 <= |s|
    ensures s[i .. i + 2] == [s[i], s[i + 1]]
  {
  }

  /** Two's-complement reading of a 32-bit pattern. */
  function AsI32(u: u32): i32
  {
    if u < 0x8000_0000 then u else u - 0x1_0000_0000
  }

  function AsU32(i: i32): (u: u32)
    ensures AsI32(u) == i
  {
    if i >= 0 then i else i + 0x1_0000_0000
  }

  /** A little-endian signed 32-bit integer. */
  function I32Of(s: seq<byte>): i32
    requires |s| == 4
  {
    AsI32(U32Of(s))
  }

  function I32Bytes(i: i32): (s: seq<byte>)
    ensures |s| == 4
  {
    U32Bytes(AsU32(i))
  }

  /** A little-endian signed 16-bit integer. */
  function I16Of(s: seq<byte>): i16
    requires |s| == 2
  {
    var b0: int, b1: int := s[0], s[1];
    var u := b0 + 0x100 * b1;
    if u < 0x8000 then u else u - 0x1_0000
  }

  function I16Bytes(i: i16): (s: seq<byte>)
    ensures |s| == 2
  {
    var u := if i >= 0 then i else i + 0x1_0000;
    [u % 0x100, u / 0x100]
  }

  lemma {:induction false} I16RoundTrip(i: i16)
    ensures I16Of(I16Bytes(i)) == i
  {
  }

  /**
   * `count * size` by repeated addition: the bytes taken by `count` records
   * of `size` bytes. Kept recursive so that offsets stay linear.
   */
  function Span(count: nat, size: nat): nat
  {
    if count == 0 then 0 else Span(count - 1, size) + size
  }

  lemma {:induction false} SpanIsMul(count: nat, size: nat)
    ensures Span(count, size) == count * size
  {
    if count > 0 {
      SpanIsMul(count - 1, size);
    }
  }

  lemma {:induction false} SpanMono(i: nat, count: nat, size: nat)
    requires i <= count
    ensures Span(i, size) <= Span(count, size)
  {
    if i < count {
      SpanMono(i, count - 1, size);
    }
  }

  /** Every block has the given size. */
  ghost predicate Uniform(blocks: seq<seq<byte>>, size: nat)
  {
    forall i :: 0 <= i < |blocks| ==> |blocks[i]| == size
  }

  /** The blocks laid end to end. */
  function Flatten(blocks: seq<seq<byte>>): seq<byte>
  {
    if |blocks| == 0 then [] else blocks[0] + Flatten(blocks[1..])
  }

  /** The `count` consecutive blocks of `size` bytes that start at offset `p`. */
  function Blocks(s: seq<byte>, p: nat, count: nat, size: nat): (r: seq<seq<byte>>)
    requires p + Span(count, size) <= |s|
    ensures |r| == count && Uniform(r, size)
    decreases count
  {
    if count == 0 then []
    else [s[p .. p + size]] + Blocks(s, p + size, count - 1, size)
  }

  /** Block k starts at offset `p + Span(k, size)`. */
  lemma {:induction false} BlockAt(s: seq<byte>, p: nat, count: nat, size: nat, k: nat)
    requires p + Span(count, size) <= |s| && k < count
    ensures p + Span(k, size) + size <= |s|
    ensures Blocks(s, p, count, size)[k] == s[p + Span(k, size) .. p + Span(k, size) + size]
    decreases count
  {
    if k > 0 {
      var rest := Blocks(s, p + size, count - 1, size);
      assert Blocks(s, p, count, size)[k] == rest[k - 1];
      BlockAt(s, p + size, count - 1, size, k - 1);
      assert p + size + Span(k - 1, size) == p + Span(k, size);
    }
  }

  /** Taking one more block appends the block that follows. */
  lemma {:induction false} BlocksSnoc(s: seq<byte>, p: nat, count: nat, size: nat)
    requires p + Span(count + 1, size) <= |s|
    ensures p + Span(count, size) + size <= |s|
    ensures Blocks(s, p, count + 1, size)
      == Blocks(s, p, count, size) + [s[p + Span(count, size) .. p + Span(count, size) + size]]
    decreases count
  {
    if count > 0 {
      var q := p + size;
      BlocksSnoc(s, q, count - 1, size);
      assert q + Span(count - 1, size) == p + Span(count, size);
      var first := [s[p .. p + size]];
      var last := [s[p + Span(count, size) .. p + Span(count, size) + size]];
      calc {
        Blocks(s, p, count + 1, size);
        first + Blocks(s, q, count, size);
        first + (Blocks(s, q, count - 1, size) + last);
        (first + Blocks(s, q, count - 1, size)) + last;
        Blocks(s, p, count, size) + last;
      }
    }
  }

  lemma {:induction false} FlattenLength(blocks: seq<seq<byte>>, size: nat)
    requires Uniform(blocks, size)
    ensures |Flatten(blocks)| == Span(|blocks|, size)
    decreases |blocks|
  {
    if |blocks| > 0 {
      FlattenLength(blocks[1..], size);
    }
  }

  /** Where `s` holds the concatenation of equal-sized blocks from `p` on, cutting it there gives them back. */
  lemma {:induction false} BlocksIn(s: seq<byte>, p: nat, blocks: seq<seq<byte>>, size: nat)
    requires Uniform(blocks, size) && p + Span(|blocks|, size) <= |s|
    requires |Flatten(blocks)| == Span(|blocks|, size)
    requires forall j :: 0 <= j < |Flatten(blocks)| ==> s[p + j] == Flatten(blocks)[j]
    ensures Blocks(s, p, |blocks|, size) == blocks
    decreases |blocks|
  {
    if |blocks| > 0 {
      var F := Flatten(blocks);
      var rest := blocks[1..];
      assert F == blocks[0] + Flatten(rest);
      FlattenLength(rest, size);
      forall j | 0 <= j < |Flatten(rest)| ensures s[p + size + j] == Flatten(rest)[j] {
        assert s[p + (size + j)] == F[size + j];
      }
      BlocksIn(s, p + size, rest, size);
      forall j | 0 <= j < size ensures s[p .. p + size][j] == blocks[0][j] {
        assert s[p + j] == F[j];
      }
      assert s[p .. p + size] == blocks[0];
      assert blocks == [blocks[0]] + rest;
    }
  }

  /** Cutting the concatenation of equal-sized blocks back into blocks gives them back. */
  lemma {:induction false} BlocksOfFlatten(pre: seq<byte>, blocks: seq<seq<byte>>, size: nat, post: seq<byte>)
    requires Uniform(blocks, size)
    ensures |Flatten(blocks)| == Span(|blocks|, size)
    ensures Blocks(pre + Flatten(blocks) + post, |pre|, |blocks|, size) == blocks
  {
    FlattenLength(blocks, size);
    var s := pre + Flatten(blocks) + post;
    forall j | 0 <= j < |Flatten(blocks)| ensures s[|pre| + j] == Flatten(blocks)[j] { }
    BlocksIn(s, |pre|, blocks, size);
  }

  /** Each 4-byte block read as a little-endian unsigned 32-bit word. */
  function WordsOf(blocks: seq<seq<byte>>): (r: seq<u32>)
    requires Uniform(blocks, 4)
    ensures |r| == |blocks|
  {
    if |blocks| == 0 then [] else [U32Of(blocks[0])] + WordsOf(blocks[1..])
  }

  function WordBlocks(ws: seq<u32>): (r: seq<seq<byte>>)
    ensures |r| == |ws| && Uniform(r, 4)
  {
    seq(|ws|, i requires 0 <= i < |ws| => U32Bytes(ws[i]))
  }

  /** Words laid out little-endian, 4 bytes each. */
  function EncodeWords(ws: seq<u32>): seq<byte>
  {
    Flatten(WordBlocks(ws))
  }

  /** The little-endian unsigned 32-bit word at offset `p`. */
  function U32At(s: seq<byte>, p: nat): u32
    requires p + 4 <= |s|
  {
    var b0: int, b1: int, b2: int, b3: int := s[p], s[p + 1], s[p + 2], s[p + 3];
    b0 + 0x100 * b1 + 0x1_0000 * b2 + 0x100_0000 * b3
  }

  lemma {:induction false} U32AtSlice(s: seq<byte>, p: nat)
    requires p + 4 <= |s|
    ensures U32At(s, p) == U32Of(s[p .. p + 4])
  {
  }

  /** The `n` consecutive words that start at offset `p`. */
  function WordsAt(s: seq<byte>, p: nat, n: nat): (r: seq<u32>)
    requires p + Span(n, 4) <= |s|
    ensures |r| == n
    decreases n
  {
    if n == 0 then [] else [U32At(s, p)] + WordsAt(s, p + 4, n - 1)
  }

  /** Reading `n` blocks of 4 bytes and converting each gives the words at that offset. */
  lemma {:induction false} WordsAtBlocks(s: seq<byte>, p: nat, n: nat)
    requires p + Span(n, 4) <= |s|
    ensures WordsOf(Blocks(s, p, n, 4)) == WordsAt(s, p, n)
    decreases n
  {
    if n > 0 {
      U32AtSlice(s, p);
      assert Blocks(s, p, n, 4)[1..] == Blocks(s, p + 4, n - 1, 4);
      WordsAtBlocks(s, p + 4, n - 1);
    }
  }

  /** Word k of the words at `p` is the word at offset `p + 4k`. */
  lemma {:induction false} WordsAtIndex(s: seq<byte>, p: nat, n: nat, k: nat)
    requires p + Span(n, 4) <= |s| && k < n
    ensures p + 4 * k + 4 <= |s| && WordsAt(s, p, n)[k] == U32At(s, p + 4 * k)
    decreases k
  {
    SpanIsMul(n, 4);
    if k > 0 {
      WordsAtIndex(s, p + 4, n - 1, k - 1);
    }
  }

  /** Where `s` holds the bytes of `W` from `p` on, the words read there are those read from `W`. */
  lemma {:induction false} WordsAtShift(s: seq<byte>, p: nat, W: seq<byte>, n: nat)
    requires Span(n, 4) <= |W| && p + |W| <= |s|
    requires forall j :: 0 <= j < |W| ==> s[p + j] == W[j]
    ensures p + Span(n, 4) <= |s| && WordsAt(s, p, n) == WordsAt(W, 0, n)
  {
    var a := WordsAt(s, p, n);
    var b := WordsAt(W, 0, n);
    forall k | 0 <= k < n ensures a[k] == b[k] {
      WordsAtIndex(s, p, n, k);
      WordsAtIndex(W, 0, n, k);
      var o := 4 * k;
      assert s[p + o] == W[o] && s[p + (o + 1)] == W[o + 1]
          && s[p + (o + 2)] == W[o + 2] && s[p + (o + 3)] == W[o + 3];
    }
  }

  /** The encoding of `ws` reads back as `ws` from its start. */
  lemma {:induction false} WordsRead(ws: seq<u32>)
    ensures |EncodeWords(ws)| == Span(|ws|, 4)
    ensures WordsAt(EncodeWords(ws), 0, |ws|) == ws
  {
    WordsRoundTrip([], ws, []);
    assert [] + EncodeWords(ws) + [] == EncodeWords(ws);
  }

  lemma {:induction false} WordsRoundTrip(pre: seq<byte>, ws: seq<u32>, post: seq<byte>)
    ensures |EncodeWords(ws)| == Span(|ws|, 4) == 4 * |ws|
    ensures WordsAt(pre + EncodeWords(ws) + post, |pre|, |ws|) == ws
  {
    BlocksOfFlatten(pre, WordBlocks(ws), 4, post);
    SpanIsMul(|ws|, 4);
    WordsOfBlocks(ws);
    WordsAtBlocks(pre + EncodeWords(ws) + post, |pre|, |ws|);
  }

  lemma {:induction false} WordsOfBlocks(ws: seq<u32>)
    ensures WordsOf(WordBlocks(ws)) == ws
    decreases |ws|
  {
    if |ws| > 0 {
      assert WordBlocks(ws)[1..] == WordBlocks(ws[1..]);
      WordsOfBlocks(ws[1..]);
      U32RoundTrip(ws[0]);
    }
  }

  /** The offset of the first NUL byte at or after `from`, if any. */
  function NulIndex(s: seq<byte>, from: nat): (r: Option<nat>)
    ensures r.Some? ==> from <= r.value < |s| && s[r.value] == 0
    decreases |s| - from
  {
    if from >= |s| then None
    else if s[from] == 0 then Some(from)
    else NulIndex(s, from + 1)
  }

  /** The NUL found is the first one, and when none is found there is none. */
  lemma {:induction false} NulIndexFirst(s: seq<byte>, from: nat)
    ensures NulIndex(s, from).Some? ==> forall j :: from <= j < NulIndex(s, from).value ==> s[j] != 0
    ensures NulIndex(s, from).None? ==> forall j :: from <= j < |s| ==> s[j] != 0
    decreases |s| - from
  {
    if from < |s| && s[from] != 0 {
      NulIndexFirst(s, from + 1);
    }
  }

  /** A NUL with none before it is the one found. */
  lemma {:induction false} NulIndexIs(s: seq<byte>, from: nat, z: nat)
    requires from <= z < |s| && s[z] == 0
    requires forall j :: from <= j < z ==> s[j] != 0
    ensures NulIndex(s, from) == Some(z)
    decreases z - from
  {
    if from < z {
      NulIndexIs(s, from + 1, z);
    }
  }

  /** With no NUL from `from` on, none is found. */
  lemma {:induction false} NulIndexNone(s: seq<byte>, from: nat)
    requires forall j :: from <= j < |s| ==> s[j] != 0
    ensures NulIndex(s, from) == None
    decreases |s| - from
  {
    if from < |s| {
      NulIndexNone(s, from + 1);
    }
  }
}
