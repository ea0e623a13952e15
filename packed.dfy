/**
 * The packed 3-byte fields of a GFD glyph entry. The accessors reverse the
 * three stored bytes, fold them most significant first into an integer
 * (`(output << 8) | b`), and take the low 12 bits (`& 0xFFF`) as the X or
 * width component and the rest (`>> 12`) as the Y or height component.
 */
module Packed {
  import opened Bits
  import opened Bytes

  type Triple = s: seq<byte> | |s| == 3 witness [0, 0, 0]

  /** Folds the bytes into an integer, the first byte most significant. */
  function GetInt(ba: seq<byte>): nat
  {
    if |ba| == 0 then 0 else Or(Shl(GetInt(ba[..|ba| - 1]), 8), ba[|ba| - 1])
  }

  function Reverse(s: seq<byte>): (r: seq<byte>)
    ensures |r| == |s|
    ensures forall i :: 0 <= i < |s| ==> r[i] == s[|s| - 1 - i]
  {
    if |s| == 0 then [] else [s[|s| - 1]] + Reverse(s[..|s| - 1])
  }

  /** The 24-bit value of a field: the stored bytes reversed, then folded. */
  function Field(raw: Triple): nat
  {
    GetInt(Reverse(raw))
  }

  /** The low component (`value & 0xFFF`): GlyphPosX, GlyphWidth, CharWidth. */
  function Low(raw: Triple): nat
  {
    And(Field(raw), 0xFFF)
  }

  /** The high component (`value >> 12`): GlyphPosY, GlyphHeight, CharHeight. */
  function High(raw: Triple): nat
  {
    Shr(Field(raw), 12)
  }

  /** The three stored bytes read little-endian. */
  function LeValue(raw: Triple): nat
  {
    (raw[0] as int) + 0x100 * (raw[1] as int) + 0x1_0000 * (raw[2] as int)
  }

  /** Reversing then folding makes the stored byte 0 the least significant. */
  lemma {:induction false} FieldValue(raw: Triple)
    ensures Field(raw) == LeValue(raw)
  {
    Pow2Values();
    var r := Reverse(raw);
    assert r == [raw[2], raw[1], raw[0]];
    assert r[..2] == [raw[2], raw[1]];
    assert r[..2][..1] == [raw[2]];
    assert r[..2][..1][..0] == [];
    var b0: int, b1: int, b2: int := raw[0], raw[1], raw[2];
    OrShifted(0, raw[2], 8);
    ShlIsMul(0, 8);
    assert GetInt([raw[2]]) == b2;
    OrShifted(b2, raw[1], 8);
    ShlIsMul(b2, 8);
    assert GetInt([raw[2], raw[1]]) == 0x100 * b2 + b1;
    OrShifted(0x100 * b2 + b1, raw[0], 8);
    ShlIsMul(0x100 * b2 + b1, 8);
  }

  lemma {:induction false} LowHighOf(v: nat)
    ensures And(v, 0xFFF) == v % 0x1000
    ensures Shr(v, 12) == v / 0x1000
  {
    Pow2Values();
    ShrAndSplit(v, 12);
    var hi, lo := Shr(v, 12), And(v, 0xFFF);
    ShlIsMul(hi, 12);
    assert v == lo + 0x1000 * hi;
    DivMod4096(v, lo, hi);
  }

  /** Both components, each below 4096, and together they make up the field. */
  function Split(raw: Triple): (p: (nat, nat))
    ensures p.0 < 0x1000 && p.1 < 0x1000
    ensures p.1 * 0x1000 + p.0 == LeValue(raw)
    ensures p.0 == LeValue(raw) % 0x1000
    ensures p.1 == LeValue(raw) / 0x1000
  {
    FieldValue(raw);
    LowHighOf(Field(raw));
    (Low(raw), High(raw))
  }

  /** The field that stores the components `low` and `high`. */
  function Pack(low: nat, high: nat): (raw: Triple)
    requires low < 0x1000 && high < 0x1000
  {
    var v := high * 0x1000 + low;
    [v % 0x100, (v / 0x100) % 0x100, v / 0x1_0000]
  }

  lemma {:induction false} DivMod4096(n: int, lo: int, hi: int)
    requires 0 <= lo < 0x1000 && n == lo + 0x1000 * hi
    ensures n % 0x1000 == lo && n / 0x1000 == hi
  {
  }

  lemma {:induction false} PackValue(low: nat, high: nat)
    requires low < 0x1000 && high < 0x1000
    ensures LeValue(Pack(low, high)) == high * 0x1000 + low
  {
    var raw := Pack(low, high);
    var v := high * 0x1000 + low;
    var a := v / 0x100;
    assert v == 0x100 * a + v % 0x100;
    assert a == 0x100 * (a / 0x100) + a % 0x100;
    assert a / 0x100 == v / 0x1_0000;
  }
  lemma {:induction false} SplitPack(low: nat, high: nat)
    requires low < 0x1000 && high < 0x1000
    ensures Split(Pack(low, high)) == (low, high)
  {
    PackValue(low, high);
    var raw := Pack(low, high);
    var p := Split(raw);
    var v := high * 0x1000 + low;
    DivMod4096(v, low, high);
  }

  /** Splitting then packing gives the field back: the split is a bijection. */
  lemma {:induction false} PackSplit(raw: Triple)
    ensures Pack(Split(raw).0, Split(raw).1) == raw
  {
    var p := Split(raw);
    var v := p.1 * 0x1000 + p.0;
    var b0: int, b1: int, b2: int := raw[0], raw[1], raw[2];
    assert v == b0 + 0x100 * (b1 + 0x100 * b2);
    DivMod256(v, b0, b1 + 0x100 * b2);
    DivMod256(b1 + 0x100 * b2, b1, b2);
    assert v / 0x1_0000 == (v / 0x100) / 0x100;
  }

  /** The stored bytes 12 34 56 hold X = 0x412 and Y = 0x563. */
  lemma {:induction false} SplitExample(raw: Triple)
    requires raw == [0x12, 0x34, 0x56]
    ensures Split(raw) == (0x412, 0x563)
  {
    assert LeValue(raw) == 0x56_3412;
    DivMod4096(0x56_3412, 0x412, 0x563);
  }
}
