/**
 * The glyph image operations of the text renderer that do not depend on the
 * graphics library: the truncating float-to-int cast, the target
 * dimensions of a rescaled glyph, and recolouring a glyph pixel by pixel.
 */
module Imaging {
  import opened Wrappers
  import opened Bytes

  // ---------------------------------------------------------------- Scaling

  /** The C# `(int)` cast of a real: its integer part, rounding toward zero. */
  function Trunc(x: real): (r: int)
    ensures x >= 0.0 ==> r as real <= x < r as real + 1.0
    ensures x < 0.0 ==> r as real - 1.0 < x <= r as real
  {
    if x >= 0.0 then x.Floor else -((-x).Floor)
  }

  /** The truncation of a value that already is an integer is that integer. */
  lemma {:induction false} TruncOfInt(n: int)
    ensures Trunc(n as real) == n
  {
  }

  /** Truncation keeps the order of its arguments. */
  lemma {:induction false} TruncMono(x: real, y: real)
    requires x <= y
    ensures Trunc(x) <= Trunc(y)
  {
  }

  /**
   * The dimension `ChangeSize` computes for a side of `len` pixels: the side
   * scaled by `size / orig`, forced to 1 when it lies in [0, 1), then
   * truncated.
   */
  function ScaledDim(len: int, orig: real, size: real): int
    requires orig != 0.0
  {
    var d := len as real / orig * size;
    var clamped := if (d > 0.0 && d < 1.0) || d == 0.0 then 1.0 else d;
    Trunc(clamped)
  }

  /** A side whose scaled length is not negative gets at least one pixel. */
  lemma {:induction false} ScaledDimPositive(len: int, orig: real, size: real)
    requires orig != 0.0 && len as real / orig * size >= 0.0
    ensures ScaledDim(len, orig, size) >= 1
  {
  }

  /** Past one pixel the scaled side is truncated, not rounded. */
  lemma {:induction false} ScaledDimLarge(len: int, orig: real, size: real)
    requires orig != 0.0 && len as real / orig * size >= 1.0
    ensures ScaledDim(len, orig, size) == Trunc(len as real / orig * size)
    ensures ScaledDim(len, orig, size) as real <= len as real / orig * size < ScaledDim(len, orig, size) as real + 1.0
  {
  }

  /** A negative scaled side (a negative size) is not clamped: it stays at or below zero. */
  lemma {:induction false} ScaledDimNegative(len: int, orig: real, size: real)
    requires orig != 0.0 && len as real / orig * size < 0.0
    ensures ScaledDim(len, orig, size) <= 0
  {
  }

  /** A side of at least one pixel scales to no pixel exactly when the size ratio is negative. */
  lemma {:induction false} ScaledDimEmpty(len: int, orig: real, size: real)
    requires len > 0 && orig != 0.0
    ensures ScaledDim(len, orig, size) <= 0 <==> size / orig < 0.0
  {
    var q := size / orig;
    assert len as real / orig * size == len as real * q;
    if q < 0.0 {
      assert len as real * q < 0.0;
      ScaledDimNegative(len, orig, size);
    } else {
      assert len as real * q >= 0.0;
      ScaledDimPositive(len, orig, size);
    }
  }

  /** At the font's own size every side is kept, except that an empty side becomes one pixel. */
  lemma {:induction false} ScaledDimSameSize(len: nat, orig: real)
    requires orig != 0.0
    ensures ScaledDim(len, orig, orig) == if len == 0 then 1 else len
  {
    assert len as real / orig * orig == len as real;
  }

  // ------------------------------------------------------------- Recolouring

  /** An ARGB pixel as `GetPixel` returns it. */
  datatype Pixel = Pixel(a: byte, r: byte, g: byte, b: byte)

  /**
   * A .NET colour: its ARGB components and, for a named colour, its name.
   * Two colours are equal only when the name agrees as well, so an unnamed
   * opaque white is not `Color.White`.
   */
  datatype Color = Color(a: byte, r: byte, g: byte, b: byte, name: Option<string>)

  const White: Color := Color(0xFF, 0xFF, 0xFF, 0xFF, Some("White"))

  /** The pixel `SetPixel` writes: the old alpha with the colour's red, green and blue. */
  function Tint(p: Pixel, c: Color): Pixel
  {
    Pixel(p.a, c.r, c.g, c.b)
  }

  /** Tinting keeps the alpha and takes everything else from the colour. */
  lemma {:induction false} TintAlpha(p: Pixel, q: Pixel, c: Color)
    ensures Tint(p, c).a == p.a
    ensures Tint(p, c) == Tint(q, c) <==> p.a == q.a
  {
  }

  /** Tinting twice with the same colour is tinting once. */
  lemma {:induction false} TintIdempotent(p: Pixel, c: Color)
    ensures Tint(Tint(p, c), c) == Tint(p, c)
  {
  }

  /** Of two tints the last one wins. */
  lemma {:induction false} TintLastWins(p: Pixel, c: Color, d: Color)
    ensures Tint(Tint(p, c), d) == Tint(p, d)
  {
  }

  /** Tinting with an opaque colour leaves an opaque pixel's colour equal to it. */
  lemma {:induction false} TintOpaque(p: Pixel, c: Color)
    requires p.a == 0xFF && c.a == 0xFF
    ensures Tint(p, c) == Pixel(c.a, c.r, c.g, c.b)
  {
  }

  /**
   * `ChangeColor`: rows top to bottom, each left to right, every pixel
   * replaced by its tint; the image is indexed by row, then column.
   */
  method ChangeColor(img: array2<Pixel>, color: Color)
    modifies img
    ensures forall y, x :: 0 <= y < img.Length0 && 0 <= x < img.Length1 ==>
      img[y, x] == Tint(old(img[y, x]), color)
  {
    var y := 0;
    while y < img.Length0
      invariant 0 <= y <= img.Length0
      invariant forall i, j :: 0 <= i < y && 0 <= j < img.Length1 ==> img[i, j] == Tint(old(img[i, j]), color)
      invariant forall i, j :: y <= i < img.Length0 && 0 <= j < img.Length1 ==> img[i, j] == old(img[i, j])
    {
      var x := 0;
      while x < img.Length1
        invariant 0 <= x <= img.Length1
        invariant forall i, j :: 0 <= i < y && 0 <= j < img.Length1 ==> img[i, j] == Tint(old(img[i, j]), color)
        invariant forall j :: 0 <= j < x ==> img[y, j] == Tint(old(img[y, j]), color)
        invariant forall j :: x <= j < img.Length1 ==> img[y, j] == old(img[y, j])
        invariant forall i, j :: y < i < img.Length0 && 0 <= j < img.Length1 ==> img[i, j] == old(img[i, j])
      {
        img[y, x] := Tint(img[y, x], color);
        x := x + 1;
      }
      y := y + 1;
    }
  }
}
