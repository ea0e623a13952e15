/**
 * Measuring and drawing text with a constructed renderer. The text is split
 * into lines on CR LF; each code unit is looked up in the font's entries;
 * advances are scaled by `fontSize / origFontSize` and truncated glyph by
 * glyph. Drawing yields the sequence of glyph images it composites, with
 * their positions, instead of painting a graphics surface.
 */
module TextLayout {
  import opened Wrappers
  import opened Bytes
  import opened Gfd
  import opened Lines
  import opened Imaging
  import opened TextRenderer

  // ------------------------------------------------------------------ Lookup

  /** The first entry from index `i` on whose character is the code unit `c`. */
  function FindFrom(es: seq<Entry>, c: Unit, i: nat): (r: Option<nat>)
    ensures r.Some? ==> i <= r.value < |es| && es[r.value].character == c
    ensures r.Some? ==> forall j :: i <= j < r.value ==> es[j].character != c
    ensures r.None? ==> forall j :: i <= j < |es| ==> es[j].character != c
    decreases |es| - i
  {
    if i >= |es| then None
    else if es[i].character == c then Some(i)
    else FindFrom(es, c, i + 1)
  }

  /** `Characters.Find(ch => ch.Character == c)`: the first matching entry in table order, if any. */
  function Lookup(r: Renderer, c: Unit): Option<Entry>
  {
    match FindFrom(r.font.characters, c, 0)
    case Some(i) => Some(r.font.characters[i])
    case None => None
  }

  /**
   * The entry found is an entry of the table for `c` with no earlier one
   * for `c`, and nothing is found only when no entry is for `c`; so an
   * entry whose character is beyond the 16-bit range is never found.
   */
  lemma {:induction false} LookupFirst(r: Renderer, c: Unit)
    ensures var es := r.font.characters;
      Lookup(r, c).Some? <==> exists j :: 0 <= j < |es| && es[j].character == c
    ensures var es := r.font.characters;
      Lookup(r, c).Some? ==>
        exists i :: 0 <= i < |es| && Lookup(r, c) == Some(es[i]) && es[i].character == c
          && forall j :: 0 <= j < i ==> es[j].character != c
    ensures Lookup(r, c).Some? ==> Lookup(r, c).value.character < 0x1_0000
  {
    var es := r.font.characters;
    var f := FindFrom(es, c, 0);
    if f.Some? {
      assert es[f.value].character == c;
    }
  }

  // ----------------------------------------------------------------- Measure

  /** `(int)(n / origFontSize * FontSize)`. */
  function Scale(r: Renderer, n: int): int
    requires r.origFontSize != 0.0
  {
    Trunc(n as real / r.origFontSize * r.fontSize)
  }

  /** The width a code unit adds when measured: its CharWidth plus one, or 16 plus one when absent. */
  function MeasureAdvance(r: Renderer, c: Unit): int
    requires r.origFontSize != 0.0
  {
    var w := match Lookup(r, c) case Some(e) => e.CharWidth() case None => 16;
    Scale(r, w + 1)
  }

  /** The inner `Aggregate`: the measured advances of a line, added left to right. */
  function LineWidth(r: Renderer, cs: Text): int
    requires r.origFontSize != 0.0
    decreases |cs|
  {
    if |cs| == 0 then 0 else LineWidth(r, cs[..|cs| - 1]) + MeasureAdvance(r, cs[|cs| - 1])
  }

  datatype Size = Size(width: int, height: int)

  /** The outer `Aggregate` from `Size(0, 0)`: the widest line, and a scaled line height per line. */
  function MeasureLines(r: Renderer, ls: seq<Text>): Size
    requires r.origFontSize != 0.0
    decreases |ls|
  {
    if |ls| == 0 then Size(0, 0)
    else
      var o := MeasureLines(r, ls[..|ls| - 1]);
      var w := LineWidth(r, ls[|ls| - 1]);
      Size(if o.width < w then w else o.width, o.height + Scale(r, r.lineHeight))
  }

  /** `MeasureText`. */
  function MeasureText(r: Renderer, text: Text): Size
    requires r.origFontSize != 0.0
  {
    MeasureLines(r, SplitLines(text))
  }

  /** The measured width is the largest line width, or 0 when every line is narrower. */
  lemma {:induction false} MeasureLinesWidth(r: Renderer, ls: seq<Text>)
    requires r.origFontSize != 0.0
    ensures var w := MeasureLines(r, ls).width;
      && w >= 0
      && (forall k :: 0 <= k < |ls| ==> LineWidth(r, ls[k]) <= w)
      && (w == 0 || exists k :: 0 <= k < |ls| && w == LineWidth(r, ls[k]))
    decreases |ls|
  {
    if |ls| > 0 {
      var init := ls[..|ls| - 1];
      MeasureLinesWidth(r, init);
      forall k | 0 <= k < |ls| - 1 ensures ls[k] == init[k] { }
      var w := MeasureLines(r, init).width;
      if w != 0 && MeasureLines(r, ls).width == w {
        var k :| 0 <= k < |init| && w == LineWidth(r, init[k]);
        assert ls[k] == init[k];
      }
    }
  }

  /** The measured height is the scaled line height once per line. */
  lemma {:induction false} MeasureLinesHeight(r: Renderer, ls: seq<Text>)
    requires r.origFontSize != 0.0
    ensures MeasureLines(r, ls).height == |ls| * Scale(r, r.lineHeight)
    decreases |ls|
  {
    if |ls| > 0 {
      var init := ls[..|ls| - 1];
      var step := Scale(r, r.lineHeight);
      MeasureLinesHeight(r, init);
      assert MeasureLines(r, ls).height == MeasureLines(r, init).height + step;
      NextRow(0, |init|, step);
    }
  }

  /**
   * A text measures as wide as its widest line and as high as one scaled
   * line height for each line, empty and trailing lines included.
   */
  lemma {:induction false} MeasureTextSize(r: Renderer, text: Text)
    requires r.origFontSize != 0.0
    ensures var s := MeasureText(r, text);
      var ls := SplitLines(text);
      && s.height == (CountBreaks(text) + 1) * Scale(r, r.lineHeight)
      && s.width >= 0
      && (forall k :: 0 <= k < |ls| ==> LineWidth(r, ls[k]) <= s.width)
      && (s.width == 0 || exists k :: 0 <= k < |ls| && s.width == LineWidth(r, ls[k]))
  {
    SplitCount(text);
    MeasureLinesHeight(r, SplitLines(text));
    MeasureLinesWidth(r, SplitLines(text));
  }

  /** The empty text is a single empty line: width 0, one scaled line height. */
  lemma {:induction false} MeasureEmpty(r: Renderer)
    requires r.origFontSize != 0.0
    ensures MeasureText(r, []) == Size(0, Scale(r, r.lineHeight))
  {
    var ls: seq<Text> := [[]];
    assert SplitLines([]) == ls;
    assert ls[..0] == [];
  }

  /** Line widths add up: each glyph's advance is truncated on its own. */
  lemma {:induction false} LineWidthAppend(r: Renderer, a: Text, b: Text)
    requires r.origFontSize != 0.0
    ensures LineWidth(r, a + b) == LineWidth(r, a) + LineWidth(r, b)
    decreases |b|
  {
    if |b| == 0 {
      assert a + b == a;
    } else {
      var b' := b[..|b| - 1];
      LineWidthAppend(r, a, b');
      assert (a + b)[..|a + b| - 1] == a + b';
      assert (a + b)[|a + b| - 1] == b[|b| - 1];
    }
  }

  // ------------------------------------------------ Measuring at other sizes

  /** `n / origFontSize * FontSize` before the `(int)` cast. */
  function Exact(r: Renderer, n: int): real
    requires r.origFontSize != 0.0
  {
    n as real / r.origFontSize * r.fontSize
  }

  /** The width measuring counts for a code unit before the gap: its CharWidth, or 16 when absent. */
  function MeasuredWidth(r: Renderer, c: Unit): nat
  {
    match Lookup(r, c) case Some(e) => e.CharWidth() case None => 16
  }

  /** The measured advance of a code unit before truncation. */
  function ExactAdvance(r: Renderer, c: Unit): real
    requires r.origFontSize != 0.0
  {
    Exact(r, MeasuredWidth(r, c) + 1)
  }

  /** The measured advance is the truncated exact advance. */
  lemma {:induction false} AdvanceExact(r: Renderer, c: Unit)
    requires r.origFontSize != 0.0
    ensures MeasureAdvance(r, c) == Trunc(ExactAdvance(r, c))
  {
  }

  /** The width of a line had its advances not been truncated. */
  function ExactWidth(r: Renderer, cs: Text): real
    requires r.origFontSize != 0.0
    decreases |cs|
  {
    if |cs| == 0 then 0.0 else ExactWidth(r, cs[..|cs| - 1]) + ExactAdvance(r, cs[|cs| - 1])
  }

  /** A non-negative length scaled by a non-negative ratio is not negative. */
  lemma {:induction false} ExactNonNeg(r: Renderer, n: nat)
    requires r.origFontSize > 0.0 && r.fontSize >= 0.0
    ensures Exact(r, n) >= 0.0
  {
    var q := n as real / r.origFontSize;
    assert q >= 0.0;
    assert q * r.fontSize >= 0.0;
  }

  /** A non-negative length scales up with the requested size. */
  lemma {:induction false} ExactMono(r: Renderer, n: nat, size: real)
    requires r.origFontSize > 0.0 && r.fontSize <= size
    ensures Exact(r, n) <= Exact(r.(fontSize := size), n)
  {
    var q := n as real / r.origFontSize;
    assert q >= 0.0;
    assert q * r.fontSize <= q * size;
  }

  /** Each measured advance is its exact advance truncated: at most one pixel less. */
  lemma {:induction false} AdvanceIsTrunc(r: Renderer, c: Unit)
    requires r.origFontSize > 0.0 && r.fontSize >= 0.0
    ensures MeasureAdvance(r, c) as real <= ExactAdvance(r, c) < MeasureAdvance(r, c) as real + 1.0
  {
    AdvanceExact(r, c);
    ExactNonNeg(r, MeasuredWidth(r, c) + 1);
  }

  lemma {:induction false} StepBounds(lw: real, ew: real, la: real, ea: real, n: real)
    requires lw <= ew <= lw + n && la <= ea < la + 1.0
    ensures lw + la <= ew + ea <= (lw + la) + (n + 1.0)
  {
  }

  /**
   * Measuring a line loses less than one pixel per code unit to truncation:
   * its width is within `|cs|` pixels below its exact scaled width.
   */
  lemma {:induction false} LineWidthError(r: Renderer, cs: Text)
    requires r.origFontSize > 0.0 && r.fontSize >= 0.0
    ensures LineWidth(r, cs) as real <= ExactWidth(r, cs) <= LineWidth(r, cs) as real + |cs| as real
    decreases |cs|
  {
    if |cs| > 0 {
      var init, c := cs[..|cs| - 1], cs[|cs| - 1];
      LineWidthError(r, init);
      AdvanceIsTrunc(r, c);
      StepBounds(LineWidth(r, init) as real, ExactWidth(r, init),
                 MeasureAdvance(r, c) as real, ExactAdvance(r, c), |init| as real);
    }
  }

  /** A larger requested size never measures a code unit narrower. */
  lemma {:induction false} MeasureAdvanceMono(r: Renderer, c: Unit, size: real)
    requires r.origFontSize > 0.0 && r.fontSize <= size
    ensures MeasureAdvance(r, c) <= MeasureAdvance(r.(fontSize := size), c)
  {
    var r' := r.(fontSize := size);
    assert MeasuredWidth(r', c) == MeasuredWidth(r, c);
    AdvanceExact(r, c);
    AdvanceExact(r', c);
    ExactMono(r, MeasuredWidth(r, c) + 1, size);
    TruncMono(ExactAdvance(r, c), ExactAdvance(r', c));
  }

  /** A larger requested size never measures a line narrower. */
  lemma {:induction false} LineWidthMono(r: Renderer, cs: Text, size: real)
    requires r.origFontSize > 0.0 && r.fontSize <= size
    ensures LineWidth(r, cs) <= LineWidth(r.(fontSize := size), cs)
    decreases |cs|
  {
    if |cs| > 0 {
      LineWidthMono(r, cs[..|cs| - 1], size);
      MeasureAdvanceMono(r, cs[|cs| - 1], size);
    }
  }

  /** A larger requested size never measures a text narrower. */
  lemma {:induction false} MeasureWidthMono(r: Renderer, ls: seq<Text>, size: real)
    requires r.origFontSize > 0.0 && r.fontSize <= size
    ensures MeasureLines(r, ls).width <= MeasureLines(r.(fontSize := size), ls).width
    decreases |ls|
  {
    if |ls| > 0 {
      MeasureWidthMono(r, ls[..|ls| - 1], size);
      LineWidthMono(r, ls[|ls| - 1], size);
    }
  }

  /**
   * Measuring a text at a requested size at least the current one gives a
   * width at least as large, and each line's measured width lies within
   * one pixel per code unit below its exact scaled width.
   */
  lemma {:induction false} MeasureTextMono(r: Renderer, text: Text, size: real)
    requires r.origFontSize > 0.0 && 0.0 <= r.fontSize <= size
    ensures MeasureText(r, text).width <= MeasureText(r.(fontSize := size), text).width
    ensures forall k :: 0 <= k < |SplitLines(text)| ==>
      var l := SplitLines(text)[k];
      LineWidth(r, l) as real <= ExactWidth(r, l) <= LineWidth(r, l) as real + |l| as real
  {
    MeasureWidthMono(r, SplitLines(text), size);
    forall k | 0 <= k < |SplitLines(text)|
      ensures var l := SplitLines(text)[k];
        LineWidth(r, l) as real <= ExactWidth(r, l) <= LineWidth(r, l) as real + |l| as real
    {
      LineWidthError(r, SplitLines(text)[k]);
    }
  }

  // -------------------------------------------------------------------- Draw

  /** A glyph is composited only when its atlas rectangle has non-zero width and height. */
  predicate Drawable(e: Entry)
  {
    e.GlyphWidth() != 0 && e.GlyphHeight() != 0
  }

  /** The x advance in drawing: CharWidth plus one for a composited glyph, 16 plus one otherwise. */
  function DrawAdvance(r: Renderer, c: Unit): int
    requires r.origFontSize != 0.0
  {
    match Lookup(r, c)
    case Some(e) => if Drawable(e) then Scale(r, e.CharWidth() + 1) else Scale(r, 16 + 1)
    case None => Scale(r, 16 + 1)
  }

  /**
   * One composited glyph: the entry whose atlas rectangle is cut out, where
   * it is drawn, the size it is drawn at, and the colour it is tinted with
   * (none for `Color.White`).
   */
  datatype Blit = Blit(glyph: Entry, x: int, y: int, width: int, height: int, tint: Option<Color>)

  /**
   * The composite for entry `e` with the cursor at (x, y): version 2 fonts
   * shift it by the entry's corrections; a font size other than the font's
   * own rescales it; a colour other than white tints it.
   */
  function GlyphBlit(r: Renderer, e: Entry, x: int, y: int, color: Color): Blit
    requires r.origFontSize != 0.0
  {
    var v2 := HeaderVersion(r.font.header) == V2;
    var px := if v2 then x + e.xCorrection else x;
    var py := if v2 then y + e.yCorrection else y;
    var w := if r.fontSize != r.origFontSize then ScaledDim(e.GlyphWidth(), r.origFontSize, r.fontSize) else e.GlyphWidth();
    var h := if r.fontSize != r.origFontSize then ScaledDim(e.GlyphHeight(), r.origFontSize, r.fontSize) else e.GlyphHeight();
    Blit(e, px, py, w, h, if color != White then Some(color) else None)
  }

  /** What one code unit composites with the cursor at (x, y). */
  function CharOps(r: Renderer, c: Unit, x: int, y: int, color: Color): seq<Blit>
    requires r.origFontSize != 0.0
  {
    match Lookup(r, c)
    case Some(e) => if Drawable(e) then [GlyphBlit(r, e, x, y, color)] else []
    case None => []
  }

  /** How far the cursor moves while a line is drawn. */
  function DrawWidth(r: Renderer, cs: Text): int
    requires r.origFontSize != 0.0
    decreases |cs|
  {
    if |cs| == 0 then 0 else DrawWidth(r, cs[..|cs| - 1]) + DrawAdvance(r, cs[|cs| - 1])
  }

  /** The composites of a line drawn from (x0, y), in order. */
  function LineOps(r: Renderer, cs: Text, x0: int, y: int, color: Color): seq<Blit>
    requires r.origFontSize != 0.0
    decreases |cs|
  {
    if |cs| == 0 then []
    else
      var init := cs[..|cs| - 1];
      LineOps(r, init, x0, y, color) + CharOps(r, cs[|cs| - 1], x0 + DrawWidth(r, init), y, color)
  }

  /** The composites of the lines, line k drawn from (x0, y0 + k * lineHeight). */
  function TextOps(r: Renderer, ls: seq<Text>, x0: int, y0: int, color: Color): seq<Blit>
    requires r.origFontSize != 0.0
    decreases |ls|
  {
    if |ls| == 0 then []
    else
      var k := |ls| - 1;
      TextOps(r, ls[..k], x0, y0, color) + LineOps(r, ls[k], x0, y0 + k * r.lineHeight, color)
  }

  // ------------------------------------------------------------- Exceptions

  /**
   * Compositing `b` throws: its glyph's texture index is past the loaded
   * textures (`fontTextures[TexID]`), or a side of the rescaled glyph is not
   * positive (`new Bitmap` in `ResizeImage`).
   */
  predicate Throws(r: Renderer, b: Blit)
  {
    b.glyph.texId >= |r.textures| || b.width <= 0 || b.height <= 0
  }

  /** No composite of `bs` throws. */
  predicate NoneThrows(r: Renderer, bs: seq<Blit>)
  {
    forall j :: 0 <= j < |bs| ==> !Throws(r, bs[j])
  }

  /**
   * What becomes of the composites `all` when they are drawn in order:
   * `drawn` are those composited before the first one that throws, and
   * `thrown` says whether one throws; when none does, all are drawn.
   */
  predicate DrawnUntilThrow(r: Renderer, all: seq<Blit>, drawn: seq<Blit>, thrown: bool)
  {
    && drawn <= all && NoneThrows(r, drawn)
    && (if thrown then |drawn| < |all| && Throws(r, all[|drawn|]) else drawn == all)
  }

  /** Drawing throws exactly when some composite throws. */
  lemma {:induction false} DrawnThrows(r: Renderer, all: seq<Blit>, drawn: seq<Blit>, thrown: bool)
    requires DrawnUntilThrow(r, all, drawn, thrown)
    ensures thrown <==> exists j :: 0 <= j < |all| && Throws(r, all[j])
  {
    if thrown {
      assert Throws(r, all[|drawn|]);
    } else {
      assert NoneThrows(r, all);
    }
  }

  /** The outcome of drawing is determined by the composites: the first that throws stops it. */
  lemma {:induction false} DrawnUnique(r: Renderer, all: seq<Blit>, d1: seq<Blit>, t1: bool, d2: seq<Blit>, t2: bool)
    requires DrawnUntilThrow(r, all, d1, t1) && DrawnUntilThrow(r, all, d2, t2)
    ensures d1 == d2 && t1 == t2
  {
    DrawnThrows(r, all, d1, t1);
    DrawnThrows(r, all, d2, t2);
    if t1 && t2 {
      assert d1 == all[..|d1|] && d2 == all[..|d2|];
    }
  }

  /** A drawn part that did not throw is the whole part, and nothing drawn so far throws. */
  lemma {:induction false} DrawnContinue(r: Renderer, done: seq<Blit>, part: seq<Blit>, drawn: seq<Blit>)
    requires NoneThrows(r, done) && DrawnUntilThrow(r, part, drawn, false)
    ensures drawn == part && NoneThrows(r, done + drawn)
  {
    forall j | 0 <= j < |done + drawn| ensures !Throws(r, (done + drawn)[j]) {
      if j >= |done| {
        assert (done + drawn)[j] == drawn[j - |done|];
      }
    }
  }

  /**
   * A part that threw after everything before it was drawn stops the whole
   * drawing there.
   */
  lemma {:induction false} DrawnStop(r: Renderer, done: seq<Blit>, part: seq<Blit>, drawn: seq<Blit>, all: seq<Blit>)
    requires NoneThrows(r, done) && DrawnUntilThrow(r, part, drawn, true) && done + part <= all
    ensures DrawnUntilThrow(r, all, done + drawn, true)
  {
    var n := |done + drawn|;
    assert all[n] == (done + part)[n] == part[|drawn|];
    assert done + drawn <= done + part;
    forall j | 0 <= j < n ensures !Throws(r, (done + drawn)[j]) {
      if j >= |done| {
        assert (done + drawn)[j] == drawn[j - |done|];
      }
    }
  }

  /**
   * A composited glyph throws exactly when its texture index is out of
   * range, or the size is changed by a negative ratio: a drawable glyph
   * scaled by a non-negative ratio keeps at least one pixel per side.
   */
  lemma {:induction false} GlyphThrows(r: Renderer, e: Entry, x: int, y: int, color: Color)
    requires r.origFontSize != 0.0 && Drawable(e)
    ensures Throws(r, GlyphBlit(r, e, x, y, color)) <==>
      (e.texId >= |r.textures| || (r.fontSize != r.origFontSize && r.fontSize / r.origFontSize < 0.0))
  {
    if r.fontSize != r.origFontSize {
      ScaledDimEmpty(e.GlyphWidth(), r.origFontSize, r.fontSize);
      ScaledDimEmpty(e.GlyphHeight(), r.origFontSize, r.fontSize);
    }
  }

  // ------------------------------------------------------------ Draw methods

  /**
   * `DrawText`: for each line, for each code unit, composite the glyph if
   * it is drawable and advance x; after each line x goes back to the start
   * and y moves down by the unscaled line height. A composite that throws
   * ends the drawing; what was composited before it stays drawn.
   */
  method DrawText(r: Renderer, text: Text, px: int, py: int, color: Color) returns (ops: seq<Blit>, thrown: bool)
    requires r.origFontSize != 0.0
    ensures DrawnUntilThrow(r, TextOps(r, SplitLines(text), px, py, color), ops, thrown)
  {
    var lines := SplitLines(text);
    var x := px;
    var y := py;
    ops := [];
    var k := 0;
    while k < |lines|
      invariant 0 <= k <= |lines|
      invariant x == px && y == py + k * r.lineHeight
      invariant ops == TextOps(r, lines[..k], px, py, color) && NoneThrows(r, ops)
    {
      var lineOps, lineThrown;
      lineOps, x, lineThrown := DrawLine(r, lines[k], x, y, color);
      TextStep(r, lines, px, py, color, k, ops, lineOps, lineThrown);
      ops := ops + lineOps;
      if lineThrown {
        thrown := true;
        return;
      }
      x := px;
      y := y + r.lineHeight;
      NextRow(py, k, r.lineHeight);
      k := k + 1;
    }
    assert lines[..|lines|] == lines;
    thrown := false;
  }

  lemma {:induction false} NextRow(y0: int, k: int, h: int)
    ensures y0 + k * h + h == y0 + (k + 1) * h
  {
  }

  /**
   * One more line of a text: its composites are appended, or, when one of
   * them throws, the drawing of the whole text stops there.
   */
  lemma {:induction false} TextStep(r: Renderer, ls: seq<Text>, x0: int, y0: int, color: Color, k: nat,
                                    ops: seq<Blit>, lineOps: seq<Blit>, lineThrown: bool)
    requires r.origFontSize != 0.0 && k < |ls|
    requires ops == TextOps(r, ls[..k], x0, y0, color) && NoneThrows(r, ops)
    requires DrawnUntilThrow(r, LineOps(r, ls[k], x0, y0 + k * r.lineHeight, color), lineOps, lineThrown)
    ensures lineThrown ==> DrawnUntilThrow(r, TextOps(r, ls, x0, y0, color), ops + lineOps, true)
    ensures !lineThrown ==> ops + lineOps == TextOps(r, ls[..k + 1], x0, y0, color) && NoneThrows(r, ops + lineOps)
  {
    var line := LineOps(r, ls[k], x0, y0 + k * r.lineHeight, color);
    TextOpsSnoc(r, ls, x0, y0, color, k);
    if lineThrown {
      TextOpsPrefix(r, ls, k + 1, x0, y0, color);
      DrawnStop(r, ops, line, lineOps, TextOps(r, ls, x0, y0, color));
    } else {
      DrawnContinue(r, ops, line, lineOps);
    }
  }

  /** The composites of the first lines of a text begin its composites. */
  lemma {:induction false} TextOpsPrefix(r: Renderer, ls: seq<Text>, k: nat, x0: int, y0: int, color: Color)
    requires r.origFontSize != 0.0 && k <= |ls|
    ensures TextOps(r, ls[..k], x0, y0, color) <= TextOps(r, ls, x0, y0, color)
    decreases |ls|
  {
    if k == |ls| {
      assert ls[..k] == ls;
    } else {
      var init := ls[..|ls| - 1];
      TextOpsPrefix(r, init, k, x0, y0, color);
      assert init[..k] == ls[..k];
    }
  }

  /**
   * The inner loop of `DrawText`: one line from the cursor (x0, y),
   * returning where x ends unless a composite throws.
   */
  method DrawLine(r: Renderer, l: Text, x0: int, y: int, color: Color) returns (ops: seq<Blit>, x: int, thrown: bool)
    requires r.origFontSize != 0.0
    ensures DrawnUntilThrow(r, LineOps(r, l, x0, y, color), ops, thrown)
    ensures !thrown ==> x == x0 + DrawWidth(r, l)
  {
    ops := [];
    x := x0;
    var i := 0;
    while i < |l|
      invariant 0 <= i <= |l|
      invariant x == x0 + DrawWidth(r, l[..i])
      invariant ops == LineOps(r, l[..i], x0, y, color) && NoneThrows(r, ops)
    {
      var charOps, advance, charThrown := DrawChar(r, l[i], x, y, color);
      LineStep(r, l, x0, y, color, i, ops, x, charOps, advance, charThrown);
      ops := ops + charOps;
      if charThrown {
        thrown := true;
        return;
      }
      x := x + advance;
      i := i + 1;
    }
    assert l[..|l|] == l;
    thrown := false;
  }

  /**
   * The body of the inner loop for one code unit: composite the glyph when
   * it is found and drawable and advance by its CharWidth plus one,
   * otherwise advance by 16 plus one. Cutting out or resizing the glyph may
   * throw.
   */
  method DrawChar(r: Renderer, c: Unit, x: int, y: int, color: Color) returns (ops: seq<Blit>, advance: int, thrown: bool)
    requires r.origFontSize != 0.0
    ensures DrawnUntilThrow(r, CharOps(r, c, x, y, color), ops, thrown)
    ensures !thrown ==> advance == DrawAdvance(r, c)
  {
    var found := Lookup(r, c);
    if found.Some? && Drawable(found.value) {
      var b := GlyphBlit(r, found.value, x, y, color);
      if Throws(r, b) {
        return [], 0, true;
      }
      ops := [b];
      advance := Scale(r, found.value.CharWidth() + 1);
    } else {
      ops := [];
      advance := Scale(r, 16 + 1);
    }
    thrown := false;
  }

  /**
   * One more code unit of a line: its composites and its advance are
   * appended, or, when its composite throws, the drawing of the line stops
   * there.
   */
  lemma {:induction false} LineStep(r: Renderer, l: Text, x0: int, y: int, color: Color, i: nat,
                                    ops: seq<Blit>, x: int, charOps: seq<Blit>, advance: int, charThrown: bool)
    requires r.origFontSize != 0.0 && i < |l|
    requires ops == LineOps(r, l[..i], x0, y, color) && NoneThrows(r, ops) && x == x0 + DrawWidth(r, l[..i])
    requires DrawnUntilThrow(r, CharOps(r, l[i], x, y, color), charOps, charThrown)
    requires !charThrown ==> advance == DrawAdvance(r, l[i])
    ensures charThrown ==> DrawnUntilThrow(r, LineOps(r, l, x0, y, color), ops + charOps, true)
    ensures !charThrown ==> ops + charOps == LineOps(r, l[..i + 1], x0, y, color) && NoneThrows(r, ops + charOps)
    ensures !charThrown ==> x + advance == x0 + DrawWidth(r, l[..i + 1])
  {
    LineUnfold(r, l, x0, y, color, i);
    var unitOps := CharOps(r, l[i], x, y, color);
    if charThrown {
      LineOpsPrefix(r, l, i + 1, x0, y, color);
      DrawnStop(r, ops, unitOps, charOps, LineOps(r, l, x0, y, color));
    } else {
      DrawnContinue(r, ops, unitOps, charOps);
    }
  }

  /** The first i + 1 units of a line: the composites and the advance of the first i, then unit i's. */
  lemma {:induction false} LineUnfold(r: Renderer, l: Text, x0: int, y: int, color: Color, i: nat)
    requires r.origFontSize != 0.0 && i < |l|
    ensures LineOps(r, l[..i + 1], x0, y, color)
      == LineOps(r, l[..i], x0, y, color) + CharOps(r, l[i], x0 + DrawWidth(r, l[..i]), y, color)
    ensures DrawWidth(r, l[..i + 1]) == DrawWidth(r, l[..i]) + DrawAdvance(r, l[i])
  {
    var init, c := l[..i + 1][..i], l[..i + 1][i];
    assert init == l[..i] && c == l[i];
    LineOpsSnoc(r, l[..i + 1], x0, y, color);
    DrawWidthSnoc(r, l[..i + 1]);
  }

  /** The composites of the first units of a line begin its composites. */
  lemma {:induction false} LineOpsPrefix(r: Renderer, cs: Text, i: nat, x0: int, y: int, color: Color)
    requires r.origFontSize != 0.0 && i <= |cs|
    ensures LineOps(r, cs[..i], x0, y, color) <= LineOps(r, cs, x0, y, color)
    decreases |cs|
  {
    if i == |cs| {
      assert cs[..i] == cs;
    } else {
      var init := cs[..|cs| - 1];
      LineOpsPrefix(r, init, i, x0, y, color);
      LineOpsSnoc(r, cs, x0, y, color);
      assert init[..i] == cs[..i];
    }
  }

  /** The composites of a non-empty line: those of all but its last unit, then the last unit's. */
  lemma {:induction false} LineOpsSnoc(r: Renderer, cs: Text, x0: int, y: int, color: Color)
    requires r.origFontSize != 0.0 && |cs| > 0
    ensures var init := cs[..|cs| - 1];
      LineOps(r, cs, x0, y, color)
        == LineOps(r, init, x0, y, color) + CharOps(r, cs[|cs| - 1], x0 + DrawWidth(r, init), y, color)
  {
  }

  /** The advance of a non-empty line: that of all but its last unit, plus the last unit's. */
  lemma {:induction false} DrawWidthSnoc(r: Renderer, cs: Text)
    requires r.origFontSize != 0.0 && |cs| > 0
    ensures DrawWidth(r, cs) == DrawWidth(r, cs[..|cs| - 1]) + DrawAdvance(r, cs[|cs| - 1])
  {
  }

  // ------------------------------------------- Drawing against measuring

  /** The shift a version 2 font applies to a glyph's row. */
  function RowShift(r: Renderer, e: Entry): int
  {
    if HeaderVersion(r.font.header) == V2 then e.yCorrection else 0
  }

  /** Every composite of a line is on the line's row, shifted by its glyph's correction. */
  lemma {:induction false} LineOpsRow(r: Renderer, cs: Text, x0: int, y: int, color: Color)
    requires r.origFontSize != 0.0
    ensures forall b :: b in LineOps(r, cs, x0, y, color) ==> b.y == y + RowShift(r, b.glyph)
    decreases |cs|
  {
    if |cs| > 0 {
      LineOpsRow(r, cs[..|cs| - 1], x0, y, color);
    }
  }

  /** The shift a version 2 font applies to a glyph's column. */
  function ColumnShift(r: Renderer, e: Entry): int
  {
    if HeaderVersion(r.font.header) == V2 then e.xCorrection else 0
  }

  /**
   * Composite `b` is the drawable glyph found for code unit i of the line,
   * drawn at the cursor there (the start plus the advances of the units
   * before it), shifted by the glyph's correction.
   */
  predicate PlacedAt(r: Renderer, cs: Text, x0: int, b: Blit, i: nat)
    requires r.origFontSize != 0.0 && i < |cs|
  {
    && Lookup(r, cs[i]) == Some(b.glyph) && Drawable(b.glyph)
    && b.x == x0 + DrawWidth(r, cs[..i]) + ColumnShift(r, b.glyph)
  }

  /** Every composite of a line is placed at one of its code units. */
  lemma {:induction false} LineOpsColumns(r: Renderer, cs: Text, x0: int, y: int, color: Color)
    requires r.origFontSize != 0.0
    ensures forall b :: b in LineOps(r, cs, x0, y, color) ==> exists i :: 0 <= i < |cs| && PlacedAt(r, cs, x0, b, i)
    decreases |cs|
  {
    if |cs| > 0 {
      var n := |cs| - 1;
      var init := cs[..n];
      LineOpsColumns(r, init, x0, y, color);
      LineOpsSnoc(r, cs, x0, y, color);
      forall b | b in LineOps(r, cs, x0, y, color) ensures exists i :: 0 <= i < |cs| && PlacedAt(r, cs, x0, b, i) {
        if b in LineOps(r, init, x0, y, color) {
          var i :| 0 <= i < |init| && PlacedAt(r, init, x0, b, i);
          PlacedInInit(r, cs, x0, b, i);
        } else {
          PlacedLast(r, cs, x0, y, color, b);
        }
      }
    }
  }

  /** A composite placed at a unit of all but the last unit is placed there in the whole line. */
  lemma {:induction false} PlacedInInit(r: Renderer, cs: Text, x0: int, b: Blit, i: nat)
    requires r.origFontSize != 0.0 && i < |cs| - 1 && PlacedAt(r, cs[..|cs| - 1], x0, b, i)
    ensures PlacedAt(r, cs, x0, b, i)
  {
    var init := cs[..|cs| - 1];
    assert init[i] == cs[i] && init[..i] == cs[..i];
  }

  /** The composite of the last unit is placed at the last unit. */
  lemma {:induction false} PlacedLast(r: Renderer, cs: Text, x0: int, y: int, color: Color, b: Blit)
    requires r.origFontSize != 0.0 && |cs| > 0
    requires b in CharOps(r, cs[|cs| - 1], x0 + DrawWidth(r, cs[..|cs| - 1]), y, color)
    ensures PlacedAt(r, cs, x0, b, |cs| - 1)
  {
  }

  /** Code unit `c` is composited: it is found and its glyph's rectangle is not empty. */
  predicate Composited(r: Renderer, c: Unit)
  {
    Lookup(r, c).Some? && Drawable(Lookup(r, c).value)
  }

  /** The number of code units of `cs` that are composited. */
  function CompositedCount(r: Renderer, cs: Text): nat
    decreases |cs|
  {
    if |cs| == 0 then 0
    else CompositedCount(r, cs[..|cs| - 1]) + (if Composited(r, cs[|cs| - 1]) then 1 else 0)
  }

  /**
   * The composite of code unit i sits in the line's composites at the
   * number of composited units before it, and is that unit's glyph drawn at
   * the cursor there.
   */
  predicate UnitComposite(r: Renderer, cs: Text, x0: int, y: int, color: Color, i: nat)
    requires r.origFontSize != 0.0 && i < |cs| && Composited(r, cs[i])
  {
    var k := CompositedCount(r, cs[..i]);
    var ops := LineOps(r, cs, x0, y, color);
    k < |ops| && ops[k] == GlyphBlit(r, Lookup(r, cs[i]).value, x0 + DrawWidth(r, cs[..i]), y, color)
  }

  /**
   * A line has one composite per composited code unit, and the composite of
   * each such unit is its glyph at the cursor there: no composited unit is
   * dropped.
   */
  lemma {:induction false} LineOpsUnits(r: Renderer, cs: Text, x0: int, y: int, color: Color)
    requires r.origFontSize != 0.0
    ensures |LineOps(r, cs, x0, y, color)| == CompositedCount(r, cs)
    ensures forall i :: 0 <= i < |cs| && Composited(r, cs[i]) ==> UnitComposite(r, cs, x0, y, color, i)
    decreases |cs|
  {
    if |cs| > 0 {
      var n := |cs| - 1;
      var init := cs[..n];
      LineOpsUnits(r, init, x0, y, color);
      LineOpsSnoc(r, cs, x0, y, color);
      forall i | 0 <= i < |cs| && Composited(r, cs[i]) ensures UnitComposite(r, cs, x0, y, color, i) {
        if i < n {
          UnitInInit(r, cs, x0, y, color, i);
        } else {
          UnitLast(r, cs, x0, y, color);
        }
      }
    }
  }

  /** The composite of the last unit, when it is composited, ends the line's composites. */
  lemma {:induction false} UnitLast(r: Renderer, cs: Text, x0: int, y: int, color: Color)
    requires r.origFontSize != 0.0 && |cs| > 0 && Composited(r, cs[|cs| - 1])
    requires var init := cs[..|cs| - 1];
      && |LineOps(r, init, x0, y, color)| == CompositedCount(r, init)
      && LineOps(r, cs, x0, y, color)
        == LineOps(r, init, x0, y, color) + CharOps(r, cs[|cs| - 1], x0 + DrawWidth(r, init), y, color)
    ensures UnitComposite(r, cs, x0, y, color, |cs| - 1)
  {
  }

  /** The composite of a unit of all but the last unit keeps its index in the whole line. */
  lemma {:induction false} UnitInInit(r: Renderer, cs: Text, x0: int, y: int, color: Color, i: nat)
    requires r.origFontSize != 0.0 && i < |cs| - 1
    requires var init := cs[..|cs| - 1];
      && Composited(r, init[i]) && UnitComposite(r, init, x0, y, color, i)
      && LineOps(r, cs, x0, y, color)
        == LineOps(r, init, x0, y, color) + CharOps(r, cs[|cs| - 1], x0 + DrawWidth(r, init), y, color)
    ensures Composited(r, cs[i]) && UnitComposite(r, cs, x0, y, color, i)
  {
    var init := cs[..|cs| - 1];
    assert init[i] == cs[i] && init[..i] == cs[..i];
  }

  /** Composited units come in order: a later unit's composite comes later. */
  lemma {:induction false} CompositedInOrder(r: Renderer, cs: Text, i: nat, j: nat)
    requires i < j <= |cs| && Composited(r, cs[i])
    ensures CompositedCount(r, cs[..i]) < CompositedCount(r, cs[..j])
    decreases j
  {
    if j == i + 1 {
      assert cs[..j][..i] == cs[..i];
    } else {
      CompositedInOrder(r, cs, i, j - 1);
      assert cs[..j][..j - 1] == cs[..j - 1];
    }
  }

  /** Every composite of a text is on row `y0 + k * lineHeight` of some line k, plus its correction. */
  lemma {:induction false} TextOpsRows(r: Renderer, ls: seq<Text>, x0: int, y0: int, color: Color)
    requires r.origFontSize != 0.0
    ensures forall b :: b in TextOps(r, ls, x0, y0, color) ==>
      exists k :: 0 <= k < |ls| && b.y == y0 + k * r.lineHeight + RowShift(r, b.glyph)
    decreases |ls|
  {
    if |ls| > 0 {
      var k := |ls| - 1;
      TextOpsRows(r, ls[..k], x0, y0, color);
      LineOpsRow(r, ls[k], x0, y0 + k * r.lineHeight, color);
      forall b | b in TextOps(r, ls, x0, y0, color)
        ensures exists j :: 0 <= j < |ls| && b.y == y0 + j * r.lineHeight + RowShift(r, b.glyph)
      {
        if b in TextOps(r, ls[..k], x0, y0, color) {
          var j :| 0 <= j < k && b.y == y0 + j * r.lineHeight + RowShift(r, b.glyph);
        } else {
          assert b.y == y0 + k * r.lineHeight + RowShift(r, b.glyph);
        }
      }
    }
  }

  /** A code unit whose drawn advance is its measured one: absent, or found with a drawable glyph. */
  predicate AdvancesAlike(r: Renderer, c: Unit)
  {
    match Lookup(r, c)
    case Some(e) => Drawable(e)
    case None => true
  }

  /** Where every code unit of a line advances alike, drawing moves as far as measuring says. */
  lemma {:induction false} DrawWidthIsLineWidth(r: Renderer, cs: Text)
    requires r.origFontSize != 0.0
    requires forall i :: 0 <= i < |cs| ==> AdvancesAlike(r, cs[i])
    ensures DrawWidth(r, cs) == LineWidth(r, cs)
    decreases |cs|
  {
    if |cs| > 0 {
      var init := cs[..|cs| - 1];
      forall i | 0 <= i < |init| ensures AdvancesAlike(r, init[i]) {
        assert init[i] == cs[i];
      }
      DrawWidthIsLineWidth(r, init);
    }
  }

  /**
   * A glyph that is found but has an empty rectangle is measured with its
   * own CharWidth and drawn with the fallback advance; at the font's own
   * size the two are CharWidth + 1 and 17.
   */
  lemma {:induction false} ZeroAreaAdvances(r: Renderer, c: Unit, e: Entry)
    requires r.origFontSize != 0.0 && r.fontSize == r.origFontSize
    requires Lookup(r, c) == Some(e) && !Drawable(e)
    ensures MeasureAdvance(r, c) == e.CharWidth() + 1
    ensures DrawAdvance(r, c) == 17
  {
    ScaleSameSize(r, e.CharWidth() + 1);
    ScaleSameSize(r, 17);
  }

  /** At the font's own size scaling changes nothing. */
  lemma {:induction false} ScaleSameSize(r: Renderer, n: int)
    requires r.origFontSize != 0.0 && r.fontSize == r.origFontSize
    ensures Scale(r, n) == n
  {
    assert n as real / r.origFontSize * r.fontSize == n as real;
  }

  /**
   * Line k of a text is drawn as the k-th group of its composites, on row
   * `y0 + k * lineHeight` shifted by each glyph's correction.
   */
  predicate LineDrawnAt(r: Renderer, ls: seq<Text>, x0: int, y0: int, color: Color, k: nat)
    requires r.origFontSize != 0.0 && k < |ls|
  {
    var line := LineOps(r, ls[k], x0, y0 + k * r.lineHeight, color);
    && TextOps(r, ls[..k], x0, y0, color) + line <= TextOps(r, ls, x0, y0, color)
    && forall b :: b in line ==> b.y == y0 + k * r.lineHeight + RowShift(r, b.glyph)
  }

  /** Every line of a text is drawn after the lines before it, one unscaled line height below the previous. */
  lemma {:induction false} TextOpsLines(r: Renderer, ls: seq<Text>, x0: int, y0: int, color: Color)
    requires r.origFontSize != 0.0
    ensures forall k :: 0 <= k < |ls| ==> LineDrawnAt(r, ls, x0, y0, color, k)
  {
    forall k | 0 <= k < |ls| ensures LineDrawnAt(r, ls, x0, y0, color, k) {
      LineDrawn(r, ls, x0, y0, color, k);
    }
  }

  /** Line k of a text is drawn as its k-th group of composites, on its row. */
  lemma {:induction false} LineDrawn(r: Renderer, ls: seq<Text>, x0: int, y0: int, color: Color, k: nat)
    requires r.origFontSize != 0.0 && k < |ls|
    ensures LineDrawnAt(r, ls, x0, y0, color, k)
  {
    var line := LineOps(r, ls[k], x0, y0 + k * r.lineHeight, color);
    TextOpsSnoc(r, ls, x0, y0, color, k);
    TextOpsPrefix(r, ls, k + 1, x0, y0, color);
    assert TextOps(r, ls[..k], x0, y0, color) + line <= TextOps(r, ls, x0, y0, color);
    LineOpsRow(r, ls[k], x0, y0 + k * r.lineHeight, color);
  }

  /** The composites of the first k + 1 lines: those of the first k, then line k's. */
  lemma {:induction false} TextOpsSnoc(r: Renderer, ls: seq<Text>, x0: int, y0: int, color: Color, k: nat)
    requires r.origFontSize != 0.0 && k < |ls|
    ensures TextOps(r, ls[..k + 1], x0, y0, color)
      == TextOps(r, ls[..k], x0, y0, color) + LineOps(r, ls[k], x0, y0 + k * r.lineHeight, color)
  {
    assert ls[..k + 1][..k] == ls[..k];
  }

  /**
   * Drawing steps down by the unscaled line height while measuring counts
   * the scaled one: line k of a text is drawn on row `y0 + k * lineHeight`,
   * while the measured height is the number of lines times the scaled line
   * height. The two agree at the font's own size, and at twice that size
   * the measured step is twice the drawn one.
   */
  lemma {:induction false} LineStepSizes(r: Renderer, text: Text, x0: int, y0: int, color: Color)
    requires r.origFontSize != 0.0
    ensures var ls := SplitLines(text);
      forall k :: 0 <= k < |ls| ==> LineDrawnAt(r, ls, x0, y0, color, k)
    ensures MeasureText(r, text).height == |SplitLines(text)| * Scale(r, r.lineHeight)
    ensures r.fontSize == r.origFontSize ==> Scale(r, r.lineHeight) == r.lineHeight
    ensures r.fontSize == 2.0 * r.origFontSize ==> Scale(r, r.lineHeight) == 2 * r.lineHeight
  {
    TextOpsLines(r, SplitLines(text), x0, y0, color);
    MeasureLinesHeight(r, SplitLines(text));
    ScaledLineHeight(r);
  }

  /** The scaled line height is the line height at the font's own size, and twice it at double size. */
  lemma {:induction false} ScaledLineHeight(r: Renderer)
    requires r.origFontSize != 0.0
    ensures r.fontSize == r.origFontSize ==> Scale(r, r.lineHeight) == r.lineHeight
    ensures r.fontSize == 2.0 * r.origFontSize ==> Scale(r, r.lineHeight) == 2 * r.lineHeight
  {
    if r.fontSize == r.origFontSize {
      ScaleSameSize(r, r.lineHeight);
    }
    if r.fontSize == 2.0 * r.origFontSize {
      assert r.lineHeight as real / r.origFontSize * r.fontSize == (2 * r.lineHeight) as real;
    }
  }
}
