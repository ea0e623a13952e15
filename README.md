# GFD font renderer — a Dafny model

This project models the core of GFDRenderer, a C# tool that draws text with
bitmap fonts. Each font is described by a GFD file. A GFD file holds a header,
a list of floats, a font name and a table of glyph entries. Each entry names a
character, the font texture (an atlas image) that holds its glyph, the glyph's
rectangle in that atlas and the character's advance width. Two versions of the
format exist, with different header and entry layouts.

The model covers the two core files:

- `GFDFontRenderer/GFD.cs` — recognising the file version (`Support.Identify`),
  the record layouts, the packed 12-bit fields of an entry and the read
  sequence of the `GFDv1`/`GFDv2` constructors.
- `GFDFontRenderer/GFDTextRenderer.cs` — the renderer constructor (which checks
  the font textures), `MeasureText`, the cursor logic of `DrawText`, the size
  computation of `ChangeSize` and the per-pixel recolouring of `ChangeColor`.

Modules, in dependency order:

| file | module | what it holds |
|---|---|---|
| `wrappers.dfy` | `Wrappers` | `Option` and `Result` |
| `bits.dfy` | `Bits` | `&`, `\|`, `<<`, `>>` on naturals, with their arithmetic meaning |
| `bytes.dfy` | `Bytes` | bytes, little-endian integers, runs of fixed-size records, NUL search |
| `reader.dfy` | `BinaryReader` | the binary reader as a class: a byte sequence and a stream position |
| `packed.dfy` | `Packed` | the packed 3-byte fields: fold, split, pack |
| `gfd.dfy` | `Gfd` | identification, headers, entries, the parse and the reading methods |
| `gfd_encode.dfy` | `GfdEncode` | the inverse layout and the parse/layout lemmas |
| `lines.dfy` | `Lines` | splitting a text on CR LF |
| `imaging.dfy` | `Imaging` | truncation, the `ChangeSize` dimensions, `ChangeColor` on a 2-D array |
| `renderer.dfy` | `TextRenderer` | the renderer constructor and its texture checks |
| `layout.dfy` | `TextLayout` | glyph lookup, `MeasureText` and `DrawText` |

The imperative parts keep their form:

- The GFD constructors move a reader's position step by step. They are the
  `Gfd` methods `Load`, `LoadBody`, `LoadName` and `LoadEntries`, which take a
  `Reader` object and are proved to compute the pure `Parse`.
- Identification seeks and reads through a `Reader` too.
- The renderer constructor is a method with its two texture loops. It is
  proved to compute `CreateResult`.
- `DrawText` is a method with the nested loops over lines and code units,
  updating `x` and `y`. It is proved to composite `TextOps` up to the first
  composite that throws.
- `ChangeColor` updates an `array2<Pixel>` in place, row by row.
- `MeasureText` is pure, as in the source: two nested left folds.

Environment choices:

- The file system is a map from path to contents. A missing key is a missing
  file.
- A loaded texture is represented by the path it is loaded from.
- Drawing yields the sequence of glyph composites (`Blit` records: which glyph,
  where, at what size, with which tint) instead of painting a surface.
- The constructor's exceptions are `Err` results. Drawing returns the
  composites made before an exception and whether one was thrown: the
  exception leaves what was already drawn on the surface.
- A composite throws when its glyph's `TexID` is past the loaded textures
  (`fontTextures[...]`) or when a rescaled side is not positive (`new Bitmap`
  in `ResizeImage`); the second happens exactly for a negative size ratio
  (`TextLayout.GlyphThrows`).
- Floats in the file are raw 32-bit words. The scale factor
  `(int)(n / origFontSize * FontSize)` is computed on exact reals and truncated
  toward zero, as the C# cast does.
- `BinaryReaderX` is not part of this model. The reader here follows the
  semantics the code relies on:
  - integers are little-endian and records are packed with no padding;
  - a read past the end fails;
  - `ReadCStringA` returns the bytes before the next NUL and consumes that NUL;
  - a negative record count fails.

Two layout details follow from the code itself:

- The version 2 entry is 20 bytes, which is what its fields add up to under
  one-byte packing (`GFD.cs:126-141`).
- The stored bytes `12 34 56` decode to X = 0x412 and Y = 0x563. The bytes are
  reversed and folded, so byte 0 is the least significant.

Two behaviours of the code that look inconsistent are proved as facts about
the model:

- A glyph that is found but has a zero-area rectangle measures with its own
  `CharWidth` but draws with the fallback advance of 17 (`ZeroAreaAdvances`).
- Measuring scales the line height while drawing steps down by the unscaled
  one (`LineStepSizes`).

## Model

| member | source | states |
|---|---|---|
| `Gfd.Classify` | GFDFontRenderer/GFD.cs:31-35 | a version word gives Version1 exactly when it is 0x00010c06 and Version2 exactly when it is 0x00010f06; any other gives NotSupported; a supported result's enumeration value is the word itself |
| `Gfd.IdentifyResult` | GFDFontRenderer/GFD.cs:24-29 | the result is NotFound exactly when the file does not exist; an existing file is classified exactly when it holds the 8 bytes up to the version word, otherwise the read fails |
| `Gfd.Identify` | GFDFontRenderer/GFD.cs:22-36 | the seek to offset 4 and the u32 read through a reader yield `IdentifyResult` |
| `Gfd.IdentifyReadsOnlyVersion` | GFDFontRenderer/GFD.cs:28-29 | two files that agree on bytes 4 to 8 identify alike: the magic is never inspected |
| `BinaryReader.Reader.constructor` | GFDFontRenderer/GFD.cs:89 | a reader opened on a file is at position 0 over that file's bytes |
| `BinaryReader.Reader.Seek` | GFDFontRenderer/GFD.cs:28 | setting the stream position |
| `BinaryReader.Reader.ReadBytes` | GFDFontRenderer/GFD.cs:92 | n bytes from the position and the position advanced by n, or end-of-data with the position unchanged |
| `BinaryReader.Reader.ReadUInt32` | GFDFontRenderer/GFD.cs:29 | the little-endian u32 at the position, advancing by 4, or end-of-data |
| `BinaryReader.Reader.ReadInt32` | GFDFontRenderer/GFD.cs:96 | the little-endian i32 at the position, advancing by 4, or end-of-data |
| `BinaryReader.Reader.ReadCStringA` | GFDFontRenderer/GFD.cs:97 | the bytes up to the first NUL at or after the position, the position just past that NUL; no NUL before the end fails |
| `BinaryReader.Reader.ReadMultiple` | GFDFontRenderer/GFD.cs:93 | a negative count fails; otherwise exactly count consecutive records of the given size and the position after them, or end-of-data when they do not all fit |
| `Packed.FieldValue` | GFDFontRenderer/GFD.cs:72 | reversing the three stored bytes and folding them with `(output << 8) \| b` gives b0 + 256·b1 + 65536·b2: byte 0 is the least significant |
| `Packed.LowHighOf` | GFDFontRenderer/GFD.cs:74-75 | `& 0xFFF` is the remainder by 4096 and `>> 12` the quotient |
| `Packed.Split` | GFDFontRenderer/GFD.cs:74-78 | both components are below 4096 and high·4096 + low is the field's value |
| `Packed.SplitPack` | GFDFontRenderer/GFD.cs:145-150 | packing any two 12-bit components and splitting gives them back |
| `Packed.PackSplit` | GFDFontRenderer/GFD.cs:145-152 | splitting any 3-byte field and packing gives the field back, so the split is a bijection |
| `Packed.SplitExample` | GFDFontRenderer/GFD.cs:145-146 | the stored bytes 12 34 56 give X = 0x412 and Y = 0x563 |
| `Gfd.AccessorsAreBitFields` | GFDFontRenderer/GFD.cs:143-152 | GlyphPosX/Y, GlyphWidth/Height and the version 2 CharWidth/CharHeight are `& 0xFFF` and `>> 12` of the reversed-and-folded field |
| `Gfd.Entry.GlyphWidth` | GFDFontRenderer/GFD.cs:78 | the width component is below 4096 |
| `Gfd.Entry.CharWidth` | GFDFontRenderer/GFD.cs:67 | the version 1 CharWidth is one raw byte, below 256; the version 2 one is a 12-bit component |
| `Gfd.DecodeEntry` | GFDFontRenderer/GFD.cs:58-70 | a record decodes to an entry of its version |
| `GfdEncode.EntryRoundTrip` | GFDFontRenderer/GFD.cs:127-141 | every entry of either version is recovered from its 16- or 20-byte record |
| `GfdEncode.HeaderRoundTrip` | GFDFontRenderer/GFD.cs:109-125 | a header of either version takes 44 or 56 bytes and is recovered from them, whatever follows |
| `GfdEncode.HeaderRead` | GFDFontRenderer/GFD.cs:43-56 | an encoded header decodes to itself |
| `Gfd.DecodeHeaderPrefix` | GFDFontRenderer/GFD.cs:92 | only the header's own bytes decide the header |
| `Gfd.DecodeEntryAtSlice` | GFDFontRenderer/GFD.cs:100 | reading a record in place is decoding its bytes |
| `Gfd.Parse` | GFDFontRenderer/GFD.cs:92-100 | a parsed table has the requested version, exactly FCount floats, exactly CharCount entries all of that version, and a name with no NUL; a file shorter than a header fails |
| `Gfd.Load` | GFDFontRenderer/GFD.cs:87-102 | the constructor's reads through a reader yield `Parse` of the file |
| `Gfd.LoadBody` | GFDFontRenderer/GFD.cs:166-170 | the float and name-size reads that follow the header yield the parse of the rest |
| `Gfd.LoadName` | GFDFontRenderer/GFD.cs:171 | the name read and what follows yield the parse from the name on |
| `Gfd.LoadEntries` | GFDFontRenderer/GFD.cs:174 | reading CharCount records yields the parse of the entries |
| `Gfd.EntriesAtBlocks` | GFDFontRenderer/GFD.cs:100 | the records read as blocks decode to the entries at consecutive offsets |
| `GfdEncode.ParseLayout` | GFDFontRenderer/GFD.cs:166-174 | a file laid out as header, FCount floats, a 4-byte word, a NUL-free name, a NUL and CharCount records parses to exactly that table, whatever follows |
| `GfdEncode.ParseEncode` | GFDFontRenderer/GFD.cs:161-176 | every well-formed table survives encoding and parsing, whatever the ignored name-size word holds and whatever bytes follow |
| `GfdEncode.ParseTruncated` | GFDFontRenderer/GFD.cs:87-102 | every strict prefix of an encoded table fails with end-of-data |
| `GfdEncode.TruncBody` | GFDFontRenderer/GFD.cs:93-96 | a file that ends before the name-size word does fails |
| `GfdEncode.TruncName` | GFDFontRenderer/GFD.cs:97 | a name with no NUL before the end of the file fails |
| `GfdEncode.TruncEntries` | GFDFontRenderer/GFD.cs:174 | entries that do not all fit after the name's NUL fail |
| `GfdEncode.EntriesRoundTrip` | GFDFontRenderer/GFD.cs:100 | encoded entries read back as themselves at any offset |
| `GfdEncode.EncodeLayout` | GFDFontRenderer/GFD.cs:92-100 | an encoded table's header, name, NUL and entries sit where the parser reads them |
| `GfdEncode.EntriesAtIndex` | GFDFontRenderer/GFD.cs:174 | entry k of a run of entries is decoded from the record k record-sizes in |
| `GfdEncode.EntriesLayout` | GFDFontRenderer/GFD.cs:174 | entry k of a successful entry parse is decoded from tableStart + k·size |
| `GfdEncode.EntryLayout` | GFDFontRenderer/GFD.cs:126-141 | in a parsed table the name's NUL is the byte before the entry table and entry k is decoded at tableStart + k·size |
| `GfdEncode.ParseSplit` | GFDFontRenderer/GFD.cs:96-100 | a parsed table's name ends at the first NUL after the name-size word and the entries follow it |
| `TextRenderer.FirstMissing` | GFDFontRenderer/GFDTextRenderer.cs:50-52 | the first texture index whose file is missing, all indices before it present; none only when every index is present |
| `TextRenderer.CheckTextures` | GFDFontRenderer/GFDTextRenderer.cs:62-64 | the checking loop finds `FirstMissing` |
| `TextRenderer.LoadTextures` | GFDFontRenderer/GFDTextRenderer.cs:54-55 | the loading loop appends the texture of each index in order |
| `TextRenderer.Create` | GFDFontRenderer/GFDTextRenderer.cs:35-74 | the constructor yields `CreateResult`: identification, the table read, the check loop, the load loop |
| `TextRenderer.CreateOk` | GFDFontRenderer/GFDTextRenderer.cs:37-73 | a renderer is built exactly when the file identifies as a GFD version, its table reads and every texture exists; it then holds that table, the texture paths in index order, each present, the header's font size, and the requested font size and line height; it fails with GfdNotFound exactly when the file is missing and with VersionNotSupported exactly when the version word is neither 0x00010c06 nor 0x00010f06 |
| `TextRenderer.CreateMissingTexture` | GFDFontRenderer/GFDTextRenderer.cs:63-64 | a failed construction names a missing texture, and every texture before it exists |
| `TextRenderer.Format00Value` | GFDFontRenderer/GFDTextRenderer.cs:51 | the `{i:00}` index has at least two digits, exactly two below 100, and reads back as i |
| `TextRenderer.DigitsValue` | GFDFontRenderer/GFDTextRenderer.cs:51 | the decimal digits of a number read back as the number |
| `TextRenderer.TexturePathInjective` | GFDFontRenderer/GFDTextRenderer.cs:51 | distinct indices name distinct files |
| `Lines.SplitLines` | GFDFontRenderer/GFDTextRenderer.cs:122 | a text always splits into at least one line |
| `Lines.SplitCount` | GFDFontRenderer/GFDTextRenderer.cs:83 | the number of lines is the number of CR LF occurrences plus one |
| `Lines.JoinSplit` | GFDFontRenderer/GFDTextRenderer.cs:122 | joining the lines with CR LF gives the text back |
| `Lines.SplitJoin` | GFDFontRenderer/GFDTextRenderer.cs:83 | lines without CR LF, joined, split back into the same lines |
| `Lines.SplitPiecesNoBreak` | GFDFontRenderer/GFDTextRenderer.cs:122 | no line holds CR LF |
| `Lines.SplitExamples` | GFDFontRenderer/GFDTextRenderer.cs:83 | the empty text is one empty line, a lone CR LF two, and a CR before CR LF stays in the first line |
| `TextLayout.FindFrom` | GFDFontRenderer/GFDTextRenderer.cs:129 | the index found is the first one from the start index whose Character is the code unit; none only when there is no such index |
| `TextLayout.LookupFirst` | GFDFontRenderer/GFDTextRenderer.cs:147 | a glyph is found exactly when some entry is for the code unit, and it is the first such entry in table order; an entry beyond 0xFFFF is never found |
| `TextLayout.MeasureLinesWidth` | GFDFontRenderer/GFDTextRenderer.cs:90 | the measured width is not negative, no line is wider, and it is the width of some line or 0 |
| `TextLayout.MeasureLinesHeight` | GFDFontRenderer/GFDTextRenderer.cs:91 | the measured height is the number of lines times the scaled line height |
| `TextLayout.MeasureTextSize` | GFDFontRenderer/GFDTextRenderer.cs:81-107 | a text's height is (CR LF count + 1) × the scaled line height, counting empty and trailing lines, and its width is the largest line width or 0 |
| `TextLayout.MeasureEmpty` | GFDFontRenderer/GFDTextRenderer.cs:83-91 | the empty text measures width 0 and one scaled line height |
| `TextLayout.LineWidthAppend` | GFDFontRenderer/GFDTextRenderer.cs:89 | line widths add up: each glyph's scaled advance is truncated on its own, not the line's sum |
| `TextLayout.AdvanceIsTrunc` | GFDFontRenderer/GFDTextRenderer.cs:89 | for a positive font size and a non-negative requested size, each measured advance is its exact scaled advance truncated: at most one pixel less, never more |
| `TextLayout.LineWidthError` | GFDFontRenderer/GFDTextRenderer.cs:89 | a measured line width is at most the exact scaled width and less than one pixel per code unit below it |
| `TextLayout.MeasureAdvanceMono` | GFDFontRenderer/GFDTextRenderer.cs:89 | a larger requested size never measures a code unit narrower |
| `TextLayout.LineWidthMono` | GFDFontRenderer/GFDTextRenderer.cs:89 | a larger requested size never measures a line narrower |
| `TextLayout.MeasureWidthMono` | GFDFontRenderer/GFDTextRenderer.cs:87-93 | a larger requested size never gives a smaller widest-line width |
| `TextLayout.MeasureTextMono` | GFDFontRenderer/GFDTextRenderer.cs:81-107 | `MeasureText`'s width grows with the requested size, and each line's width is within one pixel per code unit below its exact scaled width |
| `TextLayout.DrawText` | GFDFontRenderer/GFDTextRenderer.cs:116-168 | the nested loops composite `TextOps` (line k drawn from (point.X, point.Y + k·lineHeight), its composites in order) until the first composite that throws; they throw exactly when one does |
| `TextLayout.DrawLine` | GFDFontRenderer/GFDTextRenderer.cs:125-163 | the inner loop composites the line's composites until one throws, and otherwise moves x by the line's drawing advance |
| `TextLayout.DrawChar` | GFDFontRenderer/GFDTextRenderer.cs:129-143 | one code unit: a found glyph with non-zero width and height is composited, unless cutting it out or resizing it throws, and advances by CharWidth + 1 scaled; every other case composites nothing and advances by 17 scaled |
| `TextLayout.LineStep` | GFDFontRenderer/GFDTextRenderer.cs:149-160 | one more code unit either appends its composites and adds its advance, or throws and ends the line's drawing there |
| `TextLayout.TextStep` | GFDFontRenderer/GFDTextRenderer.cs:123-167 | one more line either appends its composites, or throws and ends the text's drawing there |
| `TextLayout.DrawnThrows` | GFDFontRenderer/GFDTextRenderer.cs:133-134 | drawing throws exactly when some composite of the text throws |
| `TextLayout.DrawnUnique` | GFDFontRenderer/GFDTextRenderer.cs:123-136 | what is drawn and whether anything throws are determined by the composites: drawing stops at the first one that throws |
| `TextLayout.GlyphThrows` | GFDFontRenderer/GFDTextRenderer.cs:133-134 | a drawable glyph's composite throws exactly when its TexID is past the textures or the size is changed by a negative ratio |
| `TextLayout.TextOpsPrefix` | GFDFontRenderer/GFDTextRenderer.cs:123 | the composites of a text's first lines begin its composites |
| `TextLayout.LineOpsPrefix` | GFDFontRenderer/GFDTextRenderer.cs:125 | the composites of a line's first code units begin its composites |
| `TextLayout.LineOpsRow` | GFDFontRenderer/GFDTextRenderer.cs:154 | every composite of a line is on the line's row, shifted by the version 2 Y correction |
| `TextLayout.TextOpsRows` | GFDFontRenderer/GFDTextRenderer.cs:165-166 | every composite of a text is on row point.Y + k·lineHeight of some line k, plus its correction |
| `TextLayout.LineOpsColumns` | GFDFontRenderer/GFDTextRenderer.cs:149-156 | every composite is the drawable glyph found for some code unit, drawn at the start x plus the advances of the units before it, plus the version 2 X correction |
| `TextLayout.LineOpsUnits` | GFDFontRenderer/GFDTextRenderer.cs:131-136 | a line has exactly one composite per found code unit with a non-empty rectangle, and the composite at position (number of such units before unit i) is unit i's glyph at the cursor there: none is dropped |
| `TextLayout.CompositedInOrder` | GFDFontRenderer/GFDTextRenderer.cs:125 | the composites come in code-unit order: a later unit's composite has a later position |
| `TextLayout.PlacedInInit` | GFDFontRenderer/GFDTextRenderer.cs:136 | a composite's placement is unchanged by code units after it |
| `TextLayout.PlacedLast` | GFDFontRenderer/GFDTextRenderer.cs:133-136 | the last unit's composite is placed at the cursor left by the units before it |
| `TextLayout.DrawWidthIsLineWidth` | GFDFontRenderer/GFDTextRenderer.cs:138-142 | where every code unit is absent or found with a drawable glyph, drawing a line moves x exactly as far as measuring the line says |
| `TextLayout.ZeroAreaAdvances` | GFDFontRenderer/GFDTextRenderer.cs:131-143 | a found glyph with an empty rectangle measures CharWidth + 1 but draws with 17, at the font's own size |
| `TextLayout.ScaleSameSize` | GFDFontRenderer/GFDTextRenderer.cs:138 | at the font's own size the scale changes nothing |
| `TextLayout.TextOpsLines` | GFDFontRenderer/GFDTextRenderer.cs:123-166 | line k's composites follow those of the lines before it in the text's composites, all on row point.Y + k·lineHeight plus their correction |
| `TextLayout.LineStepSizes` | GFDFontRenderer/GFDTextRenderer.cs:91-166 | drawing puts line k of a text on row point.Y + k·lineHeight (unscaled) while measuring gives the number of lines × the scaled line height; the two steps are equal at the font's own size and the scaled one is double at twice the size |
| `TextLayout.ScaledLineHeight` | GFDFontRenderer/GFDTextRenderer.cs:91 | the scaled line height is the line height at the font's own size and twice it at double size |
| `Imaging.Trunc` | GFDFontRenderer/GFDTextRenderer.cs:178 | the `(int)` cast lies within one of its argument, toward zero |
| `Imaging.TruncOfInt` | GFDFontRenderer/GFDTextRenderer.cs:138 | truncating an integer value gives the integer |
| `Imaging.TruncMono` | GFDFontRenderer/GFDTextRenderer.cs:142 | truncation keeps order |
| `Imaging.ScaledDimPositive` | GFDFontRenderer/GFDTextRenderer.cs:170-176 | a non-negative scaled side becomes at least one pixel |
| `Imaging.ScaledDimLarge` | GFDFontRenderer/GFDTextRenderer.cs:172-178 | a scaled side of at least one pixel is truncated, not rounded |
| `Imaging.ScaledDimNegative` | GFDFontRenderer/GFDTextRenderer.cs:175 | a negative scaled side is not clamped and stays at or below zero |
| `Imaging.ScaledDimEmpty` | GFDFontRenderer/GFDTextRenderer.cs:172-178 | a side of at least one pixel is rescaled to no pixel exactly when the size ratio is negative |
| `Imaging.ScaledDimSameSize` | GFDFontRenderer/GFDTextRenderer.cs:173 | at the font's own size every side is kept, except that an empty side becomes one pixel |
| `Imaging.ChangeColor` | GFDFontRenderer/GFDTextRenderer.cs:206-213 | every pixel of the image is replaced by its tint: its own alpha with the colour's red, green and blue |
| `Imaging.TintAlpha` | GFDFontRenderer/GFDTextRenderer.cs:211 | a tint keeps the alpha, and two pixels tint alike exactly when their alphas agree |
| `Imaging.TintIdempotent` | GFDFontRenderer/GFDTextRenderer.cs:211 | tinting twice with one colour is tinting once |
| `Imaging.TintLastWins` | GFDFontRenderer/GFDTextRenderer.cs:211 | of two tints the last one wins |
| `Imaging.TintOpaque` | GFDFontRenderer/GFDTextRenderer.cs:209-211 | an opaque pixel tinted with an opaque colour is that colour |

## Left out

- File access (`File.Exists`, `File.OpenRead`, `Image.FromFile`): the file
  system is a map from path to bytes, and a texture is the path it is loaded
  from. The undisposed reader in `Identify` is a resource matter with no
  behaviour to model.
- `BinaryReaderX` and `Magic` are not part of this model. Their semantics are
  the stated model choices of `BinaryReader.Reader`.
- Single-precision rounding of the scale factor: the model uses exact reals,
  so a result that float rounding would move across an integer can differ.
- `TextLayout.DrawText`: requires the header's FontSize to be non-zero. With a
  zero font size the C# division gives an infinity or NaN and the `(int)` cast
  an unspecified value; this is not modelled. `TextLayout.DrawLine` and
  `TextLayout.DrawChar` require the same.
- `TextLayout.MeasureTextSize`: requires the header's FontSize to be non-zero,
  for the same reason.
- `Imaging.ScaledDimPositive`: requires a non-zero original size, for the same
  reason.
- 32-bit `int` overflow of the cursor and of the measured sums: integers are
  unbounded. So is a float too large for the `(int)` cast.
- `ResizeImage`'s bicubic interpolation, `Bitmap.Clone` and
  `Graphics.DrawImage`: a composite records the glyph, the position, the target
  size and the tint, not pixels.
- `TextLayout.DrawChar`: a glyph rectangle outside its atlas makes
  `Bitmap.Clone` throw, and a rescaled glyph too large for a bitmap makes
  `new Bitmap` throw. The model does not know the atlas or memory sizes, so
  it composites these glyphs without an exception. `TextLayout.DrawText` and
  `TextLayout.DrawLine` inherit this.
- The meaning of `HeaderF`, `BaseLine`, `DescentLine` and the other float
  fields: they are kept as raw 32-bit words.
- `Form1.cs`: the WinForms user interface.
