/**
 * Constructing a GFD text renderer: identify the GFD file, read its table,
 * check that every font texture exists, then load the textures in order.
 * File presence and contents are a map from path to bytes; a texture is
 * represented by the path it is loaded from.
 */
module TextRenderer {
  import opened Wrappers
  import opened Bytes
  import opened BinaryReader
  import opened Gfd

  /** The exceptions the constructor raises. */
  datatype Error =
    | GfdNotFound                   // the GFD file does not exist
    | VersionNotSupported           // the version word is neither GFD version
    | ReadFailed(error: ReadError)  // the GFD file ended early or held a negative count
    | TextureNotFound(path: string) // the first font texture that does not exist

  /**
   * A constructed renderer: the font table, the paths of the loaded textures
   * in texture-index order, the requested font size, the font's own size
   * (the header's FontSize) and the line height in pixels.
   */
  datatype Renderer = Renderer(font: FontTable, textures: seq<string>,
                               fontSize: real, origFontSize: real, lineHeight: int)

  // ------------------------------------------------------------ Texture paths

  function DigitChar(d: nat): (c: char)
    requires d < 10
  {
    (48 + d) as char
  }

  /** The decimal digits of `n`, most significant first, without leading zeros. */
  function Digits(n: nat): (s: string)
    ensures |s| >= 1
    decreases n
  {
    if n < 10 then [DigitChar(n)] else Digits(n / 10) + [DigitChar(n % 10)]
  }

  /** The `{i:00}` format: the decimal digits, padded with a zero to at least two. */
  function Format00(n: nat): (s: string)
  {
    if n < 10 then ['0'] + Digits(n) else Digits(n)
  }

  /** The value of a string of decimal digits. */
  function DecimalValue(s: string): int
    decreases |s|
  {
    if |s| == 0 then 0 else 10 * DecimalValue(s[..|s| - 1]) + (s[|s| - 1] as int - 48)
  }

  ghost predicate AllDigits(s: string)
  {
    forall i :: 0 <= i < |s| ==> '0' <= s[i] <= '9'
  }

  /** The digits read back as the number; there are two of them below 100. */
  lemma {:induction false} DigitsValue(n: nat)
    ensures AllDigits(Digits(n)) && DecimalValue(Digits(n)) == n
    ensures 10 <= n < 100 ==> |Digits(n)| == 2
    decreases n
  {
    if n >= 10 {
      DigitsValue(n / 10);
      var s := Digits(n);
      assert s[..|s| - 1] == Digits(n / 10);
    }
  }

  /** The padded index has at least two digits, exactly two below 100, and reads back as the index. */
  lemma {:induction false} Format00Value(n: nat)
    ensures AllDigits(Format00(n)) && DecimalValue(Format00(n)) == n
    ensures |Format00(n)| >= 2
    ensures n < 100 ==> |Format00(n)| == 2
  {
    DigitsValue(n);
    if n < 10 {
      var s := Format00(n);
      assert s[..|s| - 1] == ['0'];
      assert DecimalValue(['0']) == 10 * DecimalValue([]) + 0;
    } else {
      DigitsValue(n / 10);
    }
  }

  /** The file name of texture i: the base, the padded index, the extension, ".png". */
  function TexturePath(base: string, i: nat, ext: string): string
  {
    base + Format00(i) + ext + ".png"
  }

  /** Distinct indices name distinct files. */
  lemma {:induction false} TexturePathInjective(base: string, ext: string, i: nat, j: nat)
    requires TexturePath(base, i, ext) == TexturePath(base, j, ext)
    ensures i == j
  {
    Format00Value(i);
    Format00Value(j);
    var p, q := TexturePath(base, i, ext), TexturePath(base, j, ext);
    var n := |Format00(i)|;
    assert |Format00(j)| == n;
    assert p[|base| .. |base| + n] == Format00(i);
    assert q[|base| .. |base| + n] == Format00(j);
  }

  /** The texture indices `0 .. count - 1` of a header: none for a negative count. */
  function TextureCount(h: Header): nat
  {
    if h.fontTexCount < 0 then 0 else h.fontTexCount
  }

  /** The first texture index from `i` on below `count` whose file does not exist. */
  function FirstMissing(fs: FileSystem, base: string, ext: string, i: nat, count: nat): (r: Option<nat>)
    ensures r.Some? ==> i <= r.value < count && TexturePath(base, r.value, ext) !in fs
    ensures r.Some? ==> forall j :: i <= j < r.value ==> TexturePath(base, j, ext) in fs
    ensures r.None? ==> forall j :: i <= j < count ==> TexturePath(base, j, ext) in fs
    decreases count - i
  {
    if i >= count then None
    else if TexturePath(base, i, ext) !in fs then Some(i)
    else FirstMissing(fs, base, ext, i + 1, count)
  }

  function TexturePaths(base: string, ext: string, n: nat): (r: seq<string>)
    ensures |r| == n
  {
    seq(n, i requires 0 <= i < n => TexturePath(base, i, ext))
  }

  /** The renderer for a read table, once every texture is known to exist. */
  function WithTextures(fs: FileSystem, t: FontTable, base: string, ext: string, fontSize: real, lineHeight: int)
    : Result<Renderer, Error>
  {
    var n := TextureCount(t.header);
    match FirstMissing(fs, base, ext, 0, n)
    case Some(i) => Err(TextureNotFound(TexturePath(base, i, ext)))
    case None => Ok(Renderer(t, TexturePaths(base, ext, n), fontSize, t.header.fontSize as real, lineHeight))
  }

  /** What the constructor produces or raises. */
  function CreateResult(fs: FileSystem, gfdPath: string, base: string, ext: string, fontSize: real, lineHeight: int)
    : Result<Renderer, Error>
  {
    match IdentifyResult(fs, gfdPath)
    case Err(e) => Err(ReadFailed(e))
    case Ok(NotFound) => Err(GfdNotFound)
    case Ok(NotSupported) => Err(VersionNotSupported)
    case Ok(id) =>
      var v := if id == Version1 then V1 else V2;
      match Parse(v, fs[gfdPath])
      case Err(e) => Err(ReadFailed(e))
      case Ok(t) => WithTextures(fs, t, base, ext, fontSize, lineHeight)
  }

  /**
   * The constructor: identification, the table read, a first loop that
   * checks every texture file, and a second loop that loads them in order.
   */
  method Create(fs: FileSystem, gfdPath: string, base: string, ext: string, fontSize: real, lineHeight: int)
    returns (r: Result<Renderer, Error>)
    ensures r == CreateResult(fs, gfdPath, base, ext, fontSize, lineHeight)
  {
    var res := Identify(fs, gfdPath);
    if res.Err? {
      return Err(ReadFailed(res.error));
    }
    if res.value == NotFound {
      return Err(GfdNotFound);
    }
    if res.value == NotSupported {
      return Err(VersionNotSupported);
    }
    var v := if res.value == Version1 then V1 else V2;
    var loaded := Load(v, fs[gfdPath]);
    if loaded.Err? {
      return Err(ReadFailed(loaded.error));
    }
    var t := loaded.value;
    var n := TextureCount(t.header);
    var missing := CheckTextures(fs, base, ext, n);
    if missing.Some? {
      return Err(TextureNotFound(TexturePath(base, missing.value, ext)));
    }
    var textures := LoadTextures(base, ext, n);
    r := Ok(Renderer(t, textures, fontSize, t.header.fontSize as real, lineHeight));
  }

  /** The first loop: the first texture index whose file does not exist. */
  method CheckTextures(fs: FileSystem, base: string, ext: string, n: nat) returns (missing: Option<nat>)
    ensures missing == FirstMissing(fs, base, ext, 0, n)
  {
    var i := 0;
    while i < n
      invariant 0 <= i <= n
      invariant FirstMissing(fs, base, ext, 0, n) == FirstMissing(fs, base, ext, i, n)
    {
      if TexturePath(base, i, ext) !in fs {
        return Some(i);
      }
      i := i + 1;
    }
    missing := None;
  }

  /** The second loop: the textures appended in index order. */
  method LoadTextures(base: string, ext: string, n: nat) returns (textures: seq<string>)
    ensures textures == TexturePaths(base, ext, n)
  {
    textures := [];
    var i := 0;
    while i < n
      invariant 0 <= i <= n
      invariant textures == TexturePaths(base, ext, i)
    {
      textures := textures + [TexturePath(base, i, ext)];
      i := i + 1;
    }
  }

  /**
   * A renderer is built exactly when the file identifies as a GFD version,
   * its table reads, and every texture exists; it then holds that table and
   * the texture paths in index order, the header's font size and the
   * requested size and line height. A missing file and an unsupported
   * version word are reported as such, and only then.
   */
  lemma {:induction false} CreateOk(fs: FileSystem, gfdPath: string, base: string, ext: string, fontSize: real, lineHeight: int)
    ensures var r := CreateResult(fs, gfdPath, base, ext, fontSize, lineHeight);
      r.Ok? <==>
        (gfdPath in fs && IdentifyResult(fs, gfdPath) in {Ok(Version1), Ok(Version2)}
         && var v := if IdentifyResult(fs, gfdPath) == Ok(Version1) then V1 else V2;
            Parse(v, fs[gfdPath]).Ok?
            && forall i :: 0 <= i < TextureCount(Parse(v, fs[gfdPath]).value.header) ==>
                 TexturePath(base, i, ext) in fs)
    ensures var r := CreateResult(fs, gfdPath, base, ext, fontSize, lineHeight);
      var v := if IdentifyResult(fs, gfdPath) == Ok(Version1) then V1 else V2;
      r.Ok? ==>
        && r.value.font == Parse(v, fs[gfdPath]).value
        && |r.value.textures| == TextureCount(r.value.font.header)
        && (forall i :: 0 <= i < |r.value.textures| ==>
              r.value.textures[i] == TexturePath(base, i, ext) && r.value.textures[i] in fs)
        && r.value.origFontSize == r.value.font.header.fontSize as real
        && r.value.fontSize == fontSize && r.value.lineHeight == lineHeight
    ensures var r := CreateResult(fs, gfdPath, base, ext, fontSize, lineHeight);
      r == Err(GfdNotFound) <==> gfdPath !in fs
    ensures var r := CreateResult(fs, gfdPath, base, ext, fontSize, lineHeight);
      r == Err(VersionNotSupported) <==>
        (gfdPath in fs && |fs[gfdPath]| >= 8 && U32Of(fs[gfdPath][4..8]) != VERSION1
         && U32Of(fs[gfdPath][4..8]) != VERSION2)
  {
    var r := CreateResult(fs, gfdPath, base, ext, fontSize, lineHeight);
    var id := IdentifyResult(fs, gfdPath);
    if id.Ok? && id.value in {Version1, Version2} {
      var v := if id == Ok(Version1) then V1 else V2;
      var p := Parse(v, fs[gfdPath]);
      if p.Ok? {
        var n := TextureCount(p.value.header);
        var m := FirstMissing(fs, base, ext, 0, n);
        if m.Some? {
          assert !(TexturePath(base, m.value, ext) in fs);
        }
      }
    }
  }

  /** The texture a failed construction names is the first one missing; all before it exist. */
  lemma {:induction false} CreateMissingTexture(fs: FileSystem, gfdPath: string, base: string, ext: string,
                                                fontSize: real, lineHeight: int, path: string)
    requires CreateResult(fs, gfdPath, base, ext, fontSize, lineHeight) == Err(TextureNotFound(path))
    ensures path !in fs
    ensures exists i: nat :: (path == TexturePath(base, i, ext)
      && forall j :: 0 <= j < i ==> TexturePath(base, j, ext) in fs)
  {
    var id := IdentifyResult(fs, gfdPath);
    var v := if id == Ok(Version1) then V1 else V2;
    var t := Parse(v, fs[gfdPath]).value;
    var i := FirstMissing(fs, base, ext, 0, TextureCount(t.header)).value;
    assert path == TexturePath(base, i, ext);
  }
}
