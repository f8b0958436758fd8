/** The values the TrueType font resource works with: code points, glyph
    records, the 26.6 fixed-point metrics the rasteriser reports, and the
    face-wide data the build pass reads. The rasteriser itself is not
    modelled: what it would answer is carried by a FaceData value. */
module Glyphs {
  import opened Util

  // ---------------------------------------------------------------------
  // Code points and glyph indices
  // ---------------------------------------------------------------------

  const MaxChar: int := 0xFFFF_FFFF

  /** MyGUI's Char: an unsigned 32-bit code point. */
  type Char = c: int | 0 <= c <= MaxChar

  type byte = b: int | 0 <= b < 256

  /** The pseudo code points of FontCodeType that the font gives special glyphs. */
  const Selected: Char := 6
  const SelectedBack: Char := 7
  const Cursor: Char := 8
  const Tab: Char := 9
  const Space: Char := 0x20
  const NotDefined: Char := 0xFFFF_FFFF

  /** Horizontal and vertical gap left between glyphs in the texture. */
  const GlyphSpacing: int := 1
  const SelectedWidth: real := 1.0
  const CursorWidth: real := 2.0

  // ---------------------------------------------------------------------
  // Glyph records
  // ---------------------------------------------------------------------

  datatype UVRect = UVRect(left: real, top: real, right: real, bottom: real)

  /** GlyphInfo; floats are modelled as reals. A freshly made record has an
      all-zero texture rectangle. */
  datatype GlyphInfo = GlyphInfo(
    codePoint: Char,
    width: real,
    height: real,
    advance: real,
    bearingX: real,
    bearingY: real,
    uvRect: UVRect)

  function MakeGlyphInfo(codePoint: Char, width: real, height: real, advance: real, bearingX: real, bearingY: real): GlyphInfo
  {
    GlyphInfo(codePoint, width, height, advance, bearingX, bearingY, UVRect(0.0, 0.0, 0.0, 0.0))
  }

  /** The metrics of a loaded glyph slot, in 26.6 fixed point (1/64 pixel).
      Width and height of a glyph outline are never negative. */
  datatype GlyphMetrics = GlyphMetrics(
    width: nat,
    height: nat,
    horiBearingX: int,
    horiBearingY: int,
    advanceX: int)

  /** createFaceGlyphInfo: converts slot metrics to pixel units. */
  function FaceGlyphInfo(codePoint: Char, fontAscent: int, offsetHeight: int, m: GlyphMetrics): GlyphInfo
  {
    var bearingX := m.horiBearingX as real / 64.0;
    MakeGlyphInfo(
      codePoint,
      m.width as real / 64.0,
      m.height as real / 64.0,
      m.advanceX as real / 64.0 - bearingX,
      bearingX,
      fontAscent as real - m.horiBearingY as real / 64.0 - offsetHeight as real)
  }

  /** What the conversion means: sizes are the 26.6 values in pixels and
      never negative, the advance is measured from the start of the ink, and
      bearingY is measured down from the top of the line (the font ascent)
      shifted by the configured vertical offset. A new record has an
      all-zero texture rectangle. */
  lemma FaceGlyphInfoConverts(codePoint: Char, fontAscent: int, offsetHeight: int, m: GlyphMetrics)
    ensures var g := FaceGlyphInfo(codePoint, fontAscent, offsetHeight, m);
            && g.codePoint == codePoint && g.uvRect == UVRect(0.0, 0.0, 0.0, 0.0)
            && g.width * 64.0 == m.width as real && g.height * 64.0 == m.height as real
            && g.width >= 0.0 && g.height >= 0.0
            && (g.bearingX + g.advance) * 64.0 == m.advanceX as real
            && g.bearingX * 64.0 == m.horiBearingX as real
            && g.bearingY + m.horiBearingY as real / 64.0 + offsetHeight as real == fontAscent as real
  {
  }

  /** The horizontal texture space createGlyph reports for a glyph: its
      rounded-up width plus the spacing, or nothing for a glyph without ink. */
  function WidthContribution(info: GlyphInfo): (w: int)
    ensures w >= 0
    ensures w == 0 <==> info.width <= 0.0
    ensures w > 0 ==> w == GlyphSpacing + Ceil(info.width) && info.width <= (w - GlyphSpacing) as real < info.width + 1.0
  {
    var width := Ceil(info.width);
    if width > 0 then GlyphSpacing + width else 0
  }

  // ---------------------------------------------------------------------
  // Face-wide data
  // ---------------------------------------------------------------------

  /** The OS/2 table fields the ascent and descent are taken from. */
  datatype Os2Table = Os2Table(usWinAscent: nat, usWinDescent: nat, sTypoAscender: int, sTypoDescender: int)

  /** What the rasteriser answers when a glyph is loaded in render mode. */
  datatype RenderedBitmap =
    | NoBuffer                              // the slot has no bitmap buffer
    | Gray(pixels: seq<byte>)               // 8-bit coverage, used as is
    | Mono(converted: Option<seq<byte>>)    // 1-bit bitmap; FT_Bitmap_Convert's 0/1 bytes, or None if it failed
    | OtherMode                             // any other pixel mode: not drawn

  /** One loaded face, as far as the font resource uses it. The maps stand for
      the rasteriser's answers: a glyph index absent from `loadDefault` fails
      to load in default mode, `reloadDefault` is what a second default load
      reports (it can differ, which is the rasteriser defect the correction
      pass works around), and `render` is what a render-mode load gives. */
  datatype FaceData = FaceData(
    scalable: bool,
    numGlyphs: nat,
    unitsPerEm: nat,
    ascender: int,        // size metrics, 26.6
    descender: int,       // size metrics, 26.6 (negative below the baseline)
    yPpem: nat,
    os2: Option<Os2Table>,
    charIndex: map<Char, nat>,
    loadDefault: map<nat, GlyphMetrics>,
    reloadDefault: map<nat, GlyphMetrics>,
    render: map<nat, RenderedBitmap>)

  /** FT_Get_Char_Index: 0 for a code point the face does not map. */
  function CharIndex(face: FaceData, c: Char): nat
  {
    if c in face.charIndex then face.charIndex[c] else 0
  }

  /** What a real face guarantees: glyph indices lie below num_glyphs, and an
      OS/2 table implies a non-zero em size. */
  predicate WellFormedFace(face: FaceData)
  {
    && (forall c :: c in face.charIndex ==> face.charIndex[c] < face.numGlyphs)
    && (forall i :: i in face.loadDefault ==> i < face.numGlyphs)
    && (forall i :: i in face.reloadDefault ==> i < face.numGlyphs)
    && (face.os2.Some? ==> face.unitsPerEm > 0)
  }

  /** setMax */
  function SetMax(v: int, newValue: int): (r: int)
    ensures r >= v && r >= newValue
    ensures r == v || r == newValue
  {
    if v < newValue then newValue else v
  }

  /** An OS/2 design-unit value scaled to pixels as the C code does it:
      integer multiplication by y_ppem, then truncating division by the em size. */
  function ScaleOs2(value: int, face: FaceData): int
    requires face.unitsPerEm > 0
  {
    TruncDiv(value * face.yPpem, face.unitsPerEm)
  }

  /** The font ascent: the largest of the size metrics' ascender (an
      arithmetic shift by 6, i.e. floor division by 64) and, when the face has
      an OS/2 table, its usWinAscent and sTypoAscender scaled to pixels. */
  function FontAscent(face: FaceData): (a: int)
    requires WellFormedFace(face)
    ensures a >= face.ascender / 64
    ensures face.os2.Some? ==> a >= ScaleOs2(face.os2.value.usWinAscent, face) && a >= ScaleOs2(face.os2.value.sTypoAscender, face)
    ensures || a == face.ascender / 64
            || (face.os2.Some? && (a == ScaleOs2(face.os2.value.usWinAscent, face) || a == ScaleOs2(face.os2.value.sTypoAscender, face)))
  {
    var a0 := face.ascender / 64;
    match face.os2
    case None => a0
    case Some(os2) => SetMax(SetMax(a0, ScaleOs2(os2.usWinAscent, face)), ScaleOs2(os2.sTypoAscender, face))
  }

  /** The font descent, a positive distance below the baseline: the largest
      of the negated descender and the OS/2 usWinDescent and negated
      sTypoDescender, scaled to pixels. */
  function FontDescent(face: FaceData): (d: int)
    requires WellFormedFace(face)
    ensures d >= (-face.descender) / 64
    ensures face.os2.Some? ==> d >= ScaleOs2(face.os2.value.usWinDescent, face) && d >= ScaleOs2(-face.os2.value.sTypoDescender, face)
    ensures || d == (-face.descender) / 64
            || (face.os2.Some? && (d == ScaleOs2(face.os2.value.usWinDescent, face) || d == ScaleOs2(-face.os2.value.sTypoDescender, face)))
  {
    var d0 := (-face.descender) / 64;
    match face.os2
    case None => d0
    case Some(os2) => SetMax(SetMax(d0, ScaleOs2(os2.usWinDescent, face)), ScaleOs2(-os2.sTypoDescender, face))
  }

  // ---------------------------------------------------------------------
  // Character size under lock
  // ---------------------------------------------------------------------

  /** The size the face is set to: FT_Set_Char_Size with a 26.6 size for a
      scalable face, FT_Select_Size of strike 0 otherwise. */
  datatype CharSize = Unset | CharSize26_6(size: int, resolution: nat) | Strike(index: nat)

  /** The size initialise and lock set on the face: a scalable face takes
      `(FT_F26Dot6)(mSize * 64)`, which truncates, at the font's resolution;
      a bitmap face selects its first strike. */
  function CharSizeFor(scalable: bool, size: real, resolution: nat): (cs: CharSize)
    ensures scalable ==> cs.CharSize26_6? && cs.resolution == resolution
    ensures scalable && size >= 0.0 ==> cs.size as real <= size * 64.0 < cs.size as real + 1.0
    ensures !scalable ==> cs == Strike(0)
  {
    if scalable then CharSize26_6(Trunc(size * 64.0), resolution) else Strike(0)
  }
}
