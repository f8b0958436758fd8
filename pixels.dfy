/** Writing glyphs into the texture buffer: the two pixel formats, the
    per-pixel value a glyph contributes, the in-place blit renderGlyph
    performs, the monochrome-to-8-bit normalisation and the UV rectangle. */
module Pixels {
  import opened Util
  import opened Glyphs

  // ---------------------------------------------------------------------
  // Pixel formats
  // ---------------------------------------------------------------------

  const MaskBlack: byte := 0x00
  const MaskWhite: byte := 0xFF

  /** charMask: the alpha of the four generated glyphs. */
  function CharMask(c: Char): (a: Option<byte>)
    ensures a.Some? <==> c in {Selected, SelectedBack, Cursor, Tab}
  {
    if c == Selected then Some(0x88)
    else if c == SelectedBack then Some(0x60)
    else if c == Cursor then Some(0xFF)
    else if c == Tab then Some(0x00)
    else None
  }

  /** PixelBase::getNumBytes: L8A8 in luminance-alpha mode, else R8G8B8A8. */
  function BytesPerPixel(laMode: bool): (n: int)
    ensures n == 2 || n == 4
  {
    if laMode then 2 else 4
  }

  /** PixelBase::set: the bytes one pixel occupies, the luminance repeated
      in every colour channel and the alpha last. */
  function PixelBytes(laMode: bool, luminance: byte, alpha: byte): (bs: seq<byte>)
    ensures |bs| == BytesPerPixel(laMode)
    ensures bs[|bs| - 1] == alpha
    ensures forall k :: 0 <= k < |bs| - 1 ==> bs[k] == luminance
  {
    if laMode then [luminance, alpha] else [luminance, luminance, luminance, alpha]
  }

  /** Where a pixel's alpha (and maybe luminance) comes from: a constant
      (the generated glyphs) or a rasterised 8-bit coverage buffer. */
  datatype PixelSource = Constant(alpha: byte) | Coverage(buffer: seq<byte>, antialias: bool)

  /** Columns alternate between the two luminance arguments, starting with the first. */
  function Luminance(c: int, luminance0: byte, luminance1: byte): byte
  {
    if c % 2 == 0 then luminance0 else luminance1
  }

  /** Pixel::set: (luminance, alpha) of a pixel, given the luminance argument
      and, for a coverage buffer, the source byte at index s. Without
      antialiasing the coverage only sets alpha; with it, both. */
  function PixelValue(src: PixelSource, s: int, luminance: byte): (v: (byte, byte))
    requires src.Coverage? ==> 0 <= s < |src.buffer|
    ensures src.Constant? ==> v == (luminance, src.alpha)
    ensures src.Coverage? && src.antialias ==> v.0 == v.1 == src.buffer[s]
    ensures src.Coverage? && !src.antialias ==> v == (luminance, src.buffer[s])
  {
    match src
    case Constant(alpha) => (luminance, alpha)
    case Coverage(buffer, antialias) => if antialias then (buffer[s], buffer[s]) else (luminance, buffer[s])
  }

  // ---------------------------------------------------------------------
  // Glyph placement in the texture
  // ---------------------------------------------------------------------

  /** A glyph cell: texture width in pixels, the top-left corner the packer
      chose, the rounded-up glyph width and height, and the pixel format. */
  datatype Target = Target(texWidth: int, texX: int, texY: int, width: int, height: int, laMode: bool)

  /** The cell lies within the texture's width (rows never wrap into the next). */
  predicate ValidTarget(t: Target)
  {
    t.texWidth > 0 && t.texX >= 0 && t.texY >= 0 && t.texX + (if t.width > 0 then t.width else 0) <= t.texWidth
  }

  /** The texture row and column of the pixel byte p belongs to. */
  function TexRow(t: Target, p: int): int
    requires t.texWidth > 0
  {
    (p / BytesPerPixel(t.laMode)) / t.texWidth
  }

  function TexCol(t: Target, p: int): int
    requires t.texWidth > 0
  {
    (p / BytesPerPixel(t.laMode)) % t.texWidth
  }

  /** Byte p belongs to a pixel of the glyph cell. */
  predicate InCell(t: Target, p: int)
    requires t.texWidth > 0
  {
    && t.texY <= TexRow(t, p) < t.texY + t.height
    && t.texX <= TexCol(t, p) < t.texX + t.width
  }

  /** Byte p belongs to a glyph pixel that comes before (r, c) in row-major order. */
  predicate PaintedBefore(t: Target, p: int, r: int, c: int)
    requires t.texWidth > 0
  {
    && InCell(t, p)
    && (TexRow(t, p) - t.texY < r || (TexRow(t, p) - t.texY == r && TexCol(t, p) - t.texX < c))
  }

  predicate SourceLongEnough(t: Target, src: PixelSource)
  {
    src.Coverage? && t.width > 0 && t.height > 0 ==> t.width * t.height <= |src.buffer|
  }

  lemma IndexInGrid(r: int, c: int, rows: int, cols: int)
    requires 0 <= r < rows && 0 <= c < cols
    ensures 0 <= r * cols + c < rows * cols
  {
    assert r * cols + c < (r + 1) * cols;
    assert (r + 1) * cols <= rows * cols;
  }

  /** The value of glyph byte p: the glyph pixel (r, c) it belongs to reads
      source byte r * width + c, and p picks one byte of that pixel. */
  function Expected(t: Target, luminance0: byte, luminance1: byte, src: PixelSource, p: int): byte
    requires ValidTarget(t) && SourceLongEnough(t, src) && InCell(t, p) && p >= 0
  {
    var r := TexRow(t, p) - t.texY;
    var c := TexCol(t, p) - t.texX;
    IndexInGrid(r, c, t.height, t.width);
    var v := PixelValue(src, r * t.width + c, Luminance(c, luminance0, luminance1));
    PixelBytes(t.laMode, v.0, v.1)[p % BytesPerPixel(t.laMode)]
  }

  /** The texture after the glyph is written: the cell's bytes replaced,
      every other byte as before. */
  function Rendered(t: Target, luminance0: byte, luminance1: byte, src: PixelSource, before: seq<byte>): (after: seq<byte>)
    requires ValidTarget(t) && SourceLongEnough(t, src)
    ensures |after| == |before|
  {
    seq(|before|, p requires 0 <= p < |before| =>
      if InCell(t, p) then Expected(t, luminance0, luminance1, src, p) else before[p])
  }

  /** Progress of the blit: glyph bytes before pixel (r, c) written, the rest untouched. */
  ghost predicate PaintedUpTo(t: Target, luminance0: byte, luminance1: byte, src: PixelSource,
                              before: seq<byte>, now: seq<byte>, r: int, c: int)
    requires ValidTarget(t) && SourceLongEnough(t, src)
  {
    && |now| == |before|
    && forall p :: 0 <= p < |now| ==>
         now[p] == if PaintedBefore(t, p, r, c) then Expected(t, luminance0, luminance1, src, p) else before[p]
  }

  lemma MulAtLeast(k: int, d: int)
    requires k >= 1 && d > 0
    ensures k * d >= d
  {
    assert k * d == (k - 1) * d + d;
  }

  /** Euclidean division of a * d + b by d when 0 <= b < d. */
  lemma DivModOf(a: int, b: int, d: int)
    requires d > 0 && 0 <= b < d
    ensures (a * d + b) / d == a && (a * d + b) % d == b
  {
    var n := a * d + b;
    var q, m := n / d, n % d;
    assert (q - a) * d == b - m;
    if q > a {
      MulAtLeast(q - a, d);
      assert false;
    } else if q < a {
      MulAtLeast(a - q, d);
      assert false;
    }
  }

  /** The first byte of glyph pixel (r, c). */
  function PixelStart(t: Target, r: int, c: int): int
  {
    ((t.texY + r) * t.texWidth + t.texX + c) * BytesPerPixel(t.laMode)
  }

  lemma PixelStartNext(t: Target, r: int, c: int)
    ensures PixelStart(t, r, c) + BytesPerPixel(t.laMode) == PixelStart(t, r, c + 1)
  {
  }

  lemma PixelStartNextRow(t: Target, r: int)
    ensures PixelStart(t, r, t.width) + (t.texWidth - t.width) * BytesPerPixel(t.laMode) == PixelStart(t, r + 1, 0)
  {
  }

  /** Every pixel of the cell lies inside a buffer of (texY + height) rows. */
  lemma PixelStartInBuffer(t: Target, r: int, c: int)
    requires ValidTarget(t) && 0 <= r < t.height && 0 <= c < t.width
    ensures 0 <= PixelStart(t, r, c)
    ensures PixelStart(t, r, c) + BytesPerPixel(t.laMode) <= (t.texY + t.height) * t.texWidth * BytesPerPixel(t.laMode)
  {
    var bpp := BytesPerPixel(t.laMode);
    var q := (t.texY + r) * t.texWidth + t.texX + c;
    assert q + 1 <= (t.texY + r + 1) * t.texWidth;
    assert (t.texY + r + 1) * t.texWidth <= (t.texY + t.height) * t.texWidth;
    assert (q + 1) * bpp <= (t.texY + t.height) * t.texWidth * bpp;
  }

  /** The bytes of glyph pixel (r, c) are exactly the bytes whose texture row
      and column are (texY + r, texX + c). */
  lemma PixelBytesLocated(t: Target, r: int, c: int, p: int)
    requires ValidTarget(t) && 0 <= r && 0 <= c < t.width
    ensures (PixelStart(t, r, c) <= p < PixelStart(t, r, c) + BytesPerPixel(t.laMode)) <==>
            (TexRow(t, p) == t.texY + r && TexCol(t, p) == t.texX + c)
    ensures PixelStart(t, r, c) <= p < PixelStart(t, r, c) + BytesPerPixel(t.laMode) ==>
            p % BytesPerPixel(t.laMode) == p - PixelStart(t, r, c)
  {
    var bpp := BytesPerPixel(t.laMode);
    var q := (t.texY + r) * t.texWidth + t.texX + c;
    DivModOf(t.texY + r, t.texX + c, t.texWidth);
    if PixelStart(t, r, c) <= p < PixelStart(t, r, c) + bpp {
      DivModOf(q, p - q * bpp, bpp);
    }
    if TexRow(t, p) == t.texY + r && TexCol(t, p) == t.texX + c {
      var pq := p / bpp;
      assert pq == (pq / t.texWidth) * t.texWidth + pq % t.texWidth;
      assert pq == q;
      assert p == pq * bpp + p % bpp;
    }
  }

  /** Writing pixel (r, c) advances the blit by one pixel. */
  lemma PaintStep(t: Target, luminance0: byte, luminance1: byte, src: PixelSource,
                  before: seq<byte>, now: seq<byte>, next: seq<byte>, r: int, c: int)
    requires ValidTarget(t) && SourceLongEnough(t, src)
    requires 0 <= r < t.height && 0 <= c < t.width
    requires PaintedUpTo(t, luminance0, luminance1, src, before, now, r, c)
    requires |next| == |now| && PixelStart(t, r, c) + BytesPerPixel(t.laMode) <= |next|
    requires src.Coverage? ==> r * t.width + c < |src.buffer|
    requires next[PixelStart(t, r, c)..PixelStart(t, r, c) + BytesPerPixel(t.laMode)] ==
             var v := PixelValue(src, r * t.width + c, Luminance(c, luminance0, luminance1));
             PixelBytes(t.laMode, v.0, v.1)
    requires forall p :: 0 <= p < |next| && !(PixelStart(t, r, c) <= p < PixelStart(t, r, c) + BytesPerPixel(t.laMode)) ==>
               next[p] == now[p]
    ensures PaintedUpTo(t, luminance0, luminance1, src, before, next, r, c + 1)
  {
    var start := PixelStart(t, r, c);
    var bpp := BytesPerPixel(t.laMode);
    forall p | 0 <= p < |next|
      ensures next[p] == if PaintedBefore(t, p, r, c + 1) then Expected(t, luminance0, luminance1, src, p) else before[p]
    {
      PixelBytesLocated(t, r, c, p);
      if start <= p < start + bpp {
        assert next[p] == next[start..start + bpp][p - start];
      }
    }
  }

  /** Once every row is done, the texture is the rendered one. */
  lemma PaintingComplete(t: Target, luminance0: byte, luminance1: byte, src: PixelSource,
                         before: seq<byte>, now: seq<byte>)
    requires ValidTarget(t) && SourceLongEnough(t, src)
    requires PaintedUpTo(t, luminance0, luminance1, src, before, now, t.height, 0)
    ensures now == Rendered(t, luminance0, luminance1, src, before)
  {
    var after := Rendered(t, luminance0, luminance1, src, before);
    forall p | 0 <= p < |now|
      ensures now[p] == after[p]
    {
      assert PaintedBefore(t, p, t.height, 0) <==> InCell(t, p);
    }
  }

  /** An empty cell leaves the texture as it was. */
  lemma NothingToPaint(t: Target, luminance0: byte, luminance1: byte, src: PixelSource, before: seq<byte>)
    requires ValidTarget(t) && SourceLongEnough(t, src)
    requires t.width <= 0 || t.height <= 0
    ensures Rendered(t, luminance0, luminance1, src, before) == before
  {
    var after := Rendered(t, luminance0, luminance1, src, before);
    forall p | 0 <= p < |before|
      ensures after[p] == before[p]
    {
      assert !InCell(t, p);
    }
  }

  /** A full row is the same progress as the start of the next one. */
  lemma RowDone(t: Target, luminance0: byte, luminance1: byte, src: PixelSource,
                before: seq<byte>, now: seq<byte>, r: int)
    requires ValidTarget(t) && SourceLongEnough(t, src)
    requires PaintedUpTo(t, luminance0, luminance1, src, before, now, r, t.width)
    ensures PaintedUpTo(t, luminance0, luminance1, src, before, now, r + 1, 0)
  {
  }

  /** Pixel::set: writes one pixel at dest and advances the source when it is read. */
  method SetPixel(tex: array<byte>, dest: int, laMode: bool, luminance: byte, src: PixelSource, s: int)
    returns (nextDest: int, nextS: int)
    requires 0 <= dest && dest + BytesPerPixel(laMode) <= tex.Length
    requires src.Coverage? ==> 0 <= s < |src.buffer|
    modifies tex
    ensures nextDest == dest + BytesPerPixel(laMode)
    ensures nextS == if src.Coverage? then s + 1 else s
    ensures tex[dest..nextDest] == var v := PixelValue(src, s, luminance); PixelBytes(laMode, v.0, v.1)
    ensures forall p :: 0 <= p < tex.Length && !(dest <= p < nextDest) ==> tex[p] == old(tex[p])
  {
    var v := PixelValue(src, s, luminance);
    if laMode {
      tex[dest] := v.0;
      tex[dest + 1] := v.1;
    } else {
      tex[dest] := v.0;
      tex[dest + 1] := v.0;
      tex[dest + 2] := v.0;
      tex[dest + 3] := v.1;
    }
    nextDest := dest + BytesPerPixel(laMode);
    nextS := if src.Coverage? then s + 1 else s;
  }

  /** Pixel::set for glyph pixel (r, c), with the progress of the blit it makes. */
  method PaintPixel(tex: array<byte>, t: Target, luminance0: byte, luminance1: byte, src: PixelSource,
                    ghost before: seq<byte>, r: int, c: int, dest: int, s: int, luminance: byte)
    returns (nextDest: int, nextS: int)
    requires ValidTarget(t) && SourceLongEnough(t, src)
    requires 0 <= r < t.height && 0 <= c < t.width && luminance == Luminance(c, luminance0, luminance1)
    requires (t.texY + t.height) * t.texWidth * BytesPerPixel(t.laMode) <= tex.Length
    requires dest == PixelStart(t, r, c)
    requires s == if src.Coverage? then r * t.width + c else 0
    requires PaintedUpTo(t, luminance0, luminance1, src, before, tex[..], r, c)
    modifies tex
    ensures nextDest == PixelStart(t, r, c + 1)
    ensures nextS == if src.Coverage? then r * t.width + c + 1 else 0
    ensures PaintedUpTo(t, luminance0, luminance1, src, before, tex[..], r, c + 1)
  {
    ghost var now := tex[..];
    IndexInGrid(r, c, t.height, t.width);
    PixelStartInBuffer(t, r, c);
    nextDest, nextS := SetPixel(tex, dest, t.laMode, luminance, src, s);
    PaintStep(t, luminance0, luminance1, src, before, now, tex[..], r, c);
    PixelStartNext(t, r, c);
  }

  /** One row of the blit: pairs of pixels with the two luminances, then
      the odd last pixel with the first. */
  method RenderRow(tex: array<byte>, t: Target, luminance0: byte, luminance1: byte, src: PixelSource,
                   ghost before: seq<byte>, r: int, dest0: int, s0: int)
    returns (dest: int, s: int)
    requires ValidTarget(t) && SourceLongEnough(t, src)
    requires 0 <= r < t.height && t.width > 0
    requires (t.texY + t.height) * t.texWidth * BytesPerPixel(t.laMode) <= tex.Length
    requires dest0 == PixelStart(t, r, 0)
    requires s0 == if src.Coverage? then r * t.width else 0
    requires PaintedUpTo(t, luminance0, luminance1, src, before, tex[..], r, 0)
    modifies tex
    ensures dest == PixelStart(t, r, t.width)
    ensures s == if src.Coverage? then r * t.width + t.width else 0
    ensures PaintedUpTo(t, luminance0, luminance1, src, before, tex[..], r, t.width)
  {
    dest, s := dest0, s0;
    var i := t.width;
    while i > 1
      invariant (t.width - i) % 2 == 0 && (t.width <= 1 ==> i == t.width) && (t.width > 1 ==> 0 <= i <= t.width)
      invariant dest == PixelStart(t, r, t.width - i)
      invariant s == if src.Coverage? then r * t.width + (t.width - i) else 0
      invariant PaintedUpTo(t, luminance0, luminance1, src, before, tex[..], r, t.width - i)
    {
      var c := t.width - i;
      dest, s := PaintPixel(tex, t, luminance0, luminance1, src, before, r, c, dest, s, luminance0);
      dest, s := PaintPixel(tex, t, luminance0, luminance1, src, before, r, c + 1, dest, s, luminance1);
      i := i - 2;
    }
    if i > 0 {
      dest, s := PaintPixel(tex, t, luminance0, luminance1, src, before, r, t.width - i, dest, s, luminance0);
    }
  }

  /** The blit of renderGlyph: row by row, two pixels at a time with the two
      luminances, then the odd last pixel with the first one; the write
      pointer skips to the next row after each row. */
  method RenderGlyph(tex: array<byte>, t: Target, luminance0: byte, luminance1: byte, src: PixelSource)
    returns (consumed: int)
    requires ValidTarget(t) && SourceLongEnough(t, src)
    requires t.width > 0 && t.height > 0 ==> (t.texY + t.height) * t.texWidth * BytesPerPixel(t.laMode) <= tex.Length
    modifies tex
    ensures tex[..] == Rendered(t, luminance0, luminance1, src, old(tex[..]))
    ensures consumed == if src.Coverage? && t.width > 0 && t.height > 0 then t.width * t.height else 0
  {
    ghost var before := tex[..];
    if t.width <= 0 || t.height <= 0 {
      // Neither loop writes anything.
      NothingToPaint(t, luminance0, luminance1, src, before);
      return 0;
    }
    var bpp := BytesPerPixel(t.laMode);
    var dest := (t.texY * t.texWidth + t.texX) * bpp;
    var destNextRow := (t.texWidth - t.width) * bpp;
    var s := 0;
    var j := t.height;
    while j > 0
      invariant 0 <= j <= t.height
      invariant dest == PixelStart(t, t.height - j, 0)
      invariant s == if src.Coverage? then (t.height - j) * t.width else 0
      invariant PaintedUpTo(t, luminance0, luminance1, src, before, tex[..], t.height - j, 0)
    {
      var r := t.height - j;
      dest, s := RenderRow(tex, t, luminance0, luminance1, src, before, r, dest, s);
      RowDone(t, luminance0, luminance1, src, before, tex[..], r);
      PixelStartNextRow(t, r);
      assert r * t.width + t.width == (r + 1) * t.width;
      dest := dest + destNextRow;
      j := j - 1;
    }
    PaintingComplete(t, luminance0, luminance1, src, before, tex[..]);
    consumed := s;
  }

  /** Writing one more whole pixel of the repeated pattern extends the cleared prefix. */
  lemma ClearStep(now: seq<byte>, next: seq<byte>, dest: int, pattern: seq<byte>)
    requires |pattern| > 0 && 0 <= dest && dest % |pattern| == 0 && dest + |pattern| <= |next| == |now|
    requires forall p :: 0 <= p < dest ==> now[p] == pattern[p % |pattern|]
    requires next[dest..dest + |pattern|] == pattern
    requires forall p :: 0 <= p < |next| && !(dest <= p < dest + |pattern|) ==> next[p] == now[p]
    ensures forall p :: 0 <= p < dest + |pattern| ==> next[p] == pattern[p % |pattern|]
  {
    var bpp := |pattern|;
    var n := dest / bpp;
    assert dest == n * bpp + dest % bpp;
    forall p | dest <= p < dest + bpp
      ensures next[p] == pattern[p % bpp]
    {
      DivModOf(n, p - dest, bpp);
      assert n * bpp + (p - dest) == p;
      assert next[p] == next[dest..dest + bpp][p - dest];
    }
  }

  /** Below a multiple of d, the next multiple of d still fits. */
  lemma NextMultiple(a: int, c: int, d: int)
    requires d > 0 && 0 <= a < c && a % d == 0 && c % d == 0
    ensures a + d <= c && (a + d) % d == 0
  {
    var q, r := a / d, c / d;
    assert a == q * d && c == r * d;
    assert (r - q) * d == c - a;
    if r - q < 1 {
      assert false;
    }
    MulAtLeast(r - q, d);
    DivModOf(q + 1, 0, d);
    assert a + d == (q + 1) * d;
  }

  /** The texture after the background pass: every pixel transparent white. */
  function ClearedTexture(length: nat, laMode: bool): seq<byte>
  {
    seq(length, p requires 0 <= p => PixelBytes(laMode, MaskWhite, MaskBlack)[p % BytesPerPixel(laMode)])
  }

  /** The clear loop of the build pass: every pixel of the buffer becomes
      transparent white (white luminance, zero alpha). */
  method ClearTexture(tex: array<byte>, laMode: bool)
    requires tex.Length % BytesPerPixel(laMode) == 0
    modifies tex
    ensures tex[..] == ClearedTexture(tex.Length, laMode)
  {
    var bpp := BytesPerPixel(laMode);
    var white := PixelBytes(laMode, MaskWhite, MaskBlack);
    var dest := 0;
    while dest != tex.Length
      invariant 0 <= dest <= tex.Length && dest % bpp == 0
      invariant forall p :: 0 <= p < dest ==> tex[p] == white[p % bpp]
    {
      ghost var now := tex[..];
      NextMultiple(dest, tex.Length, bpp);
      var next, _ := SetPixel(tex, dest, laMode, MaskWhite, Constant(MaskBlack), 0);
      ClearStep(now, tex[..], dest, white);
      dest := next;
    }
    assert tex[..] == ClearedTexture(tex.Length, laMode);
  }

  /** The glyph's pixel (r, c) holds the pixel value the source prescribes
      for it, at the byte offsets of the texture's row-major layout. */
  lemma RenderedPixel(t: Target, luminance0: byte, luminance1: byte, src: PixelSource, before: seq<byte>,
                      r: int, c: int, k: int, p: int, i: int)
    requires ValidTarget(t) && SourceLongEnough(t, src)
    requires 0 <= r < t.height && 0 <= c < t.width && 0 <= k < BytesPerPixel(t.laMode)
    requires p == PixelStart(t, r, c) + k && 0 <= p < |before|
    requires i == r * t.width + c
    ensures src.Coverage? ==> i < |src.buffer|
    ensures var v := PixelValue(src, if src.Coverage? then i else 0, Luminance(c, luminance0, luminance1));
            Rendered(t, luminance0, luminance1, src, before)[p] == PixelBytes(t.laMode, v.0, v.1)[k]
  {
    IndexInGrid(r, c, t.height, t.width);
    PixelBytesLocated(t, r, c, p);
  }


  // ---------------------------------------------------------------------
  // Monochrome bitmaps
  // ---------------------------------------------------------------------

  /** `*p ^= -*p ^ *p` on an unsigned byte: the byte becomes its two's
      complement negation, (256 - b) mod 256. */
  function NegateByte(b: byte): (r: byte)
    ensures (b + r) % 256 == 0
  {
    (256 - b) % 256
  }

  /** FT_Bitmap_Convert yields 0 and 1 for a monochrome bitmap; on those the
      negation maps ink to full white and leaves the background at 0. */
  lemma NegateByteOnMonochrome(b: byte)
    requires b == 0 || b == 1
    ensures NegateByte(b) == if b == 0 then 0 else MaskWhite
  {
  }

  /** On other nonzero values the negation is not "all nonzero to white". */
  lemma NegateByteIsNotSaturation()
    ensures NegateByte(2) == 254 && NegateByte(255) == 1
  {
  }

  /** The normalisation loop of renderGlyphs over a converted bitmap. */
  method NormaliseMonochrome(buffer: array<byte>)
    modifies buffer
    ensures forall i :: 0 <= i < buffer.Length ==> buffer[i] == NegateByte(old(buffer[i]))
  {
    var p := 0;
    while p < buffer.Length
      invariant 0 <= p <= buffer.Length
      invariant forall i :: 0 <= i < p ==> buffer[i] == NegateByte(old(buffer[i]))
      invariant forall i :: p <= i < buffer.Length ==> buffer[i] == old(buffer[i])
    {
      buffer[p] := NegateByte(buffer[p]);
      p := p + 1;
    }
  }

  // ---------------------------------------------------------------------
  // Texture coordinates
  // ---------------------------------------------------------------------

  /** The UV rectangle stored after the blit: the cell's corner and the
      corner plus the glyph's (unrounded) size, as fractions of the texture. */
  function GlyphUV(texX: int, texY: int, texWidth: int, texHeight: int, info: GlyphInfo): (uv: UVRect)
    requires texWidth > 0 && texHeight > 0
    ensures uv.left * texWidth as real == texX as real && uv.top * texHeight as real == texY as real
    ensures uv.right * texWidth as real == texX as real + info.width
    ensures uv.bottom * texHeight as real == texY as real + info.height
  {
    UVRect(texX as real / texWidth as real, texY as real / texHeight as real,
           (texX as real + info.width) / texWidth as real, (texY as real + info.height) / texHeight as real)
  }

  /** A glyph whose rounded-up cell lies inside the texture gets a UV
      rectangle inside the unit square, with left <= right and top <= bottom. */
  lemma GlyphUVInUnitSquare(texX: int, texY: int, texWidth: int, texHeight: int, info: GlyphInfo)
    requires texWidth > 0 && texHeight > 0 && texX >= 0 && texY >= 0
    requires info.width >= 0.0 && info.height >= 0.0
    requires texX + Ceil(info.width) <= texWidth && texY + Ceil(info.height) <= texHeight
    ensures var uv := GlyphUV(texX, texY, texWidth, texHeight, info);
            0.0 <= uv.left <= uv.right <= 1.0 && 0.0 <= uv.top <= uv.bottom <= 1.0
  {
    var w, h := texWidth as real, texHeight as real;
    FractionBounds(texX as real, texX as real + info.width, w);
    FractionBounds(texY as real, texY as real + info.height, h);
  }

  lemma FractionBounds(a: real, b: real, w: real)
    requires 0.0 <= a <= b <= w && w > 0.0
    ensures 0.0 <= a / w <= b / w <= 1.0
  {
    assert a / w * w == a && b / w * w == b;
  }
}
