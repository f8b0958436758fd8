/** The rendering pass (renderGlyphs): what each bucket entry paints into
    the texture, where the texture packer puts it, and what happens to the
    glyph records on the way. The packer is outside the model; its answers
    to the successive allocation requests are an input. */
module Rendering {
  import opened Util
  import opened Glyphs
  import opened Pixels
  import opened CodePoints
  import opened GlyphTable

  /** How the pass ends: every entry rendered, or the first failure. */
  datatype RenderOutcome =
    | RenderOk
    | AllocationFailed    // the packer has no room left (the source asserts)
    | OutsideTexture      // the rounded-up glyph would be written past the texture's edge
    | BitmapTooShort      // the bitmap has fewer bytes than the rounded-up glyph reads
    | UnmappedTexture     // the locked texture gave no buffer to write to (appendChar only)

  /** The bytes the negation loop leaves in FT_Bitmap_Convert's output. */
  function Normalised(bs: seq<byte>): seq<byte>
  {
    seq(|bs|, i requires 0 <= i < |bs| => NegateByte(bs[i]))
  }

  /** A converted monochrome bitmap becomes white ink on a zero background. */
  lemma NormalisedMonochrome(bs: seq<byte>)
    requires forall i :: 0 <= i < |bs| ==> bs[i] == 0 || bs[i] == 1
    ensures |Normalised(bs)| == |bs|
    ensures forall i :: 0 <= i < |bs| ==> Normalised(bs)[i] == if bs[i] == 0 then MaskBlack else MaskWhite
  {
    forall i | 0 <= i < |bs|
      ensures Normalised(bs)[i] == if bs[i] == 0 then MaskBlack else MaskWhite
    {
      NegateByteOnMonochrome(bs[i]);
    }
  }

  /** What a render-mode load of the glyph gives; None when loading fails. */
  function LoadRendered(render: map<nat, RenderedBitmap>, idx: nat): Option<RenderedBitmap>
  {
    if idx in render then Some(render[idx]) else None
  }

  /** The coverage a render-mode load leaves to draw from: an 8-bit bitmap
      as is, a converted monochrome bitmap negated to 0/255; nothing when
      the load failed, the slot has no buffer, the conversion failed or the
      pixel mode is another one. */
  function BitmapSource(bitmap: Option<RenderedBitmap>, antialias: bool): (src: Option<PixelSource>)
    ensures src.Some? <==> bitmap.Some? && (bitmap.value.Gray? || (bitmap.value.Mono? && bitmap.value.converted.Some?))
    ensures src.Some? ==> src.value.Coverage? && src.value.antialias == antialias
    ensures bitmap.Some? && bitmap.value.Gray? ==> src.value.buffer == bitmap.value.pixels
    ensures bitmap.Some? && bitmap.value.Mono? && bitmap.value.converted.Some? ==>
              src.value.buffer == Normalised(bitmap.value.converted.value)
  {
    match bitmap
    case Some(Gray(pixels)) => Some(Coverage(pixels, antialias))
    case Some(Mono(Some(bs))) => Some(Coverage(Normalised(bs), antialias))
    case _ => None
  }

  /** BitmapSource computed as the source does: a converted monochrome
      bitmap is copied into its own buffer and negated in place. */
  method LoadBitmapSource(bitmap: Option<RenderedBitmap>, antialias: bool) returns (src: Option<PixelSource>)
    ensures src == BitmapSource(bitmap, antialias)
  {
    match bitmap
    case Some(Gray(pixels)) =>
      src := Some(Coverage(pixels, antialias));
    case Some(Mono(Some(bs))) =>
      var buffer := new byte[|bs|](i requires 0 <= i < |bs| => bs[i]);
      NormaliseMonochrome(buffer);
      assert buffer[..] == Normalised(bs);
      src := Some(Coverage(buffer[..], antialias));
    case _ =>
      // No buffer, a failed conversion, another pixel mode, or a failed load.
      src := None;
  }

  /** What renderGlyphs paints for a glyph: the two column luminances and the
      pixel source, or None when it paints nothing. The four generated glyphs
      paint their charMask alpha in alternating white and black columns; a
      face glyph paints its coverage in white. */
  function EntryPaint(cp: Char, bitmap: Option<RenderedBitmap>, antialias: bool): (p: Option<(byte, byte, PixelSource)>)
    ensures CharMask(cp).Some? ==> p == Some((MaskWhite, MaskBlack, Constant(CharMask(cp).value)))
    ensures CharMask(cp).None? ==> (p.Some? <==> BitmapSource(bitmap, antialias).Some?)
    ensures CharMask(cp).None? && p.Some? ==>
              p.value == (MaskWhite, MaskWhite, BitmapSource(bitmap, antialias).value)
  {
    if CharMask(cp).Some? then Some((MaskWhite, MaskBlack, Constant(CharMask(cp).value)))
    else
      var src := BitmapSource(bitmap, antialias);
      if src.None? then None else Some((MaskWhite, MaskWhite, src.value))
  }

  /** The paint of one entry as renderGlyphs computes it. */
  method LoadPaint(cp: Char, bitmap: Option<RenderedBitmap>, antialias: bool) returns (p: Option<(byte, byte, PixelSource)>)
    ensures p == EntryPaint(cp, bitmap, antialias)
  {
    var mask := CharMask(cp);
    if mask.Some? {
      return Some((MaskWhite, MaskBlack, Constant(mask.value)));
    }
    var src := LoadBitmapSource(bitmap, antialias);
    p := if src.None? then None else Some((MaskWhite, MaskWhite, src.value));
  }

  /** The rounded-up glyph at (x, y) lies inside a texWidth x texHeight texture. */
  predicate CellFits(x: int, y: int, width: int, height: int, texWidth: int, texHeight: int)
  {
    && x >= 0 && y >= 0
    && x + (if width > 0 then width else 0) <= texWidth
    && y + (if height > 0 then height else 0) <= texHeight
  }

  /** One blit renderGlyph performs. */
  datatype Draw = Draw(t: Target, luminance0: byte, luminance1: byte, src: PixelSource)

  /** The blit stays inside a buffer of len bytes and reads no more source
      bytes than there are. */
  predicate DrawFits(d: Draw, len: int)
  {
    && ValidTarget(d.t) && SourceLongEnough(d.t, d.src)
    && (d.t.width > 0 && d.t.height > 0 ==> (d.t.texY + d.t.height) * d.t.texWidth * BytesPerPixel(d.t.laMode) <= len)
  }

  predicate AllFit(draws: seq<Draw>, len: int)
  {
    forall k :: 0 <= k < |draws| ==> DrawFits(draws[k], len)
  }

  /** A cell inside the texture is a blit inside the texture buffer. */
  lemma CellFitsDraw(d: Draw, texHeight: int)
    requires d.t.texWidth > 0 && SourceLongEnough(d.t, d.src)
    requires CellFits(d.t.texX, d.t.texY, d.t.width, d.t.height, d.t.texWidth, texHeight)
    ensures DrawFits(d, d.t.texWidth * texHeight * BytesPerPixel(d.t.laMode))
  {
    var bpp := BytesPerPixel(d.t.laMode);
    if d.t.width > 0 && d.t.height > 0 {
      assert (d.t.texY + d.t.height) * d.t.texWidth <= texHeight * d.t.texWidth;
      assert (d.t.texY + d.t.height) * d.t.texWidth * bpp <= texHeight * d.t.texWidth * bpp;
    }
  }

  /** The texture after the blits, in order. */
  function ApplyDraws(before: seq<byte>, draws: seq<Draw>): (after: seq<byte>)
    requires AllFit(draws, |before|)
    ensures |after| == |before|
  {
    if draws == [] then before
    else
      var d := draws[|draws| - 1];
      Rendered(d.t, d.luminance0, d.luminance1, d.src, ApplyDraws(before, draws[..|draws| - 1]))
  }

  lemma ApplyDrawsLast(before: seq<byte>, draws: seq<Draw>, prefix: seq<Draw>)
    requires AllFit(draws, |before|) && draws != [] && draws[..|draws| - 1] == prefix
    ensures AllFit(prefix, |before|)
    ensures var d := draws[|draws| - 1];
            ApplyDraws(before, draws) == Rendered(d.t, d.luminance0, d.luminance1, d.src, ApplyDraws(before, prefix))
  {
  }

  /** A byte outside every blitted cell keeps its value: the texture keeps
      its transparent background wherever no glyph was painted. */
  lemma {:induction false} ApplyDrawsOutside(before: seq<byte>, draws: seq<Draw>, p: int)
    requires AllFit(draws, |before|) && 0 <= p < |before|
    requires forall k :: 0 <= k < |draws| ==> !InCell(draws[k].t, p)
    ensures ApplyDraws(before, draws)[p] == before[p]
  {
    if draws != [] {
      ApplyDrawsOutside(before, draws[..|draws| - 1], p);
    }
  }

  /** A byte of the last blit's cell holds that blit's pixel, whatever was
      painted before: later glyphs overwrite earlier ones. */
  lemma LastDrawWins(before: seq<byte>, draws: seq<Draw>, p: int)
    requires AllFit(draws, |before|) && draws != [] && 0 <= p < |before|
    requires InCell(draws[|draws| - 1].t, p)
    ensures var d := draws[|draws| - 1];
            ApplyDraws(before, draws)[p] == Expected(d.t, d.luminance0, d.luminance1, d.src, p)
  {
  }

  /** The selection glyphs' width is set to 0 and their right edge to their
      left, so multi-character selections show no seams. */
  function ZeroWidth(gm: GlyphMap, g: nat): (r: GlyphMap)
    requires g in gm
    ensures r.Keys == gm.Keys
  {
    gm[g := gm[g].(width := 0.0, uvRect := gm[g].uvRect.(right := gm[g].uvRect.left))]
  }

  /** The state of the pass after some entries. */
  datatype Progress = Progress(outcome: RenderOutcome, glyphs: GlyphMap, used: nat, draws: seq<Draw>)

  /** The parameters of the pass that do not change from entry to entry. */
  datatype Setup = Setup(cm: CharMap, substitute: Option<nat>, render: map<nat, RenderedBitmap>,
                         antialias: bool, laMode: bool, answers: seq<Option<(int, int)>>,
                         texWidth: int, texHeight: int)

  predicate SetupOk(s: Setup, gm: GlyphMap)
  {
    s.substitute.Some? && s.substitute.value in gm && s.texWidth > 0 && s.texHeight > 0
  }

  /** The one blit appendChar makes: the glyph in white from its coverage at
      the packer's answer. It is carried out only when the packer answered,
      the locked texture has a buffer and the blit stays inside that buffer
      and inside the bitmap; the first of these that fails is the outcome. */
  function AppendCheck(answer: Option<(int, int)>, width: int, height: int, src: PixelSource,
                       mapped: bool, texWidth: int, texHeight: int, texLength: int, laMode: bool): (r: (RenderOutcome, Draw))
    ensures r.0 == RenderOk <==> answer.Some? && mapped && texHeight > 0 && DrawFits(r.1, texLength)
    ensures r.0 in {RenderOk, AllocationFailed, UnmappedTexture, OutsideTexture, BitmapTooShort}
    ensures answer.Some? ==>
              r.1 == Draw(Target(texWidth, answer.value.0, answer.value.1, width, height, laMode), MaskWhite, MaskWhite, src)
  {
    if answer.None? then (AllocationFailed, Draw(Target(texWidth, 0, 0, width, height, laMode), MaskWhite, MaskWhite, src))
    else
      var d := Draw(Target(texWidth, answer.value.0, answer.value.1, width, height, laMode), MaskWhite, MaskWhite, src);
      if !mapped then (UnmappedTexture, d)
      else if texHeight <= 0 || !ValidTarget(d.t) || (width > 0 && height > 0 && (d.t.texY + height) * texWidth * BytesPerPixel(laMode) > texLength)
      then (OutsideTexture, d)
      else if !SourceLongEnough(d.t, src) then (BitmapTooShort, d)
      else (RenderOk, d)
  }

  /** One entry of renderGlyphs: glyph idx is painted at the packer's next
      answer, its UV rectangle set, and a selection glyph's resolved record
      zeroed. Glyphs that paint nothing take no space. */
  function RenderStep(s: Setup, pr: Progress, idx: nat): (r: Progress)
    requires SetupOk(s, pr.glyphs) && idx in pr.glyphs
    ensures r.glyphs.Keys == pr.glyphs.Keys
  {
    var info := pr.glyphs[idx];
    var paint := EntryPaint(info.codePoint, LoadRendered(s.render, idx), s.antialias);
    if paint.None? then pr
    else if pr.used >= |s.answers| || s.answers[pr.used].None? then pr.(outcome := AllocationFailed)
    else
      var x, y := s.answers[pr.used].value.0, s.answers[pr.used].value.1;
      var t := Target(s.texWidth, x, y, Ceil(info.width), Ceil(info.height), s.laMode);
      if !CellFits(x, y, t.width, t.height, s.texWidth, s.texHeight) then pr.(outcome := OutsideTexture)
      else if !SourceLongEnough(t, paint.value.2) then pr.(outcome := BitmapTooShort)
      else
        var placed := pr.glyphs[idx := info.(uvRect := GlyphUV(x, y, s.texWidth, s.texHeight, info))];
        var glyphs := if info.codePoint == Selected || info.codePoint == SelectedBack
                      then ZeroWidth(placed, Lookup(s.cm, placed, s.substitute, info.codePoint).1.value)
                      else placed;
        Progress(RenderOk, glyphs, pr.used + 1, pr.draws + [Draw(t, paint.value.0, paint.value.1, paint.value.2)])
  }

  /** The pass over all the entries, stopping at the first failure. */
  function RenderAll(s: Setup, gm: GlyphMap, entries: seq<(int, nat)>): Progress
    requires SetupOk(s, gm)
    requires forall j :: 0 <= j < |entries| ==> entries[j].1 in gm
  {
    RenderUpTo(s, gm, entries, |entries|)
  }

  /** The pass over the first k entries, stopping at the first failure. */
  function RenderUpTo(s: Setup, gm: GlyphMap, entries: seq<(int, nat)>, k: nat): (r: Progress)
    requires SetupOk(s, gm) && k <= |entries|
    requires forall j :: 0 <= j < |entries| ==> entries[j].1 in gm
    ensures r.glyphs.Keys == gm.Keys
  {
    if k == 0 then Progress(RenderOk, gm, 0, [])
    else
      var pr := RenderUpTo(s, gm, entries, k - 1);
      if pr.outcome != RenderOk then pr else RenderStep(s, pr, entries[k - 1].1)
  }

  // ---------------------------------------------------------------------
  // What the pass does, proved about RenderUpTo
  // ---------------------------------------------------------------------

  /** Rendering only ever changes a record's width (to 0) and its UV
      rectangle; code point, height, advance and bearings are kept. */
  predicate KeepsMetrics(gm0: GlyphMap, gm: GlyphMap)
  {
    && gm.Keys == gm0.Keys
    && forall i :: i in gm0 ==>
         && gm[i].codePoint == gm0[i].codePoint && gm[i].height == gm0[i].height
         && gm[i].advance == gm0[i].advance && gm[i].bearingX == gm0[i].bearingX
         && gm[i].bearingY == gm0[i].bearingY
         && (gm[i].width == gm0[i].width || gm[i].width == 0.0)
  }

  lemma KeepsMetricsTrans(gm0: GlyphMap, gm1: GlyphMap, gm2: GlyphMap)
    requires KeepsMetrics(gm0, gm1) && KeepsMetrics(gm1, gm2)
    ensures KeepsMetrics(gm0, gm2)
  {
  }

  lemma StepKeepsMetrics(s: Setup, pr: Progress, idx: nat)
    requires SetupOk(s, pr.glyphs) && idx in pr.glyphs
    ensures KeepsMetrics(pr.glyphs, RenderStep(s, pr, idx).glyphs)
  {
  }

  lemma {:induction false} RenderKeepsMetrics(s: Setup, gm: GlyphMap, entries: seq<(int, nat)>, k: nat)
    requires SetupOk(s, gm) && k <= |entries|
    requires forall j :: 0 <= j < |entries| ==> entries[j].1 in gm
    ensures KeepsMetrics(gm, RenderUpTo(s, gm, entries, k).glyphs)
  {
    if k > 0 {
      RenderKeepsMetrics(s, gm, entries, k - 1);
      var pr := RenderUpTo(s, gm, entries, k - 1);
      if pr.outcome == RenderOk {
        StepKeepsMetrics(s, pr, entries[k - 1].1);
        KeepsMetricsTrans(gm, pr.glyphs, RenderUpTo(s, gm, entries, k).glyphs);
      }
    }
  }

  /** The blits are made at the packer's answers, in order, one answer per
      painted glyph, and each fits the texture buffer. */
  /** One entry adds at most one blit, at the next answer. */
  lemma StepDraws(s: Setup, pr: Progress, idx: nat)
    requires SetupOk(s, pr.glyphs) && idx in pr.glyphs
    ensures var r := RenderStep(s, pr, idx);
            || (r.draws == pr.draws && r.used == pr.used)
            || (&& r.used == pr.used + 1 && pr.used < |s.answers|
                && r.draws == pr.draws + [r.draws[|pr.draws|]]
                && var d := r.draws[|pr.draws|];
                   && s.answers[pr.used] == Some((d.t.texX, d.t.texY)) && d.t.texWidth == s.texWidth
                   && DrawFits(d, s.texWidth * s.texHeight * BytesPerPixel(s.laMode)))
  {
    var r := RenderStep(s, pr, idx);
    if r.draws != pr.draws {
      var d := r.draws[|pr.draws|];
      CellFitsDraw(d, s.texHeight);
    }
  }

  lemma {:induction false} RenderUsesAnswers(s: Setup, gm: GlyphMap, entries: seq<(int, nat)>, k: nat)
    requires SetupOk(s, gm) && k <= |entries|
    requires forall j :: 0 <= j < |entries| ==> entries[j].1 in gm
    ensures var pr := RenderUpTo(s, gm, entries, k);
            && pr.used == |pr.draws| <= |s.answers|
            && AllFit(pr.draws, s.texWidth * s.texHeight * BytesPerPixel(s.laMode))
            && forall j :: 0 <= j < |pr.draws| ==>
                 s.answers[j] == Some((pr.draws[j].t.texX, pr.draws[j].t.texY)) && pr.draws[j].t.texWidth == s.texWidth
  {
    if k > 0 {
      RenderUsesAnswers(s, gm, entries, k - 1);
      var pr := RenderUpTo(s, gm, entries, k - 1);
      var r := RenderUpTo(s, gm, entries, k);
      if pr.outcome == RenderOk {
        StepDraws(s, pr, entries[k - 1].1);
        assert r == RenderStep(s, pr, entries[k - 1].1);
        if r.draws != pr.draws {
          forall j | 0 <= j < |r.draws|
            ensures s.answers[j] == Some((r.draws[j].t.texX, r.draws[j].t.texY)) && r.draws[j].t.texWidth == s.texWidth
            ensures DrawFits(r.draws[j], s.texWidth * s.texHeight * BytesPerPixel(s.laMode))
          {
            if j < |pr.draws| {
              assert r.draws[j] == pr.draws[j];
            }
          }
        }
      } else {
        assert r == pr;
      }
    }
  }

  /** The selection glyph a code point resolves to has width 0 and an empty
      UV span. */
  predicate SelectionZeroed(s: Setup, gm: GlyphMap, cp: Char)
    requires SetupOk(s, gm)
  {
    var g := Lookup(s.cm, gm, s.substitute, cp).1.value;
    gm[g].width == 0.0 && gm[g].uvRect.right == gm[g].uvRect.left
  }

  /** Some entry among the first k is a glyph drawn for code point cp. */
  predicate Visited(gm: GlyphMap, entries: seq<(int, nat)>, k: nat, cp: Char)
    requires k <= |entries|
    requires forall j :: 0 <= j < |entries| ==> entries[j].1 in gm
  {
    exists j :: 0 <= j < k && gm[entries[j].1].codePoint == cp
  }

  /** One entry keeps a zeroed selection glyph zeroed, and zeroes the one it
      draws: a record of width 0 gets a UV span of width 0 wherever it is placed. */
  lemma StepZeroes(s: Setup, pr: Progress, idx: nat, cp: Char)
    requires SetupOk(s, pr.glyphs) && idx in pr.glyphs
    requires cp == Selected || cp == SelectedBack
    requires RenderStep(s, pr, idx).outcome == RenderOk
    requires SelectionZeroed(s, pr.glyphs, cp) || pr.glyphs[idx].codePoint == cp
    ensures SelectionZeroed(s, RenderStep(s, pr, idx).glyphs, cp)
  {
    var r := RenderStep(s, pr, idx);
    var info := pr.glyphs[idx];
    var g := Lookup(s.cm, pr.glyphs, s.substitute, cp).1.value;
    assert Lookup(s.cm, r.glyphs, s.substitute, cp) == Lookup(s.cm, pr.glyphs, s.substitute, cp);
    if r != pr && info.codePoint != cp && idx == g {
      var x, y := s.answers[pr.used].value.0, s.answers[pr.used].value.1;
      assert info.width == 0.0;
      assert GlyphUV(x, y, s.texWidth, s.texHeight, info).right == GlyphUV(x, y, s.texWidth, s.texHeight, info).left;
    }
  }

  /** A pass that renders every entry leaves each selection glyph it met
      zeroed, even when a later entry renders the same record again. */
  lemma {:induction false} RenderZeroesSelection(s: Setup, gm: GlyphMap, entries: seq<(int, nat)>, k: nat, cp: Char)
    requires SetupOk(s, gm) && k <= |entries|
    requires forall j :: 0 <= j < |entries| ==> entries[j].1 in gm
    requires cp == Selected || cp == SelectedBack
    requires RenderUpTo(s, gm, entries, k).outcome == RenderOk && Visited(gm, entries, k, cp)
    ensures SelectionZeroed(s, RenderUpTo(s, gm, entries, k).glyphs, cp)
  {
    var pr := RenderUpTo(s, gm, entries, k - 1);
    var idx := entries[k - 1].1;
    assert pr.outcome == RenderOk;
    assert RenderUpTo(s, gm, entries, k) == RenderStep(s, pr, idx);
    RenderKeepsMetrics(s, gm, entries, k - 1);
    if gm[idx].codePoint != cp {
      var j :| 0 <= j < k && gm[entries[j].1].codePoint == cp;
      assert Visited(gm, entries, k - 1, cp);
      RenderZeroesSelection(s, gm, entries, k - 1, cp);
    }
    StepZeroes(s, pr, idx, cp);
  }
}
