/** ResourceTrueTypeFont: a font resource that rasterises a TrueType (or
    Windows FNT) face once into a texture atlas and answers glyph lookups by
    code point. The rasteriser, the render system and the data manager are
    outside the model; what they would answer is passed in. */
module TrueTypeFont {
  import opened Util
  import opened Glyphs
  import opened CodePoints
  import opened Packing
  import opened Pixels
  import opened FaceCache
  import opened GlyphTable
  import opened Rendering

  /** How loadFace ends. */
  datatype LoadOutcome =
    | FaceLoaded
    | NoFontData        // the data manager has no such file: a null face
    | FaceUnreadable    // FreeType cannot open a face or read an FNT header: an exception
    | ZeroResolution    // a non-scalable file at resolution 0

  /** How initialise ends. */
  datatype InitOutcome =
    | Initialised
    | LibraryFailed                     // FT_Init_FreeType fails: an exception
    | LoadFailed(load: LoadOutcome)     // no face: logged, or an exception
    | SizeFailed                        // the face cannot take the size: an exception
    | SubstituteMissing                 // the substitute resolves to no glyph: a null dereference
    | SizingUnsupported                 // a negative bucket height (the average cannot be converted to int),
                                        // or a width estimate below 1 whose sizing loop never ends
    | TextureLockFailed                 // the new texture cannot be locked: logged
    | ZeroAreaTexture                   // the texture has no pixels: the pass over it is not modelled
    | RenderFailed(render: RenderOutcome)

  /** How lock ends. */
  datatype LockOutcome =
    | Locked
    | NotLocked         // already locked, or no texture: false
    | LockSizeFailed    // the face cannot take the size again: an exception, with the lock taken

  /** The record appendChar builds for glyph idx: from the default-mode
      load's metrics, or, when that load fails, from whatever the glyph slot
      held before (`slot`). */
  function AppendedRecord(face: FaceData, idx: nat, cp: Char, fontAscent: int, offsetHeight: int,
                          slot: GlyphMetrics): (g: GlyphInfo)
    ensures g.codePoint == cp && g.uvRect == UVRect(0.0, 0.0, 0.0, 0.0)
    ensures idx in face.loadDefault ==> g == FaceGlyphInfo(cp, fontAscent, offsetHeight, face.loadDefault[idx])
  {
    FaceGlyphInfo(cp, fontAscent, offsetHeight, if idx in face.loadDefault then face.loadDefault[idx] else slot)
  }

  /** std::map::insert: the key keeps its value when it is already there. */
  function Insert<K, V>(m: map<K, V>, k: K, v: V): (r: map<K, V>)
    ensures r.Keys == m.Keys + {k}
    ensures r[k] == if k in m then m[k] else v
    ensures forall j :: j in m ==> r[j] == m[j]
  {
    if k in m then m else m[k := v]
  }

  /** What appendChar reads of the font. */
  datatype AppendState = AppendState(
    face: FaceData, cm: CharMap, gm: GlyphMap, substitute: Option<nat>,
    fontAscent: int, offsetHeight: int, antialias: bool, laMode: bool,
    mapped: bool, texWidth: int, texHeight: int, texLength: int)

  /** What appendChar answers and leaves: the result and the out-pointer's
      glyph, the fault (RenderOk unless the blit would be undefined), the blit
      made, and the two tables. */
  datatype AppendResult = AppendResult(
    ok: bool, info: Option<nat>, fault: RenderOutcome, draw: Option<Draw>, cm: CharMap, gm: GlyphMap)

  /** appendChar on values. */
  function AppendSpec(s: AppendState, c: Char, slot: GlyphMetrics, answer: Option<(int, int)>): (r: AppendResult)
  {
    var idx := CharIndex(s.face, c);
    var bitmap := LoadRendered(s.face.render, idx);
    if idx == 0 || bitmap.None? then AppendResult(false, s.substitute, RenderOk, None, s.cm, s.gm)
    else AddLoaded(s, c, idx, AppendedRecord(s.face, idx, c, s.fontAscent, s.offsetHeight, slot),
                   BitmapSource(bitmap, s.antialias), answer)
  }

  /** The part of appendChar after the glyph has been loaded in render mode:
      a glyph with nothing to draw is added as it is; otherwise it is drawn
      and gets the UV rectangle of its cell, unless the blit would fault. */
  function AddLoaded(s: AppendState, c: Char, idx: nat, g: GlyphInfo, src: Option<PixelSource>,
                     answer: Option<(int, int)>): (r: AppendResult)
  {
    if src.None? then AppendResult(true, Some(idx), RenderOk, None, Insert(s.cm, c, idx), Insert(s.gm, idx, g))
    else
      var chk := AppendCheck(answer, Ceil(g.width), Ceil(g.height), src.value, s.mapped,
                             s.texWidth, s.texHeight, s.texLength, s.laMode);
      if chk.0 != RenderOk then AppendResult(false, None, chk.0, None, s.cm, s.gm)
      else
        var placed := g.(uvRect := GlyphUV(chk.1.t.texX, chk.1.t.texY, s.texWidth, s.texHeight, g));
        AppendResult(true, Some(idx), RenderOk, Some(chk.1), Insert(s.cm, c, idx), Insert(s.gm, idx, placed))
  }

  /** appendChar never changes an entry either table already has, and a
      failure adds nothing. */
  lemma AppendKeepsEntries(s: AppendState, c: Char, slot: GlyphMetrics, answer: Option<(int, int)>)
    ensures var r := AppendSpec(s, c, slot, answer);
            && (forall k :: k in s.cm ==> k in r.cm && r.cm[k] == s.cm[k])
            && (forall i :: i in s.gm ==> i in r.gm && r.gm[i] == s.gm[i])
            && (!r.ok ==> r.cm == s.cm && r.gm == s.gm)
  {
    var idx := CharIndex(s.face, c);
    var bitmap := LoadRendered(s.face.render, idx);
    if idx != 0 && bitmap.Some? {
      var g := AppendedRecord(s.face, idx, c, s.fontAscent, s.offsetHeight, slot);
      AddLoadedCases(s, c, idx, g, BitmapSource(bitmap, s.antialias), answer);
    }
  }

  /** AddLoaded in its three cases: nothing to draw, a fault, a drawn glyph. */
  lemma AddLoadedCases(s: AppendState, c: Char, idx: nat, g: GlyphInfo, src: Option<PixelSource>,
                       answer: Option<(int, int)>)
    ensures var r := AddLoaded(s, c, idx, g, src, answer);
            && (r.ok ==> r.cm == Insert(s.cm, c, idx) && r.info == Some(idx) && r.fault == RenderOk
                         && idx in r.gm && r.gm.Keys == s.gm.Keys + {idx}
                         && (forall i :: i in s.gm ==> r.gm[i] == s.gm[i]))
            && (!r.ok ==> r.cm == s.cm && r.gm == s.gm && r.info.None? && r.fault != RenderOk && r.draw.None?)
            && (r.draw.Some? ==> r.ok && DrawFits(r.draw.value, s.texLength) && r.draw.value.src == src.value)
  {
    if src.Some? {
      var chk := AppendCheck(answer, Ceil(g.width), Ceil(g.height), src.value, s.mapped,
                             s.texWidth, s.texHeight, s.texLength, s.laMode);
      if chk.0 == RenderOk {
        var placed := g.(uvRect := GlyphUV(chk.1.t.texX, chk.1.t.texY, s.texWidth, s.texHeight, g));
        assert AddLoaded(s, c, idx, g, src, answer).gm == Insert(s.gm, idx, placed);
      }
    }
  }

  /** appendChar keeps the font's invariant: every code point still
      resolves or is still unresolved, and the substitute still names a
      glyph. */
  lemma AppendKeepsResolvable(s: AppendState, c: Char, slot: GlyphMetrics, answer: Option<(int, int)>)
    requires Resolvable(s.cm, s.gm) && (s.substitute.Some? ==> s.substitute.value in s.gm)
    ensures var r := AppendSpec(s, c, slot, answer);
            Resolvable(r.cm, r.gm) && (s.substitute.Some? ==> s.substitute.value in r.gm)
  {
    var r := AppendSpec(s, c, slot, answer);
    AppendKeepsEntries(s, c, slot, answer);
    if r.ok {
      forall k | k in r.cm
        ensures r.cm[k] == 0 || r.cm[k] in r.gm
      {
        if k != c {
          assert k in s.cm && r.cm[k] == s.cm[k];
        }
      }
    }
  }

  /** A success maps the code point and reports a real glyph of the table;
      a plain failure reports the substitute and a fault reports nothing. */
  lemma AppendReports(s: AppendState, c: Char, slot: GlyphMetrics, answer: Option<(int, int)>)
    ensures var r := AppendSpec(s, c, slot, answer);
            && (r.ok ==> c in r.cm && r.info.Some? && r.info.value != 0 && r.info.value in r.gm && r.fault == RenderOk)
            && (!r.ok && r.fault == RenderOk ==> r.info == s.substitute)
            && (r.fault != RenderOk ==> !r.ok && r.info.None?)
  {
    var idx := CharIndex(s.face, c);
    var bitmap := LoadRendered(s.face.render, idx);
    if idx != 0 && bitmap.Some? {
      var g := AppendedRecord(s.face, idx, c, s.fontAscent, s.offsetHeight, slot);
      AddLoadedCases(s, c, idx, g, BitmapSource(bitmap, s.antialias), answer);
    }
  }

  /** A code point the font did not know resolves, after a successful
      appendChar, to the glyph appendChar reports. */
  lemma AppendResolves(s: AppendState, c: Char, slot: GlyphMetrics, answer: Option<(int, int)>)
    requires c !in s.cm
    ensures var r := AppendSpec(s, c, slot, answer);
            r.ok ==> Lookup(r.cm, r.gm, s.substitute, c) == (true, r.info)
  {
    var idx := CharIndex(s.face, c);
    var bitmap := LoadRendered(s.face.render, idx);
    if idx != 0 && bitmap.Some? {
      var g := AppendedRecord(s.face, idx, c, s.fontAscent, s.offsetHeight, slot);
      AddLoadedCases(s, c, idx, g, BitmapSource(bitmap, s.antialias), answer);
    }
  }

  /** appendChar writes only inside the texture buffer and only from inside
      the glyph's bitmap: every blit it makes fits. */
  lemma AppendDrawFits(s: AppendState, c: Char, slot: GlyphMetrics, answer: Option<(int, int)>)
    ensures var r := AppendSpec(s, c, slot, answer);
            r.draw.Some? ==> r.ok && DrawFits(r.draw.value, s.texLength) && r.draw.value.src.Coverage?
  {
    var idx := CharIndex(s.face, c);
    var bitmap := LoadRendered(s.face.render, idx);
    if idx != 0 && bitmap.Some? {
      var g := AppendedRecord(s.face, idx, c, s.fontAscent, s.offsetHeight, slot);
      AddLoadedCases(s, c, idx, g, BitmapSource(bitmap, s.antialias), answer);
    }
  }

  /** What loadFace achieves, from the cache entries and next id before to
      the entries after: a face cached under the source name is shared (its
      user count goes up); otherwise, with data, the face ChooseFace picks is
      cached under the next id with one user, or the choice's failure is
      reported; without data nothing is loaded. */
  ghost predicate LoadsAs(entries0: seq<FaceEntry>, nextId: nat, entries: seq<FaceEntry>, source: string,
                          file: Option<seq<FileFace>>, resolution: nat, size: real,
                          face: Option<FaceData>, faceId: Option<nat>, outcome: LoadOutcome)
  {
    match NameIndex(entries0, source)
    case Some(k) =>
      && outcome == FaceLoaded
      && face == Some(entries0[k].face) && faceId == Some(entries0[k].id)
      && entries == entries0[k := entries0[k].(counter := entries0[k].counter + 1)]
    case None =>
      if file.None? then outcome == NoFontData && entries == entries0
      else match ChooseFace(file.value, resolution, size)
        case Chosen(i) =>
          && outcome == FaceLoaded && face == Some(file.value[i].data) && faceId == Some(nextId)
          && entries == entries0 + [FaceEntry(nextId, source, 1, file.value[i].data)]
        case Unreadable => outcome == FaceUnreadable && entries == entries0
        case NoResolution => outcome == ZeroResolution && entries == entries0
  }

  /** What painting a locked texture achieves: the table, the outcome and
      the pixels are those of RenderAll over the bucketed entries, drawn
      onto the texture cleared to transparent white. */
  ghost predicate PaintedAs(s: Setup, gm0: GlyphMap, entries: seq<(int, nat)>, laMode: bool,
                            gm: GlyphMap, outcome: InitOutcome, pixels: seq<byte>)
  {
    && SetupOk(s, gm0)
    && (forall j :: 0 <= j < |entries| ==> entries[j].1 in gm0)
    && var pr := RenderAll(s, gm0, entries);
       && gm == pr.glyphs
       && outcome == (if pr.outcome == RenderOk then Initialised else RenderFailed(pr.outcome))
       && AllFit(pr.draws, |pixels|)
       && pixels == ApplyDraws(ClearedTexture(|pixels|, laMode), pr.draws)
  }

  /** The resolution a new font assumes, in dots per inch. */
  const DefaultResolution: nat := 96

  class Font {
    // The resource's configuration properties.
    var source: string
    var size: real
    var resolution: nat
    var antialias: bool
    var spaceWidth: real
    var tabWidth: real
    var offsetHeight: int
    var substituteCodePoint: Char
    var autoTextureSize: bool
    var textureWidth: int
    var textureHeight: int

    // The glyph tables and the line metrics.
    var charMap: CharMap
    var glyphMap: GlyphMap
    /** The glyph index whose record mSubstituteGlyphInfo points at. */
    var substituteGlyph: Option<nat>
    var fontAscent: int
    var fontDescent: int
    var defaultHeight: int

    // The resources the font holds.
    var laMode: bool
    var face: Option<FaceData>
    /** The cache address of the face (mFTFace). */
    var faceId: Option<nat>
    var holdsFactory: bool
    var texture: array<byte>
    var hasTexture: bool
    var isLock: bool
    /** Whether the texture's lock gave a buffer (mFTLock.TexBuffer non-null). */
    var bufferMapped: bool
    /** Whether the conversion bitmap for monochrome glyphs (mFTLock.FTBitmap) exists. */
    var hasMonoBuffer: bool
    /** The size last set on the face. */
    var charSize: CharSize

    /** What every operation keeps: each code point resolves to a glyph or is
        still unresolved, the substitute names a glyph, a texture exists only
        for a loaded face, only a texture can be locked, a face is loaded only
        through the factory, and glyphs exist only once a face is loaded. */
    ghost predicate Valid()
      reads this
    {
      && Resolvable(charMap, glyphMap)
      && (substituteGlyph.Some? ==> substituteGlyph.value in glyphMap)
      && (hasTexture ==> face.Some?)
      && (isLock ==> hasTexture)
      && (face.Some? <==> faceId.Some?)
      && (face.Some? ==> holdsFactory)
      && (glyphMap != map[] ==> face.Some?)
    }

    /** The constructor's defaults: size 0 at 96 dpi, no antialiasing, no
        custom space or tab width, "Not Defined" as the substitute, a fixed
        texture size of 0 x 0 (meaning 512 x 512 later), nothing loaded. */
    constructor ()
      ensures Valid()
      ensures size == 0.0 && resolution == DefaultResolution && !antialias
      ensures spaceWidth == 0.0 && tabWidth == 0.0 && offsetHeight == 0
      ensures substituteCodePoint == NotDefined && substituteGlyph.None?
      ensures !autoTextureSize && textureWidth == 0 && textureHeight == 0
      ensures fontAscent == 0 && fontDescent == 0 && defaultHeight == 0
      ensures charMap == map[] && glyphMap == map[]
      ensures face.None? && !holdsFactory && !hasTexture && !isLock && !hasMonoBuffer
    {
      source := "";
      size := 0.0;
      resolution := DefaultResolution;
      antialias := false;
      spaceWidth := 0.0;
      tabWidth := 0.0;
      offsetHeight := 0;
      substituteCodePoint := NotDefined;
      autoTextureSize := false;
      textureWidth := 0;
      textureHeight := 0;
      charMap := map[];
      glyphMap := map[];
      substituteGlyph := None;
      fontAscent := 0;
      fontDescent := 0;
      defaultHeight := 0;
      laMode := false;
      face := None;
      faceId := None;
      holdsFactory := false;
      texture := new byte[0];
      hasTexture := false;
      isLock := false;
      bufferMapped := false;
      hasMonoBuffer := false;
      charSize := Unset;
    }

    // -------------------------------------------------------------------
    // Lookups
    // -------------------------------------------------------------------

    /** getGlyphInfo: true with the glyph the code point maps to when that
        glyph exists, and false with the substitute glyph otherwise. */
    function GetGlyphInfo(id: Char): (r: (bool, Option<nat>))
      reads this
      ensures r.0 <==> id in charMap && charMap[id] in glyphMap
      ensures r.0 ==> r.1 == Some(charMap[id]) && r.1.value in glyphMap
      ensures !r.0 ==> r.1 == substituteGlyph
    {
      Lookup(charMap, glyphMap, substituteGlyph, id)
    }

    /** getCodePointRanges: the code points of the map as maximal runs of
        consecutive values, in ascending order. */
    function CodePointRanges(): (rs: seq<CodeRange>)
      reads this
      ensures Runs(rs)
      ensures rs == [] <==> charMap == map[]
      ensures forall c: Char :: InSomeRange(rs, c) <==> c in charMap
    {
      var ks := SortedKeys(charMap);
      assert forall c: Char :: InSomeRange(RunsOf(ks), c) <==> c in charMap by {
        forall c: Char
          ensures InSomeRange(RunsOf(ks), c) <==> c in charMap
        {
          RunsOfCovers(ks, c);
        }
      }
      assert ks == [] <==> charMap == map[] by {
        if charMap != map[] {
          var c :| c in charMap;
          assert c in ks;
        }
      }
      RunsOf(ks)
    }

    /** getCodePointRanges as the source computes it, over the keys in
        ascending order. */
    method GetCodePointRanges() returns (result: seq<CodeRange>)
      ensures result == CodePointRanges()
    {
      result := CollectRuns(SortedKeys(charMap));
    }

    // -------------------------------------------------------------------
    // The code-point set
    // -------------------------------------------------------------------

    /** addCodePoint: a new code point starts unresolved; an existing one is kept. */
    method AddCodePoint(c: Char)
      requires Valid()
      modifies this`charMap
      ensures Valid()
      ensures charMap == WithCodePoint(old(charMap), c)
    {
      if c !in charMap {
        charMap := charMap[c := 0];
      }
    }

    /** removeCodePoint */
    method RemoveCodePoint(c: Char)
      requires Valid()
      modifies this`charMap
      ensures Valid()
      ensures charMap == old(charMap) - {c}
    {
      charMap := charMap - {c};
    }

    /** addCodePointRange: inserts first, first + 1, ..., last. The unsigned
        loop counter can never exceed the largest code point, so a range
        ending there would never terminate. */
    method AddCodePointRange(first: Char, last: Char)
      requires Valid()
      requires last < MaxChar || last < first
      modifies this`charMap
      ensures Valid()
      ensures charMap == WithRange(old(charMap), first, last)
    {
      var i: int := first;
      while i <= last
        invariant Valid()
        invariant first <= i && (first <= last ==> i <= last + 1)
        invariant i == first ==> charMap == old(charMap)
        invariant last < first ==> i == first
        invariant i > first ==> i - 1 <= last && charMap == WithRange(old(charMap), first, i - 1)
        decreases last - i
      {
        if i !in charMap {
          charMap := charMap[i := 0];
        }
        i := i + 1;
      }
      if last < first {
        assert WithRange(old(charMap), first, last).Keys == old(charMap).Keys;
      }
    }

    /** removeCodePointRange: erases the keys of [first, last]. */
    method RemoveCodePointRange(first: Char, last: Char)
      requires Valid() && RemoveRangeDefined(charMap, first, last)
      modifies this`charMap
      ensures Valid()
      ensures charMap == WithoutRange(old(charMap), first, last)
    {
      charMap := WithoutRange(charMap, first, last);
    }

    /** clearCodePoints */
    method ClearCodePoints()
      requires Valid()
      modifies this`charMap
      ensures Valid() && charMap == map[]
    {
      charMap := map[];
    }

    /** The Codes block: each "range" inclusion is added in order; an empty
        map then receives the whole BMP; each "hide" exclusion is removed. */
    method ApplyCodeRanges(includes: seq<CodeRange>, excludes: seq<CodeRange>)
      requires Valid()
      requires forall k :: 0 <= k < |includes| ==> includes[k].1 < MaxChar || includes[k].1 < includes[k].0
      requires RemovalsDefined(
                 if |AddRanges(charMap, includes)| == 0 then WithRange(AddRanges(charMap, includes), 0, 0xFFFF)
                 else AddRanges(charMap, includes),
                 excludes)
      modifies this`charMap
      ensures Valid()
      ensures charMap == ApplyCodes(old(charMap), includes, excludes)
    {
      var k := 0;
      while k < |includes|
        invariant Valid() && 0 <= k <= |includes|
        invariant AddRanges(charMap, includes[k..]) == AddRanges(old(charMap), includes)
      {
        assert includes[k..][1..] == includes[k + 1..];
        AddCodePointRange(includes[k].0, includes[k].1);
        k := k + 1;
      }
      assert includes[k..] == [];
      if |charMap| == 0 {
        AddCodePointRange(0, 0xFFFF);
      }
      k := 0;
      while k < |excludes|
        invariant Valid() && 0 <= k <= |excludes|
        invariant RemovalsDefined(charMap, excludes[k..])
        invariant RemoveRanges(charMap, excludes[k..]) == ApplyCodes(old(charMap), includes, excludes)
      {
        assert excludes[k..][1..] == excludes[k + 1..];
        RemoveCodePointRange(excludes[k].0, excludes[k].1);
        k := k + 1;
      }
      assert excludes[k..] == [];
    }

    // -------------------------------------------------------------------
    // Loading the face
    // -------------------------------------------------------------------

    /** loadFace: a face already cached under the source name is shared
        (its user count goes up); otherwise the file is read and the face
        ChooseFace picks is added to the cache with one user. */
    method LoadFace(cache: Cache, file: Option<seq<FileFace>>) returns (outcome: LoadOutcome)
      requires Valid() && face.None? && holdsFactory && cache.Valid()
      modifies this`face, this`faceId, cache
      ensures Valid() && cache.Valid()
      ensures face.Some? <==> outcome == FaceLoaded
      ensures LoadsAs(old(cache.entries), old(cache.nextId), cache.entries, source, file, resolution, size,
                      face, faceId, outcome)
    {
      var hit := cache.Find(source);
      if hit.Some? {
        cache.CountAdd(hit.value);
        face, faceId := Some(cache.entries[hit.value].face), Some(cache.entries[hit.value].id);
        return FaceLoaded;
      }
      if file.None? {
        return NoFontData;
      }
      outcome := LoadFileFace(cache, file.value);
    }

    /** The face list of a file no cached face is named after: picks a face,
        or fails, and caches the picked face under a fresh id. */
    method LoadFileFace(cache: Cache, faces: seq<FileFace>) returns (outcome: LoadOutcome)
      requires Valid() && face.None? && holdsFactory && cache.Valid()
      modifies this`face, this`faceId, cache
      ensures Valid() && cache.Valid()
      ensures face.Some? <==> outcome == FaceLoaded
      ensures match ChooseFace(faces, resolution, size)
        case Chosen(i) =>
          && outcome == FaceLoaded && face == Some(faces[i].data) && faceId == Some(old(cache.nextId))
          && cache.entries == old(cache.entries) + [FaceEntry(old(cache.nextId), source, 1, faces[i].data)]
        case Unreadable => outcome == FaceUnreadable && cache.entries == old(cache.entries)
        case NoResolution => outcome == ZeroResolution && cache.entries == old(cache.entries)
    {
      var choice := PickFileFace(faces);
      if choice.Unreadable? {
        return FaceUnreadable;
      } else if choice.NoResolution? {
        return ZeroResolution;
      }
      var index := choice.index;
      var id := cache.BuildFace(source, faces[index].data);
      face, faceId := Some(faces[index].data), Some(id);
      return FaceLoaded;
    }

    /** The part of loadFace that opens the file's faces: the first face
        if it is scalable, else the strike chosen by size. */
    method PickFileFace(faces: seq<FileFace>) returns (choice: FaceChoice)
      ensures choice == ChooseFace(faces, resolution, size)
    {
      if |faces| == 0 {
        return Unreadable;
      }
      if faces[0].data.scalable {
        return Chosen(0);
      }
      if resolution == 0 {
        return NoResolution;
      }
      var sizes := CollectFaceSizes(faces, resolution);
      if sizes.None? {
        return Unreadable;
      }
      FaceSizesFirst(faces, resolution, |faces|);
      assert StrikeSize(faces[0].fnt.value, resolution) in sizes.value;
      return Chosen(PickFace(sizes.value, size));
    }

    /** FTFactory::CreateFTFactory, the library, then loadFace. A face the
        cache or the file provides is well formed when they all are. */
    method OpenFace(factory: Factory, cache: Cache, file: Option<seq<FileFace>>, libraryInits: bool)
      returns (outcome: InitOutcome)
      requires Valid() && !holdsFactory && cache.Valid()
      requires forall k :: 0 <= k < |cache.entries| ==> WellFormedFace(cache.entries[k].face)
      requires file.Some? ==> forall i :: 0 <= i < |file.value| ==> WellFormedFace(file.value[i].data)
      modifies this`holdsFactory, this`face, this`faceId, factory, cache
      ensures Valid() && cache.Valid() && holdsFactory
      ensures forall k :: 0 <= k < |cache.entries| ==> WellFormedFace(cache.entries[k].face)
      ensures factory.count == old(factory.count) + 1
      ensures outcome == Initialised <==> face.Some?
      ensures outcome == Initialised || outcome == LibraryFailed || outcome.LoadFailed?
      ensures face.Some? ==> WellFormedFace(face.value)
      ensures !old(factory.libraryCreated) && !libraryInits ==>
                outcome == LibraryFailed && !factory.libraryCreated && cache.entries == old(cache.entries)
      ensures old(factory.libraryCreated) || libraryInits ==>
                factory.libraryCreated && (outcome == Initialised || outcome.LoadFailed?)
      ensures old(factory.libraryCreated) || libraryInits ==>
                LoadsAs(old(cache.entries), old(cache.nextId), cache.entries, source, file, resolution, size,
                        face, faceId, if outcome.LoadFailed? then outcome.load else FaceLoaded)
    {
      factory.Create();
      holdsFactory := true;
      var library := factory.GetLibrary(libraryInits);
      if !library {
        return LibraryFailed;
      }
      var loaded := LoadFace(cache, file);
      outcome := if loaded == FaceLoaded then Initialised else LoadFailed(loaded);
    }

    // -------------------------------------------------------------------
    // Glyph creation (build pass)
    // -------------------------------------------------------------------

    /** createGlyph: the code point maps to the index (overwriting), the
        record is inserted unless the index already has one, the index joins
        the bucket of the record's truncated height, and the texture width
        estimate grows by the glyph's rounded-up width plus spacing. */
    method CreateGlyph(idx: nat, info: GlyphInfo, hm: HeightMap) returns (w: int, hm2: HeightMap)
      requires Valid() && face.Some?
      modifies this`charMap, this`glyphMap
      ensures Valid()
      ensures charMap == old(charMap)[info.codePoint := idx]
      ensures glyphMap == if idx in old(glyphMap) then old(glyphMap) else old(glyphMap)[idx := info]
      ensures hm2 == AddToBucket(hm, Trunc(info.height), idx)
      ensures Bucketed(hm, old(glyphMap)) && BucketsValid(hm, old(glyphMap)) ==>
                Bucketed(hm2, glyphMap) && BucketsValid(hm2, glyphMap)
      ensures w == WidthContribution(info)
    {
      charMap := charMap[info.codePoint := idx];
      if idx !in glyphMap {
        glyphMap := glyphMap[idx := info];
      }
      hm2 := AddToBucket(hm, Trunc(info.height), idx);
      w := WidthContribution(info);
    }

    /** createFaceGlyph: an index that already has a glyph is only mapped;
        otherwise the glyph is created from a default-mode load, and a load
        that fails leaves everything as it was. */
    method CreateFaceGlyph(ghost base: set<nat>, idx: nat, cp: Char, hm: HeightMap) returns (w: int, hm2: HeightMap)
      requires Valid() && face.Some? && base <= glyphMap.Keys
      modifies this`charMap, this`glyphMap
      ensures Valid()
      ensures Bucketed(hm, old(glyphMap)) && BucketsValid(hm, old(glyphMap)) ==>
                Bucketed(hm2, glyphMap) && BucketsValid(hm2, glyphMap)
      ensures charMap == if idx in old(glyphMap) || idx in face.value.loadDefault then old(charMap)[cp := idx] else old(charMap)
      ensures glyphMap == if idx !in old(glyphMap) && idx in face.value.loadDefault
                          then old(glyphMap)[idx := FaceGlyphInfo(cp, fontAscent, offsetHeight, face.value.loadDefault[idx])]
                          else old(glyphMap)
      ensures if idx !in old(glyphMap) && idx in face.value.loadDefault
              then w == WidthContribution(glyphMap[idx]) && hm2 == AddToBucket(hm, Trunc(glyphMap[idx].height), idx)
              else w == 0 && hm2 == hm
      ensures WidthOf(glyphMap, glyphMap.Keys - base) == WidthOf(old(glyphMap), old(glyphMap).Keys - base) + w
      ensures BucketsExact(hm, old(glyphMap)) ==> BucketsExact(hm2, glyphMap)
    {
      w, hm2 := 0, hm;
      if idx !in glyphMap {
        if idx in face.value.loadDefault {
          var g := FaceGlyphInfo(cp, fontAscent, offsetHeight, face.value.loadDefault[idx]);
          AddedGlyphWidth(base, glyphMap, idx, g);
          if BucketsExact(hm, glyphMap) {
            AddedGlyphBucket(hm, glyphMap, idx, g);
          }
          w, hm2 := CreateGlyph(idx, FaceGlyphInfo(cp, fontAscent, offsetHeight, face.value.loadDefault[idx]), hm);
        }
      } else {
        charMap := charMap[cp := idx];
      }
    }

    /** One step of the standard-glyph loop for code point c: resolve it
        through the face, then erase it if it is still at glyph index 0. */
    method ResolveCodePoint(ghost base: set<nat>, c: Char, hm: HeightMap) returns (w: int, hm2: HeightMap)
      requires Valid() && face.Some? && c in charMap && base <= glyphMap.Keys
      requires Bucketed(hm, glyphMap) && BucketsValid(hm, glyphMap)
      modifies this`charMap, this`glyphMap
      ensures Valid()
      ensures var r := ResolvedIndex(face.value, old(glyphMap), old(charMap), c);
              charMap == if r != 0 then old(charMap)[c := r] else old(charMap) - {c}
      ensures var idx := CharIndex(face.value, c);
              glyphMap == if idx !in old(glyphMap) && idx in face.value.loadDefault
                          then old(glyphMap)[idx := FaceGlyphInfo(c, fontAscent, offsetHeight, face.value.loadDefault[idx])]
                          else old(glyphMap)
      ensures Bucketed(hm2, glyphMap) && BucketsValid(hm2, glyphMap)
      ensures var idx := CharIndex(face.value, c);
              if idx !in old(glyphMap) && idx in face.value.loadDefault
              then w == WidthContribution(glyphMap[idx]) && hm2 == AddToBucket(hm, Trunc(glyphMap[idx].height), idx)
              else w == 0 && hm2 == hm
      ensures WidthOf(glyphMap, glyphMap.Keys - base) == WidthOf(old(glyphMap), old(glyphMap).Keys - base) + w
      ensures BucketsExact(hm, old(glyphMap)) ==> BucketsExact(hm2, glyphMap)
    {
      w, hm2 := CreateFaceGlyph(base, CharIndex(face.value, c), c, hm);
      EraseUnresolved(c);
    }

    /** The end of a standard-loop step: a code point still at glyph index 0
        is erased. */
    method EraseUnresolved(c: Char)
      requires Valid() && c in charMap
      modifies this`charMap
      ensures Valid()
      ensures charMap == if old(charMap)[c] != 0 then old(charMap) else old(charMap) - {c}
    {
      if charMap[c] == 0 {
        charMap := charMap - {c};
      }
    }

    /** One iteration of the standard-glyph loop, stated as the progress it
        makes: the k-th code point of ks is handled. */
    method StandardIteration(ghost cm0: CharMap, ghost gm0: GlyphMap, ks: seq<Char>, k: nat,
                             ghost origin: map<nat, Char>, hm: HeightMap)
      returns (w: int, hm2: HeightMap, ghost origin': map<nat, Char>)
      requires Valid() && face.Some?
      requires k < |ks| && StrictlyIncreasing(ks) && (forall c :: c in ks <==> c in cm0)
      requires CharProgress(face.value, cm0, gm0, ks, k, charMap)
      requires GlyphProgress(face.value, cm0, gm0, glyphMap, origin, fontAscent, offsetHeight)
      requires LoadedProgress(face.value, ks, k, glyphMap)
      requires Bucketed(hm, glyphMap) && BucketsValid(hm, glyphMap)
      modifies this`charMap, this`glyphMap
      ensures Valid()
      ensures CharProgress(face.value, cm0, gm0, ks, k + 1, charMap)
      ensures GlyphProgress(face.value, cm0, gm0, glyphMap, origin', fontAscent, offsetHeight)
      ensures LoadedProgress(face.value, ks, k + 1, glyphMap)
      ensures Bucketed(hm2, glyphMap) && BucketsValid(hm2, glyphMap)
      ensures WidthOf(glyphMap, glyphMap.Keys - gm0.Keys) == WidthOf(old(glyphMap), old(glyphMap).Keys - gm0.Keys) + w
      ensures BucketsExact(hm, old(glyphMap)) ==> BucketsExact(hm2, glyphMap)
    {
      var f := face.value;
      var c := ks[k];
      NotYetHandled(ks, k);
      ghost var cm, gm := charMap, glyphMap;
      ghost var idx := CharIndex(f, c);
      StepResolvesAsInitially(f, cm0, gm0, ks, k, cm, gm, origin, fontAscent, offsetHeight);
      assert gm0.Keys <= gm.Keys;
      w, hm2 := ResolveCodePoint(gm0.Keys, c, hm);
      CharStep(f, cm0, gm0, ks, k, cm, charMap);
      GlyphStep(f, cm0, gm0, ks, k, gm, glyphMap, origin, fontAscent, offsetHeight);
      origin' := if idx !in gm && idx in f.loadDefault then origin[idx := c] else origin;
    }

    /** The loop of the standard-glyph pass over the ascending code points ks. */
    method ResolveCodePoints(ghost cm0: CharMap, ghost gm0: GlyphMap, ks: seq<Char>, hm: HeightMap)
      returns (texWidth: int, hm2: HeightMap, ghost origin: map<nat, Char>)
      requires Valid() && face.Some?
      requires StrictlyIncreasing(ks) && (forall c :: c in ks <==> c in cm0)
      requires CharProgress(face.value, cm0, gm0, ks, 0, charMap)
      requires GlyphProgress(face.value, cm0, gm0, glyphMap, map[], fontAscent, offsetHeight)
      requires LoadedProgress(face.value, ks, 0, glyphMap)
      requires Bucketed(hm, glyphMap) && BucketsValid(hm, glyphMap) && glyphMap == gm0
      modifies this`charMap, this`glyphMap
      ensures Valid()
      ensures CharProgress(face.value, cm0, gm0, ks, |ks|, charMap)
      ensures GlyphProgress(face.value, cm0, gm0, glyphMap, origin, fontAscent, offsetHeight)
      ensures LoadedProgress(face.value, ks, |ks|, glyphMap)
      ensures Bucketed(hm2, glyphMap) && BucketsValid(hm2, glyphMap)
      ensures texWidth == WidthOf(glyphMap, glyphMap.Keys - gm0.Keys)
      ensures BucketsExact(hm, gm0) ==> BucketsExact(hm2, glyphMap)
    {
      texWidth, hm2 := 0, hm;
      assert glyphMap.Keys - gm0.Keys == {};
      // The code point whose resolution created each new glyph.
      origin := map[];
      for k := 0 to |ks|
        invariant Valid()
        invariant CharProgress(face.value, cm0, gm0, ks, k, charMap)
        invariant GlyphProgress(face.value, cm0, gm0, glyphMap, origin, fontAscent, offsetHeight)
        invariant LoadedProgress(face.value, ks, k, glyphMap)
        invariant Bucketed(hm2, glyphMap) && BucketsValid(hm2, glyphMap)
        invariant texWidth == WidthOf(glyphMap, glyphMap.Keys - gm0.Keys)
        invariant BucketsExact(hm, gm0) ==> BucketsExact(hm2, glyphMap)
      {
        var w;
        w, hm2, origin := StandardIteration(cm0, gm0, ks, k, origin, hm2);
        texWidth := texWidth + w;
      }
    }

    /** The standard-glyph pass: every code point, in ascending order, is
        resolved through the face; an entry left at glyph index 0 (the face
        has no glyph for it) is erased. */
    method CreateStandardGlyphs(hm: HeightMap) returns (texWidth: int, hm2: HeightMap)
      requires Valid() && face.Some?
      requires Bucketed(hm, glyphMap) && BucketsValid(hm, glyphMap)
      modifies this`charMap, this`glyphMap
      ensures Valid()
      ensures StandardResult(face.value, old(charMap), old(glyphMap), charMap, glyphMap, fontAscent, offsetHeight)
      ensures forall c :: c in charMap ==> charMap[c] != 0 && charMap[c] in glyphMap
      ensures Bucketed(hm2, glyphMap) && BucketsValid(hm2, glyphMap)
      ensures texWidth == WidthOf(glyphMap, glyphMap.Keys - old(glyphMap).Keys)
      ensures BucketsExact(hm, old(glyphMap)) ==> BucketsExact(hm2, glyphMap)
    {
      ghost var cm0, gm0 := charMap, glyphMap;
      var ks := SortedKeys(charMap);
      assert ks[..0] == [];
      ghost var origin;
      texWidth, hm2, origin := ResolveCodePoints(cm0, gm0, ks, hm);
      StandardDone(face.value, cm0, gm0, ks, charMap, glyphMap, origin, fontAscent, offsetHeight);
      StandardLeavesNoZero(face.value, cm0, gm0, charMap, glyphMap, fontAscent, offsetHeight);
    }

    // -------------------------------------------------------------------
    // Hinting correction (build pass)
    // -------------------------------------------------------------------

    /** One iteration of the correction pass, for the k-th glyph index of
        keys: a glyph that reloads takes the reloaded metrics (the source
        assigns each field that differs, which comes to the same record), and
        a change of width or height moves the width estimate or the buckets. */
    method CorrectGlyph(ghost gm0: GlyphMap, ghost hm0: HeightMap, ghost tw0: int,
                        keys: seq<nat>, k: nat, hm: HeightMap, texWidth: int)
      returns (hm2: HeightMap, texWidth2: int)
      requires Valid() && face.Some?
      requires k < |keys| && StrictlyIncreasing(keys) && (forall j :: j in keys <==> j in gm0)
      requires HintLoop(gm0, hm0, tw0, face.value, fontAscent, offsetHeight, keys, k, glyphMap, hm, texWidth)
      modifies this`glyphMap
      ensures Valid()
      ensures HintLoop(gm0, hm0, tw0, face.value, fontAscent, offsetHeight, keys, k + 1, glyphMap, hm2, texWidth2)
    {
      var f := face.value;
      var i := keys[k];
      NotYetHandled(keys, k);
      assert keys[..k + 1] == keys[..k] + [i];
      HintBucketsSnoc(hm0, gm0, f, fontAscent, offsetHeight, keys[..k], i);
      HintWidthDeltaSnoc(gm0, f, fontAscent, offsetHeight, keys[..k], i);
      forall j | j in gm0
        ensures j < VisitBound(keys, k + 1) <==> j < VisitBound(keys, k) || j == i
      {
        VisitBoundStep(gm0, keys, k, j);
      }
      hm2, texWidth2 := hm, texWidth;
      if i in f.reloadDefault {
        var info := glyphMap[i];
        var n := ReloadedInfo(f, i, fontAscent, offsetHeight);
        if info.width != n.width {
          texWidth2 := texWidth2 + Ceil(n.width) - Ceil(info.width);
        }
        if info.height != n.height {
          hm2 := AddToBucket(hm2, Trunc(n.height), i);
        }
        glyphMap := glyphMap[i := Corrected(info, n)];
      }
    }

    /** The loop of the correction pass: every index of keys, in order. */
    method CorrectGlyphs(ghost gm0: GlyphMap, hm0: HeightMap, tw0: int, keys: seq<nat>)
      returns (hm2: HeightMap, texWidth2: int)
      requires Valid() && face.Some?
      requires StrictlyIncreasing(keys) && (forall j :: j in keys <==> j in gm0)
      requires HintLoop(gm0, hm0, tw0, face.value, fontAscent, offsetHeight, keys, 0, glyphMap, hm0, tw0)
      modifies this`glyphMap
      ensures Valid()
      ensures HintLoop(gm0, hm0, tw0, face.value, fontAscent, offsetHeight, keys, |keys|, glyphMap, hm2, texWidth2)
    {
      hm2, texWidth2 := hm0, tw0;
      for k := 0 to |keys|
        invariant Valid()
        invariant HintLoop(gm0, hm0, tw0, face.value, fontAscent, offsetHeight, keys, k, glyphMap, hm2, texWidth2)
      {
        hm2, texWidth2 := CorrectGlyph(gm0, hm0, tw0, keys, k, hm2, texWidth2);
      }
    }

    /** The correction pass for the rasteriser's hinting defect: every glyph,
        in ascending index order, is loaded again in default mode and takes
        the new metrics. The glyph must be in the bucket of its height, since
        the source dereferences what it finds there. */
    method CorrectHinting(hm: HeightMap, texWidth: int) returns (hm2: HeightMap, texWidth2: int)
      requires Valid() && face.Some?
      requires Bucketed(hm, glyphMap) && BucketsValid(hm, glyphMap)
      modifies this`glyphMap
      ensures Valid()
      ensures glyphMap == CorrectedGlyphs(old(glyphMap), face.value, fontAscent, offsetHeight)
      ensures hm2 == HintBuckets(hm, old(glyphMap), face.value, fontAscent, offsetHeight, SortedIndices(old(glyphMap).Keys))
      ensures texWidth2 == texWidth + HintWidthDelta(old(glyphMap), face.value, fontAscent, offsetHeight, SortedIndices(old(glyphMap).Keys))
      ensures Bucketed(hm2, glyphMap) && BucketsValid(hm2, glyphMap)
    {
      ghost var gm0 := glyphMap;
      var keys := SortedIndices(glyphMap.Keys);
      HintLoopStart(gm0, hm, texWidth, face.value, fontAscent, offsetHeight, keys);
      hm2, texWidth2 := CorrectGlyphs(gm0, hm, texWidth, keys);
      HintLoopDone(gm0, hm, texWidth, face.value, fontAscent, offsetHeight, keys, glyphMap, hm2, texWidth2);
    }

    // -------------------------------------------------------------------
    // Space, Tab, the special glyphs and the substitute (build pass)
    // -------------------------------------------------------------------

    /** The record getGlyphInfo gives for the space, when that record is the
        space's own (it may be the substitute or missing). */
    function SpaceGlyph(): (g: Option<nat>)
      reads this
      ensures g.Some? ==> g.value in glyphMap && glyphMap[g.value].codePoint == Space
      ensures g.Some? && Valid() ==> g == GetGlyphInfo(Space).1
      ensures Space in charMap && charMap[Space] in glyphMap && glyphMap[charMap[Space]].codePoint == Space
              ==> g == Some(charMap[Space])
    {
      var r := GetGlyphInfo(Space).1;
      if r.Some? && r.value in glyphMap && glyphMap[r.value].codePoint == Space then r else None
    }

    /** The Space and Tab handling: a custom space width replaces the space
        glyph's width and advance (moving the width estimate by the change of
        its rounded-up width), and an unset tab width becomes eight space
        advances. Without a space glyph of its own nothing changes. */
    method AdjustSpaceAndTab(hm: HeightMap, texWidth: int) returns (texWidth2: int)
      requires Valid()
      requires Bucketed(hm, glyphMap) && BucketsValid(hm, glyphMap)
      modifies this`glyphMap, this`tabWidth
      ensures Valid()
      ensures Bucketed(hm, glyphMap) && BucketsValid(hm, glyphMap)
      ensures glyphMap.Keys == old(glyphMap).Keys
      ensures old(SpaceGlyph()).None? ==>
                glyphMap == old(glyphMap) && tabWidth == old(tabWidth) && texWidth2 == texWidth
      ensures old(SpaceGlyph()).Some? && spaceWidth == 0.0 ==>
                glyphMap == old(glyphMap) && texWidth2 == texWidth
      ensures old(SpaceGlyph()).Some? && spaceWidth != 0.0 ==>
                var g := old(SpaceGlyph()).value;
                && glyphMap == old(glyphMap)[g := old(glyphMap)[g].(width := spaceWidth, advance := spaceWidth)]
                && texWidth2 == texWidth + Ceil(spaceWidth) - Ceil(old(glyphMap)[g].width)
      ensures old(SpaceGlyph()).Some? ==>
                tabWidth == if old(tabWidth) == 0.0 then 8.0 * glyphMap[old(SpaceGlyph()).value].advance else old(tabWidth)
    {
      texWidth2 := texWidth;
      var g := SpaceGlyph();
      if g.Some? {
        var info := glyphMap[g.value];
        if spaceWidth != 0.0 {
          texWidth2 := texWidth2 + Ceil(spaceWidth) - Ceil(info.width);
          info := info.(width := spaceWidth, advance := spaceWidth);
          glyphMap := glyphMap[g.value := info];
        }
        if tabWidth == 0.0 {
          tabWidth := 8.0 * info.advance;
        }
      }
    }

    /** createGlyph for the k-th special glyph, at index n + k. */
    method CreateSpecialGlyph(ghost cm0: CharMap, ghost gm0: GlyphMap, n: nat, gs: seq<GlyphInfo>, k: nat, hm: HeightMap)
      returns (w: int, hm2: HeightMap)
      requires Valid() && face.Some? && k < |gs|
      requires Bucketed(hm, glyphMap) && BucketsValid(hm, glyphMap)
      requires charMap == SpecialCodesUpTo(cm0, n, gs, k) && glyphMap == SpecialsUpTo(gm0, n, gs, k)
      modifies this`charMap, this`glyphMap
      ensures Valid()
      ensures Bucketed(hm2, glyphMap) && BucketsValid(hm2, glyphMap) && hm2 != map[]
      ensures charMap == SpecialCodesUpTo(cm0, n, gs, k + 1) && glyphMap == SpecialsUpTo(gm0, n, gs, k + 1)
      ensures w == WidthContribution(gs[k])
    {
      SpecialsStep(cm0, gm0, n, gs, k);
      w, hm2 := CreateGlyph(n + k, gs[k], hm);
    }

    /** The special glyphs Tab, Selected, SelectedBack and Cursor take the
        indices just past the face's last glyph, in that order; their code
        points are remapped to them even where the index is already taken. */
    method CreateSpecialGlyphs(hm: HeightMap, texWidth: int) returns (hm2: HeightMap, texWidth2: int)
      requires Valid() && face.Some?
      requires Bucketed(hm, glyphMap) && BucketsValid(hm, glyphMap)
      modifies this`charMap, this`glyphMap
      ensures Valid()
      ensures Bucketed(hm2, glyphMap) && BucketsValid(hm2, glyphMap)
      ensures var n := face.value.numGlyphs;
              && charMap == SpecialCodesUpTo(old(charMap), n, SpecialGlyphs(tabWidth, defaultHeight), 4)
              && glyphMap == SpecialsUpTo(old(glyphMap), n, SpecialGlyphs(tabWidth, defaultHeight), 4)
      ensures texWidth2 == texWidth + 7
      ensures hm2 != map[]
    {
      // nextGlyphIndex starts at the face's glyph count.
      var n := face.value.numGlyphs;
      var gs := SpecialGlyphs(tabWidth, defaultHeight);
      ghost var cm0: CharMap, gm0: GlyphMap := charMap, glyphMap;
      texWidth2, hm2 := texWidth, hm;
      for k := 0 to 4
        invariant Valid()
        invariant Bucketed(hm2, glyphMap) && BucketsValid(hm2, glyphMap)
        invariant k > 0 ==> hm2 != map[]
        invariant charMap == SpecialCodesUpTo(cm0, n, gs, k) && glyphMap == SpecialsUpTo(gm0, n, gs, k)
        invariant texWidth2 == texWidth + SpecialsWidth(gs, k)
      {
        var w;
        w, hm2 := CreateSpecialGlyph(cm0, gm0, n, gs, k, hm2);
        texWidth2 := texWidth2 + w;
      }
      SpecialGlyphsWidth(tabWidth, defaultHeight);
    }

    /** The glyph-creation loop of the build pass: the space is added to
        the code points, then every code point is resolved through the face
        and an unsupported one dropped. The table starts empty. */
    method CreateCodePointGlyphs() returns (hm: HeightMap, texWidth: int)
      requires Valid() && face.Some? && WellFormedFace(face.value) && glyphMap == map[]
      modifies this`charMap, this`glyphMap
      ensures Valid()
      ensures Bucketed(hm, glyphMap) && BucketsValid(hm, glyphMap)
      ensures ResolvesAll(charMap, glyphMap) && Below(glyphMap, face.value.numGlyphs)
      ensures forall c :: c in charMap ==> charMap[c] != 0
      ensures forall c :: c in charMap <==>
                (c in old(charMap) || c == Space) &&
                ResolvedIndex(face.value, map[], WithCodePoint(old(charMap), Space), c) != 0
      ensures StandardResult(face.value, WithCodePoint(old(charMap), Space), map[], charMap, glyphMap, fontAscent, offsetHeight)
      ensures texWidth == WidthOf(glyphMap, glyphMap.Keys)
      ensures BucketsExact(hm, glyphMap)
    {
      AddCodePoint(Space);
      ghost var cm0 := charMap;
      ghost var gm0: GlyphMap := glyphMap;
      assert cm0 == WithCodePoint(old(charMap), Space) && gm0 == map[];
      assert BucketsExact(map[], gm0);
      texWidth, hm := CreateStandardGlyphs(map[]);
      assert glyphMap.Keys - gm0.Keys == glyphMap.Keys;
      assert StandardResult(face.value, cm0, gm0, charMap, glyphMap, fontAscent, offsetHeight);
      StandardBelow(face.value, cm0, charMap, glyphMap, fontAscent, offsetHeight);
    }

    /** The metric fixes of the build pass: the hinting correction, then the
        space and tab widths. Both keep the glyph indices. */
    method FixGlyphMetrics(hm: HeightMap, texWidth: int) returns (hm2: HeightMap, texWidth2: int)
      requires Valid() && face.Some?
      requires Bucketed(hm, glyphMap) && BucketsValid(hm, glyphMap)
      modifies this`glyphMap, this`tabWidth
      ensures Valid()
      ensures Bucketed(hm2, glyphMap) && BucketsValid(hm2, glyphMap)
      ensures glyphMap.Keys == old(glyphMap).Keys
    {
      hm2, texWidth2 := CorrectHinting(hm, texWidth);
      texWidth2 := AdjustSpaceAndTab(hm2, texWidth2);
    }

    /** The four special glyphs, placed after the face's glyphs. When every
        face glyph index lies below the face's glyph count, they sit at the
        next four indices with their own records. */
    method PlaceSpecialGlyphs(hm: HeightMap, texWidth: int) returns (hm2: HeightMap, texWidth2: int)
      requires Valid() && face.Some?
      requires Bucketed(hm, glyphMap) && BucketsValid(hm, glyphMap)
      requires ResolvesAll(charMap, glyphMap) && Below(glyphMap, face.value.numGlyphs)
      modifies this`charMap, this`glyphMap
      ensures Valid()
      ensures Bucketed(hm2, glyphMap) && BucketsValid(hm2, glyphMap) && hm2 != map[]
      ensures ResolvesAll(charMap, glyphMap)
      ensures SpecialsAt(charMap, glyphMap, face.value.numGlyphs, SpecialGlyphs(tabWidth, defaultHeight))
      ensures forall c :: c in charMap <==> c in old(charMap) || c in {Tab, Selected, SelectedBack, Cursor}
      ensures var n := face.value.numGlyphs;
              && charMap == SpecialCodesUpTo(old(charMap), n, SpecialGlyphs(tabWidth, defaultHeight), 4)
              && glyphMap == SpecialsUpTo(old(glyphMap), n, SpecialGlyphs(tabWidth, defaultHeight), 4)
      ensures texWidth2 == texWidth + 7
    {
      SpecialsPlaced(charMap, glyphMap, face.value.numGlyphs, tabWidth, defaultHeight);
      SpecialCodesMap(charMap, face.value.numGlyphs, tabWidth, defaultHeight);
      hm2, texWidth2 := CreateSpecialGlyphs(hm, texWidth);
    }

    /** The glyphs the font makes itself: the four special glyphs, then the
        substitute; ok says whether the substitute resolved. */
    method CreateGeneratedGlyphs(hm: HeightMap, texWidth: int) returns (ok: bool, hm2: HeightMap, texWidth2: int)
      requires Valid() && face.Some?
      requires Bucketed(hm, glyphMap) && BucketsValid(hm, glyphMap)
      requires ResolvesAll(charMap, glyphMap) && Below(glyphMap, face.value.numGlyphs)
      modifies this`charMap, this`glyphMap, this`substituteCodePoint, this`substituteGlyph
      ensures Valid()
      ensures Bucketed(hm2, glyphMap) && BucketsValid(hm2, glyphMap) && hm2 != map[]
      ensures ResolvesAll(charMap, glyphMap)
      ensures SpecialsAt(charMap, glyphMap, face.value.numGlyphs, SpecialGlyphs(tabWidth, defaultHeight))
      ensures var sub := old(substituteCodePoint);
              substituteCodePoint ==
                if sub != NotDefined && (sub in old(charMap) || sub in {Tab, Selected, SelectedBack, Cursor})
                then sub else NotDefined
      ensures ok <==> substituteCodePoint in charMap
      ensures ok ==> substituteGlyph == Some(charMap[substituteCodePoint])
      ensures forall c :: c !in {Tab, Selected, SelectedBack, Cursor, NotDefined} ==> (c in charMap <==> c in old(charMap))
      ensures var gs := SpecialGlyphs(tabWidth, defaultHeight);
              var cm1 := SpecialCodesUpTo(old(charMap), face.value.numGlyphs, gs, 4);
              var gm1 := SpecialsUpTo(old(glyphMap), face.value.numGlyphs, gs, 4);
              if substituteCodePoint != NotDefined then
                charMap == cm1 && glyphMap == gm1 && texWidth2 == texWidth + 7
              else
                && charMap == NotDefinedCodes(cm1, gm1, face.value)
                && glyphMap == NotDefinedGlyphs(gm1, face.value, fontAscent, offsetHeight)
                && texWidth2 == texWidth + 7 + NotDefinedWidth(gm1, face.value, fontAscent, offsetHeight)
    {
      var n := face.value.numGlyphs;
      hm2, texWidth2 := PlaceSpecialGlyphs(hm, texWidth);
      ghost var sub := substituteCodePoint;
      assert sub in charMap <==> sub in old(charMap) || sub in {Tab, Selected, SelectedBack, Cursor};
      ok, hm2, texWidth2 := SubstituteAfterSpecials(hm2, texWidth2, n, SpecialGlyphs(tabWidth, defaultHeight));
      assert n in glyphMap;
    }

    /** The glyph-building part of initialiseFreeType: the face's glyphs
        for the requested code points and the space, their metric fixes, the
        special glyphs and the substitute. A face code point stays mapped
        exactly when the face has a glyph for it. */
    method BuildGlyphs() returns (ok: bool, hm: HeightMap, texWidth: int)
      requires Valid() && face.Some? && WellFormedFace(face.value) && glyphMap == map[]
      modifies this`charMap, this`glyphMap, this`tabWidth, this`substituteCodePoint, this`substituteGlyph
      ensures Valid()
      ensures Bucketed(hm, glyphMap) && BucketsValid(hm, glyphMap) && hm != map[]
      ensures ResolvesAll(charMap, glyphMap)
      ensures SpecialsAt(charMap, glyphMap, face.value.numGlyphs, SpecialGlyphs(tabWidth, defaultHeight))
      ensures ok <==> substituteCodePoint in charMap
      ensures ok ==> substituteGlyph == Some(charMap[substituteCodePoint])
      ensures forall c :: c !in {Tab, Selected, SelectedBack, Cursor, NotDefined} ==>
                (c in charMap <==>
                   (c in old(charMap) || c == Space) &&
                   ResolvedIndex(face.value, map[], WithCodePoint(old(charMap), Space), c) != 0)
    {
      hm, texWidth := CreateCodePointGlyphs();
      ok, hm, texWidth := FinishGlyphs(hm, texWidth);
    }

    /** The rest of the build pass after the standard glyphs: the metric
        fixes, then the special glyphs and the substitute. Apart from the
        special code points and "Not Defined", the code points stay. */
    method FinishGlyphs(hm: HeightMap, texWidth: int) returns (ok: bool, hm2: HeightMap, texWidth2: int)
      requires Valid() && face.Some?
      requires Bucketed(hm, glyphMap) && BucketsValid(hm, glyphMap)
      requires ResolvesAll(charMap, glyphMap) && Below(glyphMap, face.value.numGlyphs)
      modifies this`charMap, this`glyphMap, this`tabWidth, this`substituteCodePoint, this`substituteGlyph
      ensures Valid()
      ensures Bucketed(hm2, glyphMap) && BucketsValid(hm2, glyphMap) && hm2 != map[]
      ensures ResolvesAll(charMap, glyphMap)
      ensures SpecialsAt(charMap, glyphMap, face.value.numGlyphs, SpecialGlyphs(tabWidth, defaultHeight))
      ensures ok <==> substituteCodePoint in charMap
      ensures ok ==> substituteGlyph == Some(charMap[substituteCodePoint])
      ensures forall c :: c !in {Tab, Selected, SelectedBack, Cursor, NotDefined} ==> (c in charMap <==> c in old(charMap))
    {
      hm2, texWidth2 := FixGlyphMetrics(hm, texWidth);
      ok, hm2, texWidth2 := CreateGeneratedGlyphs(hm2, texWidth2);
    }

    /** The sizing step of the build pass: the packed canvas from the width
        estimate and the average glyph height. A negative bucket height is
        refused: the source multiplies it by the unsigned bucket size, and
        the huge average that gives cannot be converted to int. A width
        estimate below one is refused where the sizing loop never ends. */
    method PackedSize(hm: HeightMap, texWidth: int) returns (ok: bool, packedWidth: int, packedHeight: int)
      requires hm != map[] && glyphMap != map[]
      requires forall k :: 0 <= k < |PackEntries(hm)| ==> PackEntries(hm)[k].1 in glyphMap
      ensures ok <==> (forall h :: h in hm ==> h >= 0) &&
                      (texWidth >= 1 || PackedHeight(PackSlots(PackEntries(hm), glyphMap), 0, MaxKey(hm)) == 0)
      ensures ok ==> packedHeight == PackedHeight(PackSlots(PackEntries(hm), glyphMap), packedWidth, MaxKey(hm))
      ensures ok ==> packedHeight <= 2 * packedWidth
      ensures ok && texWidth >= 1 ==> IsPow2(packedWidth)
      ensures ok && texWidth < 1 ==> packedWidth == 0 && packedHeight == 0
    {
      if exists h :: h in hm && h < 0 {
        return false, 0, 0;
      }
      var average := AverageGlyphHeight(hm, |glyphMap|);
      var slots := PackSlots(PackEntries(hm), glyphMap);
      var maxKey := MaxKey(hm);
      ok, packedWidth, packedHeight := ComputeTextureSize(slots, maxKey, texWidth, average);
    }

    /** The substitute step of the generated glyphs: resolving the
        substitute keeps the special glyphs where they were placed. */
    method SubstituteAfterSpecials(hm: HeightMap, texWidth: int, n: nat, ghost gs: seq<GlyphInfo>)
      returns (ok: bool, hm2: HeightMap, texWidth2: int)
      requires Valid() && face.Some? && n == face.value.numGlyphs
      requires Bucketed(hm, glyphMap) && BucketsValid(hm, glyphMap) && hm != map[]
      requires gs == SpecialGlyphs(tabWidth, defaultHeight)
      requires SpecialsAt(charMap, glyphMap, n, gs) && ResolvesAll(charMap, glyphMap)
      modifies this`substituteCodePoint, this`charMap, this`glyphMap, this`substituteGlyph
      ensures Valid()
      ensures Bucketed(hm2, glyphMap) && BucketsValid(hm2, glyphMap) && hm2 != map[]
      ensures SpecialsAt(charMap, glyphMap, n, gs) && ResolvesAll(charMap, glyphMap)
      ensures charMap == old(charMap) || charMap == old(charMap)[NotDefined := 0]
      ensures substituteCodePoint ==
                if old(substituteCodePoint) != NotDefined && old(substituteCodePoint) in old(charMap)
                then old(substituteCodePoint) else NotDefined
      ensures substituteCodePoint != NotDefined ==>
                charMap == old(charMap) && glyphMap == old(glyphMap) && texWidth2 == texWidth
      ensures substituteCodePoint == NotDefined ==>
                && charMap == NotDefinedCodes(old(charMap), old(glyphMap), face.value)
                && glyphMap == NotDefinedGlyphs(old(glyphMap), face.value, fontAscent, offsetHeight)
                && texWidth2 == texWidth + NotDefinedWidth(old(glyphMap), face.value, fontAscent, offsetHeight)
      ensures ok <==> substituteCodePoint in charMap
      ensures ok ==> substituteGlyph == Some(charMap[substituteCodePoint])
    {
      ghost var cm1, gm1 := charMap, glyphMap;
      ok, hm2, texWidth2 := ResolveSubstitute(hm, texWidth);
      SubstituteKeeps(cm1, gm1, n, gs, charMap, glyphMap);
    }

    /** The substitute: a substitute code point the map does not contain
        falls back to "Not Defined", which is then mapped to glyph 0 (loaded
        from the face if need be). The substitute glyph is the record the
        substitute code point resolves to; false when there is none, where
        the source would dereference a missing entry. */
    method ResolveSubstitute(hm: HeightMap, texWidth: int) returns (ok: bool, hm2: HeightMap, texWidth2: int)
      requires Valid() && face.Some?
      requires Bucketed(hm, glyphMap) && BucketsValid(hm, glyphMap)
      modifies this`substituteCodePoint, this`charMap, this`glyphMap, this`substituteGlyph
      ensures Valid()
      ensures Bucketed(hm2, glyphMap) && BucketsValid(hm2, glyphMap)
      ensures substituteCodePoint ==
                if old(substituteCodePoint) != NotDefined && old(substituteCodePoint) in old(charMap)
                then old(substituteCodePoint) else NotDefined
      ensures substituteCodePoint != NotDefined ==>
                charMap == old(charMap) && glyphMap == old(glyphMap) && hm2 == hm && texWidth2 == texWidth
      ensures substituteCodePoint == NotDefined ==>
                && charMap == (if 0 in old(glyphMap) || 0 in face.value.loadDefault
                               then old(charMap)[NotDefined := 0] else old(charMap))
                && glyphMap == (if 0 !in old(glyphMap) && 0 in face.value.loadDefault
                                then old(glyphMap)[0 := FaceGlyphInfo(NotDefined, fontAscent, offsetHeight, face.value.loadDefault[0])]
                                else old(glyphMap))
                && if 0 !in old(glyphMap) && 0 in face.value.loadDefault
                   then texWidth2 == texWidth + WidthContribution(glyphMap[0]) && hm2 == AddToBucket(hm, Trunc(glyphMap[0].height), 0)
                   else texWidth2 == texWidth && hm2 == hm
      ensures ok <==> substituteCodePoint in charMap && charMap[substituteCodePoint] in glyphMap
      ensures ok ==> substituteGlyph == Some(charMap[substituteCodePoint])
      ensures !ok ==> substituteGlyph == old(substituteGlyph)
      ensures forall i :: i in old(glyphMap) ==> i in glyphMap && glyphMap[i] == old(glyphMap)[i]
      ensures charMap == old(charMap) || (charMap == old(charMap)[NotDefined := 0] && 0 in glyphMap)
    {
      hm2, texWidth2 := hm, texWidth;
      if substituteCodePoint != NotDefined && substituteCodePoint !in charMap {
        substituteCodePoint := NotDefined;
      }
      if substituteCodePoint == NotDefined {
        hm2, texWidth2 := AddNotDefined(hm, texWidth);
      }
      var sub := substituteCodePoint;
      ok := sub in charMap && charMap[sub] in glyphMap;
      if ok {
        substituteGlyph := Some(charMap[sub]);
      }
    }

    /** Maps NotDefined to glyph 0, creating glyph 0 when the face has it. */
    method AddNotDefined(hm: HeightMap, texWidth: int) returns (hm2: HeightMap, texWidth2: int)
      requires Valid() && face.Some?
      requires Bucketed(hm, glyphMap) && BucketsValid(hm, glyphMap)
      modifies this`charMap, this`glyphMap
      ensures Valid()
      ensures Bucketed(hm2, glyphMap) && BucketsValid(hm2, glyphMap)
      ensures charMap == (if 0 in old(glyphMap) || 0 in face.value.loadDefault
                          then old(charMap)[NotDefined := 0] else old(charMap))
      ensures glyphMap == (if 0 !in old(glyphMap) && 0 in face.value.loadDefault
                           then old(glyphMap)[0 := FaceGlyphInfo(NotDefined, fontAscent, offsetHeight, face.value.loadDefault[0])]
                           else old(glyphMap))
      ensures if 0 !in old(glyphMap) && 0 in face.value.loadDefault
              then texWidth2 == texWidth + WidthContribution(glyphMap[0]) && hm2 == AddToBucket(hm, Trunc(glyphMap[0].height), 0)
              else texWidth2 == texWidth && hm2 == hm
      ensures forall i :: i in old(glyphMap) ==> i in glyphMap && glyphMap[i] == old(glyphMap)[i]
      ensures charMap == old(charMap) || (charMap == old(charMap)[NotDefined := 0] && 0 in glyphMap)
    {
      var w;
      w, hm2 := CreateFaceGlyph({}, 0, NotDefined, hm);
      texWidth2 := texWidth + w;
    }

    // -------------------------------------------------------------------
    // Rendering the glyphs into the texture
    // -------------------------------------------------------------------

    /** What the rendering pass reads besides the glyph records. */
    ghost function SetupFor(answers: seq<Option<(int, int)>>, texWidth: int, texHeight: int): Setup
      reads this`charMap, this`substituteGlyph, this`face, this`antialias, this`laMode
      requires face.Some?
    {
      Setup(charMap, substituteGlyph, face.value.render, antialias, laMode, answers, texWidth, texHeight)
    }

    /** renderGlyphs for one bucket entry, proved against RenderStep: the
        glyph is generated or loaded in render mode, placed at the packer's
        next answer and blitted; a selection glyph's record is then zeroed. */
    method RenderEntry(tex: array<byte>, answers: seq<Option<(int, int)>>, texWidth: int, texHeight: int,
                       ghost s: Setup, ghost pr: Progress, idx: nat, used: nat)
      returns (outcome: RenderOutcome, used2: nat)
      requires face.Some? && s == SetupFor(answers, texWidth, texHeight) && SetupOk(s, glyphMap) && idx in glyphMap
      requires pr.outcome == RenderOk && pr.glyphs == glyphMap && pr.used == used
      requires tex.Length == texWidth * texHeight * BytesPerPixel(laMode)
      modifies tex, this`glyphMap
      ensures var r := RenderStep(s, pr, idx);
              && outcome == r.outcome && glyphMap == r.glyphs && used2 == r.used
              && (r.draws == pr.draws ==> tex[..] == old(tex[..]))
              && (r.draws != pr.draws ==>
                    |r.draws| > 0 && DrawFits(r.draws[|r.draws| - 1], tex.Length) &&
                    var d := r.draws[|r.draws| - 1];
                    tex[..] == Rendered(d.t, d.luminance0, d.luminance1, d.src, old(tex[..])))
    {
      var info := glyphMap[idx];
      var cp := info.codePoint;
      var paint := LoadPaint(cp, LoadRendered(face.value.render, idx), antialias);
      if paint.None? {
        return RenderOk, used;
      }
      var luminance0, luminance1, src := paint.value.0, paint.value.1, paint.value.2;
      if used >= |answers| || answers[used].None? {
        return AllocationFailed, used;
      }
      var x, y := answers[used].value.0, answers[used].value.1;
      var t := Target(texWidth, x, y, Ceil(info.width), Ceil(info.height), laMode);
      if !CellFits(x, y, t.width, t.height, texWidth, texHeight) {
        return OutsideTexture, used;
      }
      if !SourceLongEnough(t, src) {
        return BitmapTooShort, used;
      }
      CellFitsDraw(Draw(t, luminance0, luminance1, src), texHeight);
      var _ := RenderGlyph(tex, t, luminance0, luminance1, src);
      glyphMap := glyphMap[idx := info.(uvRect := GlyphUV(x, y, texWidth, texHeight, info))];
      if cp == Selected || cp == SelectedBack {
        var g := GetGlyphInfo(cp).1.value;
        glyphMap := ZeroWidth(glyphMap, g);
      }
      outcome, used2 := RenderOk, used + 1;
    }

    /** renderGlyphs: every bucket entry in order, proved against RenderUpTo.
        The pass stops at the first failure. */
    method RenderGlyphs(entries: seq<(int, nat)>, answers: seq<Option<(int, int)>>,
                        tex: array<byte>, texWidth: int, texHeight: int)
      returns (outcome: RenderOutcome)
      requires Valid() && face.Some? && SetupOk(SetupFor(answers, texWidth, texHeight), glyphMap)
      requires forall j :: 0 <= j < |entries| ==> entries[j].1 in glyphMap
      requires tex.Length == texWidth * texHeight * BytesPerPixel(laMode)
      modifies tex, this`glyphMap
      ensures Valid()
      ensures var pr := RenderAll(SetupFor(answers, texWidth, texHeight), old(glyphMap), entries);
              && outcome == pr.outcome && glyphMap == pr.glyphs
              && AllFit(pr.draws, tex.Length) && tex[..] == ApplyDraws(old(tex[..]), pr.draws)
    {
      ghost var s := SetupFor(answers, texWidth, texHeight);
      ghost var gm0, tex0 := glyphMap, tex[..];
      outcome := RenderOk;
      var used := 0;
      for k := 0 to |entries|
        invariant var pr := RenderUpTo(s, gm0, entries, k);
                  && outcome == pr.outcome && glyphMap == pr.glyphs && used == pr.used
                  && AllFit(pr.draws, tex.Length) && tex[..] == ApplyDraws(tex0, pr.draws)
      {
        outcome, used := RenderNext(tex, answers, texWidth, texHeight, s, gm0, tex0, entries, k, outcome, used);
      }
    }

    /** One iteration of the rendering loop: the pass over k entries becomes
        the pass over k + 1. */
    method RenderNext(tex: array<byte>, answers: seq<Option<(int, int)>>, texWidth: int, texHeight: int,
                      ghost s: Setup, ghost gm0: GlyphMap, ghost tex0: seq<byte>,
                      entries: seq<(int, nat)>, k: nat, outcome: RenderOutcome, used: nat)
      returns (outcome2: RenderOutcome, used2: nat)
      requires face.Some? && s == SetupFor(answers, texWidth, texHeight) && SetupOk(s, gm0)
      requires k < |entries| && forall j :: 0 <= j < |entries| ==> entries[j].1 in gm0
      requires tex.Length == texWidth * texHeight * BytesPerPixel(laMode) && |tex0| == tex.Length
      requires var pr := RenderUpTo(s, gm0, entries, k);
               && outcome == pr.outcome && glyphMap == pr.glyphs && used == pr.used
               && AllFit(pr.draws, tex.Length) && tex[..] == ApplyDraws(tex0, pr.draws)
      modifies tex, this`glyphMap
      ensures var pr := RenderUpTo(s, gm0, entries, k + 1);
              && outcome2 == pr.outcome && glyphMap == pr.glyphs && used2 == pr.used
              && AllFit(pr.draws, tex.Length) && tex[..] == ApplyDraws(tex0, pr.draws)
    {
      ghost var pr := RenderUpTo(s, gm0, entries, k);
      ghost var r := RenderUpTo(s, gm0, entries, k + 1);
      RenderUsesAnswers(s, gm0, entries, k + 1);
      if outcome == RenderOk {
        assert r == RenderStep(s, pr, entries[k].1);
        StepDraws(s, pr, entries[k].1);
        outcome2, used2 := RenderEntry(tex, answers, texWidth, texHeight, s, pr, entries[k].1, used);
        if r.draws != pr.draws {
          ApplyDrawsLast(tex0, r.draws, pr.draws);
        }
      } else {
        assert r == pr;
        outcome2, used2 := outcome, used;
      }
    }

    // -------------------------------------------------------------------
    // The texture
    // -------------------------------------------------------------------

    /** The face carries the size the font was asked for. */
    predicate SizeSet()
      reads this`face, this`charSize, this`size, this`resolution
    {
      face.Some? && charSize == CharSizeFor(face.value.scalable, size, resolution)
    }

    /** FT_Set_Char_Size for a scalable face, FT_Select_Size otherwise. */
    method SetFaceSize()
      requires face.Some?
      modifies this`charSize
      ensures SizeSet()
    {
      charSize := CharSizeFor(face.value.scalable, size, resolution);
    }

    /** The font metrics of the build pass: the largest of the face's and the
        OS/2 table's ascents and descents, and their sum as the line height. */
    method MeasureFace()
      requires face.Some? && WellFormedFace(face.value)
      modifies this`fontAscent, this`fontDescent, this`defaultHeight
      ensures fontAscent == FontAscent(face.value) && fontDescent == FontDescent(face.value)
      ensures defaultHeight == fontAscent + fontDescent
    {
      fontAscent := FontAscent(face.value);
      fontDescent := FontDescent(face.value);
      defaultHeight := fontAscent + fontDescent;
    }

    /** initialise: pick the pixel format, open the face, then run the
        build pass. The first step that fails ends the pass with its outcome;
        a font whose pass ended early keeps what it had built so far. */
    method Initialise(factory: Factory, cache: Cache, file: Option<seq<FileFace>>, libraryInits: bool,
                      laModeSupported: bool, sizeSucceeds: bool,
                      answers: seq<Option<(int, int)>>, lockSucceeds: bool)
      returns (outcome: InitOutcome)
      requires Valid() && !holdsFactory && cache.Valid()
      requires forall k :: 0 <= k < |cache.entries| ==> WellFormedFace(cache.entries[k].face)
      requires file.Some? ==> forall i :: 0 <= i < |file.value| ==> WellFormedFace(file.value[i].data)
      modifies this, factory, cache
      ensures Valid() && cache.Valid() && holdsFactory && laMode == laModeSupported
      ensures factory.count == old(factory.count) + 1
      ensures outcome == LibraryFailed || outcome.LoadFailed? <==> face.None?
      ensures face.None? || outcome == SizeFailed ==> glyphMap == map[] && !hasTexture
      ensures outcome == Initialised ==>
                hasTexture && substituteGlyph.Some? && substituteCodePoint in charMap &&
                texture.Length == textureWidth * textureHeight * BytesPerPixel(laMode)
      ensures hasTexture && autoTextureSize ==> (IsPow2(textureWidth) || textureWidth == 0) && textureHeight <= 2 * textureWidth
      ensures face.Some? ==> (outcome == SizeFailed <==> !sizeSucceeds)
      ensures face.Some? && sizeSucceeds ==> SizeSet()
    {
      assert glyphMap == map[] && !hasTexture;
      laMode := laModeSupported;
      outcome := OpenFace(factory, cache, file, libraryInits);
      if outcome != Initialised {
        return;
      }
      outcome := SizedBuild(sizeSucceeds, answers, lockSucceeds);
    }

    /** Sets the size on the opened face (FT_Set_Char_Size or FT_Select_Size,
        which may fail), then builds the font at that size. */
    method SizedBuild(sizeSucceeds: bool, answers: seq<Option<(int, int)>>, lockSucceeds: bool)
      returns (outcome: InitOutcome)
      requires Valid() && face.Some? && WellFormedFace(face.value) && glyphMap == map[] && !hasTexture
      modifies this`charSize, this`fontAscent, this`fontDescent, this`defaultHeight
      modifies this`charMap, this`glyphMap, this`tabWidth, this`substituteCodePoint, this`substituteGlyph
      modifies this`textureWidth, this`textureHeight, this`texture, this`hasTexture
      ensures Valid()
      ensures outcome == SizeFailed <==> !sizeSucceeds
      ensures !sizeSucceeds ==> glyphMap == map[] && !hasTexture
      ensures sizeSucceeds ==> SizeSet()
      ensures outcome != LibraryFailed && !outcome.LoadFailed?
      ensures outcome == Initialised ==>
                hasTexture && substituteGlyph.Some? && substituteCodePoint in charMap &&
                texture.Length == textureWidth * textureHeight * BytesPerPixel(laMode)
      ensures hasTexture && autoTextureSize ==> (IsPow2(textureWidth) || textureWidth == 0) && textureHeight <= 2 * textureWidth
    {
      if !sizeSucceeds {
        return SizeFailed;
      }
      SetFaceSize();
      outcome := BuildFont(answers, lockSucceeds);
    }

    /** The build pass once the face is open and sized: measure it, create
        the glyphs, size the texture and render the glyphs onto it. */
    method BuildFont(answers: seq<Option<(int, int)>>, lockSucceeds: bool)
      returns (outcome: InitOutcome)
      requires Valid() && face.Some? && WellFormedFace(face.value) && glyphMap == map[] && !hasTexture
      modifies this`fontAscent, this`fontDescent, this`defaultHeight
      modifies this`charMap, this`glyphMap, this`tabWidth, this`substituteCodePoint, this`substituteGlyph
      modifies this`textureWidth, this`textureHeight, this`texture, this`hasTexture
      ensures Valid()
      ensures fontAscent == FontAscent(face.value) && fontDescent == FontDescent(face.value)
      ensures defaultHeight == fontAscent + fontDescent
      ensures outcome == SubstituteMissing <==> substituteCodePoint !in charMap
      ensures outcome != LibraryFailed && !outcome.LoadFailed? && outcome != SizeFailed
      ensures outcome == Initialised ==>
                hasTexture && substituteGlyph.Some? && texture.Length == textureWidth * textureHeight * BytesPerPixel(laMode)
      ensures hasTexture && autoTextureSize ==> (IsPow2(textureWidth) || textureWidth == 0) && textureHeight <= 2 * textureWidth
    {
      MeasureFace();
      outcome := GlyphsAndTexture(answers, lockSucceeds);
    }

    /** The glyphs, then the texture; no texture without the substitute. */
    method GlyphsAndTexture(answers: seq<Option<(int, int)>>, lockSucceeds: bool) returns (outcome: InitOutcome)
      requires Valid() && face.Some? && WellFormedFace(face.value) && glyphMap == map[] && !hasTexture
      modifies this`charMap, this`glyphMap, this`tabWidth, this`substituteCodePoint, this`substituteGlyph
      modifies this`textureWidth, this`textureHeight, this`texture, this`hasTexture
      ensures Valid()
      ensures outcome == SubstituteMissing <==> substituteCodePoint !in charMap
      ensures outcome != LibraryFailed && !outcome.LoadFailed? && outcome != SizeFailed
      ensures outcome == Initialised ==>
                hasTexture && substituteGlyph.Some? && texture.Length == textureWidth * textureHeight * BytesPerPixel(laMode)
      ensures hasTexture && autoTextureSize ==> (IsPow2(textureWidth) || textureWidth == 0) && textureHeight <= 2 * textureWidth
    {
      var ok, hm, texWidth := BuildGlyphs();
      if !ok {
        return SubstituteMissing;
      }
      outcome := RenderFont(hm, texWidth, answers, lockSucceeds);
    }

    /** The last two steps of the build pass: size the texture from the
        glyphs' height buckets, then create it and render onto it. */
    method RenderFont(hm: HeightMap, texWidth: int, answers: seq<Option<(int, int)>>, lockSucceeds: bool)
      returns (outcome: InitOutcome)
      requires Valid() && face.Some? && !hasTexture && substituteGlyph.Some?
      requires hm != map[] && glyphMap != map[] && BucketsValid(hm, glyphMap)
      modifies this`textureWidth, this`textureHeight, this`texture, this`hasTexture, this`glyphMap
      ensures Valid() && glyphMap.Keys == old(glyphMap).Keys
      ensures outcome in {Initialised, SizingUnsupported, TextureLockFailed, ZeroAreaTexture} || outcome.RenderFailed?
      ensures outcome == Initialised ==>
                hasTexture && texture.Length == textureWidth * textureHeight * BytesPerPixel(laMode)
      ensures hasTexture && autoTextureSize ==> (IsPow2(textureWidth) || textureWidth == 0) && textureHeight <= 2 * textureWidth
    {
      EntriesNameGlyphs(hm, glyphMap);
      var ok := SizeTexture(hm, texWidth);
      if !ok {
        return SizingUnsupported;
      }
      outcome := CreateTexture(hm, answers, lockSucceeds);
    }

    /** The sizing step of the build pass: the configured texture size,
        raised to the packed canvas (or replaced by it when the size is
        automatic). */
    method SizeTexture(hm: HeightMap, texWidth: int) returns (ok: bool)
      requires hm != map[] && glyphMap != map[]
      requires forall k :: 0 <= k < |PackEntries(hm)| ==> PackEntries(hm)[k].1 in glyphMap
      modifies this`textureWidth, this`textureHeight
      ensures !ok ==> textureWidth == old(textureWidth) && textureHeight == old(textureHeight)
      ensures ok && autoTextureSize ==> (IsPow2(textureWidth) || textureWidth == 0) && textureHeight <= 2 * textureWidth
      ensures ok && !autoTextureSize ==> textureWidth >= old(textureWidth) && textureHeight >= old(textureHeight)
    {
      var packedWidth, packedHeight;
      ok, packedWidth, packedHeight := PackedSize(hm, texWidth);
      if ok {
        var r := FinalTextureSize(autoTextureSize, textureWidth, textureHeight, packedWidth, packedHeight);
        textureWidth, textureHeight := r.0, r.1;
      }
    }

    /** The texture is created at the final size, cleared to transparent
        white and the glyphs are rendered onto it in bucket order. A texture
        of zero area is created and locked all the same; what rendering onto
        it would do is not modelled. */
    method CreateTexture(hm: HeightMap, answers: seq<Option<(int, int)>>, lockSucceeds: bool) returns (outcome: InitOutcome)
      requires Valid() && face.Some? && !hasTexture && substituteGlyph.Some?
      requires forall k :: 0 <= k < |PackEntries(hm)| ==> PackEntries(hm)[k].1 in glyphMap
      modifies this`texture, this`hasTexture, this`glyphMap
      ensures Valid() && hasTexture && fresh(texture)
      ensures glyphMap.Keys == old(glyphMap).Keys
      ensures outcome in {Initialised, TextureLockFailed, ZeroAreaTexture} || outcome.RenderFailed?
      ensures outcome == Initialised ==> texture.Length == textureWidth * textureHeight * BytesPerPixel(laMode)
      ensures textureWidth <= 0 || textureHeight <= 0 ==>
                && texture.Length == 0 && glyphMap == old(glyphMap)
                && outcome == if lockSucceeds then ZeroAreaTexture else TextureLockFailed
      ensures textureWidth > 0 && textureHeight > 0 ==>
                texture.Length == textureWidth * textureHeight * BytesPerPixel(laMode)
      ensures textureWidth > 0 && textureHeight > 0 && !lockSucceeds ==>
                outcome == TextureLockFailed && glyphMap == old(glyphMap)
      ensures textureWidth > 0 && textureHeight > 0 && lockSucceeds ==>
                PaintedAs(SetupFor(answers, textureWidth, textureHeight), old(glyphMap), PackEntries(hm), laMode,
                          glyphMap, outcome, texture[..])
    {
      if textureWidth <= 0 || textureHeight <= 0 {
        texture := new byte[0];
        hasTexture := true;
        return if lockSucceeds then ZeroAreaTexture else TextureLockFailed;
      }
      texture := new byte[textureWidth * textureHeight * BytesPerPixel(laMode)];
      hasTexture := true;
      if !lockSucceeds {
        return TextureLockFailed;
      }
      outcome := PaintTexture(hm, answers);
    }

    /** Clears the locked texture to white and renders the bucketed glyphs
        onto it. */
    method PaintTexture(hm: HeightMap, answers: seq<Option<(int, int)>>) returns (outcome: InitOutcome)
      requires Valid() && face.Some? && hasTexture && substituteGlyph.Some?
      requires textureWidth > 0 && textureHeight > 0
      requires texture.Length == textureWidth * textureHeight * BytesPerPixel(laMode)
      requires forall k :: 0 <= k < |PackEntries(hm)| ==> PackEntries(hm)[k].1 in glyphMap
      modifies texture, this`glyphMap
      ensures Valid()
      ensures PaintedAs(SetupFor(answers, textureWidth, textureHeight), old(glyphMap), PackEntries(hm), laMode,
                        glyphMap, outcome, texture[..])
    {
      var tex := texture;
      DivModOf(textureWidth * textureHeight, 0, BytesPerPixel(laMode));
      ClearTexture(tex, laMode);
      var entries := PackEntries(hm);
      var r := RenderGlyphs(entries, answers, tex, textureWidth, textureHeight);
      outcome := if r == RenderOk then Initialised else RenderFailed(r);
    }

    // -------------------------------------------------------------------
    // Adding glyphs after initialisation
    // -------------------------------------------------------------------

    /** lock: map the texture for writing and set the face's size again.
        Only an unlocked font with a texture locks; the lock is taken before
        the size is set, so a failure there leaves the font locked. */
    method Lock(mapped: bool, sizeSucceeds: bool) returns (outcome: LockOutcome)
      requires Valid()
      modifies this`isLock, this`bufferMapped, this`charSize
      ensures Valid()
      ensures old(isLock) || !hasTexture ==>
                outcome == NotLocked && isLock == old(isLock) && bufferMapped == old(bufferMapped) && charSize == old(charSize)
      ensures !old(isLock) && hasTexture ==> isLock && bufferMapped == mapped
      ensures !old(isLock) && hasTexture ==> (outcome == Locked <==> sizeSucceeds)
      ensures outcome == Locked ==> charSize == CharSizeFor(face.value.scalable, size, resolution)
      ensures outcome != Locked ==> charSize == old(charSize)
    {
      if isLock || !hasTexture {
        return NotLocked;
      }
      bufferMapped := mapped;
      isLock := true;
      if !sizeSucceeds {
        return LockSizeFailed;
      }
      charSize := CharSizeFor(face.value.scalable, size, resolution);
      outcome := Locked;
    }

    /** unlock: give the texture back. */
    method Unlock()
      requires Valid()
      modifies this`isLock
      ensures Valid() && !isLock
    {
      if isLock {
        isLock := false;
      }
    }

    /** What appendChar reads of the font now. */
    ghost function AppendStateNow(): AppendState
      reads this
      requires face.Some?
    {
      AppendState(face.value, charMap, glyphMap, substituteGlyph, fontAscent, offsetHeight, antialias, laMode,
                  bufferMapped, textureWidth, textureHeight, texture.Length)
    }

    /** appendChar: add the glyph of a code point to a locked font, proved
        against AppendSpec. A code point the face does not map, or a glyph
        that cannot be rendered, gives the substitute and false. Otherwise
        the glyph is drawn at the packer's answer, its record gets the UV
        rectangle of that cell, and both tables gain their entries unless
        they already had them. */
    method AppendChar(c: Char, slot: GlyphMetrics, answer: Option<(int, int)>)
      returns (ok: bool, info: Option<nat>, fault: RenderOutcome)
      requires Valid() && isLock
      modifies this`charMap, this`glyphMap, this`hasMonoBuffer, texture
      ensures Valid()
      ensures var r := AppendSpec(old(AppendStateNow()), c, slot, answer);
              && ok == r.ok && info == r.info && fault == r.fault
              && charMap == r.cm && glyphMap == r.gm
              && (r.draw.None? ==> texture[..] == old(texture[..]))
              && (r.draw.Some? ==>
                    var d := r.draw.value;
                    texture[..] == Rendered(d.t, d.luminance0, d.luminance1, d.src, old(texture[..])))
      ensures var idx := CharIndex(face.value, c);
              hasMonoBuffer == (old(hasMonoBuffer) || (idx != 0 && idx in face.value.render && face.value.render[idx].Mono?))
    {
      ghost var s := AppendStateNow();
      AppendKeepsResolvable(s, c, slot, answer);
      var f := face.value;
      var idx := CharIndex(f, c);
      var bitmap := LoadRendered(f.render, idx);
      if idx == 0 || bitmap.None? {
        return false, substituteGlyph, RenderOk;
      }
      if bitmap.value.Mono? {
        hasMonoBuffer := true;
      }
      var g := AppendedRecord(f, idx, c, fontAscent, offsetHeight, slot);
      var src := LoadBitmapSource(bitmap, antialias);
      ok, info, fault := AddLoadedGlyph(s, c, idx, g, src, answer);
    }

    /** AddLoaded as the source does it: draw, then insert into both maps. */
    method AddLoadedGlyph(ghost s: AppendState, c: Char, idx: nat, g: GlyphInfo, src: Option<PixelSource>,
                          answer: Option<(int, int)>)
      returns (ok: bool, info: Option<nat>, fault: RenderOutcome)
      requires face.Some? && s == AppendStateNow()
      modifies this`charMap, this`glyphMap, texture
      ensures var r := AddLoaded(s, c, idx, g, src, answer);
              && ok == r.ok && info == r.info && fault == r.fault
              && charMap == r.cm && glyphMap == r.gm
              && (r.draw.None? ==> texture[..] == old(texture[..]))
              && (r.draw.Some? ==>
                    var d := r.draw.value;
                    texture[..] == Rendered(d.t, d.luminance0, d.luminance1, d.src, old(texture[..])))
    {
      var placed := g;
      if src.Some? {
        fault, placed := PaintAppended(g, src.value, answer);
        if fault != RenderOk {
          return false, None, fault;
        }
      }
      charMap := Insert(charMap, c, idx);
      glyphMap := Insert(glyphMap, idx, placed);
      ok, info, fault := true, Some(idx), RenderOk;
    }

    /** The drawing part of appendChar: the blit at the packer's answer and
        the UV rectangle of that cell. */
    method PaintAppended(g: GlyphInfo, src: PixelSource, answer: Option<(int, int)>)
      returns (fault: RenderOutcome, g2: GlyphInfo)
      modifies texture
      ensures var r := AppendCheck(answer, Ceil(g.width), Ceil(g.height), src, bufferMapped,
                                   textureWidth, textureHeight, texture.Length, laMode);
              && fault == r.0
              && (fault != RenderOk ==> texture[..] == old(texture[..]))
              && (fault == RenderOk ==>
                    texture[..] == Rendered(r.1.t, MaskWhite, MaskWhite, src, old(texture[..])) &&
                    g2 == g.(uvRect := GlyphUV(r.1.t.texX, r.1.t.texY, textureWidth, textureHeight, g)))
    {
      var r := AppendCheck(answer, Ceil(g.width), Ceil(g.height), src, bufferMapped,
                           textureWidth, textureHeight, texture.Length, laMode);
      fault, g2 := r.0, g;
      if fault == RenderOk {
        var d := r.1;
        var _ := RenderGlyph(texture, d.t, d.luminance0, d.luminance1, d.src);
        g2 := g.(uvRect := GlyphUV(d.t.texX, d.t.texY, textureWidth, textureHeight, g));
      }
    }

    /** The destructor: unlock, free the conversion bitmap, destroy the
        texture, release the face to the cache and the factory. */
    method Destroy(factory: Factory, cache: Cache)
      requires Valid() && cache.Valid()
      requires face.Some? ==> cache.Holds(faceId.value)
      modifies this`isLock, this`hasMonoBuffer, this`hasTexture, this`holdsFactory, factory, cache
      ensures !isLock && !hasMonoBuffer && !hasTexture && !holdsFactory
      ensures cache.Valid() && cache.nextId == old(cache.nextId)
      ensures face.None? ==> cache.entries == old(cache.entries)
      ensures face.Some? ==> cache.entries == Released(old(cache.entries), faceId.value)
      ensures old(holdsFactory) ==> factory.count == old(factory.count) - 1
      ensures !old(holdsFactory) ==> factory.count == old(factory.count)
    {
      if isLock {
        Unlock();
      }
      hasMonoBuffer := false;
      hasTexture := false;
      if face.Some? {
        cache.ReleaseFace(faceId.value);
      }
      factory.Destroy(holdsFactory);
      holdsFactory := false;
    }

    /** The TextureSize property. */
    method ApplyTextureSize(setting: TextureSizeSetting)
      modifies this`autoTextureSize, this`textureWidth, this`textureHeight
      ensures (autoTextureSize, textureWidth, textureHeight) ==
              ApplyTextureSizeSetting(setting, old(textureWidth), old(textureHeight))
    {
      var r := ApplyTextureSizeSetting(setting, textureWidth, textureHeight);
      autoTextureSize, textureWidth, textureHeight := r.0, r.1, r.2;
    }
  }
}
