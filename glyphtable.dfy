/** The glyph table of the font and the height buckets the build pass keeps
    beside it: which glyphs the buckets must reach, and what the correction
    pass for the rasteriser's hinting defect does to both. */
module GlyphTable {
  import opened Util
  import opened Glyphs
  import opened CodePoints
  import opened Packing

  /** GlyphMap: glyph index -> glyph record. */
  type GlyphMap = map<nat, GlyphInfo>

  /** Every glyph sits in the bucket of its truncated height, so the sizing
      and rendering passes, which walk the buckets, reach it. */
  predicate Bucketed(hm: HeightMap, gm: GlyphMap)
  {
    forall i :: i in gm ==> i in Bucket(hm, Trunc(gm[i].height))
  }

  /** Every bucket entry names a glyph of the table. */
  ghost predicate BucketsValid(hm: HeightMap, gm: GlyphMap)
  {
    forall h, i :: i in Bucket(hm, h) ==> i in gm
  }

  /** Every code point resolves to a glyph of the table or is still
      unresolved (glyph index 0 and no glyph 0 yet). */
  predicate Resolvable(cm: CharMap, gm: GlyphMap)
  {
    forall c :: c in cm ==> cm[c] == 0 || cm[c] in gm
  }

  /** getGlyphInfo's answer: whether the code point maps to an existing
      glyph, and the glyph it maps to or else the substitute. */
  function Lookup(cm: CharMap, gm: GlyphMap, substitute: Option<nat>, id: Char): (bool, Option<nat>)
  {
    if id in cm && cm[id] in gm then (true, Some(cm[id])) else (false, substitute)
  }

  /** After the sizing pass lists the bucket entries, each of them names a
      glyph, which is what measuring and rendering look up. */
  lemma EntriesNameGlyphs(hm: HeightMap, gm: GlyphMap)
    requires BucketsValid(hm, gm)
    ensures forall k :: 0 <= k < |PackEntries(hm)| ==> PackEntries(hm)[k].1 in gm
  {
    var es := PackEntries(hm);
    forall k | 0 <= k < |es|
      ensures es[k].1 in gm
    {
      assert es[k] in es;
      assert es[k].1 in Bucket(hm, es[k].0);
    }
  }

  /** Every bucket lists exactly the glyphs of its height: the buckets as
      the passes that only add new glyphs leave them. */
  ghost predicate BucketsExact(hm: HeightMap, gm: GlyphMap)
  {
    forall h, i :: i in Bucket(hm, h) <==> i in gm && Trunc(gm[i].height) == h
  }

  /** Some member of a non-empty set of glyph indices. */
  ghost function PickIndex(ids: set<nat>): (i: nat)
    requires ids != {}
    ensures i in ids
  {
    var i :| i in ids; i
  }

  /** The texture width estimate a set of glyphs adds: the sum of their
      createGlyph contributions. */
  ghost function WidthOf(gm: GlyphMap, ids: set<nat>): int
    requires ids <= gm.Keys
    decreases ids
  {
    if ids == {} then 0
    else
      var i := PickIndex(ids);
      WidthContribution(gm[i]) + WidthOf(gm, ids - {i})
  }

  /** The sum does not depend on the order: any glyph can be counted first. */
  lemma {:induction false} WidthOfRemove(gm: GlyphMap, ids: set<nat>, j: nat)
    requires ids <= gm.Keys && j in ids
    ensures WidthOf(gm, ids) == WidthContribution(gm[j]) + WidthOf(gm, ids - {j})
    decreases ids
  {
    var i := PickIndex(ids);
    if i != j {
      WidthOfRemove(gm, ids - {i}, j);
      WidthOfRemove(gm, ids - {j}, i);
      assert ids - {i} - {j} == ids - {j} - {i};
    }
  }

  /** The sum reads only the records of the glyphs summed. */
  lemma {:induction false} WidthOfAgree(gm: GlyphMap, gm2: GlyphMap, ids: set<nat>)
    requires ids <= gm.Keys && ids <= gm2.Keys
    requires forall i :: i in ids ==> gm[i] == gm2[i]
    ensures WidthOf(gm, ids) == WidthOf(gm2, ids)
    decreases ids
  {
    if ids != {} {
      WidthOfAgree(gm, gm2, ids - {PickIndex(ids)});
    }
  }

  /** A glyph added at a fresh index adds its contribution to the width
      estimate of the glyphs created since `base`. */
  lemma AddedGlyphWidth(base: set<nat>, gm: GlyphMap, idx: nat, g: GlyphInfo)
    requires base <= gm.Keys && idx !in gm
    ensures var gm2 := gm[idx := g];
            WidthOf(gm2, gm2.Keys - base) == WidthOf(gm, gm.Keys - base) + WidthContribution(g)
  {
    var gm2 := gm[idx := g];
    var ids := gm.Keys - base;
    assert gm2.Keys - base - {idx} == ids;
    WidthOfRemove(gm2, gm2.Keys - base, idx);
    WidthOfAgree(gm, gm2, ids);
  }

  /** A glyph added at a fresh index and put in the bucket of its height
      keeps the buckets exact. */
  lemma AddedGlyphBucket(hm: HeightMap, gm: GlyphMap, idx: nat, g: GlyphInfo)
    requires BucketsExact(hm, gm) && idx !in gm
    ensures BucketsExact(AddToBucket(hm, Trunc(g.height), idx), gm[idx := g])
  {
  }

  // ---------------------------------------------------------------------
  // Standard glyphs
  // ---------------------------------------------------------------------

  /** The glyph index the creation loop leaves for code point c: the face's
      index for c when a glyph with that index exists or can be loaded, and
      otherwise the entry's previous value. */
  function ResolvedIndex(face: FaceData, gm: GlyphMap, cm: CharMap, c: Char): nat
    requires c in cm
  {
    var idx := CharIndex(face, c);
    if idx in gm || idx in face.loadDefault then idx else cm[c]
  }

  /** The code-point map after the standard-glyph loop has handled the first
      k code points of ks (the ascending keys of cm0): those are resolved or
      erased, the rest untouched. */
  ghost predicate CharProgress(f: FaceData, cm0: CharMap, gm0: GlyphMap, ks: seq<Char>, k: nat, cm: CharMap)
    requires k <= |ks|
  {
    && (forall c :: c in cm <==> c in cm0 && (c in ks[..k] ==> ResolvedIndex(f, gm0, cm0, c) != 0))
    && (forall c :: c in cm ==> cm[c] == if c in ks[..k] then ResolvedIndex(f, gm0, cm0, c) else cm0[c])
  }

  /** The glyph table during the loop: old glyphs are kept, and every new
      glyph was created from the code point `origin` records for it. */
  ghost predicate GlyphProgress(f: FaceData, cm0: CharMap, gm0: GlyphMap, gm: GlyphMap, origin: map<nat, Char>,
                                ascent: int, offset: int)
  {
    && (forall i :: i in gm0 ==> i in gm && gm[i] == gm0[i])
    && (forall i :: i in gm && i !in gm0 ==>
          && i in f.loadDefault && i in origin && origin[i] in cm0 && CharIndex(f, origin[i]) == i
          && gm[i] == FaceGlyphInfo(origin[i], ascent, offset, f.loadDefault[i]))
  }

  /** Every handled code point whose glyph loads has its glyph. */
  ghost predicate LoadedProgress(f: FaceData, ks: seq<Char>, k: nat, gm: GlyphMap)
    requires k <= |ks|
  {
    forall c :: c in ks[..k] && CharIndex(f, c) in f.loadDefault ==> CharIndex(f, c) in gm
  }

  /** The step's code point has not been handled yet. */
  lemma NotYetHandled(ks: seq<int>, k: nat)
    requires k < |ks| && StrictlyIncreasing(ks)
    ensures ks[k] !in ks[..k]
    ensures forall d :: d in ks[..k + 1] <==> d in ks[..k] || d == ks[k]
  {
    forall j | 0 <= j < k
      ensures ks[j] != ks[k]
    {
      assert ks[j] < ks[k];
    }
    assert ks[..k + 1] == ks[..k] + [ks[k]];
  }

  /** The index the step resolves on the current tables is the one
      ResolvedIndex gives on the initial ones. */
  lemma StepResolvesAsInitially(f: FaceData, cm0: CharMap, gm0: GlyphMap, ks: seq<Char>, k: nat,
                                cm: CharMap, gm: GlyphMap, origin: map<nat, Char>, ascent: int, offset: int)
    requires k < |ks| && StrictlyIncreasing(ks)
    requires CharProgress(f, cm0, gm0, ks, k, cm) && GlyphProgress(f, cm0, gm0, gm, origin, ascent, offset)
    requires ks[k] in cm
    ensures ks[k] in cm0 && ResolvedIndex(f, gm, cm, ks[k]) == ResolvedIndex(f, gm0, cm0, ks[k])
  {
    NotYetHandled(ks, k);
  }

  /** One step keeps the code-point description. */
  lemma CharStep(f: FaceData, cm0: CharMap, gm0: GlyphMap, ks: seq<Char>, k: nat, cm: CharMap, cm': CharMap)
    requires k < |ks| && StrictlyIncreasing(ks)
    requires CharProgress(f, cm0, gm0, ks, k, cm)
    requires ks[k] in cm0
    requires var r := ResolvedIndex(f, gm0, cm0, ks[k]);
             cm' == if r != 0 then cm[ks[k] := r] else cm - {ks[k]}
    ensures CharProgress(f, cm0, gm0, ks, k + 1, cm')
  {
    NotYetHandled(ks, k);
  }

  /** One step keeps the glyph-table description. */
  lemma GlyphStep(f: FaceData, cm0: CharMap, gm0: GlyphMap, ks: seq<Char>, k: nat, gm: GlyphMap, gm': GlyphMap,
                  origin: map<nat, Char>, ascent: int, offset: int)
    requires k < |ks| && StrictlyIncreasing(ks) && ks[k] in cm0
    requires GlyphProgress(f, cm0, gm0, gm, origin, ascent, offset) && LoadedProgress(f, ks, k, gm)
    requires var idx := CharIndex(f, ks[k]);
             gm' == if idx !in gm && idx in f.loadDefault
                    then gm[idx := FaceGlyphInfo(ks[k], ascent, offset, f.loadDefault[idx])]
                    else gm
    ensures var idx := CharIndex(f, ks[k]);
            var origin' := if idx !in gm && idx in f.loadDefault then origin[idx := ks[k]] else origin;
            GlyphProgress(f, cm0, gm0, gm', origin', ascent, offset) && LoadedProgress(f, ks, k + 1, gm')
  {
    NotYetHandled(ks, k);
  }

  /** What the standard-glyph loop achieves, from the tables cm0, gm0 it
      starts with to the tables cm, gm it leaves: a code point stays exactly
      when it resolves to a non-zero glyph index, and then maps to it; old
      glyphs are kept; each new glyph is the default-mode load of a glyph
      index some code point maps to, made for one of those code points; and
      every code point whose glyph loads has its glyph. */
  ghost predicate StandardResult(f: FaceData, cm0: CharMap, gm0: GlyphMap, cm: CharMap, gm: GlyphMap, ascent: int, offset: int)
  {
    && (forall c :: c in cm <==> c in cm0 && ResolvedIndex(f, gm0, cm0, c) != 0)
    && (forall c :: c in cm ==> cm[c] == ResolvedIndex(f, gm0, cm0, c))
    && (forall i :: i in gm0 ==> i in gm && gm[i] == gm0[i])
    && (forall i :: i in gm && i !in gm0 ==>
          && i in f.loadDefault
          && exists c :: c in cm0 && CharIndex(f, c) == i && gm[i] == FaceGlyphInfo(c, ascent, offset, f.loadDefault[i]))
    && (forall c :: c in cm0 && CharIndex(f, c) in f.loadDefault ==> CharIndex(f, c) in gm)
  }

  /** When the loop has handled every key, the progress descriptions give
      the loop's result. */
  lemma StandardDone(f: FaceData, cm0: CharMap, gm0: GlyphMap, ks: seq<Char>,
                     cm: CharMap, gm: GlyphMap, origin: map<nat, Char>, ascent: int, offset: int)
    requires forall c :: c in ks <==> c in cm0
    requires CharProgress(f, cm0, gm0, ks, |ks|, cm) && GlyphProgress(f, cm0, gm0, gm, origin, ascent, offset)
    requires LoadedProgress(f, ks, |ks|, gm)
    ensures StandardResult(f, cm0, gm0, cm, gm, ascent, offset)
  {
    assert ks[..|ks|] == ks;
    forall i | i in gm && i !in gm0
      ensures exists c :: c in cm0 && CharIndex(f, c) == i && gm[i] == FaceGlyphInfo(c, ascent, offset, f.loadDefault[i])
    {
      var c := origin[i];
    }
  }

  /** After the loop every remaining code point has a non-zero glyph index:
      no entry is left unresolved. */
  lemma StandardLeavesNoZero(f: FaceData, cm0: CharMap, gm0: GlyphMap, cm: CharMap, gm: GlyphMap, ascent: int, offset: int)
    requires StandardResult(f, cm0, gm0, cm, gm, ascent, offset)
    ensures forall c :: c in cm ==> cm[c] != 0
  {
  }

  /** The four special glyphs, in creation order: Tab (no ink, advances by
      the tab width), Selected and SelectedBack (one pixel wide), Cursor (two
      pixels wide), the last three as tall as the line. */
  function SpecialGlyphs(tabWidth: real, defaultHeight: int): (gs: seq<GlyphInfo>)
    ensures |gs| == 4
    ensures gs[0].codePoint == Tab && gs[1].codePoint == Selected
    ensures gs[2].codePoint == SelectedBack && gs[3].codePoint == Cursor
    ensures gs[0].width == 0.0 && gs[0].advance == tabWidth
    ensures gs[1].width == SelectedWidth && gs[2].width == SelectedWidth && gs[3].width == CursorWidth
    ensures forall k :: 1 <= k < 4 ==> gs[k].height == defaultHeight as real
  {
    var h := defaultHeight as real;
    [ MakeGlyphInfo(Tab, 0.0, 0.0, tabWidth, 0.0, 0.0),
      MakeGlyphInfo(Selected, SelectedWidth, h, 0.0, 0.0, 0.0),
      MakeGlyphInfo(SelectedBack, SelectedWidth, h, 0.0, 0.0, 0.0),
      MakeGlyphInfo(Cursor, CursorWidth, h, 0.0, 0.0, 0.0) ]
  }

  /** The glyph table after createGlyph(idx, info): an index that already
      has a record keeps it. */
  function InsertNew(gm: GlyphMap, idx: nat, info: GlyphInfo): GlyphMap
  {
    if idx in gm then gm else gm[idx := info]
  }

  /** The glyph table after the first k special glyphs are created at
      indices n, n + 1, ..., in order. */
  function SpecialsUpTo(gm: GlyphMap, n: nat, gs: seq<GlyphInfo>, k: nat): (r: GlyphMap)
    requires k <= |gs|
  {
    if k == 0 then gm else InsertNew(SpecialsUpTo(gm, n, gs, k - 1), n + k - 1, gs[k - 1])
  }

  /** The character map after the first k special glyphs are created: each
      special code point is remapped to its index. */
  function SpecialCodesUpTo(cm: CharMap, n: nat, gs: seq<GlyphInfo>, k: nat): (r: CharMap)
    requires k <= |gs|
  {
    if k == 0 then cm else SpecialCodesUpTo(cm, n, gs, k - 1)[gs[k - 1].codePoint := n + k - 1]
  }

  /** One more special glyph: the tables of k + 1 glyphs are those of k
      glyphs after createGlyph of the k-th. */
  lemma SpecialsStep(cm: CharMap, gm: GlyphMap, n: nat, gs: seq<GlyphInfo>, k: nat)
    requires k < |gs|
    ensures SpecialCodesUpTo(cm, n, gs, k + 1) == SpecialCodesUpTo(cm, n, gs, k)[gs[k].codePoint := n + k]
    ensures SpecialsUpTo(gm, n, gs, k + 1) == InsertNew(SpecialsUpTo(gm, n, gs, k), n + k, gs[k])
    ensures SpecialsWidth(gs, k + 1) == SpecialsWidth(gs, k) + WidthContribution(gs[k])
  {
  }

  /** The width estimate the first k special glyphs add. */
  function SpecialsWidth(gs: seq<GlyphInfo>, k: nat): (w: int)
    requires k <= |gs|
    ensures w >= 0
  {
    if k == 0 then 0 else SpecialsWidth(gs, k - 1) + WidthContribution(gs[k - 1])
  }

  /** The special glyphs widen the texture estimate by exactly 7 pixels:
      nothing for the inkless Tab, 1 + 1 for each selection glyph and 1 + 2
      for the cursor. */
  lemma SpecialGlyphsWidth(tabWidth: real, defaultHeight: int)
    ensures SpecialsWidth(SpecialGlyphs(tabWidth, defaultHeight), 4) == 7
  {
    var gs := SpecialGlyphs(tabWidth, defaultHeight);
    assert Ceil(0.0) == 0 && Ceil(1.0) == 1 && Ceil(2.0) == 2;
    assert SpecialsWidth(gs, 1) == 0;
    assert SpecialsWidth(gs, 2) == 2;
    assert SpecialsWidth(gs, 3) == 4;
  }

  /** Tab, Selected, SelectedBack and Cursor are remapped to n, n + 1,
      n + 2 and n + 3, and nothing else changes. */
  lemma SpecialCodesMap(cm: CharMap, n: nat, tabWidth: real, defaultHeight: int)
    ensures SpecialCodesUpTo(cm, n, SpecialGlyphs(tabWidth, defaultHeight), 4)
            == cm[Tab := n][Selected := n + 1][SelectedBack := n + 2][Cursor := n + 3]
  {
    var gs := SpecialGlyphs(tabWidth, defaultHeight);
    assert SpecialCodesUpTo(cm, n, gs, 1) == cm[Tab := n];
    assert SpecialCodesUpTo(cm, n, gs, 2) == cm[Tab := n][Selected := n + 1];
    assert SpecialCodesUpTo(cm, n, gs, 3) == cm[Tab := n][Selected := n + 1][SelectedBack := n + 2];
  }

  /** The special indices all have records afterwards; a free index holds
      its special glyph and every earlier record is kept. */
  lemma {:induction false} SpecialsContents(gm: GlyphMap, n: nat, gs: seq<GlyphInfo>, k: nat)
    requires k <= |gs|
    ensures var r := SpecialsUpTo(gm, n, gs, k);
            && (forall j :: j in r <==> j in gm || n <= j < n + k)
            && (forall j :: j in gm ==> r[j] == gm[j])
            && (forall j :: 0 <= j < k && n + j !in gm ==> r[n + j] == gs[j])
  {
    if k > 0 {
      SpecialsContents(gm, n, gs, k - 1);
    }
  }

  /** Every code point maps to an existing glyph. */
  predicate ResolvesAll(cm: CharMap, gm: GlyphMap)
  {
    forall c :: c in cm ==> cm[c] in gm
  }

  /** Every glyph index lies below n (the face's glyph count). */
  predicate Below(gm: GlyphMap, n: nat)
  {
    forall i :: i in gm ==> i < n
  }

  /** Special glyph k sits at index n + k and its code point maps there. */
  predicate SpecialsAt(cm: CharMap, gm: GlyphMap, n: nat, gs: seq<GlyphInfo>)
  {
    forall k :: 0 <= k < |gs| ==>
      gs[k].codePoint in cm && cm[gs[k].codePoint] == n + k && n + k in gm && gm[n + k] == gs[k]
  }

  /** The table after the "Not Defined" step: glyph 0 is loaded from the
      face when the table lacks it and the face can load it. */
  function NotDefinedGlyphs(gm: GlyphMap, f: FaceData, ascent: int, offset: int): GlyphMap
  {
    if 0 !in gm && 0 in f.loadDefault
    then gm[0 := FaceGlyphInfo(NotDefined, ascent, offset, f.loadDefault[0])]
    else gm
  }

  /** The code points after the "Not Defined" step: "Not Defined" maps to
      glyph 0 when the table has it or the face can load it. */
  function NotDefinedCodes(cm: CharMap, gm: GlyphMap, f: FaceData): CharMap
  {
    if 0 in gm || 0 in f.loadDefault then cm[NotDefined := 0] else cm
  }

  /** What the "Not Defined" step adds to the width estimate. */
  function NotDefinedWidth(gm: GlyphMap, f: FaceData, ascent: int, offset: int): int
  {
    if 0 !in gm && 0 in f.loadDefault
    then WidthContribution(FaceGlyphInfo(NotDefined, ascent, offset, f.loadDefault[0]))
    else 0
  }

  /** Mapping "Not Defined" to glyph 0 and adding glyph 0 where it is
      missing leaves the special glyphs in place and every code point
      resolving. */
  lemma SubstituteKeeps(cm: CharMap, gm: GlyphMap, n: nat, gs: seq<GlyphInfo>, cm2: CharMap, gm2: GlyphMap)
    requires SpecialsAt(cm, gm, n, gs) && ResolvesAll(cm, gm)
    requires forall k :: 0 <= k < |gs| ==> gs[k].codePoint != NotDefined
    requires forall i :: i in gm ==> i in gm2 && gm2[i] == gm[i]
    requires cm2 == cm || (cm2 == cm[NotDefined := 0] && 0 in gm2)
    ensures SpecialsAt(cm2, gm2, n, gs) && ResolvesAll(cm2, gm2)
  {
  }

  /** Starting from an empty table, the standard pass only creates glyphs the
      face can load, whose indices lie below its glyph count. */
  lemma StandardBelow(f: FaceData, cm0: CharMap, cm: CharMap, gm: GlyphMap, ascent: int, offset: int)
    requires WellFormedFace(f) && StandardResult(f, cm0, map[], cm, gm, ascent, offset)
    ensures Below(gm, f.numGlyphs)
  {
  }

  /** When every existing glyph index lies below n, the special glyphs get the
      four distinct indices n .. n + 3, each with its own record, and every
      code point still resolves. */
  lemma SpecialsPlaced(cm: CharMap, gm: GlyphMap, n: nat, tabWidth: real, defaultHeight: int)
    requires Below(gm, n) && ResolvesAll(cm, gm)
    ensures var gs := SpecialGlyphs(tabWidth, defaultHeight);
            var rc, r := SpecialCodesUpTo(cm, n, gs, 4), SpecialsUpTo(gm, n, gs, 4);
            ResolvesAll(rc, r) && SpecialsAt(rc, r, n, gs)
  {
    var gs := SpecialGlyphs(tabWidth, defaultHeight);
    SpecialsContents(gm, n, gs, 4);
    SpecialCodesMap(cm, n, tabWidth, defaultHeight);
  }

  // ---------------------------------------------------------------------
  // Hinting correction
  // ---------------------------------------------------------------------

  /** What createFaceGlyphInfo makes of a second default-mode load of glyph i. */
  function ReloadedInfo(face: FaceData, i: nat, ascent: int, offset: int): GlyphInfo
    requires i in face.reloadDefault
  {
    FaceGlyphInfo(0, ascent, offset, face.reloadDefault[i])
  }

  /** A corrected glyph: the five metrics come from the reload, the code point
      and the texture rectangle stay. */
  function Corrected(info: GlyphInfo, reloaded: GlyphInfo): GlyphInfo
  {
    info.(width := reloaded.width, height := reloaded.height, advance := reloaded.advance,
          bearingX := reloaded.bearingX, bearingY := reloaded.bearingY)
  }

  /** The glyph table after the correction pass: every glyph that reloads is
      corrected, the others are kept. */
  function CorrectedGlyphs(gm: GlyphMap, face: FaceData, ascent: int, offset: int): (r: GlyphMap)
    ensures r.Keys == gm.Keys
    ensures forall i :: i in gm && i !in face.reloadDefault ==> r[i] == gm[i]
    ensures forall i :: i in gm && i in face.reloadDefault ==>
              r[i].codePoint == gm[i].codePoint && r[i].uvRect == gm[i].uvRect &&
              r[i].width == ReloadedInfo(face, i, ascent, offset).width &&
              r[i].height == ReloadedInfo(face, i, ascent, offset).height
  {
    map i | i in gm :: if i in face.reloadDefault then Corrected(gm[i], ReloadedInfo(face, i, ascent, offset)) else gm[i]
  }

  /** Glyph i reloads with a different height, so the pass files it under a
      new bucket. */
  predicate HeightMoves(gm: GlyphMap, face: FaceData, ascent: int, offset: int, i: nat)
  {
    i in gm && i in face.reloadDefault && ReloadedInfo(face, i, ascent, offset).height != gm[i].height
  }

  /** The buckets after the correction pass visits glyph i: a glyph whose
      height changes joins the bucket of its new truncated height. The source
      erases it from a copy of the old bucket, so the old bucket keeps it. */
  function HintStep(hm: HeightMap, gm: GlyphMap, face: FaceData, ascent: int, offset: int, i: nat): HeightMap
  {
    if HeightMoves(gm, face, ascent, offset, i)
    then AddToBucket(hm, Trunc(ReloadedInfo(face, i, ascent, offset).height), i)
    else hm
  }

  /** The buckets after the correction pass has visited `keys` in order. */
  function HintBuckets(hm: HeightMap, gm: GlyphMap, face: FaceData, ascent: int, offset: int, keys: seq<nat>): HeightMap
    decreases |keys|
  {
    if keys == [] then hm
    else HintBuckets(HintStep(hm, gm, face, ascent, offset, keys[0]), gm, face, ascent, offset, keys[1..])
  }

  /** The change of the width estimate when the pass visits glyph i: the
      rounded-up new width minus the rounded-up old one, if the width changes. */
  function HintWidthStep(gm: GlyphMap, face: FaceData, ascent: int, offset: int, i: nat): int
  {
    if i in gm && i in face.reloadDefault && ReloadedInfo(face, i, ascent, offset).width != gm[i].width
    then Ceil(ReloadedInfo(face, i, ascent, offset).width) - Ceil(gm[i].width)
    else 0
  }

  /** The change of the width estimate over `keys`. */
  function HintWidthDelta(gm: GlyphMap, face: FaceData, ascent: int, offset: int, keys: seq<nat>): int
    decreases |keys|
  {
    if keys == [] then 0
    else HintWidthStep(gm, face, ascent, offset, keys[0]) + HintWidthDelta(gm, face, ascent, offset, keys[1..])
  }

  /** Visiting one more glyph at the end of the order applies one more step. */
  lemma {:induction false} HintBucketsSnoc(hm: HeightMap, gm: GlyphMap, face: FaceData, ascent: int, offset: int,
                                           keys: seq<nat>, i: nat)
    ensures HintBuckets(hm, gm, face, ascent, offset, keys + [i]) ==
            HintStep(HintBuckets(hm, gm, face, ascent, offset, keys), gm, face, ascent, offset, i)
    decreases |keys|
  {
    if keys != [] {
      assert (keys + [i])[1..] == keys[1..] + [i];
      HintBucketsSnoc(HintStep(hm, gm, face, ascent, offset, keys[0]), gm, face, ascent, offset, keys[1..], i);
    }
  }

  lemma {:induction false} HintWidthDeltaSnoc(gm: GlyphMap, face: FaceData, ascent: int, offset: int, keys: seq<nat>, i: nat)
    ensures HintWidthDelta(gm, face, ascent, offset, keys + [i]) ==
            HintWidthDelta(gm, face, ascent, offset, keys) + HintWidthStep(gm, face, ascent, offset, i)
    decreases |keys|
  {
    if keys != [] {
      assert (keys + [i])[1..] == keys[1..] + [i];
      HintWidthDeltaSnoc(gm, face, ascent, offset, keys[1..], i);
    }
  }

  /** The glyph table while the correction pass runs: the glyphs below
      `bound` (those visited so far) that reload are corrected, all others
      are as in gm0. */
  ghost predicate HintProgress(gm0: GlyphMap, gm: GlyphMap, face: FaceData, ascent: int, offset: int, bound: int)
  {
    && gm.Keys == gm0.Keys
    && forall j :: j in gm0 ==>
         gm[j] == if j < bound && j in face.reloadDefault
                  then Corrected(gm0[j], ReloadedInfo(face, j, ascent, offset))
                  else gm0[j]
  }

  /** The first glyph index not yet visited after k steps over keys, or one
      past the last index when all are visited. */
  function VisitBound(keys: seq<nat>, k: nat): int
    requires k <= |keys|
  {
    if k < |keys| then keys[k] else if keys == [] then 0 else keys[|keys| - 1] + 1
  }

  /** Over the ascending glyph indices, advancing the bound by one step adds
      exactly the k-th index. */
  lemma VisitBoundStep(gm0: GlyphMap, keys: seq<nat>, k: nat, j: nat)
    requires k < |keys| && StrictlyIncreasing(keys) && (forall i :: i in keys <==> i in gm0)
    requires j in gm0
    ensures j < VisitBound(keys, k + 1) <==> j < VisitBound(keys, k) || j == keys[k]
  {
    var m :| 0 <= m < |keys| && keys[m] == j;
    if m < k {
      assert keys[m] < keys[k];
    } else if m > k {
      if k + 1 < |keys| {
        assert keys[k + 1] <= keys[m] by {
          if k + 1 < m {
            assert keys[k + 1] < keys[m];
          }
        }
      }
    }
  }

  /** Once every glyph has been visited the table is CorrectedGlyphs. */
  lemma HintProgressDone(gm0: GlyphMap, gm: GlyphMap, face: FaceData, ascent: int, offset: int, keys: seq<nat>)
    requires StrictlyIncreasing(keys) && (forall i :: i in keys <==> i in gm0)
    requires HintProgress(gm0, gm, face, ascent, offset, VisitBound(keys, |keys|))
    ensures gm == CorrectedGlyphs(gm0, face, ascent, offset)
  {
    forall j | j in gm0
      ensures j < VisitBound(keys, |keys|)
    {
      var m :| 0 <= m < |keys| && keys[m] == j;
      if m < |keys| - 1 {
        assert keys[m] < keys[|keys| - 1];
      }
    }
  }

  /** The whole state of the correction pass after visiting keys[..k]: the
      table, the buckets and the width estimate, from gm0, hm0 and tw0. */
  ghost predicate HintLoop(gm0: GlyphMap, hm0: HeightMap, tw0: int, face: FaceData, ascent: int, offset: int,
                           keys: seq<nat>, k: nat, gm: GlyphMap, hm: HeightMap, tw: int)
    requires k <= |keys|
  {
    && HintProgress(gm0, gm, face, ascent, offset, VisitBound(keys, k))
    && hm == HintBuckets(hm0, gm0, face, ascent, offset, keys[..k])
    && tw == tw0 + HintWidthDelta(gm0, face, ascent, offset, keys[..k])
  }

  /** Nothing visited yet. */
  lemma HintLoopStart(gm0: GlyphMap, hm0: HeightMap, tw0: int, face: FaceData, ascent: int, offset: int, keys: seq<nat>)
    requires StrictlyIncreasing(keys) && (forall i :: i in keys <==> i in gm0)
    ensures HintLoop(gm0, hm0, tw0, face, ascent, offset, keys, 0, gm0, hm0, tw0)
  {
    assert keys[..0] == [];
    forall j | j in gm0
      ensures j >= VisitBound(keys, 0)
    {
      var m :| 0 <= m < |keys| && keys[m] == j;
      if 0 < m {
        assert keys[0] < keys[m];
      }
    }
  }

  /** Every glyph visited: the pass's result, with both bucket invariants. */
  lemma HintLoopDone(gm0: GlyphMap, hm0: HeightMap, tw0: int, face: FaceData, ascent: int, offset: int,
                     keys: seq<nat>, gm: GlyphMap, hm: HeightMap, tw: int)
    requires HintLoop(gm0, hm0, tw0, face, ascent, offset, keys, |keys|, gm, hm, tw)
    requires StrictlyIncreasing(keys) && (forall i :: i in keys <==> i in gm0)
    requires Bucketed(hm0, gm0) && BucketsValid(hm0, gm0)
    ensures gm == CorrectedGlyphs(gm0, face, ascent, offset)
    ensures hm == HintBuckets(hm0, gm0, face, ascent, offset, keys)
    ensures tw == tw0 + HintWidthDelta(gm0, face, ascent, offset, keys)
    ensures Bucketed(hm, gm) && BucketsValid(hm, gm)
  {
    assert keys[..|keys|] == keys;
    HintProgressDone(gm0, gm, face, ascent, offset, keys);
    HintKeepsBuckets(hm0, gm0, face, ascent, offset, keys);
  }

  /** A bucket after the pass holds what it held before plus exactly the
      visited glyphs whose new truncated height it is. */
  lemma {:induction false} HintBucketsContents(hm: HeightMap, gm: GlyphMap, face: FaceData, ascent: int, offset: int,
                                              keys: seq<nat>, h: int, j: nat)
    ensures j in Bucket(HintBuckets(hm, gm, face, ascent, offset, keys), h) <==>
              || j in Bucket(hm, h)
              || (j in keys && HeightMoves(gm, face, ascent, offset, j) &&
                  Trunc(ReloadedInfo(face, j, ascent, offset).height) == h)
    decreases |keys|
  {
    if keys != [] {
      var i := keys[0];
      HintBucketsContents(HintStep(hm, gm, face, ascent, offset, i), gm, face, ascent, offset, keys[1..], h, j);
      assert j in keys <==> j == i || j in keys[1..];
    }
  }

  /** The correction keeps both bucket invariants: every corrected glyph is in
      the bucket of its new height, and no bucket names a missing glyph. */
  lemma HintKeepsBuckets(hm: HeightMap, gm: GlyphMap, face: FaceData, ascent: int, offset: int, keys: seq<nat>)
    requires Bucketed(hm, gm) && BucketsValid(hm, gm)
    requires forall i :: i in gm ==> i in keys
    ensures Bucketed(HintBuckets(hm, gm, face, ascent, offset, keys), CorrectedGlyphs(gm, face, ascent, offset))
    ensures BucketsValid(HintBuckets(hm, gm, face, ascent, offset, keys), CorrectedGlyphs(gm, face, ascent, offset))
  {
    var r := HintBuckets(hm, gm, face, ascent, offset, keys);
    var cg := CorrectedGlyphs(gm, face, ascent, offset);
    forall i | i in cg
      ensures i in Bucket(r, Trunc(cg[i].height))
    {
      HintBucketsContents(hm, gm, face, ascent, offset, keys, Trunc(cg[i].height), i);
    }
    forall h, i | i in Bucket(r, h)
      ensures i in cg
    {
      HintBucketsContents(hm, gm, face, ascent, offset, keys, h, i);
    }
  }

  /** The stale entry: a glyph whose truncated height changes is listed under
      both its old and its new height, so the sizing pass counts it twice
      and the rendering pass draws it twice. */
  lemma HintLeavesStaleEntry(hm: HeightMap, gm: GlyphMap, face: FaceData, ascent: int, offset: int, keys: seq<nat>, i: nat)
    requires Bucketed(hm, gm)
    requires i in keys && HeightMoves(gm, face, ascent, offset, i)
    requires Trunc(ReloadedInfo(face, i, ascent, offset).height) != Trunc(gm[i].height)
    ensures var r := HintBuckets(hm, gm, face, ascent, offset, keys);
            && (Trunc(gm[i].height), i) in PackEntries(r)
            && (Trunc(ReloadedInfo(face, i, ascent, offset).height), i) in PackEntries(r)
  {
    var r := HintBuckets(hm, gm, face, ascent, offset, keys);
    var oldH := Trunc(gm[i].height);
    var newH := Trunc(ReloadedInfo(face, i, ascent, offset).height);
    HintBucketsContents(hm, gm, face, ascent, offset, keys, oldH, i);
    HintBucketsContents(hm, gm, face, ascent, offset, keys, newH, i);
  }
}
