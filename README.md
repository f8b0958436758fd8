# TrueType font resource, modelled in Dafny

This project models MyGUI's `ResourceTrueTypeFont`. That is the font
resource which turns a TrueType (or Windows FNT/FON) file into a glyph
table and a texture atlas that the GUI draws text from. The FreeType
library, the data manager that reads the font file and the render manager
that owns textures are outside the model. What they would answer is passed
in as plain values: a `FaceData` record describing a loaded face, the
packer's placement answers, and booleans for "the library initialised",
"the size was accepted" and "the texture could be locked".

The model follows the source's layout, one Dafny module per concern:

- `Util` (`util.dfy`): `Bitwise::firstPO2From`, C's `ceil` and truncating
  casts and division, sorted key sequences (the order of `std::map`).
- `Glyphs` (`glyphs.dfy`): `GlyphInfo`, the face data FreeType would report,
  `createFaceGlyphInfo`, `createGlyph`'s width contribution, `setMax`, the
  font ascent and descent, and the character size FreeType is given.
- `CodePoints` (`codepoints.dfy`): the code-point map (`mCharMap`) edited by
  `addCodePoint`, `addCodePointRange` and friends, the `<Codes>` section of
  the resource definition, and `getCodePointRanges`.
- `Packing` (`packing.dfy`): the glyph height map (`GlyphHeightMap`), the
  average glyph height, `autoWrapGlyphPos`, the shelf packing loop that sizes
  the texture, and the final texture size.
- `Pixels` (`pixels.dfy`): `charMask`, the `Pixel`/`PixelBase` writers,
  `renderGlyph`'s row loops, the transparent-white clear, the monochrome
  conversion `*p ^= -*p ^ *p`, and the UV rectangle.
- `GlyphTable` (`glyphtable.dfy`): what building the glyph table achieves.
  This covers the standard glyphs, the four special glyphs, the substitute,
  and the bytecode hinting correction with its height-map rebucketing.
- `FaceCache` (`facecache.dfy`): `FTFactory` (a reference-counted FreeType
  library), `FTFaceCache` (reference-counted faces shared by file name), and
  the FNT strike selection of `loadFace`.
- `Rendering` (`render.dfy`): the render pass of `renderGlyphs` and
  `appendChar` over a placement sequence.
- `TrueTypeFont` (`font.dfy`): the resource itself, a class `Font` whose
  fields are the C++ members. Its methods are `initialise`,
  `initialiseFreeType` and its phases, `loadFace`, `lock`, `appendChar`,
  `unlock` and the destructor.

The main promises proved:

- The glyph table leaves every code point resolvable. Every code point of
  the character map then names a glyph.
- The special glyphs sit above the face's glyph indices and win any collision.
- The substitute falls back to "Not Defined" exactly when the configured one
  is missing.
- The hinting pass yields the reloaded metrics.
- The texture width is a power of two and the height at most twice the width.
- Each glyph is painted where the packer put it, and nothing outside the
  painted cells changes.
- `appendChar` keeps every existing entry and resolves the new code point.
- The face cache and the factory keep exact reference counts.

Floats are modelled as reals. The source's `float` rounding is not modelled.

## Model

| member | source | states |
|---|---|---|
| Util.FirstPO2From | Engine/addons/myguiengine/src/MyGUI_ResourceTrueTypeFont.cpp:1055-1056 | `Bitwise::firstPO2From`: 0 for n <= 0, otherwise a power of two r with n <= r < 2n |
| Util.FirstPO2FromIsLeast | Engine/addons/myguiengine/src/MyGUI_ResourceTrueTypeFont.cpp:1055-1056 | no power of two at least n is below `firstPO2From(n)`: it is the least one |
| Util.Ceil | Engine/addons/myguiengine/src/MyGUI_ResourceTrueTypeFont.cpp:1085-1086 | `ceil` cast to int: the least integer not below x |
| Util.Trunc | Engine/addons/myguiengine/src/MyGUI_ResourceTrueTypeFont.cpp:1320 | the `(FT_Pos)` cast of a height: rounds toward zero on both signs |
| Util.TruncDiv | Engine/addons/myguiengine/src/MyGUI_ResourceTrueTypeFont.cpp:909-913 | C integer division, truncating toward zero, for the OS/2 metric scaling |
| Glyphs.FaceGlyphInfoConverts | Engine/addons/myguiengine/src/MyGUI_ResourceTrueTypeFont.cpp:1299-1314 | the glyph record built from a glyph slot keeps the code point, has an empty UV rectangle and holds the 26.6 metrics divided by 64; bearingY is ascent minus horiBearingY/64 minus the height offset |
| Glyphs.WidthContribution | Engine/addons/myguiengine/src/MyGUI_ResourceTrueTypeFont.cpp:1322-1324 | what `createGlyph` adds to the texture width: 0 when the glyph has no width, else spacing plus `ceil(width)` |
| Glyphs.SetMax | Engine/addons/myguiengine/src/MyGUI_ResourceTrueTypeFont.cpp:224-229 | `setMax`: the result is the larger of the two values |
| Glyphs.FontAscent | Engine/addons/myguiengine/src/MyGUI_ResourceTrueTypeFont.cpp:901-914 | the ascent is at least `ascender/64` and at least each scaled OS/2 ascent, and equals one of them |
| Glyphs.FontDescent | Engine/addons/myguiengine/src/MyGUI_ResourceTrueTypeFont.cpp:901-914 | the descent is at least `-descender/64` and at least each scaled OS/2 descent, and equals one of them |
| Glyphs.CharSizeFor | Engine/addons/myguiengine/src/MyGUI_ResourceTrueTypeFont.cpp:861-878 | a scalable face gets the size in 26.6 fixed point (truncated) at the font's resolution; a bitmap face selects strike 0 |
| CodePoints.WithCodePoint | Engine/addons/myguiengine/src/MyGUI_ResourceTrueTypeFont.cpp:774-777 | `addCodePoint`: the key is added unresolved (0) if missing; all existing entries are kept |
| CodePoints.WithRange | Engine/addons/myguiengine/src/MyGUI_ResourceTrueTypeFont.cpp:784-793 | `addCodePointRange`: exactly the old keys and first..last remain, old values kept, new ones 0 |
| CodePoints.WithoutRange | Engine/addons/myguiengine/src/MyGUI_ResourceTrueTypeFont.cpp:795-798 | `removeCodePointRange`: exactly the keys outside first..last remain, with their values |
| CodePoints.RangeRoundTrip | Engine/addons/myguiengine/src/MyGUI_ResourceTrueTypeFont.cpp:784-798 | removing a range just added restores the map when none of its code points were present before |
| CodePoints.RangeRoundTripLosesExistingKeys | Engine/addons/myguiengine/src/MyGUI_ResourceTrueTypeFont.cpp:784-798 | without that condition the round trip loses existing entries: {0x41:36} becomes empty |
| CodePoints.RunsOf | Engine/addons/myguiengine/src/MyGUI_ResourceTrueTypeFont.cpp:733-767 | `getCodePointRanges` over ascending keys yields separated runs, empty exactly for no keys, starting at the first key and ending at the last |
| CodePoints.RunsOfPrefix | Engine/addons/myguiengine/src/MyGUI_ResourceTrueTypeFont.cpp:745-760 | one more key widens the last run when it is consecutive and opens a new run otherwise |
| CodePoints.CollectRuns | Engine/addons/myguiengine/src/MyGUI_ResourceTrueTypeFont.cpp:733-767 | the source's single loop with an open run (rangeBegin, rangeEnd) computes `RunsOf` |
| CodePoints.RunsOfCovers | Engine/addons/myguiengine/src/MyGUI_ResourceTrueTypeFont.cpp:733-767 | a code point lies in some returned range exactly when it is a key |
| CodePoints.RunsDisjoint | Engine/addons/myguiengine/src/MyGUI_ResourceTrueTypeFont.cpp:733-767 | no code point lies in two returned ranges |
| CodePoints.AddRangesContents | Engine/addons/myguiengine/src/MyGUI_ResourceTrueTypeFont.cpp:464-481 | the `range` codes add exactly the covered code points as unresolved entries and keep the existing ones |
| CodePoints.RemoveRangesContents | Engine/addons/myguiengine/src/MyGUI_ResourceTrueTypeFont.cpp:488-503 | the `hide` codes remove exactly the covered code points and keep the rest unchanged |
| CodePoints.ApplyCodesContents | Engine/addons/myguiengine/src/MyGUI_ResourceTrueTypeFont.cpp:464-504 | after a `<Codes>` section a code point is present iff it was present, included, or defaulted to the BMP because the map is empty after the inclusions, and it is not hidden |
| CodePoints.DefaultIsBmp | Engine/addons/myguiengine/src/MyGUI_ResourceTrueTypeFont.cpp:483-486 | starting from an empty map with no inclusions (so the map is empty after them), the map holds exactly the BMP (0..0xFFFF) minus the hidden code points |
| Packing.AddToBucket | Engine/addons/myguiengine/src/MyGUI_ResourceTrueTypeFont.cpp:1320 | the glyph index joins the bucket of its height; every other bucket is unchanged |
| Packing.PackEntries | Engine/addons/myguiengine/src/MyGUI_ResourceTrueTypeFont.cpp:1079-1081 | the (height, index) pairs visited are exactly the buckets' contents |
| Packing.PackEntriesOrdered | Engine/addons/myguiengine/src/MyGUI_ResourceTrueTypeFont.cpp:1079-1081 | the pairs come in the order of the two nested `std::map` loops: ascending height, then ascending index within a height, so none repeats |
| Packing.EntriesOfOrdered | Engine/addons/myguiengine/src/MyGUI_ResourceTrueTypeFont.cpp:1079-1081 | walking the heights in ascending order yields the pairs ordered by height, then by index |
| Packing.PackSlots | Engine/addons/myguiengine/src/MyGUI_ResourceTrueTypeFont.cpp:1083-1086 | each visited glyph occupies `ceil(width)` by `ceil(height)` |
| Packing.MaxKey | Engine/addons/myguiengine/src/MyGUI_ResourceTrueTypeFont.cpp:1095 | `glyphHeightMap.rbegin()->first` is the largest height present |
| Packing.HeightTotal | Engine/addons/myguiengine/src/MyGUI_ResourceTrueTypeFont.cpp:1045-1046 | the averaging loop sums height times bucket size over the buckets |
| Packing.AverageGlyphHeight | Engine/addons/myguiengine/src/MyGUI_ResourceTrueTypeFont.cpp:1043-1047 | the average height rounded up is the loop's total over the glyph count |
| Packing.AverageHeightCeil | Engine/addons/myguiengine/src/MyGUI_ResourceTrueTypeFont.cpp:1043-1047 | with non-negative heights the rounded average is non-negative |
| Packing.AutoWrap | Engine/addons/myguiengine/src/MyGUI_ResourceTrueTypeFont.cpp:1290-1297 | `autoWrapGlyphPos`: a glyph with width that would cross the right edge starts a new shelf one line and spacing lower; otherwise the position is unchanged |
| Packing.Advance | Engine/addons/myguiengine/src/MyGUI_ResourceTrueTypeFont.cpp:1085-1092 | a glyph with width moves the cursor past it plus spacing; a zero-width glyph does not move it |
| Packing.ShelfYMonotone | Engine/addons/myguiengine/src/MyGUI_ResourceTrueTypeFont.cpp:1079-1094 | with non-negative heights the shelf position never moves up |
| Packing.ShelfYBounded | Engine/addons/myguiengine/src/MyGUI_ResourceTrueTypeFont.cpp:1079-1094 | the shelf position grows by at most the sum of the wrap steps |
| Packing.PlacementsFitWidth | Engine/addons/myguiengine/src/MyGUI_ResourceTrueTypeFont.cpp:1079-1094 | a glyph with width that fits the texture width is placed inside the width |
| Packing.SimulateShelves | Engine/addons/myguiengine/src/MyGUI_ResourceTrueTypeFont.cpp:1079-1094 | the packing loop ends at the shelf position the placement function defines |
| Packing.ComputeTextureSize | Engine/addons/myguiengine/src/MyGUI_ResourceTrueTypeFont.cpp:1051-1096 | the sizing loop ends exactly when the width estimate is at least 1 or, at width 0, the packed height at width 0 is 0; it then ends with a power-of-two width (0 for an estimate below 1) and a packed height that is `PackedHeight` at that width and at most twice it |
| Packing.ApplyTextureSizeSetting | Engine/addons/myguiengine/src/MyGUI_ResourceTrueTypeFont.cpp:435-460 | `TextureSize`: `Auto` turns on automatic sizing; one or two values set width and height (a single value both) rounded up to powers of two |
| Packing.FinalTextureSize | Engine/addons/myguiengine/src/MyGUI_ResourceTrueTypeFont.cpp:1102-1126 | automatic sizing takes the packed size; otherwise the configured size (512 by 512 when unset) grows to at least the packed size |
| Pixels.CharMask | Engine/addons/myguiengine/src/MyGUI_ResourceTrueTypeFont.cpp:231-242 | `charMask` has an entry exactly for Selected, SelectedBack, Cursor and Tab |
| Pixels.BytesPerPixel | Engine/addons/myguiengine/src/MyGUI_ResourceTrueTypeFont.cpp:262-265 | `getNumBytes`: 2 bytes per pixel in luminance-alpha mode, 4 otherwise |
| Pixels.PixelBytes | Engine/addons/myguiengine/src/MyGUI_ResourceTrueTypeFont.cpp:273-300 | `PixelBase::set` writes the luminance into every byte but the last, and the alpha into the last |
| Pixels.PixelValue | Engine/addons/myguiengine/src/MyGUI_ResourceTrueTypeFont.cpp:314-345 | `Pixel::set`: without a source the given luminance and alpha; from a source, the coverage byte as alpha (with the given luminance), or as both when antialiased |
| Pixels.SetPixel | Engine/addons/myguiengine/src/MyGUI_ResourceTrueTypeFont.cpp:303-345 | writes exactly one pixel's bytes at the destination, advances it by the pixel size and the source by one when reading a bitmap; no other byte changes |
| Pixels.PaintPixel | Engine/addons/myguiengine/src/MyGUI_ResourceTrueTypeFont.cpp:1450-1457 | painting the pixel at row r, column c extends the painted prefix of the cell by that pixel |
| Pixels.RenderRow | Engine/addons/myguiengine/src/MyGUI_ResourceTrueTypeFont.cpp:1447-1459 | one row of the cell: the destination advances to the row's end and the source by the width; the row is painted |
| Pixels.RenderGlyph | Engine/addons/myguiengine/src/MyGUI_ResourceTrueTypeFont.cpp:1442-1460 | `renderGlyph`'s pixel loops: the texture becomes exactly the function `Rendered` of the old texture, and the source consumed is width times height when reading a bitmap |
| Pixels.NothingToPaint | Engine/addons/myguiengine/src/MyGUI_ResourceTrueTypeFont.cpp:1447-1460 | a glyph with no width or no height leaves the texture unchanged |
| Pixels.RenderedPixel | Engine/addons/myguiengine/src/MyGUI_ResourceTrueTypeFont.cpp:1442-1460 | byte k of the pixel at row r, column c of the cell is byte k of the pixel value for source position r*width+c and the column's luminance |
| Pixels.ClearTexture | Engine/addons/myguiengine/src/MyGUI_ResourceTrueTypeFont.cpp:1141-1143 | the whole buffer becomes transparent white: every pixel is luminance 0xFF, alpha 0 |
| Pixels.NegateByte | Engine/addons/myguiengine/src/MyGUI_ResourceTrueTypeFont.cpp:1401 | `*p ^= -*p ^ *p` stores the two's-complement negation of the byte: b + r is 0 mod 256 |
| Pixels.NegateByteOnMonochrome | Engine/addons/myguiengine/src/MyGUI_ResourceTrueTypeFont.cpp:1397-1402 | on the 0/1 output of `FT_Bitmap_Convert` the negation maps 0 to 0 and 1 to 0xFF |
| Pixels.NegateByteIsNotSaturation | Engine/addons/myguiengine/src/MyGUI_ResourceTrueTypeFont.cpp:1401 | on other bytes it is not a saturation to white: 2 becomes 254 and 255 becomes 1 |
| Pixels.NormaliseMonochrome | Engine/addons/myguiengine/src/MyGUI_ResourceTrueTypeFont.cpp:1400-1401 | every byte of the converted bitmap is replaced by its negation |
| Pixels.GlyphUV | Engine/addons/myguiengine/src/MyGUI_ResourceTrueTypeFont.cpp:1462-1466 | the UV rectangle is the cell position and the position plus the glyph size, each divided by the texture size |
| Pixels.GlyphUVInUnitSquare | Engine/addons/myguiengine/src/MyGUI_ResourceTrueTypeFont.cpp:1462-1466 | a glyph whose cell lies inside the texture gets UV coordinates in [0, 1] with left <= right and top <= bottom |
| Rendering.NormalisedMonochrome | Engine/addons/myguiengine/src/MyGUI_ResourceTrueTypeFont.cpp:1397-1403 | a converted monochrome bitmap becomes 0 for clear and 0xFF for set pixels |
| Rendering.BitmapSource | Engine/addons/myguiengine/src/MyGUI_ResourceTrueTypeFont.cpp:1383-1408 | a rendered glyph gives a coverage source exactly when its bitmap is grey or a monochrome one that converted; the bytes are the bitmap's or the normalised conversion's |
| Rendering.LoadBitmapSource | Engine/addons/myguiengine/src/MyGUI_ResourceTrueTypeFont.cpp:1383-1408 | computes `BitmapSource` |
| Rendering.EntryPaint | Engine/addons/myguiengine/src/MyGUI_ResourceTrueTypeFont.cpp:1358-1409 | a code point with a `charMask` entry paints white with the mask's alpha; any other glyph paints white from its bitmap, or nothing without one |
| Rendering.LoadPaint | Engine/addons/myguiengine/src/MyGUI_ResourceTrueTypeFont.cpp:1358-1409 | computes `EntryPaint` |
| Rendering.CellFitsDraw | Engine/addons/myguiengine/src/MyGUI_ResourceTrueTypeFont.cpp:1437-1442 | a cell inside the texture is a blit inside the texture buffer |
| Rendering.ApplyDrawsOutside | Engine/addons/myguiengine/src/MyGUI_ResourceTrueTypeFont.cpp:1352-1419 | a byte outside every blitted cell keeps its value |
| Rendering.LastDrawWins | Engine/addons/myguiengine/src/MyGUI_ResourceTrueTypeFont.cpp:1352-1419 | a byte in the last blit's cell holds that blit's pixel value |
| Rendering.AppendCheck | Engine/addons/myguiengine/src/MyGUI_ResourceTrueTypeFont.cpp:1437-1442 | `appendChar`'s blit happens exactly when the packer answered, the texture is mapped and the blit fits; its target is the packer's answer |
| Rendering.RenderStep | Engine/addons/myguiengine/src/MyGUI_ResourceTrueTypeFont.cpp:1354-1417 | one entry of `renderGlyphs` keeps the set of glyph indices |
| Rendering.RenderUpTo | Engine/addons/myguiengine/src/MyGUI_ResourceTrueTypeFont.cpp:1352-1419 | the pass over the height map keeps the set of glyph indices |
| Rendering.StepKeepsMetrics | Engine/addons/myguiengine/src/MyGUI_ResourceTrueTypeFont.cpp:1354-1417 | one entry changes at most a record's UV rectangle and sets a width to 0 |
| Rendering.RenderKeepsMetrics | Engine/addons/myguiengine/src/MyGUI_ResourceTrueTypeFont.cpp:1352-1419 | the whole pass keeps every record's code point, height, advance and bearings, and its width or 0 |
| Rendering.StepDraws | Engine/addons/myguiengine/src/MyGUI_ResourceTrueTypeFont.cpp:1354-1417 | an entry either draws nothing or consumes the next packer answer and draws exactly there, inside the texture |
| Rendering.RenderUsesAnswers | Engine/addons/myguiengine/src/MyGUI_ResourceTrueTypeFont.cpp:1352-1419 | the pass's blits use the packer's answers in order, one answer per blit, all inside the texture |
| Rendering.StepZeroes | Engine/addons/myguiengine/src/MyGUI_ResourceTrueTypeFont.cpp:1362-1374 | drawing a selection glyph zeroes the width and UV span of the record its code point resolves to; a zeroed record stays zeroed |
| Rendering.RenderZeroesSelection | Engine/addons/myguiengine/src/MyGUI_ResourceTrueTypeFont.cpp:1362-1374 | after a successful pass that drew a selection glyph, the record Selected or SelectedBack resolves to has width 0 and an empty UV span |
| GlyphTable.EntriesNameGlyphs | Engine/addons/myguiengine/src/MyGUI_ResourceTrueTypeFont.cpp:1079-1081 | every (height, index) pair of a valid height map names a glyph of the table |
| GlyphTable.StepResolvesAsInitially | Engine/addons/myguiengine/src/MyGUI_ResourceTrueTypeFont.cpp:934-946 | a code point not yet visited resolves as it did before the loop began |
| GlyphTable.CharStep | Engine/addons/myguiengine/src/MyGUI_ResourceTrueTypeFont.cpp:934-946 | visiting a code point keeps it with its glyph index, or erases it when the index is 0 |
| GlyphTable.GlyphStep | Engine/addons/myguiengine/src/MyGUI_ResourceTrueTypeFont.cpp:934-946 | visiting a code point adds its glyph, loaded with default flags, unless the index is already present |
| GlyphTable.StandardDone | Engine/addons/myguiengine/src/MyGUI_ResourceTrueTypeFont.cpp:929-947 | the standard-glyph loop maps each code point to its face glyph or drops it, and loads each glyph once |
| GlyphTable.StandardLeavesNoZero | Engine/addons/myguiengine/src/MyGUI_ResourceTrueTypeFont.cpp:941-946 | no code point is left mapped to glyph index 0 |
| GlyphTable.SpecialGlyphs | Engine/addons/myguiengine/src/MyGUI_ResourceTrueTypeFont.cpp:1019-1022 | the four special glyphs: Tab (no width, advance = tab width), Selected and SelectedBack (selection width), Cursor (cursor width), all but Tab of the default height |
| GlyphTable.SpecialGlyphsWidth | Engine/addons/myguiengine/src/MyGUI_ResourceTrueTypeFont.cpp:1019-1022 | the four special glyphs add 7 to the texture width |
| GlyphTable.SpecialCodesMap | Engine/addons/myguiengine/src/MyGUI_ResourceTrueTypeFont.cpp:1019-1022 | the special code points map to num_glyphs, +1, +2 and +3 |
| GlyphTable.SpecialsContents | Engine/addons/myguiengine/src/MyGUI_ResourceTrueTypeFont.cpp:1012-1022 | the special glyphs are added at their indices and every existing glyph is kept |
| GlyphTable.StandardBelow | Engine/addons/myguiengine/src/MyGUI_ResourceTrueTypeFont.cpp:1012-1015 | glyphs from the face have indices below num_glyphs |
| GlyphTable.SpecialsPlaced | Engine/addons/myguiengine/src/MyGUI_ResourceTrueTypeFont.cpp:1012-1022 | the special glyphs take precedence: each special code point resolves to its own glyph, and every code point still resolves |
| GlyphTable.SubstituteKeeps | Engine/addons/myguiengine/src/MyGUI_ResourceTrueTypeFont.cpp:1024-1036 | adding the Not Defined code point keeps the special glyphs in place and every code point resolvable |
| GlyphTable.CorrectedGlyphs | Engine/addons/myguiengine/src/MyGUI_ResourceTrueTypeFont.cpp:949-986 | the hinting pass keeps every glyph index; a glyph that reloads takes the reloaded width and height and keeps its code point and UV rectangle; the others are unchanged |
| GlyphTable.HintProgressDone | Engine/addons/myguiengine/src/MyGUI_ResourceTrueTypeFont.cpp:951-986 | once every glyph is visited the table is the corrected table |
| GlyphTable.HintLoopStart | Engine/addons/myguiengine/src/MyGUI_ResourceTrueTypeFont.cpp:951-986 | the loop invariant holds before the first glyph |
| GlyphTable.HintLoopDone | Engine/addons/myguiengine/src/MyGUI_ResourceTrueTypeFont.cpp:951-986 | at the end of the loop the table, the height map and the texture width are the corrected ones, and the height map still indexes the table |
| GlyphTable.HintBucketsContents | Engine/addons/myguiengine/src/MyGUI_ResourceTrueTypeFont.cpp:964-972 | a glyph is in a height bucket after the pass iff it was there before or it moved there because its height changed |
| GlyphTable.HintKeepsBuckets | Engine/addons/myguiengine/src/MyGUI_ResourceTrueTypeFont.cpp:964-972 | after the pass every glyph still has an entry in its own height's bucket |
| GlyphTable.HintLeavesStaleEntry | Engine/addons/myguiengine/src/MyGUI_ResourceTrueTypeFont.cpp:964-972 | a glyph whose height changes bucket stays in its old bucket too, so the packer visits it twice |
| FaceCache.Factory.constructor | Engine/addons/myguiengine/src/MyGUI_ResourceTrueTypeFont.cpp:110-114 | the shared factory starts with no users and no library |
| FaceCache.Factory.Create | Engine/addons/myguiengine/src/MyGUI_ResourceTrueTypeFont.cpp:86-92 | `CreateFTFactory` adds one user and leaves the library as it was |
| FaceCache.Factory.GetLibrary | Engine/addons/myguiengine/src/MyGUI_ResourceTrueTypeFont.cpp:76-84 | `GetFT_Library` succeeds at once when the library exists; otherwise it succeeds exactly when `FT_Init_FreeType` does, and the library then exists |
| FaceCache.Factory.Destroy | Engine/addons/myguiengine/src/MyGUI_ResourceTrueTypeFont.cpp:93-108 | `DistroyFTFactory` on the shared instance removes one user and frees the library when none remain; on a null handle nothing changes |
| FaceCache.PositionOf | Engine/addons/myguiengine/src/MyGUI_ResourceTrueTypeFont.cpp:204 | `std::find` by identity: the first position holding that face |
| FaceCache.NameIndex | Engine/addons/myguiengine/src/MyGUI_ResourceTrueTypeFont.cpp:176-189 | the first cached face with that file name, or none exactly when no face has it |
| FaceCache.Released | Engine/addons/myguiengine/src/MyGUI_ResourceTrueTypeFont.cpp:196-212 | a face with more than one user counts down in place; the last release removes exactly that face from the vector |
| FaceCache.Cache.constructor | Engine/addons/myguiengine/src/MyGUI_ResourceTrueTypeFont.cpp:214-215 | the face vector starts empty |
| FaceCache.Cache.Find | Engine/addons/myguiengine/src/MyGUI_ResourceTrueTypeFont.cpp:176-189 | the linear scan returns `NameIndex` |
| FaceCache.Cache.BuildFace | Engine/addons/myguiengine/src/MyGUI_ResourceTrueTypeFont.cpp:190-195 | the new face is appended with one user under a fresh identity |
| FaceCache.Cache.CountAdd | Engine/addons/myguiengine/src/MyGUI_ResourceTrueTypeFont.cpp:132-135 | `CountAdd` increments exactly that face's user count |
| FaceCache.Cache.IndexOf | Engine/addons/myguiengine/src/MyGUI_ResourceTrueTypeFont.cpp:204 | the `std::find` loop returns `PositionOf` |
| FaceCache.Cache.ReleaseFace | Engine/addons/myguiengine/src/MyGUI_ResourceTrueTypeFont.cpp:196-212 | the vector becomes `Released` of the old one; after a last release the face is no longer cached |
| FaceCache.FaceSizesFirst | Engine/addons/myguiengine/src/MyGUI_ResourceTrueTypeFont.cpp:1223-1238 | `faceSizes.insert` keeps the first face of each strike size: every size maps to the lowest face index with that size |
| FaceCache.FirstOfEachSizeStep | Engine/addons/myguiengine/src/MyGUI_ResourceTrueTypeFont.cpp:1230 | inserting the next face's size keeps that property |
| FaceCache.CollectFaceSizes | Engine/addons/myguiengine/src/MyGUI_ResourceTrueTypeFont.cpp:1219-1238 | the FNT loop succeeds exactly when every face has an FNT header and then builds the size map |
| FaceCache.PickFace | Engine/addons/myguiengine/src/MyGUI_ResourceTrueTypeFont.cpp:1240-1242 | `lower_bound(mSize)`: the face of the smallest strike size at or above the requested size, otherwise that of the largest size |
| FaceCache.ChooseFace | Engine/addons/myguiengine/src/MyGUI_ResourceTrueTypeFont.cpp:1189-1245 | `loadFace`'s face choice: no faces is unreadable; a scalable first face is face 0; a bitmap font needs a resolution and FNT headers on all faces, then gets the first face of the closest size not below the request, or of the largest size |
| TrueTypeFont.AppendedRecord | Engine/addons/myguiengine/src/MyGUI_ResourceTrueTypeFont.cpp:607-640 | `appendChar`'s record keeps the code point, has an empty UV rectangle and takes the reloaded metrics when the glyph loads |
| TrueTypeFont.Insert | Engine/addons/myguiengine/src/MyGUI_ResourceTrueTypeFont.cpp:1319 | `std::map::insert` adds the key and never overwrites an existing value |
| TrueTypeFont.AppendKeepsEntries | Engine/addons/myguiengine/src/MyGUI_ResourceTrueTypeFont.cpp:593-720 | `appendChar` keeps every existing code point and glyph with its value, and changes nothing when it fails |
| TrueTypeFont.AddLoadedCases | Engine/addons/myguiengine/src/MyGUI_ResourceTrueTypeFont.cpp:640-720 | a loaded glyph is inserted with its code point and reported; a failed load or blit leaves both maps alone |
| TrueTypeFont.AppendKeepsResolvable | Engine/addons/myguiengine/src/MyGUI_ResourceTrueTypeFont.cpp:593-720 | if every code point resolved to a glyph before, it still does after `appendChar`, and the substitute glyph stays |
| TrueTypeFont.AppendReports | Engine/addons/myguiengine/src/MyGUI_ResourceTrueTypeFont.cpp:593-720 | success reports a nonzero glyph of the table for the new code point; a clean failure reports the substitute; a fault reports nothing |
| TrueTypeFont.AppendResolves | Engine/addons/myguiengine/src/MyGUI_ResourceTrueTypeFont.cpp:593-720 | after a successful `appendChar` of a new code point, `getGlyphInfo` finds the reported glyph |
| TrueTypeFont.AppendDrawFits | Engine/addons/myguiengine/src/MyGUI_ResourceTrueTypeFont.cpp:640-701 | the blit `appendChar` makes reads the glyph's bitmap and stays inside the texture buffer |
| TrueTypeFont.Font.constructor | Engine/addons/myguiengine/src/MyGUI_ResourceTrueTypeFont.cpp:351-374 | the constructor's member defaults: size 0, resolution 96, no antialiasing, space and tab width 0, substitute Not Defined, automatic sizing off and 0x0 texture, empty maps, no face, factory or texture |
| TrueTypeFont.Font.GetGlyphInfo | Engine/addons/myguiengine/src/MyGUI_ResourceTrueTypeFont.cpp:526-545 | `getGlyphInfo` answers true with the mapped glyph exactly when the code point maps to a glyph of the table, and false with the substitute glyph otherwise |
| TrueTypeFont.Font.CodePointRanges | Engine/addons/myguiengine/src/MyGUI_ResourceTrueTypeFont.cpp:733-767 | the ranges are separated, empty exactly for an empty map, and cover exactly the map's code points |
| TrueTypeFont.Font.GetCodePointRanges | Engine/addons/myguiengine/src/MyGUI_ResourceTrueTypeFont.cpp:733-767 | the loop returns `CodePointRanges` |
| TrueTypeFont.Font.AddCodePoint | Engine/addons/myguiengine/src/MyGUI_ResourceTrueTypeFont.cpp:774-777 | the map becomes `WithCodePoint` of the old map |
| TrueTypeFont.Font.RemoveCodePoint | Engine/addons/myguiengine/src/MyGUI_ResourceTrueTypeFont.cpp:779-782 | exactly that code point is erased |
| TrueTypeFont.Font.AddCodePointRange | Engine/addons/myguiengine/src/MyGUI_ResourceTrueTypeFont.cpp:784-793 | the map becomes `WithRange` of the old map |
| TrueTypeFont.Font.RemoveCodePointRange | Engine/addons/myguiengine/src/MyGUI_ResourceTrueTypeFont.cpp:795-798 | the map becomes `WithoutRange` of the old map |
| TrueTypeFont.Font.ClearCodePoints | Engine/addons/myguiengine/src/MyGUI_ResourceTrueTypeFont.cpp:800-803 | the map becomes empty |
| TrueTypeFont.Font.ApplyCodeRanges | Engine/addons/myguiengine/src/MyGUI_ResourceTrueTypeFont.cpp:464-504 | the `<Codes>` loops leave the map equal to `ApplyCodes` of the old map |
| TrueTypeFont.Font.LoadFace | Engine/addons/myguiengine/src/MyGUI_ResourceTrueTypeFont.cpp:1163-1288 | a face cached under the source name is shared and its count goes up; with no data nothing is loaded; otherwise the face `ChooseFace` picks is cached with one user, or the load fails and the cache is unchanged |
| TrueTypeFont.Font.LoadFileFace | Engine/addons/myguiengine/src/MyGUI_ResourceTrueTypeFont.cpp:1189-1285 | a font file gives the face `ChooseFace` picks, appended to the cache, or the matching failure with the cache unchanged |
| TrueTypeFont.Font.PickFileFace | Engine/addons/myguiengine/src/MyGUI_ResourceTrueTypeFont.cpp:1189-1245 | the face choice equals `ChooseFace` |
| TrueTypeFont.Font.OpenFace | Engine/addons/myguiengine/src/MyGUI_ResourceTrueTypeFont.cpp:848-860 | one factory user is added; without a library the load fails and the cache is untouched; otherwise the outcome, the face, its id and the cache are those of `loadFace`: a cached face under the source name is shared with its user count raised, no data fails, otherwise the face `ChooseFace` picks is cached under the next id with one user, or the choice's failure is reported |
| TrueTypeFont.Font.CreateGlyph | Engine/addons/myguiengine/src/MyGUI_ResourceTrueTypeFont.cpp:1316-1325 | `createGlyph` maps the code point to the index, inserts the record without overwriting, files it under its height and returns `WidthContribution`; the height map keeps indexing the table |
| TrueTypeFont.Font.CreateFaceGlyph | Engine/addons/myguiengine/src/MyGUI_ResourceTrueTypeFont.cpp:1327-1342 | a known index only maps the code point; a loadable one also adds the record built from the face, adds its `WidthContribution` and files it under its truncated height; an unloadable one changes nothing; the width added is the `WidthOf` the new glyphs and exact buckets stay exact |
| GlyphTable.AddedGlyphWidth | Engine/addons/myguiengine/src/MyGUI_ResourceTrueTypeFont.cpp:1322-1324 | adding a glyph not yet in the table raises the summed width of the glyphs created since a base table by that glyph's `WidthContribution` |
| GlyphTable.AddedGlyphBucket | Engine/addons/myguiengine/src/MyGUI_ResourceTrueTypeFont.cpp:1320 | filing a new glyph under its truncated height keeps the height map exact: an index is in bucket h exactly when its glyph is in the table with truncated height h |
| TrueTypeFont.Font.ResolveCodePoint | Engine/addons/myguiengine/src/MyGUI_ResourceTrueTypeFont.cpp:934-946 | one iteration maps the code point as `ResolvedIndex` and the face say and erases it when it resolves to 0; the width added is exactly the new glyph's `WidthContribution` (0 when no glyph is added), the height map gains exactly that glyph, and the summed width since the base table grows by it |
| TrueTypeFont.Font.EraseUnresolved | Engine/addons/myguiengine/src/MyGUI_ResourceTrueTypeFont.cpp:942-945 | a code point mapped to 0 is erased; any other is kept; nothing else changes |
| TrueTypeFont.Font.StandardIteration | Engine/addons/myguiengine/src/MyGUI_ResourceTrueTypeFont.cpp:934-946 | one iteration advances the loop invariant by one code point; the width added is exactly the width of the glyphs it creates, and exact buckets stay exact |
| TrueTypeFont.Font.ResolveCodePoints | Engine/addons/myguiengine/src/MyGUI_ResourceTrueTypeFont.cpp:934-947 | the loop over all code points establishes the invariant for every key; the width estimate is exactly the summed `WidthContribution` of the glyphs created, and the height map files exactly those glyphs by truncated height |
| TrueTypeFont.Font.CreateStandardGlyphs | Engine/addons/myguiengine/src/MyGUI_ResourceTrueTypeFont.cpp:929-947 | the table becomes `StandardResult` of the old one, and every remaining code point maps to a nonzero glyph of the table; the width estimate is exactly the summed `WidthContribution` of the new glyphs, and exact buckets stay exact |
| TrueTypeFont.Font.CorrectGlyph | Engine/addons/myguiengine/src/MyGUI_ResourceTrueTypeFont.cpp:951-986 | one hinting iteration advances the loop invariant by one glyph |
| TrueTypeFont.Font.CorrectGlyphs | Engine/addons/myguiengine/src/MyGUI_ResourceTrueTypeFont.cpp:951-986 | the hinting loop over all glyph indices reaches the end of the invariant |
| TrueTypeFont.Font.CorrectHinting | Engine/addons/myguiengine/src/MyGUI_ResourceTrueTypeFont.cpp:949-986 | the table becomes `CorrectedGlyphs`, the height map and width the rebucketed and adjusted ones, and the height map still indexes the table |
| TrueTypeFont.Font.SpaceGlyph | Engine/addons/myguiengine/src/MyGUI_ResourceTrueTypeFont.cpp:991-997 | the space glyph is used only when the Space code point resolves to a glyph whose code point is Space |
| TrueTypeFont.Font.AdjustSpaceAndTab | Engine/addons/myguiengine/src/MyGUI_ResourceTrueTypeFont.cpp:990-1010 | a custom space width replaces the space glyph's width and advance and adjusts the texture width; an unset tab width becomes 8 space advances; nothing changes without a space glyph |
| TrueTypeFont.Font.CreateSpecialGlyph | Engine/addons/myguiengine/src/MyGUI_ResourceTrueTypeFont.cpp:1019-1022 | one special glyph is added at the next index and its width is added |
| TrueTypeFont.Font.CreateSpecialGlyphs | Engine/addons/myguiengine/src/MyGUI_ResourceTrueTypeFont.cpp:1012-1022 | the four special glyphs are mapped at num_glyphs onward, add 7 to the texture width and leave the height map non-empty |
| TrueTypeFont.Font.CreateCodePointGlyphs | Engine/addons/myguiengine/src/MyGUI_ResourceTrueTypeFont.cpp:923-947 | Space is added and the table becomes `StandardResult` of the map with Space, starting empty; a code point remains exactly when it resolves to a nonzero glyph; the width estimate is the summed `WidthContribution` of all glyphs and the height map files every glyph under its truncated height |
| TrueTypeFont.Font.FixGlyphMetrics | Engine/addons/myguiengine/src/MyGUI_ResourceTrueTypeFont.cpp:949-1010 | the hinting fix and the space and tab handling keep the set of glyph indices and the height map valid |
| TrueTypeFont.Font.PlaceSpecialGlyphs | Engine/addons/myguiengine/src/MyGUI_ResourceTrueTypeFont.cpp:1012-1022 | the code points and the table become exactly those with the four special glyphs at the face's glyph count onward; the special glyphs take precedence, every code point still resolves, the map gains exactly the four special code points, and the width estimate grows by 7 |
| TrueTypeFont.Font.CreateGeneratedGlyphs | Engine/addons/myguiengine/src/MyGUI_ResourceTrueTypeFont.cpp:1012-1039 | after the special glyphs and the substitute, the substitute is kept only if it was already mapped or special, and the substitute glyph is its glyph exactly when it is mapped; the code points, the table and the width are exactly the special-glyph step (+7) followed, when the substitute is Not Defined, by the Not Defined step |
| TrueTypeFont.Font.BuildGlyphs | Engine/addons/myguiengine/src/MyGUI_ResourceTrueTypeFont.cpp:923-1039 | every code point resolves, the special glyphs are in place, and a non-special code point stays exactly when the face maps it to a nonzero glyph |
| TrueTypeFont.Font.FinishGlyphs | Engine/addons/myguiengine/src/MyGUI_ResourceTrueTypeFont.cpp:949-1039 | after the metric fixes, the special glyphs and the substitute, every code point resolves, the special glyphs are in place, a code point other than the special ones and Not Defined stays exactly when it was there, and the substitute glyph is the substitute's glyph exactly when it is mapped |
| TrueTypeFont.Font.PackedSize | Engine/addons/myguiengine/src/MyGUI_ResourceTrueTypeFont.cpp:1041-1096 | the texture size is computed exactly when no bucket height is negative and the width estimate is at least 1 or the packed height at width 0 is 0; then the height is `PackedHeight` at the width, at most twice it, and the width is a power of two, or 0 for an estimate below 1 |
| TrueTypeFont.Font.SubstituteAfterSpecials | Engine/addons/myguiengine/src/MyGUI_ResourceTrueTypeFont.cpp:1024-1039 | the substitute step keeps the special glyphs in place and the code points resolvable; a mapped substitute changes nothing else; on Not Defined the code points, the table and the width are exactly those of the Not Defined step |
| TrueTypeFont.Font.ResolveSubstitute | Engine/addons/myguiengine/src/MyGUI_ResourceTrueTypeFont.cpp:1024-1039 | a missing substitute reverts to Not Defined, which then maps to glyph 0 when available, with the width grown by exactly glyph 0's `WidthContribution` when it is loaded; the substitute glyph is set exactly when the substitute maps to a glyph; no glyph is lost |
| TrueTypeFont.Font.AddNotDefined | Engine/addons/myguiengine/src/MyGUI_ResourceTrueTypeFont.cpp:1032-1036 | the Not Defined code point maps to glyph 0 when that glyph is cached or loads; the glyph is added if it was not cached, and then the width grows by exactly its `WidthContribution` and it joins the bucket of its truncated height; otherwise width and height map are unchanged |
| TrueTypeFont.Font.RenderEntry | Engine/addons/myguiengine/src/MyGUI_ResourceTrueTypeFont.cpp:1354-1417 | one entry of `renderGlyphs` does what `RenderStep` says to the table, the answers used and the texture |
| TrueTypeFont.Font.RenderNext | Engine/addons/myguiengine/src/MyGUI_ResourceTrueTypeFont.cpp:1352-1419 | the pass after k+1 entries is `RenderUpTo` of k+1 |
| TrueTypeFont.Font.RenderGlyphs | Engine/addons/myguiengine/src/MyGUI_ResourceTrueTypeFont.cpp:1345-1422 | the table and outcome are those of `RenderAll`, and the texture is the blits of `RenderAll` applied to the old texture |
| TrueTypeFont.Font.SetFaceSize | Engine/addons/myguiengine/src/MyGUI_ResourceTrueTypeFont.cpp:861-878 | the face's character size becomes `CharSizeFor` of the font's size and resolution |
| TrueTypeFont.Font.MeasureFace | Engine/addons/myguiengine/src/MyGUI_ResourceTrueTypeFont.cpp:895-920 | ascent and descent are `FontAscent` and `FontDescent`; the default height is their sum |
| TrueTypeFont.Font.Initialise | Engine/addons/myguiengine/src/MyGUI_ResourceTrueTypeFont.cpp:805-842 | `initialise` adds a factory user and picks the pixel mode; without a face or with a size failure nothing is built; success means a texture of width x height pixels and a mapped substitute; automatic sizing gives a power-of-two width (or 0) and a height at most twice it |
| TrueTypeFont.Font.SizedBuild | Engine/addons/myguiengine/src/MyGUI_ResourceTrueTypeFont.cpp:861-1155 | the size step fails exactly when FreeType refuses the size, and then nothing is built; otherwise the size is set and the font is built |
| TrueTypeFont.Font.BuildFont | Engine/addons/myguiengine/src/MyGUI_ResourceTrueTypeFont.cpp:895-1155 | the metrics are those of the face; the build reports a missing substitute exactly when the substitute is not mapped |
| TrueTypeFont.Font.GlyphsAndTexture | Engine/addons/myguiengine/src/MyGUI_ResourceTrueTypeFont.cpp:923-1155 | the glyph table and texture are built; success means a texture of the chosen size and a substitute glyph |
| TrueTypeFont.Font.RenderFont | Engine/addons/myguiengine/src/MyGUI_ResourceTrueTypeFont.cpp:1041-1155 | sizing and rendering keep the set of glyph indices; success means a texture of the chosen size |
| TrueTypeFont.Font.SizeTexture | Engine/addons/myguiengine/src/MyGUI_ResourceTrueTypeFont.cpp:1051-1126 | automatic sizing gives a power-of-two width (or 0) and a height at most twice it; a configured size only grows; a refused sizing keeps the size |
| TrueTypeFont.Font.CreateTexture | Engine/addons/myguiengine/src/MyGUI_ResourceTrueTypeFont.cpp:1128-1155 | the texture is always created; of zero area it holds no pixels and the pass ends, reporting a refused lock if the lock fails; a refused lock renders nothing; otherwise the texture is the cleared buffer with the blits of `RenderAll` applied |
| TrueTypeFont.Font.PaintTexture | Engine/addons/myguiengine/src/MyGUI_ResourceTrueTypeFont.cpp:1139-1150 | the buffer is cleared to transparent white and the glyphs rendered as `RenderAll` says |
| TrueTypeFont.Font.Lock | Engine/addons/myguiengine/src/MyGUI_ResourceTrueTypeFont.cpp:556-582 | `lock` succeeds only if unlocked with a texture, then marks the lock, records whether the buffer was mapped and sets the character size; when already locked or without a texture nothing changes |
| TrueTypeFont.Font.Unlock | Engine/addons/myguiengine/src/MyGUI_ResourceTrueTypeFont.cpp:584-591 | `unlock` leaves the font unlocked |
| TrueTypeFont.Font.AppendChar | Engine/addons/myguiengine/src/MyGUI_ResourceTrueTypeFont.cpp:593-720 | `appendChar` changes the maps, outcome and texture exactly as `AppendSpec` says, and remembers whether the monochrome buffer was created |
| TrueTypeFont.Font.AddLoadedGlyph | Engine/addons/myguiengine/src/MyGUI_ResourceTrueTypeFont.cpp:640-720 | inserting a loaded glyph follows `AddLoaded` |
| TrueTypeFont.Font.PaintAppended | Engine/addons/myguiengine/src/MyGUI_ResourceTrueTypeFont.cpp:678-701 | the blit happens only when `AppendCheck` allows it; then the texture is the glyph rendered at the packer's answer and the record gets its UV rectangle |
| TrueTypeFont.Font.Destroy | Engine/addons/myguiengine/src/MyGUI_ResourceTrueTypeFont.cpp:376-406 | the destructor unlocks, frees the bitmap and texture, releases the face from the cache and removes its factory user |
| TrueTypeFont.Font.ApplyTextureSize | Engine/addons/myguiengine/src/MyGUI_ResourceTrueTypeFont.cpp:435-460 | the `TextureSize` property sets automatic sizing and the configured size as `ApplyTextureSizeSetting` says |

## Left out

- FreeType is not modelled. A face is a `FaceData` value holding what the library would answer: the character-to-index table, the glyph metrics with default loading, the reloaded metrics for the hinting pass, the rendered bitmaps and their 8-bit conversions, the flags, the metrics and the OS/2 table.
- The texture packer (`mTexturePacker`) is not part of this model. Its placements are a sequence of answers passed in. A refusal, where the source only asserts, becomes the outcome `AllocationFailed`, and the pass stops there.
- The render manager is reduced to parameters: whether the luminance-alpha format is supported, and whether a texture lock succeeds and yields a buffer. A texture is a byte array of width x height x bytes per pixel.
- The data manager is reduced to the `file` parameter: no data, or the faces of the file.
- `FT_New_Memory_Face` failing on readable data is not modelled. An empty face list or a face without an FNT header stands for an unreadable file.
- Exceptions (`MYGUI_EXCEPT`) become outcomes: `LibraryFailed`, `SizeFailed`, `LockSizeFailed`, `FaceUnreadable`.
- Undefined behaviour becomes outcomes too:
  - `OutsideTexture` and `BitmapTooShort` for out-of-bounds writes and reads;
  - `UnmappedTexture` for writing through the null buffer of a failed lock;
  - `SubstituteMissing` for the null dereference at line 1039 when the substitute glyph cannot be loaded;
  - `SizingUnsupported` for a negative bucket height, which the source multiplies by the unsigned bucket size so that the average is out of range for the `(int)ceil` conversion, and for a width estimate below 1 whose sizing loop never ends (the width stays 0 while the packed height at width 0 is positive; when that height is 0 the loop ends with a 0 x 0 texture, which is modelled);
  - `ZeroResolution` for a bitmap font at resolution 0.
- Logging is left out.
- The XML parsing of `deserialization` is left out. Its effect on the code-point map (`ApplyCodeRanges`) and the `TextureSize` property (`ApplyTextureSize`) is modelled. The other properties are fields a caller sets.
- `float` and `double` are modelled as reals. Rounding, the float keys of the strike-size map, and overflow of `int` and `FT_UInt` arithmetic are not modelled. A 32-bit code point is an integer in [0, 0xFFFFFFFF].
- Only the build with FreeType and the bytecode-bug fix enabled is modelled. The stubs compiled without FreeType are left out.
- The template parameters `LAMode` and `Antialias` are the boolean fields `laMode` and `antialias`.
- `getTextureFont`, `getDefaultHeight` and `getSubstituteCodePoint` only return a field and are left out.
- The destructors of the static `FTFactory` and `FTFaceCache` instances run at program exit and are left out.
- `appendChar` builds its record from the face's glyph slot before loading the glyph. That stale slot is the `slot` parameter.
- TrueTypeFont.Font.AddCodePointRange: requires `last < 0xFFFFFFFF` (or an empty range), because the source's `i <= _second; ++i` loop never ends when `_second` is the largest code point.
- TrueTypeFont.Font.RemoveCodePointRange: requires no key strictly between `last` and `first` when `first > last`, because the source's iterator range is invalid then.
- FaceCache.Cache.ReleaseFace: requires the face to be cached, because the source erases `end()` otherwise.
- TrueTypeFont.Font.Destroy: requires the font's face to be in the cache and does not re-establish `Valid()`, because the object is not used after destruction.
- TrueTypeFont.Font.CreateTexture: a texture of zero area is created and locked as in the source, but the glyph pass over it is not modelled: the build ends with `ZeroAreaTexture` (or `TextureLockFailed` when the lock fails).
- TrueTypeFont.Font.BuildGlyphs: states the resolved code points, the special glyphs and the substitute only, not the glyph records, the code points' glyph indices or the width estimate, because `FixGlyphMetrics` in the middle does not state them. `CreateCodePointGlyphs`, `CorrectHinting`, `AdjustSpaceAndTab` and `CreateGeneratedGlyphs` state them exactly for each step.
- TrueTypeFont.Font.FinishGlyphs: states which code points remain, the special glyphs and the substitute only, not the records or the width estimate, for the same reason as `BuildGlyphs`.
- TrueTypeFont.Font.FixGlyphMetrics: states only that the glyph indices are kept and the height map stays valid. `CorrectHinting` and `AdjustSpaceAndTab` state the full effect of its two steps.
- TrueTypeFont.Font.RenderFont: states the outcome, the kept glyph indices and the texture size only. `SizeTexture`, `PackedSize`, `CreateTexture` and `PaintTexture` state what each step computes.
- TrueTypeFont.Font.GlyphsAndTexture: states the outcome and texture facts only. `BuildGlyphs` and `RenderFont` state the glyph table and the texture.
- TrueTypeFont.Font.BuildFont: states the metrics and the outcome only. The glyph table and the texture are stated by the phases it calls.
- TrueTypeFont.Font.SizedBuild: states the size step and the outcome only. The rest is stated by `BuildFont`.
- TrueTypeFont.Font.Initialise: states the factory count, the pixel mode, the outcome and the texture facts only. The glyph table is stated by `BuildGlyphs` and the phases below it.
- TrueTypeFont.Font.SizeTexture: states that the automatic size is a power of two with the height at most twice the width, and that a configured size only grows. The exact values are those of `PackedSize` and `FinalTextureSize`.
