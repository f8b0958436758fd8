/** Atlas sizing: the height-bucketed glyph order, the shelf simulation that
    autoWrapGlyphPos drives, the power-of-two sizing loops of the build pass,
    and the choice between the computed and the configured texture size. */
module Packing {
  import opened Util
  import opened Glyphs

  /** GlyphHeightMap: truncated glyph height -> the glyph indices in that bucket
      (each standing for a pointer to the glyph-map entry with that index). */
  type HeightMap = map<int, set<nat>>

  function Bucket(hm: HeightMap, h: int): set<nat>
  {
    if h in hm then hm[h] else {}
  }

  /** `_glyphHeightMap[h].insert(idx)`: operator[] creates a missing bucket. */
  function AddToBucket(hm: HeightMap, h: int, idx: nat): (r: HeightMap)
    ensures r.Keys == hm.Keys + {h}
    ensures Bucket(r, h) == Bucket(hm, h) + {idx}
    ensures forall k :: k != h ==> Bucket(r, k) == Bucket(hm, k)
  {
    hm[h := Bucket(hm, h) + {idx}]
  }

  // ---------------------------------------------------------------------
  // Iteration order of the height map
  // ---------------------------------------------------------------------

  function SortedIndices(s: set<nat>): (r: seq<nat>)
    ensures |r| == |s|
    ensures forall i :: i in r <==> i in s
    ensures StrictlyIncreasing(r)
  {
    var q := Sorted(s);
    assert forall i :: 0 <= i < |q| ==> q[i] in s;
    q
  }

  /** One bucket's (height, glyph index) pairs, in the order of `ids`. */
  function BucketEntries(key: int, ids: seq<nat>): (es: seq<(int, nat)>)
    ensures forall e :: e in es <==> e.0 == key && e.1 in ids
    ensures |es| == |ids| && forall i :: 0 <= i < |es| ==> es[i] == (key, ids[i])
    decreases |ids|
  {
    if ids == [] then [] else [(key, ids[0])] + BucketEntries(key, ids[1..])
  }

  /** The (bucket height, glyph index) pairs of the given buckets, buckets in
      the given order and indices ascending inside each bucket. */
  function EntriesOf(hm: HeightMap, keys: seq<int>): (es: seq<(int, nat)>)
    requires forall i :: 0 <= i < |keys| ==> keys[i] in hm
    ensures forall e :: e in es <==> e.0 in keys && e.0 in hm && e.1 in hm[e.0]
    decreases |keys|
  {
    if keys == [] then []
    else
      assert forall k :: k in keys <==> k == keys[0] || k in keys[1..];
      BucketEntries(keys[0], SortedIndices(hm[keys[0]])) + EntriesOf(hm, keys[1..])
  }

  /** Entries ordered by height, then by glyph index inside a height, so
      that no entry repeats. */
  predicate EntryOrder(es: seq<(int, nat)>)
  {
    forall i, j :: 0 <= i < j < |es| ==> es[i].0 < es[j].0 || (es[i].0 == es[j].0 && es[i].1 < es[j].1)
  }

  /** One bucket's entries, ascending, before entries of higher buckets. */
  lemma ConcatOrdered(a: seq<(int, nat)>, b: seq<(int, nat)>, key: int)
    requires forall i :: 0 <= i < |a| ==> a[i].0 == key
    requires forall i, j :: 0 <= i < j < |a| ==> a[i].1 < a[j].1
    requires forall j :: 0 <= j < |b| ==> b[j].0 > key
    requires EntryOrder(b)
    ensures EntryOrder(a + b)
  {
    var es := a + b;
    forall i, j | 0 <= i < j < |es|
      ensures es[i].0 < es[j].0 || (es[i].0 == es[j].0 && es[i].1 < es[j].1)
    {
      if i >= |a| {
        assert es[i] == b[i - |a|] && es[j] == b[j - |a|];
      } else if j >= |a| {
        assert es[j] == b[j - |a|];
      }
    }
  }

  /** Buckets taken in ascending order give entries in EntryOrder. */
  lemma {:induction false} EntriesOfOrdered(hm: HeightMap, keys: seq<int>)
    requires forall i :: 0 <= i < |keys| ==> keys[i] in hm
    requires StrictlyIncreasing(keys)
    ensures EntryOrder(EntriesOf(hm, keys))
    decreases |keys|
  {
    if keys != [] {
      var rest := keys[1..];
      EntriesOfOrdered(hm, rest);
      var b := EntriesOf(hm, rest);
      forall j | 0 <= j < |b|
        ensures b[j].0 > keys[0]
      {
        assert b[j] in b;
        var m :| 0 <= m < |rest| && rest[m] == b[j].0;
        assert keys[m + 1] == rest[m];
      }
      ConcatOrdered(BucketEntries(keys[0], SortedIndices(hm[keys[0]])), b, keys[0]);
    }
  }

  /** The order in which the sizing pass and renderGlyphs walk the glyphs:
      buckets by ascending height, glyph indices ascending inside a bucket,
      each pair once. */
  function PackEntries(hm: HeightMap): (es: seq<(int, nat)>)
    ensures forall e :: e in es <==> e.0 in hm && e.1 in hm[e.0]
  {
    EntriesOf(hm, Sorted(hm.Keys))
  }

  /** The entries come in the order of the two nested map loops: ascending
      height, then ascending index within a height; so no pair repeats. */
  lemma PackEntriesOrdered(hm: HeightMap)
    ensures EntryOrder(PackEntries(hm))
  {
    EntriesOfOrdered(hm, Sorted(hm.Keys));
  }

  /** The glyphs of the entries as the sizing pass sees them: rounded-up
      width and height, in entry order. */
  function PackSlots(entries: seq<(int, nat)>, glyphs: map<nat, GlyphInfo>): (slots: seq<Slot>)
    requires forall k :: 0 <= k < |entries| ==> entries[k].1 in glyphs
    ensures |slots| == |entries|
    ensures forall k :: 0 <= k < |entries| ==>
              slots[k] == Slot(Ceil(glyphs[entries[k].1].width), Ceil(glyphs[entries[k].1].height))
  {
    seq(|entries|, k requires 0 <= k < |entries| =>
      Slot(Ceil(glyphs[entries[k].1].width), Ceil(glyphs[entries[k].1].height)))
  }

  /** The largest bucket height: `glyphHeightMap.rbegin()->first`. */
  function MaxKey(hm: HeightMap): (k: int)
    requires hm != map[]
    ensures k in hm && forall h :: h in hm ==> h <= k
  {
    var ks := Sorted(hm.Keys);
    LastIsLargest(ks);
    ks[|ks| - 1]
  }

  /** Σ height × bucket size over the buckets: the numerator of the average
      glyph height. */
  function HeightSumOf(hm: HeightMap, keys: seq<int>): int
    requires forall i :: 0 <= i < |keys| ==> keys[i] in hm
    decreases |keys|
  {
    if keys == [] then 0 else BucketWeight(hm, keys[0]) + HeightSumOf(hm, keys[1..])
  }

  /** One bucket's share of the height total: its height times its size. */
  function BucketWeight(hm: HeightMap, h: int): int
    requires h in hm
  {
    h * |hm[h]|
  }

  function HeightSum(hm: HeightMap): int
  {
    HeightSumOf(hm, Sorted(hm.Keys))
  }

  lemma {:induction false} HeightSumOfNonNegative(hm: HeightMap, keys: seq<int>)
    requires forall i :: 0 <= i < |keys| ==> keys[i] in hm
    ensures (forall i :: 0 <= i < |keys| ==> keys[i] >= 0) ==> HeightSumOf(hm, keys) >= 0
    decreases |keys|
  {
    if keys != [] {
      HeightSumOfNonNegative(hm, keys[1..]);
    }
  }

  /** `(int)ceil(averageGlyphHeight)`, the mean taken over the glyph map's size. */
  function AverageHeightCeil(hm: HeightMap, glyphCount: nat): (a: int)
    requires glyphCount > 0
    ensures (forall k :: k in hm ==> k >= 0) ==> a >= 0
  {
    HeightSumOfNonNegative(hm, Sorted(hm.Keys));
    Ceil(HeightSum(hm) as real / glyphCount as real)
  }

  /** The averaging loop of initialiseFreeType: each bucket, in key order,
      adds its height times its glyph count. */
  method HeightTotal(hm: HeightMap, keys: seq<int>) returns (total: int)
    requires forall i :: 0 <= i < |keys| ==> keys[i] in hm
    ensures total == HeightSumOf(hm, keys)
  {
    total := 0;
    var k := 0;
    while k < |keys|
      invariant 0 <= k <= |keys|
      invariant total + HeightSumOf(hm, keys[k..]) == HeightSumOf(hm, keys)
    {
      assert keys[k..][1..] == keys[k + 1..];
      total := total + BucketWeight(hm, keys[k]);
      k := k + 1;
    }
    assert keys[k..] == [];
  }

  /** `averageGlyphHeight` rounded up: the height total over the glyph count. */
  method AverageGlyphHeight(hm: HeightMap, glyphCount: nat) returns (a: int)
    requires glyphCount > 0
    ensures a == AverageHeightCeil(hm, glyphCount)
  {
    var total := HeightTotal(hm, Sorted(hm.Keys));
    a := Ceil(total as real / glyphCount as real);
  }

  // ---------------------------------------------------------------------
  // Shelf simulation
  // ---------------------------------------------------------------------

  /** autoWrapGlyphPos: a glyph with ink that would cross the right edge
      starts a new shelf below the current one. */
  function AutoWrap(glyphWidth: int, texWidth: int, lineHeight: int, x: int, y: int): (p: (int, int))
    ensures (glyphWidth > 0 && x + GlyphSpacing + glyphWidth > texWidth) ==> p == (0, y + GlyphSpacing + lineHeight)
    ensures !(glyphWidth > 0 && x + GlyphSpacing + glyphWidth > texWidth) ==> p == (x, y)
  {
    if glyphWidth > 0 && x + GlyphSpacing + glyphWidth > texWidth then (0, y + GlyphSpacing + lineHeight) else (x, y)
  }

  /** A glyph as the sizing pass sees it: rounded-up width and height. */
  datatype Slot = Slot(width: int, height: int)

  /** Where a glyph is placed from cursor (x, y), and the cursor after it:
      only a glyph with ink advances the cursor. */
  function Place(s: Slot, texWidth: int, x: int, y: int): (p: (int, int))
  {
    AutoWrap(s.width, texWidth, s.height, x, y)
  }

  function Advance(s: Slot, texWidth: int, x: int, y: int): (c: (int, int))
    ensures s.width <= 0 ==> c == (x, y)
    ensures s.width > 0 ==> c == (Place(s, texWidth, x, y).0 + GlyphSpacing + s.width, Place(s, texWidth, x, y).1)
  {
    var p := Place(s, texWidth, x, y);
    if s.width > 0 then (p.0 + GlyphSpacing + s.width, p.1) else p
  }

  /** The cursor after the whole sequence of glyphs. */
  function Shelf(slots: seq<Slot>, texWidth: int, x: int, y: int): (c: (int, int))
    decreases |slots|
  {
    if slots == [] then (x, y)
    else
      var c := Advance(slots[0], texWidth, x, y);
      Shelf(slots[1..], texWidth, c.0, c.1)
  }

  /** The positions the glyphs are placed at, one per glyph. */
  function Placements(slots: seq<Slot>, texWidth: int, x: int, y: int): (ps: seq<(int, int)>)
    ensures |ps| == |slots|
    decreases |slots|
  {
    if slots == [] then []
    else
      var c := Advance(slots[0], texWidth, x, y);
      [Place(slots[0], texWidth, x, y)] + Placements(slots[1..], texWidth, c.0, c.1)
  }

  /** The most a shelf walk can move the cursor down: one spacing plus the
      height for every glyph with ink. */
  function WrapBound(slots: seq<Slot>): (b: int)
    ensures b >= 0
    decreases |slots|
  {
    if slots == [] then 0
    else (if slots[0].width > 0 then GlyphSpacing + (if slots[0].height > 0 then slots[0].height else 0) else 0) + WrapBound(slots[1..])
  }

  lemma {:induction false} ShelfYBounded(slots: seq<Slot>, texWidth: int, x: int, y: int)
    ensures Shelf(slots, texWidth, x, y).1 <= y + WrapBound(slots)
    decreases |slots|
  {
    if slots != [] {
      var c := Advance(slots[0], texWidth, x, y);
      ShelfYBounded(slots[1..], texWidth, c.0, c.1);
    }
  }

  /** The cursor never moves up. */
  lemma {:induction false} ShelfYMonotone(slots: seq<Slot>, texWidth: int, x: int, y: int)
    requires forall k :: 0 <= k < |slots| ==> slots[k].height >= 0
    ensures Shelf(slots, texWidth, x, y).1 >= y
    decreases |slots|
  {
    if slots != [] {
      var c := Advance(slots[0], texWidth, x, y);
      ShelfYMonotone(slots[1..], texWidth, c.0, c.1);
    }
  }

  /** A glyph with ink that is narrower than the texture (spacing included)
      is placed entirely inside the texture width, whatever came before it. */
  lemma {:induction false} PlacementsFitWidth(slots: seq<Slot>, texWidth: int, x: int, y: int, k: int)
    requires 0 <= k < |slots| && x >= 0
    requires slots[k].width > 0 && GlyphSpacing + slots[k].width <= texWidth
    ensures 0 <= Placements(slots, texWidth, x, y)[k].0
    ensures Placements(slots, texWidth, x, y)[k].0 + GlyphSpacing + slots[k].width <= texWidth
    decreases k
  {
    if k > 0 {
      var c := Advance(slots[0], texWidth, x, y);
      PlacementsFitWidth(slots[1..], texWidth, c.0, c.1, k - 1);
    }
  }

  /** The shelf walk of the build pass: the texY it ends with. */
  method SimulateShelves(slots: seq<Slot>, texWidth: int) returns (texY: int)
    ensures texY == Shelf(slots, texWidth, 0, 0).1
  {
    var texX := 0;
    texY := 0;
    var k := 0;
    while k < |slots|
      invariant 0 <= k <= |slots|
      invariant Shelf(slots[k..], texWidth, texX, texY) == Shelf(slots, texWidth, 0, 0)
    {
      assert slots[k..][1..] == slots[k + 1..];
      var glyphWidth := slots[k].width;
      var glyphHeight := slots[k].height;
      var p := AutoWrap(glyphWidth, texWidth, glyphHeight, texX, texY);
      texX, texY := p.0, p.1;
      if glyphWidth > 0 {
        texX := texX + GlyphSpacing + glyphWidth;
      }
      k := k + 1;
    }
    assert slots[k..] == [];
  }

  // ---------------------------------------------------------------------
  // Texture size
  // ---------------------------------------------------------------------

  /** The canvas height the shelf simulation needs at a given width,
      rounded up to a power of two: `firstPO2From(texY + tallest bucket)`. */
  function PackedHeight(slots: seq<Slot>, texWidth: int, maxKey: int): int
  {
    FirstPO2From(Shelf(slots, texWidth, 0, 0).1 + maxKey)
  }

  /** The sizing part of the build pass: round the width estimate and the
      average height up to powers of two, trade width for height until the
      canvas is no wider than tall, then run the shelf simulation, doubling
      the width again while the result is more than twice as tall as wide.
      An estimate below one rounds to width 0, which doubling keeps at 0:
      every pass of the do-while is then the same shelf walk, so the loop
      ends only if that walk needs no height, and `ends` is false where the
      source would loop for ever. */
  method ComputeTextureSize(slots: seq<Slot>, maxKey: int, widthEstimate: int, averageHeight: int)
    returns (ends: bool, texWidth: int, texHeight: int)
    requires averageHeight >= 0
    ensures ends <==> widthEstimate >= 1 || PackedHeight(slots, 0, maxKey) == 0
    ensures ends ==> texHeight == PackedHeight(slots, texWidth, maxKey) && texHeight <= 2 * texWidth
    ensures ends && widthEstimate >= 1 ==> IsPow2(texWidth)
    ensures ends && widthEstimate < 1 ==> texWidth == 0 && texHeight == 0
  {
    texWidth := FirstPO2From(widthEstimate);
    texHeight := FirstPO2From(averageHeight + GlyphSpacing);
    if texWidth == 0 {
      var texY0 := SimulateShelves(slots, texWidth);
      texHeight := FirstPO2From(texY0 + maxKey);
      ends := texHeight <= texWidth * 2;
      return;
    }

    while texWidth > texHeight
      invariant IsPow2(texWidth) && IsPow2(texHeight)
      decreases texWidth
    {
      Pow2Positive(texHeight);
      Pow2Half(texWidth);
      Pow2Double(texHeight);
      texWidth := texWidth / 2;
      texHeight := texHeight * 2;
    }

    // First pass of the do-while.
    if texHeight > texWidth * 2 {
      Pow2Double(texWidth);
      texWidth := texWidth * 2;
    }
    var texY := SimulateShelves(slots, texWidth);
    texHeight := FirstPO2From(texY + maxKey);
    ShelfYBounded(slots, texWidth, 0, 0);

    while texHeight > texWidth * 2
      invariant IsPow2(texWidth)
      invariant texY == Shelf(slots, texWidth, 0, 0).1 && texY <= WrapBound(slots)
      invariant texHeight == FirstPO2From(texY + maxKey)
      decreases WrapBound(slots) + maxKey - texWidth
    {
      Pow2Positive(texWidth);
      Pow2Double(texWidth);
      texWidth := texWidth * 2;
      texY := SimulateShelves(slots, texWidth);
      texHeight := FirstPO2From(texY + maxKey);
      ShelfYBounded(slots, texWidth, 0, 0);
    }
    ends := true;
  }

  /** The TextureSize property: "Auto", or one or two sizes (one size means a
      square texture), each rounded up to a power of two. Parsing is not modelled. */
  datatype TextureSizeSetting = Auto | Sizes(values: seq<nat>)

  /** (automatic?, configured width, configured height) after the setting;
      an empty size list leaves the configured sizes as they were. */
  function ApplyTextureSizeSetting(setting: TextureSizeSetting, width: int, height: int): (r: (bool, int, int))
    ensures setting.Auto? ==> r == (true, width, height)
    ensures setting.Sizes? && setting.values == [] ==> r == (false, width, height)
    ensures setting.Sizes? && |setting.values| == 1 ==> !r.0 && r.1 == r.2 == FirstPO2From(setting.values[0])
    ensures setting.Sizes? && |setting.values| >= 2 ==>
              !r.0 && r.1 == FirstPO2From(setting.values[0]) && r.2 == FirstPO2From(setting.values[1])
    ensures setting.Sizes? && setting.values != [] ==>
              (r.1 == 0 || IsPow2(r.1)) && (r.2 == 0 || IsPow2(r.2))
  {
    match setting
    case Auto => (true, width, height)
    case Sizes(vs) =>
      if vs == [] then (false, width, height)
      else
        var w := vs[0];
        var h := if |vs| > 1 then vs[1] else w;
        (false, FirstPO2From(w), FirstPO2From(h))
  }

  const DefaultTextureBufferWidth: int := 512
  const DefaultTextureBufferHeight: int := 512

  /** The final texture size: the computed one when automatic; otherwise the
      configured one (512 where a dimension is 0), enlarged to the computed
      one where it is smaller. */
  function FinalTextureSize(auto: bool, configWidth: int, configHeight: int, texWidth: int, texHeight: int): (r: (int, int))
    ensures auto ==> r == (texWidth, texHeight)
    ensures !auto ==> r.0 >= texWidth && r.1 >= texHeight
    ensures !auto ==> r.0 == (if configWidth == 0 then DefaultTextureBufferWidth else configWidth) || r.0 == texWidth
    ensures !auto ==> r.1 == (if configHeight == 0 then DefaultTextureBufferHeight else configHeight) || r.1 == texHeight
    ensures !auto && configWidth == 0 && texWidth <= DefaultTextureBufferWidth ==> r.0 == DefaultTextureBufferWidth
    ensures !auto && configHeight == 0 && texHeight <= DefaultTextureBufferHeight ==> r.1 == DefaultTextureBufferHeight
  {
    if auto then (texWidth, texHeight)
    else
      var w := if configWidth == 0 then DefaultTextureBufferWidth else configWidth;
      var h := if configHeight == 0 then DefaultTextureBufferHeight else configHeight;
      (if w < texWidth then texWidth else w, if h < texHeight then texHeight else h)
  }
}
