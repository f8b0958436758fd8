/** The process-wide FreeType plumbing of the font resource: the shared
    library handle with its use count (FTFactory), the cache of loaded faces
    keyed by source name with a per-face use counter (FTFaceCache), and the
    choice of face in a non-scalable font file. */
module FaceCache {
  import opened Util
  import opened Glyphs

  // ---------------------------------------------------------------------
  // FTFactory
  // ---------------------------------------------------------------------

  /** The single shared factory: how many fonts hold it, and whether the
      FreeType library has been created. */
  class Factory {
    var count: int
    var libraryCreated: bool

    constructor ()
      ensures count == 0 && !libraryCreated
    {
      count := 0;
      libraryCreated := false;
    }

    /** CreateFTFactory: one more holder. */
    method Create()
      modifies this
      ensures count == old(count) + 1 && libraryCreated == old(libraryCreated)
    {
      count := count + 1;
    }

    /** GetFT_Library: FT_Init_FreeType runs on first use only; when it fails
        the source throws, which is `ok == false` here. */
    method GetLibrary(initSucceeds: bool) returns (ok: bool)
      modifies this
      ensures count == old(count)
      ensures old(libraryCreated) ==> ok && libraryCreated
      ensures !old(libraryCreated) ==> ok == initSucceeds && libraryCreated == initSucceeds
    {
      if !libraryCreated {
        if initSucceeds {
          libraryCreated := true;
        } else {
          return false;
        }
      }
      return true;
    }

    /** DistroyFTFactory: a handle to the shared instance counts down, and
        the last holder releases the library; a null handle does nothing. */
    method Destroy(holdsInstance: bool)
      modifies this
      ensures !holdsInstance ==> count == old(count) && libraryCreated == old(libraryCreated)
      ensures holdsInstance ==> count == old(count) - 1
      ensures holdsInstance ==> libraryCreated == (old(libraryCreated) && count > 0)
    {
      if holdsInstance {
        count := count - 1;
        if count <= 0 && libraryCreated {
          libraryCreated := false;
        }
      }
    }
  }

  // ---------------------------------------------------------------------
  // FTFaceCache
  // ---------------------------------------------------------------------

  /** An FTFace: `id` stands for its address, `name` is the source file name. */
  datatype FaceEntry = FaceEntry(id: nat, name: string, counter: int, face: FaceData)

  /** The position of the face with that address: the first, and with
      distinct addresses the only, entry carrying it. */
  function PositionOf(entries: seq<FaceEntry>, id: nat): (k: nat)
    requires exists k :: 0 <= k < |entries| && entries[k].id == id
    ensures k < |entries| && entries[k].id == id
    ensures forall l :: 0 <= l < k ==> entries[l].id != id
    decreases |entries|
  {
    if entries[0].id == id then 0
    else
      assert exists k :: 0 <= k < |entries[1..]| && entries[1..][k].id == id by {
        var k :| 0 <= k < |entries| && entries[k].id == id;
        assert entries[1..][k - 1] == entries[k];
      }
      1 + PositionOf(entries[1..], id)
  }

  /** The position of the first face loaded from that file name. */
  function NameIndex(entries: seq<FaceEntry>, name: string): (r: Option<nat>)
    ensures r.Some? ==> r.value < |entries| && entries[r.value].name == name
    ensures r.Some? ==> forall k :: 0 <= k < r.value ==> entries[k].name != name
    ensures r.None? <==> forall k :: 0 <= k < |entries| ==> entries[k].name != name
  {
    if |entries| == 0 then None
    else if entries[0].name == name then Some(0)
    else match NameIndex(entries[1..], name)
      case None => None
      case Some(k) => Some(k + 1)
  }

  /** ReleaseFace on values: the face loses a holder, and its entry goes
      with its last holder. */
  function Released(entries: seq<FaceEntry>, id: nat): (r: seq<FaceEntry>)
    requires exists k :: 0 <= k < |entries| && entries[k].id == id
    ensures var k := PositionOf(entries, id);
            entries[k].counter > 1 ==> |r| == |entries| && r[k].counter == entries[k].counter - 1
    ensures var k := PositionOf(entries, id);
            entries[k].counter <= 1 ==> |r| == |entries| - 1 && r == entries[..k] + entries[k + 1..]
  {
    var k := PositionOf(entries, id);
    if entries[k].counter > 1 then entries[k := entries[k].(counter := entries[k].counter - 1)]
    else entries[..k] + entries[k + 1..]
  }

  /** The vector of faces shared by all fonts. */
  class Cache {
    var entries: seq<FaceEntry>
    var nextId: nat

    /** Every face has its own address, and no address is reused. */
    predicate Valid()
      reads this
    {
      && (forall k :: 0 <= k < |entries| ==> entries[k].id < nextId)
      && (forall k, l :: 0 <= k < l < |entries| ==> entries[k].id != entries[l].id)
    }

    /** The face with that address is in the cache. */
    predicate Holds(id: nat)
      reads this
    {
      exists k :: 0 <= k < |entries| && entries[k].id == id
    }

    constructor ()
      ensures entries == [] && Valid()
    {
      entries := [];
      nextId := 0;
    }

    /** Find: a linear scan for the first face with that name. */
    method Find(name: string) returns (r: Option<nat>)
      ensures r == NameIndex(entries, name)
    {
      var k := 0;
      while k < |entries|
        invariant 0 <= k <= |entries|
        invariant forall l :: 0 <= l < k ==> entries[l].name != name
      {
        if entries[k].name == name {
          return Some(k);
        }
        k := k + 1;
      }
      return None;
    }

    /** BuildFace: a new face with counter 1 is appended. */
    method BuildFace(name: string, face: FaceData) returns (id: nat)
      requires Valid()
      modifies this
      ensures Valid()
      ensures id == old(nextId) && !old(Holds(id))
      ensures entries == old(entries) + [FaceEntry(id, name, 1, face)]
    {
      id := nextId;
      entries := entries + [FaceEntry(id, name, 1, face)];
      nextId := nextId + 1;
    }

    /** FTFace::CountAdd on the face at position k. */
    method CountAdd(k: nat)
      requires Valid() && k < |entries|
      modifies this
      ensures Valid() && nextId == old(nextId)
      ensures entries == old(entries)[k := old(entries)[k].(counter := old(entries)[k].counter + 1)]
    {
      entries := entries[k := entries[k].(counter := entries[k].counter + 1)];
    }

    /** std::find over the vector by address. */
    method IndexOf(id: nat) returns (k: nat)
      requires Holds(id)
      ensures k == PositionOf(entries, id)
    {
      k := 0;
      while entries[k].id != id
        invariant k <= PositionOf(entries, id)
        decreases PositionOf(entries, id) - k
      {
        k := k + 1;
      }
    }

    /** ReleaseFace: a face with more than one user only counts down; the
        last release removes exactly that face from the vector. The source
        erases even when the face is not found, so it must be present. */
    method ReleaseFace(id: nat)
      requires Valid() && Holds(id)
      modifies this
      ensures Valid() && nextId == old(nextId)
      ensures entries == Released(old(entries), id)
      ensures old(entries)[PositionOf(old(entries), id)].counter <= 1 ==> !Holds(id)
    {
      var k := IndexOf(id);
      if entries[k].counter > 1 {
        entries := entries[k := entries[k].(counter := entries[k].counter - 1)];
      } else {
        ghost var before := entries;
        entries := entries[..k] + entries[k + 1..];
        forall l | 0 <= l < |entries|
          ensures entries[l].id != id
        {
          if l < k {
            assert entries[l] == before[l];
          } else {
            assert entries[l] == before[l + 1];
          }
        }
      }
    }
  }

  // ---------------------------------------------------------------------
  // Faces of a font file
  // ---------------------------------------------------------------------

  /** FT_WinFNT_HeaderRec fields that size a bitmap strike. */
  datatype FntHeader = FntHeader(nominalPointSize: nat, verticalResolution: nat)

  /** A face of the font file, and its Windows FNT header if it has one. */
  datatype FileFace = FileFace(data: FaceData, fnt: Option<FntHeader>)

  /** The point size a strike has at the font's resolution. */
  function StrikeSize(h: FntHeader, resolution: nat): real
    requires resolution > 0
  {
    (h.nominalPointSize * h.verticalResolution) as real / resolution as real
  }

  /** faceSizes after the first n faces: size -> face index, where
      std::map::insert keeps the first face of each size. */
  function FaceSizes(faces: seq<FileFace>, resolution: nat, n: nat): map<real, nat>
    requires resolution > 0 && n <= |faces|
    requires forall i :: 0 <= i < n ==> faces[i].fnt.Some?
  {
    if n == 0 then map[]
    else
      var m := FaceSizes(faces, resolution, n - 1);
      var s := StrikeSize(faces[n - 1].fnt.value, resolution);
      if s in m then m else m[s := n - 1]
  }

  /** Every strike size of the first n faces is a key of m, and each key
      maps to the first of those faces that has that size. */
  predicate FirstOfEachSize(faces: seq<FileFace>, resolution: nat, n: nat, m: map<real, nat>)
    requires resolution > 0 && n <= |faces|
    requires forall i :: 0 <= i < n ==> faces[i].fnt.Some?
  {
    && (forall s :: s in m ==> m[s] < n && StrikeSize(faces[m[s]].fnt.value, resolution) == s)
    && (forall s :: s in m ==> forall i :: 0 <= i < m[s] ==> StrikeSize(faces[i].fnt.value, resolution) != s)
    && (forall i :: 0 <= i < n ==> StrikeSize(faces[i].fnt.value, resolution) in m)
  }

  lemma {:induction false} FaceSizesFirst(faces: seq<FileFace>, resolution: nat, n: nat)
    requires resolution > 0 && n <= |faces|
    requires forall i :: 0 <= i < n ==> faces[i].fnt.Some?
    ensures FirstOfEachSize(faces, resolution, n, FaceSizes(faces, resolution, n))
  {
    if n > 0 {
      FaceSizesFirst(faces, resolution, n - 1);
      FirstOfEachSizeStep(faces, resolution, n, FaceSizes(faces, resolution, n - 1));
    }
  }

  /** One more face keeps FirstOfEachSize: its size is added only when new. */
  lemma FirstOfEachSizeStep(faces: seq<FileFace>, resolution: nat, n: nat, m0: map<real, nat>)
    requires resolution > 0 && 0 < n <= |faces|
    requires forall i :: 0 <= i < n ==> faces[i].fnt.Some?
    requires FirstOfEachSize(faces, resolution, n - 1, m0)
    ensures var s := StrikeSize(faces[n - 1].fnt.value, resolution);
            FirstOfEachSize(faces, resolution, n, if s in m0 then m0 else m0[s := n - 1])
  {
    var s := StrikeSize(faces[n - 1].fnt.value, resolution);
    if s in m0 {
      forall i | 0 <= i < n
        ensures StrikeSize(faces[i].fnt.value, resolution) in m0
      {
        if i == n - 1 {
          assert StrikeSize(faces[i].fnt.value, resolution) == s;
        }
      }
    } else {
      var m := m0[s := n - 1];
      forall t | t in m
        ensures m[t] < n && StrikeSize(faces[m[t]].fnt.value, resolution) == t
        ensures forall i :: 0 <= i < m[t] ==> StrikeSize(faces[i].fnt.value, resolution) != t
      {
        if t != s {
          assert m[t] == m0[t];
        }
      }
    }
  }

  lemma RealsEmptyOrInhabited(s: set<real>)
    ensures s == {} || exists y :: y in s
  {
    if forall y :: y !in s {
      assert s == {};
    }
  }

  lemma {:induction false} LeastReal(s: set<real>) returns (m: real)
    requires s != {}
    ensures m in s && forall x :: x in s ==> m <= x
    decreases |s|
  {
    RealsEmptyOrInhabited(s);
    var y :| y in s;
    var rest := s - {y};
    if rest == {} {
      m := y;
    } else {
      var k := LeastReal(rest);
      m := if y < k then y else k;
    }
    forall x | x in s
      ensures m <= x
    {
      if x != y {
        assert x in rest;
      }
    }
  }

  lemma {:induction false} GreatestReal(s: set<real>) returns (m: real)
    requires s != {}
    ensures m in s && forall x :: x in s ==> x <= m
    decreases |s|
  {
    RealsEmptyOrInhabited(s);
    var y :| y in s;
    var rest := s - {y};
    if rest == {} {
      m := y;
    } else {
      var k := GreatestReal(rest);
      m := if y > k then y else k;
    }
    forall x | x in s
      ensures x <= m
    {
      if x != y {
        assert x in rest;
      }
    }
  }

  lemma RealBoundsExist(s: set<real>)
    requires s != {}
    ensures exists m :: m in s && forall x :: x in s ==> m <= x
    ensures exists m :: m in s && forall x :: x in s ==> x <= m
  {
    var least := LeastReal(s);
    var greatest := GreatestReal(s);
  }

  /** The do-while of loadFace over a non-scalable file: every face must
      carry a Windows FNT header (the first that does not ends the load),
      and each header's strike size is recorded against its face index. */
  method CollectFaceSizes(faces: seq<FileFace>, resolution: nat) returns (sizes: Option<map<real, nat>>)
    requires resolution > 0
    ensures sizes.Some? <==> forall i :: 0 <= i < |faces| ==> faces[i].fnt.Some?
    ensures sizes.Some? ==> sizes.value == FaceSizes(faces, resolution, |faces|)
  {
    var m: map<real, nat> := map[];
    var k := 0;
    while k < |faces|
      invariant 0 <= k <= |faces|
      invariant forall i :: 0 <= i < k ==> faces[i].fnt.Some?
      invariant m == FaceSizes(faces, resolution, k)
    {
      if faces[k].fnt.None? {
        return None;
      }
      var s := StrikeSize(faces[k].fnt.value, resolution);
      if s !in m {
        m := m[s := k];
      }
      k := k + 1;
    }
    return Some(m);
  }

  /** `lower_bound(size)`, else the last entry: the face of the smallest
      strike at least as large as the requested size, or of the largest
      strike when none is. */
  function PickFace(sizes: map<real, nat>, requested: real): (r: nat)
    requires sizes != map[]
    ensures exists s :: s in sizes && sizes[s] == r &&
              ((requested <= s && forall t :: t in sizes && requested <= t ==> s <= t) ||
               (forall t :: t in sizes ==> t < requested && t <= s))
  {
    var large := set s | s in sizes && requested <= s;
    if large != {} then
      RealBoundsExist(large);
      var m :| m in large && forall x :: x in large ==> m <= x;
      assert forall t :: t in sizes && requested <= t ==> t in large;
      sizes[m]
    else
      RealBoundsExist(sizes.Keys);
      var m :| m in sizes && forall x :: x in sizes ==> x <= m;
      assert forall t :: t in sizes ==> t !in large;
      sizes[m]
  }

  /** Which face of the file loadFace settles on. */
  datatype FaceChoice =
    | Chosen(index: nat)
    | Unreadable       // no face, or a face without an FNT header: the source throws
    | NoResolution     // resolution 0: the strike sizes would divide by zero

  /** loadFace's choice among the faces of a file: the first face when it is
      scalable; otherwise, the first face of the smallest strike at least
      as large as the requested size, or of the largest strike. */
  function ChooseFace(faces: seq<FileFace>, resolution: nat, size: real): (r: FaceChoice)
    ensures r.Chosen? ==> r.index < |faces|
    ensures |faces| == 0 ==> r == Unreadable
    ensures |faces| > 0 && faces[0].data.scalable ==> r == Chosen(0)
    ensures |faces| > 0 && !faces[0].data.scalable && resolution == 0 ==> r == NoResolution
    ensures |faces| > 0 && !faces[0].data.scalable && resolution > 0 ==>
              (r == Unreadable <==> exists i :: 0 <= i < |faces| && faces[i].fnt.None?)
    ensures r.Chosen? && !faces[0].data.scalable ==>
              && resolution > 0
              && (forall i :: 0 <= i < |faces| ==> faces[i].fnt.Some?)
              && var s := StrikeSize(faces[r.index].fnt.value, resolution);
                 && (forall i :: 0 <= i < r.index ==> StrikeSize(faces[i].fnt.value, resolution) != s)
                 && ((size <= s && forall i :: 0 <= i < |faces| && size <= StrikeSize(faces[i].fnt.value, resolution) ==>
                                                s <= StrikeSize(faces[i].fnt.value, resolution))
                     || (forall i :: 0 <= i < |faces| ==> StrikeSize(faces[i].fnt.value, resolution) < size &&
                                                          StrikeSize(faces[i].fnt.value, resolution) <= s))
  {
    if |faces| == 0 then Unreadable
    else if faces[0].data.scalable then Chosen(0)
    else if resolution == 0 then NoResolution
    else if exists i :: 0 <= i < |faces| && faces[i].fnt.None? then Unreadable
    else
      var m := FaceSizes(faces, resolution, |faces|);
      FaceSizesFirst(faces, resolution, |faces|);
      assert StrikeSize(faces[0].fnt.value, resolution) in m;
      Chosen(PickFace(m, size))
  }
}
