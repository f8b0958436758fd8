/** The code-point set of the font: the ordered map from code point to glyph
    index (0 meaning "not resolved yet") and what the configuration does to
    it. The functions here are the values the Font methods assign; the
    lemmas state what those values mean. */
module CodePoints {
  import opened Util
  import opened Glyphs

  type CharMap = map<Char, nat>

  /** A closed range [first, last] of code points, as getCodePointRanges
      returns it. */
  type CodeRange = (Char, Char)

  // ---------------------------------------------------------------------
  // The map after each configuration operation
  // ---------------------------------------------------------------------

  /** addCodePoint: std::map::insert never overwrites, so an existing entry
      keeps its glyph index. */
  function WithCodePoint(m: CharMap, c: Char): (r: CharMap)
    ensures r.Keys == m.Keys + {c}
    ensures forall k :: k in m ==> r[k] == m[k]
    ensures c !in m ==> r[c] == 0
  {
    if c in m then m else m[c := 0]
  }

  /** addCodePointRange(first, last): every code point of [first, last]
      becomes a key; new keys get glyph index 0, existing keys keep theirs. */
  function WithRange(m: CharMap, first: Char, last: Char): (r: CharMap)
    ensures forall c :: c in r <==> c in m || first <= c <= last
    ensures forall c :: c in m ==> r[c] == m[c]
    ensures forall c :: c in r && c !in m ==> r[c] == 0
  {
    map c: Char | c in m || first <= c <= last :: if c in m then m[c] else 0
  }

  /** removeCodePointRange(first, last) erases [lower_bound(first),
      upper_bound(last)); that iterator range is valid exactly when no key
      lies strictly between last and first. */
  predicate RemoveRangeDefined(m: CharMap, first: Char, last: Char)
  {
    first <= last || forall c :: c in m ==> !(last < c < first)
  }

  /** The map after removeCodePointRange(first, last): exactly the keys in
      [first, last] are gone (none when first > last). */
  function WithoutRange(m: CharMap, first: Char, last: Char): (r: CharMap)
    ensures forall c :: c in r <==> c in m && !(first <= c <= last)
    ensures forall c :: c in r ==> r[c] == m[c]
  {
    map c | c in m && !(first <= c <= last) :: m[c]
  }

  /** The keys of the map in ascending order: the order of a std::map walk. */
  function SortedKeys(m: CharMap): (ks: seq<Char>)
    ensures |ks| == |m|
    ensures forall c :: c in ks <==> c in m
    ensures StrictlyIncreasing(ks)
  {
    var s := Sorted(m.Keys);
    assert forall i :: 0 <= i < |s| ==> s[i] in m.Keys;
    s
  }

  // ---------------------------------------------------------------------
  // Add / remove round trip
  // ---------------------------------------------------------------------

  /** Adding a range and removing it again restores the map, provided the map
      had no key inside the range beforehand. */
  lemma RangeRoundTrip(m: CharMap, first: Char, last: Char)
    requires forall c :: c in m ==> !(first <= c <= last)
    ensures WithoutRange(WithRange(m, first, last), first, last) == m
  {
    var r := WithoutRange(WithRange(m, first, last), first, last);
    assert r.Keys == m.Keys;
  }

  /** Without that proviso the round trip loses entries: removing the range
      also erases the keys that were there before it was added. */
  lemma RangeRoundTripLosesExistingKeys()
    ensures var m: CharMap := map[0x41 := 36];
            WithoutRange(WithRange(m, 0x41, 0x41), 0x41, 0x41) == map[]
  {
    var m: CharMap := map[0x41 := 36];
    var r := WithoutRange(WithRange(m, 0x41, 0x41), 0x41, 0x41);
    assert r.Keys == {};
  }

  // ---------------------------------------------------------------------
  // Contiguous runs (getCodePointRanges)
  // ---------------------------------------------------------------------

  /** Each range is non-empty and the next one starts more than one past the
      end of the previous one, so no two ranges could be merged. */
  predicate Runs(rs: seq<CodeRange>)
  {
    && (forall k :: 0 <= k < |rs| ==> rs[k].0 <= rs[k].1)
    && (forall k :: 0 < k < |rs| ==> rs[k - 1].1 as int + 1 < rs[k].0)
  }

  /** c lies in one of the closed ranges. */
  ghost predicate InSomeRange(rs: seq<CodeRange>, c: int)
  {
    exists k :: 0 <= k < |rs| && rs[k].0 <= c <= rs[k].1
  }

  lemma InSomeRangeAppend(rs: seq<CodeRange>, r: CodeRange, c: int)
    ensures InSomeRange(rs + [r], c) <==> InSomeRange(rs, c) || r.0 <= c <= r.1
  {
    var t := rs + [r];
    if InSomeRange(t, c) {
      var k :| 0 <= k < |t| && t[k].0 <= c <= t[k].1;
      if k < |rs| {
        assert rs[k] == t[k];
      }
    }
    if InSomeRange(rs, c) {
      var k :| 0 <= k < |rs| && rs[k].0 <= c <= rs[k].1;
      assert t[k] == rs[k];
    }
    if r.0 <= c <= r.1 {
      assert t[|rs|] == r;
    }
  }

  /** Runs are ascending and pairwise disjoint, with a gap between any two. */
  lemma {:induction false} RunsSeparated(rs: seq<CodeRange>, k: int, l: int)
    requires Runs(rs) && 0 <= k < l < |rs|
    ensures rs[k].1 as int + 1 < rs[l].0
    decreases l - k
  {
    if k + 1 < l {
      RunsSeparated(rs, k + 1, l);
      assert rs[k].1 as int + 1 < rs[k + 1].0;
    }
  }

  /** A code point lies in at most one run. */
  lemma RunsDisjoint(rs: seq<CodeRange>, c: int, k: int, l: int)
    requires Runs(rs) && 0 <= k < |rs| && 0 <= l < |rs|
    requires rs[k].0 <= c <= rs[k].1 && rs[l].0 <= c <= rs[l].1
    ensures k == l
  {
    if k < l {
      RunsSeparated(rs, k, l);
    } else if l < k {
      RunsSeparated(rs, l, k);
    }
  }

  /** getCodePointRanges over ascending keys: each key extends the last run
      when it directly follows that run's end, and opens a new run otherwise. */
  function RunsOf(ks: seq<Char>): (rs: seq<CodeRange>)
    requires StrictlyIncreasing(ks)
    ensures Runs(rs)
    ensures rs == [] <==> ks == []
    ensures ks != [] ==> rs[|rs| - 1].1 == ks[|ks| - 1] && rs[0].0 == ks[0]
    decreases |ks|
  {
    if ks == [] then []
    else
      var last := ks[|ks| - 1];
      var init := ks[..|ks| - 1];
      assert StrictlyIncreasing(init);
      var rs := RunsOf(init);
      if rs != [] && rs[|rs| - 1].1 as int + 1 == last then
        RunsExtend(rs, last);
        rs[..|rs| - 1] + [(rs[|rs| - 1].0, last)]
      else
        assert rs != [] ==> rs[|rs| - 1].1 == init[|init| - 1] < last;
        RunsAppend(rs, last);
        rs + [(last, last)]
  }

  /** One more key of a strictly increasing sequence either widens the last
      run of the shorter prefix or opens a run of its own. */
  lemma RunsOfPrefix(ks: seq<Char>, k: nat)
    requires StrictlyIncreasing(ks) && 0 < k < |ks|
    ensures StrictlyIncreasing(ks[..k]) && StrictlyIncreasing(ks[..k + 1])
    ensures var rs := RunsOf(ks[..k]);
            && rs != []
            && RunsOf(ks[..k + 1]) ==
                 if rs[|rs| - 1].1 as int + 1 == ks[k] then rs[..|rs| - 1] + [(rs[|rs| - 1].0, ks[k])]
                 else rs + [(ks[k], ks[k])]
  {
    assert ks[..k + 1][..k] == ks[..k];
  }

  /** getCodePointRanges's loop: one pass over ascending keys that widens
      the open run while the keys are consecutive and closes it otherwise. */
  method CollectRuns(ks: seq<Char>) returns (result: seq<CodeRange>)
    requires StrictlyIncreasing(ks)
    ensures result == RunsOf(ks)
  {
    result := [];
    if ks == [] {
      return;
    }
    var rangeBegin, rangeEnd := ks[0], ks[0];
    assert ks[..1] == [ks[0]];
    var k := 1;
    while k < |ks|
      invariant 1 <= k <= |ks|
      invariant StrictlyIncreasing(ks[..k])
      invariant result + [(rangeBegin, rangeEnd)] == RunsOf(ks[..k])
    {
      RunsOfPrefix(ks, k);
      if ks[k] as int == rangeEnd as int + 1 {
        rangeEnd := ks[k];
      } else {
        result := result + [(rangeBegin, rangeEnd)];
        rangeBegin, rangeEnd := ks[k], ks[k];
      }
      k := k + 1;
    }
    assert ks[..k] == ks;
    result := result + [(rangeBegin, rangeEnd)];
  }

  /** Widening the last run to a key right after it keeps the runs apart. */
  lemma RunsExtend(rs: seq<CodeRange>, last: Char)
    requires Runs(rs) && rs != [] && rs[|rs| - 1].1 as int + 1 == last
    ensures Runs(rs[..|rs| - 1] + [(rs[|rs| - 1].0, last)])
  {
    var r := rs[..|rs| - 1] + [(rs[|rs| - 1].0, last)];
    assert forall k :: 0 <= k < |rs| - 1 ==> r[k] == rs[k];
  }

  /** A key past the last run's end opens a run of its own. */
  lemma RunsAppend(rs: seq<CodeRange>, last: Char)
    requires Runs(rs) && (rs != [] ==> rs[|rs| - 1].1 as int + 1 < last)
    ensures Runs(rs + [(last, last)])
  {
    var r := rs + [(last, last)];
    assert forall k :: 0 <= k < |rs| ==> r[k] == rs[k];
  }

  /** The runs cover exactly the keys. */
  lemma {:induction false} RunsOfCovers(ks: seq<Char>, c: int)
    requires StrictlyIncreasing(ks)
    ensures InSomeRange(RunsOf(ks), c) <==> c in ks
    decreases |ks|
  {
    if ks != [] {
      var init := ks[..|ks| - 1];
      var last := ks[|ks| - 1];
      assert ks == init + [last];
      RunsOfCovers(init, c);
      RunsOfLast(ks, c);
    }
  }

  /** One step of the coverage induction: the runs of ks cover what the runs
      of ks without its last key cover, and that last key. */
  lemma RunsOfLast(ks: seq<Char>, c: int)
    requires StrictlyIncreasing(ks) && ks != []
    ensures InSomeRange(RunsOf(ks), c) <==> InSomeRange(RunsOf(ks[..|ks| - 1]), c) || c == ks[|ks| - 1]
  {
    var last := ks[|ks| - 1];
    var rs := RunsOf(ks[..|ks| - 1]);
    if rs != [] && rs[|rs| - 1].1 as int + 1 == last {
      ExtendLastRun(rs, last, c);
    } else {
      InSomeRangeAppend(rs, (last, last), c);
    }
  }

  /** Widening the last run by the code point just past it covers that
      code point in addition to what was covered before. */
  lemma ExtendLastRun(rs: seq<CodeRange>, last: Char, c: int)
    requires rs != [] && rs[|rs| - 1].0 <= rs[|rs| - 1].1 && rs[|rs| - 1].1 as int + 1 == last
    ensures InSomeRange(rs[..|rs| - 1] + [(rs[|rs| - 1].0, last)], c) <==> InSomeRange(rs, c) || c == last
  {
    var front := rs[..|rs| - 1];
    assert rs == front + [rs[|rs| - 1]];
    InSomeRangeAppend(front, rs[|rs| - 1], c);
    InSomeRangeAppend(front, (rs[|rs| - 1].0, last), c);
  }

  // ---------------------------------------------------------------------
  // The Codes block of the configuration
  // ---------------------------------------------------------------------

  /** The map after addCodePointRange for each inclusion, in order. */
  function AddRanges(m: CharMap, includes: seq<CodeRange>): CharMap
    decreases |includes|
  {
    if includes == [] then m
    else AddRanges(WithRange(m, includes[0].0, includes[0].1), includes[1..])
  }

  predicate RemovalsDefined(m: CharMap, excludes: seq<CodeRange>)
    decreases |excludes|
  {
    excludes == [] ||
    (RemoveRangeDefined(m, excludes[0].0, excludes[0].1) &&
     RemovalsDefined(WithoutRange(m, excludes[0].0, excludes[0].1), excludes[1..]))
  }

  /** The map after removeCodePointRange for each exclusion, in order. */
  function RemoveRanges(m: CharMap, excludes: seq<CodeRange>): CharMap
    decreases |excludes|
  {
    if excludes == [] then m
    else RemoveRanges(WithoutRange(m, excludes[0].0, excludes[0].1), excludes[1..])
  }

  /** The Codes policy: inclusions first; if the map is still empty, the whole
      Basic Multilingual Plane; then the exclusions. */
  function ApplyCodes(m: CharMap, includes: seq<CodeRange>, excludes: seq<CodeRange>): CharMap
  {
    var added := AddRanges(m, includes);
    var base := if |added| == 0 then WithRange(added, 0, 0xFFFF) else added;
    RemoveRanges(base, excludes)
  }

  /** After the inclusions, the keys are the old keys plus every included
      code point; old keys keep their glyph index and new ones get 0. */
  lemma {:induction false} AddRangesContents(m: CharMap, includes: seq<CodeRange>)
    ensures forall c :: c in AddRanges(m, includes) <==> c in m || InSomeRange(includes, c)
    ensures forall c :: c in m ==> AddRanges(m, includes)[c] == m[c]
    ensures forall c :: c in AddRanges(m, includes) && c !in m ==> AddRanges(m, includes)[c] == 0
    decreases |includes|
  {
    if includes != [] {
      var m1 := WithRange(m, includes[0].0, includes[0].1);
      var tail := includes[1..];
      AddRangesContents(m1, tail);
      forall c
        ensures c in AddRanges(m, includes) <==> c in m || InSomeRange(includes, c)
      {
        if InSomeRange(tail, c) {
          var k :| 0 <= k < |tail| && tail[k].0 <= c <= tail[k].1;
          assert includes[k + 1] == tail[k];
        }
        if InSomeRange(includes, c) {
          var k :| 0 <= k < |includes| && includes[k].0 <= c <= includes[k].1;
          if k > 0 {
            assert tail[k - 1] == includes[k];
          }
        }
      }
    }
  }

  /** After the exclusions, a key survives exactly when no exclusion range
      contains it, and survivors keep their glyph index. */
  lemma {:induction false} RemoveRangesContents(m: CharMap, excludes: seq<CodeRange>)
    ensures forall c :: c in RemoveRanges(m, excludes) <==> c in m && !InSomeRange(excludes, c)
    ensures forall c :: c in RemoveRanges(m, excludes) ==> RemoveRanges(m, excludes)[c] == m[c]
    decreases |excludes|
  {
    if excludes != [] {
      var m1 := WithoutRange(m, excludes[0].0, excludes[0].1);
      var tail := excludes[1..];
      RemoveRangesContents(m1, tail);
      forall c
        ensures c in RemoveRanges(m, excludes) <==> c in m && !InSomeRange(excludes, c)
      {
        if InSomeRange(tail, c) {
          var k :| 0 <= k < |tail| && tail[k].0 <= c <= tail[k].1;
          assert excludes[k + 1] == tail[k];
        }
        if InSomeRange(excludes, c) {
          var k :| 0 <= k < |excludes| && excludes[k].0 <= c <= excludes[k].1;
          if k > 0 {
            assert tail[k - 1] == excludes[k];
          }
        }
      }
    }
  }

  /** The Codes policy as a whole: a code point is a key afterwards exactly
      when it was a key or is included (or, when nothing at all was
      included, lies in the BMP) and no exclusion covers it. */
  lemma ApplyCodesContents(m: CharMap, includes: seq<CodeRange>, excludes: seq<CodeRange>, c: Char)
    ensures c in ApplyCodes(m, includes, excludes) <==>
              (|| c in m
               || InSomeRange(includes, c)
               || (|AddRanges(m, includes)| == 0 && c <= 0xFFFF))
              && !InSomeRange(excludes, c)
  {
    var added := AddRanges(m, includes);
    var base := if |added| == 0 then WithRange(added, 0, 0xFFFF) else added;
    AddRangesContents(m, includes);
    RemoveRangesContents(base, excludes);
  }

  /** With no inclusion and an empty map, the BMP minus the exclusions. */
  lemma DefaultIsBmp(excludes: seq<CodeRange>, c: Char)
    ensures c in ApplyCodes(map[], [], excludes) <==> c <= 0xFFFF && !InSomeRange(excludes, c)
  {
    ApplyCodesContents(map[], [], excludes, c);
    assert AddRanges(map[], []) == map[];
    assert !InSomeRange([], c);
  }
}
