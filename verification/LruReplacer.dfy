/** The replacer (src/buffer/lru_replacer.c): frames unpinned once and frames unpinned again, each list most
    recent first. */
module LruReplacer {
  import opened Wrappers

  type FrameId = nat

  datatype Entry = Entry(accessCount: nat, inHot: bool)

  ghost predicate Distinct(s: seq<FrameId>) {
    forall i, j {:trigger s[i], s[j]} :: 0 <= i < j < |s| ==> s[i] != s[j]
  }

  /** The list runs from the latest stamp to the earliest. */
  ghost predicate Latest(s: seq<FrameId>, stamps: map<FrameId, int>) {
    && (forall i {:trigger s[i]} :: 0 <= i < |s| ==> s[i] in stamps)
    && (forall i, j {:trigger s[i], s[j]} :: 0 <= i < j < |s| ==> stamps[s[i]] > stamps[s[j]])
  }

  ghost predicate Earliest(s: seq<FrameId>, stamps: map<FrameId, int>, f: FrameId) {
    && f in s && f in stamps
    && forall g {:trigger g in s} :: g in s ==> g in stamps && stamps[f] <= stamps[g]
  }

  function IndexOf(s: seq<FrameId>, f: FrameId): (i: nat)
    requires f in s
    ensures i < |s| && s[i] == f
  {
    if s[0] == f then 0 else 1 + IndexOf(s[1..], f)
  }

  /** list_remove_from for the node of one frame. */
  function Without(s: seq<FrameId>, f: FrameId): seq<FrameId>
    requires f in s
  {
    s[..IndexOf(s, f)] + s[IndexOf(s, f) + 1..]
  }

  lemma WithoutOk(s: seq<FrameId>, f: FrameId, stamps: map<FrameId, int>)
    requires f in s && Distinct(s) && Latest(s, stamps)
    ensures Distinct(Without(s, f)) && Latest(Without(s, f), stamps) && |Without(s, f)| == |s| - 1
    ensures forall g {:trigger g in Without(s, f)} {:trigger g in s} :: g in Without(s, f) <==> g in s && g != f
  {
    var k, r := IndexOf(s, f), Without(s, f);
    assert forall i {:trigger r[i]} :: 0 <= i < |r| ==> r[i] == s[if i < k then i else i + 1];
    forall g ensures g in r <==> g in s && g != f {
      if g in s && g != f {
        var i :| 0 <= i < |s| && s[i] == g;
        assert r[if i < k then i else i - 1] == g;
      }
    }
  }

  class LruReplacer {
    var cold: seq<FrameId>
    var hot: seq<FrameId>
    var frameMap: map<FrameId, Entry>
    var size: nat
    /** When a frame was last handed in; only to say what "least recent" means. */
    ghost var stamps: map<FrameId, int>
    ghost var clock: int

    ghost predicate Valid()
      reads this
    {
      && Distinct(cold) && Distinct(hot) && Latest(cold, stamps) && Latest(hot, stamps)
      && size == |cold| + |hot|
      && (forall f {:trigger f in cold} :: f in cold <==> f in frameMap && !frameMap[f].inHot)
      && (forall f {:trigger f in hot} :: f in hot <==> f in frameMap && frameMap[f].inHot)
      && (forall f {:trigger stamps[f]} :: f in stamps ==> stamps[f] <= clock)
      && (forall f {:trigger frameMap[f]} :: f in frameMap ==>
            if frameMap[f].inHot then frameMap[f].accessCount > 1 else frameMap[f].accessCount == 1)
    }

    constructor ()
      ensures Valid() && frameMap == map[] && cold == [] && hot == []
    {
      cold, hot, frameMap, size := [], [], map[], 0;
      stamps, clock := map[], 0;
    }

    /** lru_replacer_victim: the frame handed in longest ago among those of the cold list, or of the hot list
        if no frame is cold. */
    method Victim() returns (victim: Option<FrameId>)
      requires Valid()
      modifies this
      ensures Valid() && stamps == old(stamps) && clock == old(clock)
      ensures victim.None? <==> old(frameMap) == map[]
      ensures victim.None? ==> frameMap == old(frameMap) && cold == old(cold) && hot == old(hot)
      ensures victim.Some? ==>
                && victim.value in old(frameMap) && frameMap == old(frameMap) - {victim.value}
                && (old(cold) != [] ==> hot == old(hot) && cold + [victim.value] == old(cold))
                && (old(cold) == [] ==> cold == [] && hot + [victim.value] == old(hot))
                && Earliest(if old(cold) != [] then old(cold) else old(hot), stamps, victim.value)
    {
      var f;
      if cold != [] {
        f := cold[|cold| - 1];
        assert f in cold;
        LastIsEarliest(cold, stamps);
        PopBack(cold, stamps);
        cold := cold[..|cold| - 1];
      } else if hot != [] {
        f := hot[|hot| - 1];
        assert f in hot;
        LastIsEarliest(hot, stamps);
        PopBack(hot, stamps);
        hot := hot[..|hot| - 1];
      } else {
        forall g ensures g !in frameMap {
          assert g !in cold && g !in hot;
        }
        return None;
      }
      frameMap := frameMap - {f};
      size := size - 1;
      victim := Some(f);
    }

    /** lru_replacer_pin. */
    method Pin(f: FrameId)
      requires Valid()
      modifies this
      ensures Valid() && stamps == old(stamps) && clock == old(clock) && frameMap == old(frameMap) - {f}
      ensures old(hot) == [] ==> hot == []
    {
      if f !in frameMap {
        return;
      }
      if frameMap[f].inHot {
        WithoutOk(hot, f, stamps);
        hot := Without(hot, f);
      } else {
        WithoutOk(cold, f, stamps);
        cold := Without(cold, f);
      }
      frameMap := frameMap - {f};
      size := size - 1;
    }

    /** lru_replacer_unpin: a frame that is already there becomes hot. */
    method Unpin(f: FrameId)
      requires Valid()
      modifies this
      ensures Valid() && clock == old(clock) + 1 && stamps == old(stamps)[f := clock]
      ensures frameMap.Keys == old(frameMap).Keys + {f} && frameMap[f].inHot == (f in old(frameMap))
      ensures forall g {:trigger frameMap[g]} :: g in old(frameMap) && g != f ==> frameMap[g] == old(frameMap)[g]
      ensures f !in old(frameMap) && old(hot) == [] ==> hot == []
    {
      if f in frameMap {
        var count := frameMap[f].accessCount;
        Pin(f);
        Add(f, Entry(count + 1, true));
      } else {
        Add(f, Entry(1, false));
      }
    }

    /** A frame goes to the front of its list. */
    method Add(f: FrameId, entry: Entry)
      requires Valid() && f !in frameMap && (if entry.inHot then entry.accessCount > 1 else entry.accessCount == 1)
      modifies this
      ensures Valid() && clock == old(clock) + 1 && stamps == old(stamps)[f := clock]
      ensures frameMap == old(frameMap)[f := entry]
      ensures !entry.inHot ==> hot == old(hot)
    {
      clock, stamps := clock + 1, stamps[f := clock + 1];
      frameMap, size := frameMap[f := entry], size + 1;
      if entry.inHot {
        PushFront(hot, old(stamps), f, clock);
        OthersKeep(cold, old(stamps), f, clock);
        hot := [f] + hot;
      } else {
        PushFront(cold, old(stamps), f, clock);
        OthersKeep(hot, old(stamps), f, clock);
        cold := [f] + cold;
      }
    }
  }

  lemma LastIsEarliest(s: seq<FrameId>, stamps: map<FrameId, int>)
    requires s != [] && Latest(s, stamps)
    ensures Earliest(s, stamps, s[|s| - 1])
  {
  }

  lemma PopBack(s: seq<FrameId>, stamps: map<FrameId, int>)
    requires s != [] && Distinct(s) && Latest(s, stamps)
    ensures Distinct(s[..|s| - 1]) && Latest(s[..|s| - 1], stamps) && s[..|s| - 1] + [s[|s| - 1]] == s
    ensures forall g {:trigger g in s[..|s| - 1]} {:trigger g in s} :: g in s[..|s| - 1] <==> g in s && g != s[|s| - 1]
  {
    var r := s[..|s| - 1];
    assert r + [s[|s| - 1]] == s;
    forall g | g in s && g != s[|s| - 1] ensures g in r {
      var i :| 0 <= i < |s| && s[i] == g;
      assert r[i] == g;
    }
  }

  lemma PushFront(s: seq<FrameId>, stamps: map<FrameId, int>, f: FrameId, now: int)
    requires Distinct(s) && Latest(s, stamps) && f !in s && forall g {:trigger stamps[g]} :: g in stamps ==> stamps[g] < now
    ensures Distinct([f] + s) && Latest([f] + s, stamps[f := now])
  {
    var r, t := [f] + s, stamps[f := now];
    forall i, j | 0 <= i < j < |r| ensures r[i] != r[j] && r[j] in t && t[r[i]] > t[r[j]] {
      assert r[j] == s[j - 1] && (i > 0 ==> r[i] == s[i - 1]);
    }
  }

  lemma OthersKeep(s: seq<FrameId>, stamps: map<FrameId, int>, f: FrameId, now: int)
    requires Latest(s, stamps) && f !in s
    ensures Latest(s, stamps[f := now])
  {
  }
}
