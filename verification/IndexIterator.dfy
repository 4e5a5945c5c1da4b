/** Range scans by iterator (src/index/index_iterator.c).

    The iterator follows the leaf chain one leaf at a time and ends when the leaf it moves to is empty.
    Leaves become empty through removals, so a scan can end early; this module says exactly where. */
module IndexIterator {
  import opened BPlusTreeNode
  import opened BPlusTreeShape
  import opened BPlusTreeContents
  import opened BPlusTree

  datatype Entry = Entry(key: Key, rid: Rid)

  ghost predicate LinkOk(pages: Pages, chain: seq<PageId>, i: nat)
    requires i < |chain|
  {
    && chain[i] in pages && pages[chain[i]].Leaf? && |pages[chain[i]].rids| == |pages[chain[i]].keys|
    && chain[i] != INVALID_PAGE_ID
    && pages[chain[i]].next == if i + 1 < |chain| then chain[i + 1] else INVALID_PAGE_ID
  }

  /** The leaves met by following next pointers from `chain[0]` to the end. */
  ghost predicate IsChain(pages: Pages, chain: seq<PageId>) {
    chain != [] && forall i: nat {:trigger LinkOk(pages, chain, i)} | i < |chain| :: LinkOk(pages, chain, i)
  }

  ghost predicate FenceOk(pages: Pages, g: Fences, contents: map<Key, Rid>, chain: seq<PageId>, i: nat)
    requires pages.Keys == g.Keys && i < |chain| && IsChain(pages, chain)
  {
    && LinkOk(pages, chain, i)
    && NodeOk(pages[chain[i]], g[chain[i]])
    && LeafStores(pages[chain[i]], g[chain[i]], contents)
    && (if i + 1 < |chain| then LinkOk(pages, chain, i + 1) && g[chain[i]].hi == g[chain[i + 1]].lo
        else g[chain[i]].hi == KEY_TOP)
  }

  /** The chain lists all leaves from `chain[0]` on in key order: their fences are adjacent and reach the
      end of the key range. */
  ghost predicate Adjacent(pages: Pages, g: Fences, contents: map<Key, Rid>, chain: seq<PageId>)
    requires pages.Keys == g.Keys
  {
    && IsChain(pages, chain)
    && (forall i: nat {:trigger FenceOk(pages, g, contents, chain, i)} | i < |chain| ::
          FenceOk(pages, g, contents, chain, i))
  }

  lemma {:induction false} ChainFrom(t: Tree, contents: map<Key, Rid>, leaf: PageId) returns (chain: seq<PageId>)
    requires Shaped(t) && t.w.NoSplit? && Stores(t.pages, t.g, contents)
    requires leaf in t.pages && t.pages[leaf].Leaf?
    ensures Adjacent(t.pages, t.g, contents, chain) && chain[0] == leaf
    decreases KEY_TOP - t.g[leaf].lo
  {
    assert PageOk(t, leaf);
    assert LeafStores(t.pages[leaf], t.g[leaf], contents);
    var next := t.pages[leaf].next;
    if next == INVALID_PAGE_ID {
      chain := [leaf];
    } else {
      assert PageOk(t, next);
      var rest := ChainFrom(t, contents, next);
      chain := [leaf] + rest;
      assert LinkOk(t.pages, rest, 0);
      forall i: nat | i < |chain|
        ensures LinkOk(t.pages, chain, i)
      {
        if i > 0 { assert LinkOk(t.pages, rest, i - 1); }
      }
      forall i: nat | i < |chain|
        ensures FenceOk(t.pages, t.g, contents, chain, i)
      {
        if i > 0 { assert FenceOk(t.pages, t.g, contents, rest, i - 1); }
      }
    }
  }

  /** The entries an iterator standing before entry `index` of `chain[0]` still returns. */
  ghost function Rest(pages: Pages, chain: seq<PageId>, index: nat, high: int): seq<Entry>
    requires IsChain(pages, chain) && LinkOk(pages, chain, 0) && index <= |pages[chain[0]].keys|
    decreases |chain|, |pages[chain[0]].keys| - index
  {
    var n := pages[chain[0]];
    if index < |n.keys| then
      if n.keys[index] > high then []
      else [Entry(n.keys[index], n.rids[index])] + Rest(pages, chain, index + 1, high)
    else if |chain| == 1 then []
    else
      var r := Behind(pages, chain);
      if |pages[r[0]].keys| == 0 then [] else Rest(pages, r, 0, high)
  }

  ghost function Behind(pages: Pages, chain: seq<PageId>): (r: seq<PageId>)
    requires IsChain(pages, chain) && |chain| > 1
    ensures IsChain(pages, r) && |r| == |chain| - 1 && r[0] == chain[1] && LinkOk(pages, r, 0)
  {
    assert forall i: nat | i < |chain| - 1 :: LinkOk(pages, chain, i + 1) ==> LinkOk(pages, chain[1..], i);
    assert LinkOk(pages, chain, 1);
    chain[1..]
  }

  /** The first key that belongs to an empty leaf behind `chain[0]`, or KEY_TOP. */
  ghost function Horizon(pages: Pages, g: Fences, chain: seq<PageId>): int
    requires IsChain(pages, chain) && pages.Keys == g.Keys
    decreases |chain|
  {
    if |chain| == 1 then KEY_TOP
    else
      var r := Behind(pages, chain);
      if |pages[r[0]].keys| == 0 then g[r[0]].lo else Horizon(pages, g, r)
  }

  lemma {:induction false} HorizonBounds(pages: Pages, g: Fences, contents: map<Key, Rid>, chain: seq<PageId>)
    requires pages.Keys == g.Keys && Adjacent(pages, g, contents, chain)
    ensures LinkOk(pages, chain, 0) && g[chain[0]].hi <= Horizon(pages, g, chain) <= KEY_TOP
    decreases |chain|
  {
    assert FenceOk(pages, g, contents, chain, 0);
    if |chain| > 1 {
      assert FenceOk(pages, g, contents, chain, 1);
      BehindAdjacent(pages, g, contents, chain);
      HorizonBounds(pages, g, contents, Behind(pages, chain));
    }
  }

  lemma BehindAdjacent(pages: Pages, g: Fences, contents: map<Key, Rid>, chain: seq<PageId>)
    requires pages.Keys == g.Keys && Adjacent(pages, g, contents, chain) && |chain| > 1
    ensures Adjacent(pages, g, contents, Behind(pages, chain))
  {
    var r := Behind(pages, chain);
    forall i: nat | i < |r|
      ensures FenceOk(pages, g, contents, r, i)
    {
      assert FenceOk(pages, g, contents, chain, i + 1);
      assert LinkOk(pages, r, i);
      if i + 1 < |r| { assert LinkOk(pages, r, i + 1); }
    }
  }

  /** `entries` lists the entries of `contents` with keys in `[low, high]` in ascending order. */
  ghost predicate Lists(entries: seq<Entry>, contents: map<Key, Rid>, low: int, high: int) {
    && (forall i, j | 0 <= i < j < |entries| :: entries[i].key < entries[j].key)
    && (forall i | 0 <= i < |entries| ::
          low <= entries[i].key <= high && entries[i].key in contents && contents[entries[i].key] == entries[i].rid)
    && (forall k | k in contents && low <= k <= high :: Listed(entries, k))
  }

  ghost predicate Listed(entries: seq<Entry>, key: Key) {
    exists i :: 0 <= i < |entries| && entries[i].key == key
  }

  function Min(a: int, b: int): int { if a < b then a else b }

  /** What an iterator returns: the entries from its position up to `high`, but none at or behind the
      first empty leaf it would have to step into. */
  lemma {:induction false} RestLists(pages: Pages, g: Fences, contents: map<Key, Rid>,
                                     chain: seq<PageId>, index: nat, low: int, high: int)
    requires pages.Keys == g.Keys && Adjacent(pages, g, contents, chain)
    requires LinkOk(pages, chain, 0) && index <= |pages[chain[0]].keys| && g[chain[0]].lo <= low <= g[chain[0]].hi
    requires forall i | 0 <= i < |pages[chain[0]].keys| :: i < index <==> pages[chain[0]].keys[i] < low
    ensures Lists(Rest(pages, chain, index, high), contents, low, Min(high, Horizon(pages, g, chain) - 1))
    decreases |chain|, |pages[chain[0]].keys| - index, 1
  {
    var n := pages[chain[0]];
    assert FenceOk(pages, g, contents, chain, 0);
    HorizonBounds(pages, g, contents, chain);
    GapBefore(n, g[chain[0]], contents, index, low);
    if index < |n.keys| {
      if n.keys[index] <= high {
        RestLists(pages, g, contents, chain, index + 1, n.keys[index] + 1, high);
        var top := Min(high, Horizon(pages, g, chain) - 1);
        PrependListed(Entry(n.keys[index], n.rids[index]), Rest(pages, chain, index + 1, high), contents, low, top);
      }
    } else {
      RestListsAcross(pages, g, contents, chain, low, high);
    }
  }

  /** The step from a used-up leaf to the next one. */
  lemma RestListsAcross(pages: Pages, g: Fences, contents: map<Key, Rid>, chain: seq<PageId>, low: int, high: int)
    requires pages.Keys == g.Keys && Adjacent(pages, g, contents, chain) && LinkOk(pages, chain, 0)
    requires forall k | k in contents && low <= k < g[chain[0]].hi :: false
    requires low <= g[chain[0]].hi
    ensures Lists(Rest(pages, chain, |pages[chain[0]].keys|, high), contents, low, Min(high, Horizon(pages, g, chain) - 1))
    decreases |chain|, 0, 0
  {
    assert FenceOk(pages, g, contents, chain, 0);
    if |chain| > 1 {
      var r := Behind(pages, chain);
      BehindAdjacent(pages, g, contents, chain);
      assert g[r[0]].lo == g[chain[0]].hi;
      if |pages[r[0]].keys| != 0 {
        assert FenceOk(pages, g, contents, r, 0);
        RestLists(pages, g, contents, r, 0, g[r[0]].lo, high);
        WidenLists(Rest(pages, r, 0, high), contents, low, g[r[0]].lo, Min(high, Horizon(pages, g, r) - 1));
      }
    }
  }

  /** Between `low` and the next entry of a leaf the map has no key. */
  lemma GapBefore(n: Node, f: Fence, contents: map<Key, Rid>, index: nat, low: int)
    requires n.Leaf? && NodeOk(n, f) && LeafStores(n, f, contents)
    requires index <= |n.keys| && f.lo <= low <= f.hi
    requires forall i | 0 <= i < |n.keys| :: i < index <==> n.keys[i] < low
    ensures forall k | k in contents && low <= k < (if index < |n.keys| then n.keys[index] else f.hi) :: false
  {
  }

  lemma WidenLists(entries: seq<Entry>, contents: map<Key, Rid>, low: int, from: int, high: int)
    requires Lists(entries, contents, from, high) && low <= from
    requires forall k | k in contents && low <= k < from :: false
    ensures Lists(entries, contents, low, high)
  {
  }

  lemma PrependListed(e: Entry, tail: seq<Entry>, contents: map<Key, Rid>, low: int, high: int)
    requires Lists(tail, contents, e.key + 1, high)
    requires low <= e.key <= high && e.key in contents && contents[e.key] == e.rid
    requires forall k | k in contents && low <= k < e.key :: false
    ensures Lists([e] + tail, contents, low, high)
  {
    var entries := [e] + tail;
    forall k | k in contents && low <= k <= high
      ensures Listed(entries, k)
    {
      if k == e.key {
        assert entries[0].key == k;
      } else {
        var i := IndexOf(tail, k);
        assert entries[i + 1].key == k;
      }
    }
  }

  lemma IndexOf(a: seq<Entry>, key: Key) returns (i: nat)
    requires Listed(a, key)
    ensures i < |a| && a[i].key == key
  {
    i :| i < |a| && a[i].key == key;
  }

  /** The leaf that owns `key`. */
  ghost function Owner(root: PageId, pages: Pages, g: Fences, key: Key): (leaf: PageId)
    requires WellFormed(root, pages, g) && KEY_MIN <= key < KEY_TOP
    ensures leaf in pages && pages[leaf].Leaf? && g[leaf].lo <= key < g[leaf].hi
  {
    OwnerExists(root, pages, g, key);
    var leaf :| leaf in pages && pages[leaf].Leaf? && g[leaf].lo <= key < g[leaf].hi;
    leaf
  }

  lemma OwnerExists(root: PageId, pages: Pages, g: Fences, key: Key)
    requires WellFormed(root, pages, g) && KEY_MIN <= key < KEY_TOP
    ensures exists leaf :: leaf in pages && pages[leaf].Leaf? && g[leaf].lo <= key < g[leaf].hi
  {
    var leaf := OwningLeaf(Settled(root, pages, g), root, key);
  }

  /** The leaves from the owner of `start` on. */
  ghost function ScanChain(root: PageId, pages: Pages, g: Fences, contents: map<Key, Rid>, start: Key): (chain: seq<PageId>)
    requires WellFormed(root, pages, g) && Stores(pages, g, contents) && KEY_MIN <= start < KEY_TOP
    ensures Adjacent(pages, g, contents, chain) && LinkOk(pages, chain, 0)
    ensures chain[0] == Owner(root, pages, g, start)
  {
    var leaf := Owner(root, pages, g, start);
    ChainExists(root, pages, g, contents, leaf);
    var chain :| Adjacent(pages, g, contents, chain) && chain[0] == leaf;
    assert FenceOk(pages, g, contents, chain, 0);
    chain
  }

  lemma ChainExists(root: PageId, pages: Pages, g: Fences, contents: map<Key, Rid>, leaf: PageId)
    requires WellFormed(root, pages, g) && Stores(pages, g, contents)
    requires leaf in pages && pages[leaf].Leaf?
    ensures exists chain :: Adjacent(pages, g, contents, chain) && chain[0] == leaf
  {
    var chain := ChainFrom(Settled(root, pages, g), contents, leaf);
  }

  ghost predicate HasEntryFrom(n: Node, start: Key) {
    n.keys != [] && start <= n.keys[|n.keys| - 1]
  }

  /** The first key out of reach of an iterator started at `start`.  The iterator starts in the leaf that
      owns `start`, or in the next one, empty or not, if the owner has no entry from `start` on; from
      there it cannot step into an empty leaf. */
  ghost function Reach(root: PageId, pages: Pages, g: Fences, contents: map<Key, Rid>, start: Key): int
    requires WellFormed(root, pages, g) && Stores(pages, g, contents) && KEY_MIN <= start < KEY_TOP
  {
    var chain := ScanChain(root, pages, g, contents, start);
    if HasEntryFrom(pages[chain[0]], start) then Horizon(pages, g, chain)
    else if |chain| == 1 then KEY_TOP
    else Horizon(pages, g, Behind(pages, chain))
  }

  /** Exactly when an iterator misses nothing: no key of the range lies behind the empty leaf it stops at. */
  lemma CompleteIff(entries: seq<Entry>, contents: map<Key, Rid>, start: Key, high: Key, reach: int)
    requires Lists(entries, contents, start, Min(high, reach - 1))
    ensures Lists(entries, contents, start, high) <==> forall k | k in contents && start <= k <= high :: k < reach
  {
    if Lists(entries, contents, start, high) {
      forall k | k in contents && start <= k <= high
        ensures k < reach
      {
        assert Listed(entries, k);
      }
    }
  }

  /** With no empty leaf nothing is out of reach. */
  lemma {:induction false} HorizonWithoutEmptyLeaves(pages: Pages, g: Fences, chain: seq<PageId>)
    requires IsChain(pages, chain) && pages.Keys == g.Keys
    requires forall p | p in pages && pages[p].Leaf? :: pages[p].keys != []
    ensures Horizon(pages, g, chain) == KEY_TOP
    decreases |chain|
  {
    if |chain| > 1 {
      HorizonWithoutEmptyLeaves(pages, g, Behind(pages, chain));
    }
  }

  lemma ReachWithoutEmptyLeaves(root: PageId, pages: Pages, g: Fences, contents: map<Key, Rid>, start: Key)
    requires WellFormed(root, pages, g) && Stores(pages, g, contents) && KEY_MIN <= start < KEY_TOP
    requires forall p | p in pages && pages[p].Leaf? :: pages[p].keys != []
    ensures Reach(root, pages, g, contents, start) == KEY_TOP
  {
    var chain := ScanChain(root, pages, g, contents, start);
    HorizonWithoutEmptyLeaves(pages, g, chain);
    if |chain| > 1 {
      HorizonWithoutEmptyLeaves(pages, g, Behind(pages, chain));
    }
  }

  function RidsOf(entries: seq<Entry>): (r: seq<Rid>)
    ensures |r| == |entries| && forall i | 0 <= i < |r| :: r[i] == entries[i].rid
  {
    seq(|entries|, i requires 0 <= i < |entries| => entries[i].rid)
  }

  /** A complete iterator returns what bpt_find_range collects. */
  lemma SameAsFindRange(entries: seq<Entry>, contents: map<Key, Rid>, low: Key, high: Key, rids: seq<Rid>)
    requires Lists(entries, contents, low, high) && RangeResult(contents, low, high, rids)
    ensures RidsOf(entries) == rids
  {
    var ks: seq<Key> := seq(|entries|, i requires 0 <= i < |entries| => entries[i].key);
    forall k
      ensures k in ks <==> k in RangeKeys(contents, low, high)
    {
      if k in contents && low <= k <= high {
        var i := IndexOf(entries, k);
        assert ks[i] == k;
      }
    }
    var ks' :| RangeWitness(contents, low, high, rids, ks');
    SortedKeysUnique(ks, ks', RangeKeys(contents, low, high));
  }

  class IndexIterator {
    const tree: BPlusTree
    const highKey: Key
    var currentPage: PageId
    var currentIndex: nat
    var exhausted: bool

    ghost var chain: seq<PageId>

    ghost predicate Valid()
      reads this, tree
    {
      !exhausted ==>
        && IsChain(tree.pages, chain) && LinkOk(tree.pages, chain, 0) && chain[0] == currentPage
        && currentIndex <= |tree.pages[currentPage].keys|
    }

    /** The entries still to come. */
    ghost function Remaining(): seq<Entry>
      requires Valid()
      reads this, tree
    {
      if exhausted then [] else Rest(tree.pages, chain, currentIndex, highKey)
    }

    /** index_iterator_init: starts at the first entry not below `start` in the leaf that owns it, or
        at the next leaf if there is none. */
    constructor (tree: BPlusTree, start: Key, high: Key)
      requires tree.Valid() && KEY_MIN <= start < KEY_TOP
      ensures Valid() && this.tree == tree && highKey == high
      ensures Lists(Remaining(), tree.contents, start,
                    Min(high, Reach(tree.root, tree.pages, tree.g, tree.contents, start) - 1))
    {
      this.tree := tree;
      highKey := high;
      exhausted := false;
      var leaf, path := tree.FindLeaf(start);
      ghost var c := ScanChain(tree.root, tree.pages, tree.g, tree.contents, start);
      SameOwner(tree.root, tree.pages, tree.g, tree.contents, start, leaf);
      var n := tree.pages[leaf];
      var pos := LeafFindPosition(n.keys, start);
      if pos >= |n.keys| {
        if n.next == INVALID_PAGE_ID {
          exhausted := true;
          currentPage := INVALID_PAGE_ID;
        } else {
          currentPage := n.next;
          c := Behind(tree.pages, c);
        }
        currentIndex := 0;
      } else {
        currentPage := leaf;
        currentIndex := pos;
      }
      chain := c;
      new;
      InitLists(tree.root, tree.pages, tree.g, tree.contents, start, high, pos);
    }

    /** index_iterator_next: the next entry, or nothing once the entries to come are used up. */
    method Next() returns (found: bool, entry: Entry)
      requires Valid()
      modifies this
      ensures Valid()
      ensures found ==> old(Remaining()) == [entry] + Remaining()
      ensures !found ==> old(Remaining()) == [] && exhausted
    {
      entry := Entry(0, Rid(INVALID_PAGE_ID, -1));
      if exhausted {
        return false, entry;
      }
      ghost var before := Remaining();
      if currentIndex >= |tree.pages[currentPage].keys| {
        var next := tree.pages[currentPage].next;
        if next == INVALID_PAGE_ID {
          exhausted := true;
          currentPage := INVALID_PAGE_ID;
          return false, entry;
        }
        chain := Behind(tree.pages, chain);
        currentPage := next;
        currentIndex := 0;
      }
      var n := tree.pages[currentPage];
      assert before == if currentIndex < |n.keys| then Rest(tree.pages, chain, currentIndex, highKey) else [];
      if currentIndex >= |n.keys| {
        exhausted := true;
        return false, entry;
      }
      if n.keys[currentIndex] > highKey {
        exhausted := true;
        return false, entry;
      }
      entry := Entry(n.keys[currentIndex], n.rids[currentIndex]);
      currentIndex := currentIndex + 1;
      return true, entry;
    }
  }

  /** The leaf found by a descent is the first of the chain to scan. */
  lemma SameOwner(root: PageId, pages: Pages, g: Fences, contents: map<Key, Rid>, start: Key, leaf: PageId)
    requires WellFormed(root, pages, g) && Stores(pages, g, contents) && KEY_MIN <= start < KEY_TOP
    requires leaf in pages && pages[leaf].Leaf? && g[leaf].lo <= start < g[leaf].hi
    ensures ScanChain(root, pages, g, contents, start)[0] == leaf
    ensures NodeOk(pages[leaf], g[leaf])
  {
    var t := Settled(root, pages, g);
    var owner := Owner(root, pages, g, start);
    assert PageOk(t, leaf) && PageOk(t, owner);
    DisjointPages(t, leaf, owner, start);
  }

  lemma InitLists(root: PageId, pages: Pages, g: Fences, contents: map<Key, Rid>, start: Key, high: Key, pos: nat)
    requires WellFormed(root, pages, g) && Stores(pages, g, contents) && KEY_MIN <= start < KEY_TOP
    requires var keys := pages[ScanChain(root, pages, g, contents, start)[0]].keys;
             pos <= |keys| && forall i | 0 <= i < |keys| :: i < pos <==> keys[i] < start
    ensures var chain := ScanChain(root, pages, g, contents, start);
            var top := Min(high, Reach(root, pages, g, contents, start) - 1);
            if pos < |pages[chain[0]].keys| then Lists(Rest(pages, chain, pos, high), contents, start, top)
            else if |chain| == 1 then Lists([], contents, start, top)
            else Lists(Rest(pages, Behind(pages, chain), 0, high), contents, start, top)
  {
    var chain := ScanChain(root, pages, g, contents, start);
    var n := pages[chain[0]];
    assert FenceOk(pages, g, contents, chain, 0);
    GapBefore(n, g[chain[0]], contents, pos, start);
    if pos < |n.keys| {
      assert HasEntryFrom(n, start);
      RestLists(pages, g, contents, chain, pos, start, high);
    } else if |chain| > 1 {
      var r := Behind(pages, chain);
      BehindAdjacent(pages, g, contents, chain);
      assert FenceOk(pages, g, contents, r, 0);
      RestLists(pages, g, contents, r, 0, g[r[0]].lo, high);
      WidenLists(Rest(pages, r, 0, high), contents, start, g[r[0]].lo, Min(high, Horizon(pages, g, r) - 1));
    }
  }
}
