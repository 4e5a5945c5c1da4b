/** Whole scans with an index iterator (src/index/index_iterator.c), and a tree that insertions and removals
    leave behind on which such a scan misses an entry. */
module IteratorScans {
  import opened BPlusTreeNode
  import opened BPlusTreeShape
  import opened BPlusTreeContents
  import opened BPlusTree
  import opened IndexIterator
  import opened Sets

  method Drain(it: IndexIterator) returns (entries: seq<Entry>)
    requires it.Valid()
    modifies it
    ensures entries == old(it.Remaining())
  {
    entries := [];
    ghost var left := it.Remaining();
    while true
      invariant it.Valid() && it.Remaining() == left && entries + left == old(it.Remaining())
      decreases |left|
    {
      var found, entry := it.Next();
      if !found {
        return;
      }
      entries := entries + [entry];
      left := left[1..];
    }
  }

  /** The drained iterator has listed the whole range exactly if no key of the range is out of its reach. */
  method AllEntries(tree: BPlusTree, start: Key, high: Key) returns (entries: seq<Entry>)
    requires tree.Valid() && KEY_MIN <= start < KEY_TOP
    ensures tree.Valid()
    ensures var reach := Reach(tree.root, tree.pages, tree.g, tree.contents, start);
            && Lists(entries, tree.contents, start, Min(high, reach - 1))
            && (Lists(entries, tree.contents, start, high) <==>
                  forall k | k in tree.contents && start <= k <= high :: k < reach)
  {
    var it := new IndexIterator(tree, start, high);
    entries := Drain(it);
    CompleteIff(entries, tree.contents, start, high, Reach(tree.root, tree.pages, tree.g, tree.contents, start));
  }

  // ---------------------------------------------------------------------------------------------
  // An empty leaf between two others

  /** One key more than two leaves hold. */
  const LAST: int := 2 * LEAF_MAX_KEYS

  lemma KeySetSize(keys: seq<Key>)
    ensures |set k | k in keys| <= |keys|
    decreases |keys|
  {
    if keys != [] {
      var front := keys[..|keys| - 1];
      KeySetSize(front);
      assert (set k | k in keys) == (set k | k in front) + {keys[|keys| - 1]};
    }
  }

  /** Two leaves are too small for the keys up to LAST. */
  lemma KeyElsewhere(a: seq<Key>, b: seq<Key>) returns (m: Key)
    requires |a| <= LEAF_MAX_KEYS && |b| <= LEAF_MAX_KEYS
    ensures 0 <= m <= LAST && m !in a && m !in b
  {
    KeySetSize(a);
    KeySetSize(b);
    var held := (set k | k in a) + (set k | k in b);
    var all := seq(LAST + 1, i => i);
    if forall k | k in all :: k in held {
      DistinctSize(all, held);
    }
    m :| m in all && m !in held;
  }

  lemma SomeKey(keys: seq<Key>) returns (k: Key)
    requires keys != []
    ensures k in keys
  {
    k := keys[0];
  }

  ghost predicate OwnsIn(g: Fences, leaf: PageId, key: Key) {
    leaf in g && g[leaf].height == 0 && g[leaf].lo <= key < g[leaf].hi
  }

  /** Three leaves: of key 0, of LAST, and of a key between them. */
  ghost predicate ThreeLeaves(g: Fences, a: PageId, b: PageId, z: PageId, m: Key) {
    && OwnsIn(g, a, 0) && OwnsIn(g, b, m) && OwnsIn(g, z, LAST)
    && a != b && b != z && a != z && 0 < m < LAST
  }

  lemma LeafIsLow(root: PageId, pages: Pages, g: Fences, leaf: PageId)
    requires WellFormed(root, pages, g) && leaf in pages
    ensures pages[leaf].Leaf? <==> g[leaf].height == 0
  {
    assert PageOk(Settled(root, pages, g), leaf);
  }

  lemma FullTree(root: PageId, pages: Pages, g: Fences, contents: map<Key, Rid>)
    returns (a: PageId, b: PageId, z: PageId, m: Key)
    requires WellFormed(root, pages, g) && Stores(pages, g, contents)
    requires forall k: int :: k in contents <==> 0 <= k <= LAST
    ensures ThreeLeaves(g, a, b, z, m)
  {
    var t := Settled(root, pages, g);
    a, z := Owner(root, pages, g, 0), Owner(root, pages, g, LAST);
    assert PageOk(t, a) && PageOk(t, z);
    assert LeafStores(pages[a], g[a], contents) && LeafStores(pages[z], g[z], contents);
    m := KeyElsewhere(pages[a].keys, pages[z].keys);
    b := Owner(root, pages, g, m);
    assert PageOk(t, b);
    assert LeafStores(pages[b], g[b], contents);
    assert m in pages[b].keys && 0 in pages[a].keys && LAST in pages[z].keys;
  }

  /** With every key between gone, an iterator that starts in the first of the leaves does not get to the last. */
  lemma OutOfReach(root: PageId, pages: Pages, g: Fences, contents: map<Key, Rid>, a: PageId, b: PageId, z: PageId, m: Key)
    requires WellFormed(root, pages, g) && Stores(pages, g, contents)
    requires forall k: int :: k in contents <==> k == 0 || k == LAST
    requires ThreeLeaves(g, a, b, z, m)
    ensures 0 < Reach(root, pages, g, contents, 0) <= LAST
  {
    var t := Settled(root, pages, g);
    LeafIsLow(root, pages, g, a);
    SameOwner(root, pages, g, contents, 0, a);
    var chain := ScanChain(root, pages, g, contents, 0);
    assert FenceOk(pages, g, contents, chain, 0);
    assert 0 in pages[a].keys && HasEntryFrom(pages[a], 0);
    assert PageOk(t, b) && PageOk(t, z) && PageOk(t, a);
    assert g[a].hi <= m by {
      if g[a].hi > m { DisjointPages(t, a, b, m); }
    }
    if |chain| == 1 {
      DisjointPages(t, a, z, LAST);
    } else {
      var n := chain[1];
      assert FenceOk(pages, g, contents, chain, 1);
      LeafIsLow(root, pages, g, n);
      HorizonBounds(pages, g, contents, chain);
      if pages[n].keys != [] {
        var k := SomeKey(pages[n].keys);
        assert k in contents;
        if k == 0 { DisjointPages(t, a, n, 0); } else { NotNext(t, n, b, z, m); }
      }
    }
  }

  /** A leaf whose interval starts at or before m does not own LAST. */
  lemma NotNext(t: Tree, n: PageId, b: PageId, z: PageId, m: Key)
    requires Shaped(t) && t.w.NoSplit? && n in t.pages && b in t.pages && z in t.pages
    requires OwnsIn(t.g, b, m) && OwnsIn(t.g, z, LAST) && b != z && 0 < m < LAST
    requires t.g[n].height == 0 && t.g[n].lo <= m
    ensures LAST >= t.g[n].hi
  {
    if LAST < t.g[n].hi {
      DisjointPages(t, n, z, LAST);
      DisjointPages(t, n, b, m);
    }
  }

  lemma SecondEntry(entries: seq<Entry>, contents: map<Key, Rid>, low: int, high: int)
    requires Lists(entries, contents, low, high) && |entries| > 1
    ensures low < entries[1].key <= high && entries[1].key in contents
  {
    assert low <= entries[0].key;
  }

  lemma OnlyFirst(entries: seq<Entry>, contents: map<Key, Rid>, top: int)
    requires Lists(entries, contents, 0, top) && 0 <= top < LAST
    requires forall k: int :: k in contents <==> k == 0 || k == LAST
    ensures |entries| == 1 && entries[0].key == 0 && !Lists(entries, contents, 0, LAST)
  {
    assert 0 in contents && LAST in contents;
    assert Listed(entries, 0);
    if |entries| > 1 {
      SecondEntry(entries, contents, 0, top);
    }
    assert !Listed(entries, LAST);
  }

  /** LAST + 1 keys are inserted and all but the first and the last removed again; then the iterator over all
      keys finds only the first, although both are in the tree. */
  method MissedEntry() returns (tree: BPlusTree, entries: seq<Entry>)
    ensures fresh(tree) && tree.Valid() && forall k: int :: k in tree.contents <==> k == 0 || k == LAST
    ensures |entries| == 1 && entries[0].key == 0 && !Lists(entries, tree.contents, 0, LAST)
  {
    tree := new BPlusTree(true);
    for i := 0 to LAST + 1
      invariant fresh(tree) && tree.Valid() && forall k: int :: k in tree.contents <==> 0 <= k < i
    {
      var code := tree.Insert(i, Rid(0, 0));
    }
    ghost var root, g := tree.root, tree.g;
    ghost var a, b, z, m := FullTree(root, tree.pages, g, tree.contents);
    for i := 1 to LAST
      invariant fresh(tree) && tree.Valid() && tree.root == root && tree.g == g
      invariant forall k: int :: k in tree.contents <==> k == 0 || i <= k <= LAST
    {
      var code := tree.Remove(i);
    }
    OutOfReach(root, tree.pages, g, tree.contents, a, b, z, m);
    entries := AllEntries(tree, 0, LAST);
    OnlyFirst(entries, tree.contents, Min(LAST, Reach(tree.root, tree.pages, g, tree.contents, 0) - 1));
  }
}
