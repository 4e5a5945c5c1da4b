/** What a well-formed B+ tree stores, and facts about whole trees that follow from the local shape
    invariant: descents, disjoint leaves, equal depth, fan-out. */
module BPlusTreeContents {
  import opened BPlusTreeNode
  import opened BPlusTreeShape

  /** `path` records the descent from the root to `target`. */
  ghost predicate PathTo(t: Tree, path: seq<PathEntry>, target: PageId)
    requires Closed(t)
  {
    && target in t.pages
    && (if path == [] then target == t.root else path[0].page == t.root)
    && forall j {:trigger StepOk(t, path, target, j)} | 0 <= j < |path| :: StepOk(t, path, target, j)
  }

  ghost predicate StepOk(t: Tree, path: seq<PathEntry>, target: PageId, j: int)
    requires Closed(t) && target in t.pages && 0 <= j < |path|
  {
    var p := path[j].page;
    && p in t.pages && t.pages[p].Internal?
    && path[j].childIndex < |t.pages[p].children|
    && t.pages[p].children[path[j].childIndex] == (if j + 1 < |path| then path[j + 1].page else target)
    && t.g[p].height == t.g[target].height + |path| - j
  }

  /** In the interval of a leaf the keys of the map are the keys of the leaf. */
  ghost predicate LeafStores(n: Node, f: Fence, contents: map<Key, Rid>)
    requires n.Leaf?
  {
    && |n.rids| == |n.keys|
    && (forall k | f.lo <= k < f.hi :: k in contents <==> k in n.keys)
    && (forall i | 0 <= i < |n.keys| :: n.keys[i] in contents && contents[n.keys[i]] == n.rids[i])
  }

  /** The leaves store exactly `contents`. */
  ghost predicate Stores(pages: Pages, g: Fences, contents: map<Key, Rid>)
    requires pages.Keys == g.Keys
  {
    && (forall k | k in contents :: KEY_MIN <= k < KEY_TOP)
    && (forall p {:trigger LeafStores(pages[p], g[p], contents)} | p in pages && pages[p].Leaf? ::
          LeafStores(pages[p], g[p], contents))
  }

  /** Two page maps with the same leaves under the same key intervals. */
  ghost predicate SameLeaves(pages: Pages, g: Fences, pages': Pages, g': Fences)
    requires pages.Keys == g.Keys && pages'.Keys == g'.Keys
  {
    && (forall p | p in pages && pages[p].Leaf? :: p in pages')
    && (forall p | p in pages' && pages'[p].Leaf? ::
          p in pages && pages[p] == pages'[p] && g[p].lo == g'[p].lo && g[p].hi == g'[p].hi)
  }

  lemma SameLeavesStore(pages: Pages, g: Fences, pages': Pages, g': Fences, contents: map<Key, Rid>)
    requires pages.Keys == g.Keys && pages'.Keys == g'.Keys
    requires Stores(pages, g, contents) && SameLeaves(pages, g, pages', g')
    ensures Stores(pages', g', contents)
  {
    forall p | p in pages' && pages'[p].Leaf?
      ensures LeafStores(pages'[p], g'[p], contents)
    {
      assert LeafStores(pages[p], g[p], contents);
    }
  }

  // ---------------------------------------------------------------------------------------------
  // Facts about whole trees

  lemma SlotsOrdered(keys: seq<Key>, i: nat, j: nat)
    requires StrictlySorted(keys) && i <= |keys| && j <= |keys|
    ensures i < j ==> keys[i] <= keys[j - 1]
    ensures j < i ==> keys[j] <= keys[i - 1]
  {
  }

  /** Pages of the same height own disjoint key intervals. */
  lemma {:induction false} DisjointPages(t: Tree, p: PageId, q: PageId, key: int)
    requires Shaped(t) && t.w.NoSplit?
    requires p in t.pages && q in t.pages && t.g[p].height == t.g[q].height
    requires t.g[p].lo <= key < t.g[p].hi && t.g[q].lo <= key < t.g[q].hi
    ensures p == q
    decreases t.g[t.root].height - t.g[p].height
  {
    assert PageOk(t, p) && PageOk(t, q) && PageOk(t, t.root);
    if p != t.root && q != t.root {
      var pp, pq := t.g[p].parent, t.g[q].parent;
      assert PageOk(t, pp) && PageOk(t, pq);
      var i :| 0 <= i < |t.pages[pp].children| && t.pages[pp].children[i] == p;
      var j :| 0 <= j < |t.pages[pq].children| && t.pages[pq].children[j] == q;
      assert ChildOk(t, pp, i) && ChildOk(t, pq, j);
      DisjointPages(t, pp, pq, key);
      SlotsOrdered(t.pages[pp].keys, i, j);
    }
  }

  /** Every key belongs to some leaf below page `p` when it belongs to `p`. */
  lemma {:induction false} OwningLeaf(t: Tree, p: PageId, key: Key) returns (leaf: PageId)
    requires Shaped(t) && t.w.NoSplit?
    requires p in t.pages && t.g[p].lo <= key < t.g[p].hi
    ensures leaf in t.pages && t.pages[leaf].Leaf? && t.g[leaf].lo <= key < t.g[leaf].hi
    decreases t.g[p].height
  {
    assert PageOk(t, p);
    var n := t.pages[p];
    if n.Leaf? {
      leaf := p;
    } else {
      var i := 0;
      while i < |n.keys| && n.keys[i] <= key
        invariant 0 <= i <= |n.keys| && ChildLo(n, t.g[p], i) <= key
      {
        i := i + 1;
      }
      assert ChildOk(t, p, i);
      leaf := OwningLeaf(t, n.children[i], key);
    }
  }

  ghost predicate EntryAt(pages: Pages, p: PageId, i: int, key: Key, rid: Rid) {
    p in pages && pages[p].Leaf? && 0 <= i < |pages[p].keys| == |pages[p].rids|
    && pages[p].keys[i] == key && pages[p].rids[i] == rid
  }

  /** The abstract map is the set of entries found in leaf pages, each key in one place only. */
  lemma ContentsAreLeafEntries(root: PageId, pages: Pages, g: Fences, contents: map<Key, Rid>, key: Key, rid: Rid)
    requires WellFormed(root, pages, g) && Stores(pages, g, contents)
    ensures (key in contents && contents[key] == rid) <==> exists p, i :: EntryAt(pages, p, i, key, rid)
    ensures forall p, i, q, j, r | EntryAt(pages, p, i, key, rid) && EntryAt(pages, q, j, key, r) :: p == q && i == j
  {
    var t := Settled(root, pages, g);
    if key in contents && contents[key] == rid {
      var p := OwningLeaf(t, root, key);
      assert LeafStores(pages[p], g[p], contents);
      var i :| 0 <= i < |pages[p].keys| && pages[p].keys[i] == key;
      assert EntryAt(pages, p, i, key, rid);
    }
    forall p, i | EntryAt(pages, p, i, key, rid)
      ensures key in contents && contents[key] == rid
    {
      assert LeafStores(pages[p], g[p], contents);
    }
    forall p, i, q, j, r | EntryAt(pages, p, i, key, rid) && EntryAt(pages, q, j, key, r)
      ensures p == q && i == j
    {
      assert PageOk(t, p) && PageOk(t, q);
      DisjointPages(t, p, q, key);
    }
  }

  /** All leaves are equally deep, and a descent needs no more steps than the root is high. */
  lemma EqualDepth(root: PageId, pages: Pages, g: Fences, path: seq<PathEntry>, leaf: PageId)
    requires WellFormed(root, pages, g)
    requires PathTo(Settled(root, pages, g), path, leaf) && pages[leaf].Leaf?
    ensures |path| == g[root].height
  {
    assert PageOk(Settled(root, pages, g), leaf);
    PathLength(Settled(root, pages, g), path, leaf);
  }

  /** Each page is reached by one path only. */
  lemma {:induction false} ReachedOnce(t: Tree, path1: seq<PathEntry>, path2: seq<PathEntry>, target: PageId)
    requires Shaped(t) && t.w.NoSplit?
    requires PathTo(t, path1, target) && PathTo(t, path2, target)
    ensures path1 == path2
    decreases |path1|
  {
    PathLength(t, path1, target);
    PathLength(t, path2, target);
    if path1 != [] {
      SameLastStep(t, path1, path2, target);
      PrefixPath(t, path1, target);
      PrefixPath(t, path2, target);
      ReachedOnce(t, path1[..|path1| - 1], path2[..|path2| - 1], path1[|path1| - 1].page);
      assert path1 == path1[..|path1| - 1] + [path1[|path1| - 1]];
      assert path2 == path2[..|path2| - 1] + [path2[|path2| - 1]];
    }
  }

  lemma PathLength(t: Tree, path: seq<PathEntry>, target: PageId)
    requires Closed(t) && PathTo(t, path, target)
    ensures |path| == t.g[t.root].height - t.g[target].height
  {
    assert path != [] ==> StepOk(t, path, target, 0);
  }

  lemma SameLastStep(t: Tree, path1: seq<PathEntry>, path2: seq<PathEntry>, target: PageId)
    requires Shaped(t) && t.w.NoSplit?
    requires PathTo(t, path1, target) && PathTo(t, path2, target) && path1 != [] && path2 != []
    ensures path1[|path1| - 1] == path2[|path2| - 1]
  {
    var e1, e2 := path1[|path1| - 1], path2[|path2| - 1];
    assert StepOk(t, path1, target, |path1| - 1) && StepOk(t, path2, target, |path2| - 1);
    assert PageOk(t, e1.page) && PageOk(t, e2.page);
    assert ChildOk(t, e1.page, e1.childIndex) && ChildOk(t, e2.page, e2.childIndex);
  }

  lemma PrefixPath(t: Tree, path: seq<PathEntry>, target: PageId)
    requires Closed(t) && PathTo(t, path, target) && path != []
    ensures path[|path| - 1].page in t.pages
    ensures PathTo(t, path[..|path| - 1], path[|path| - 1].page)
  {
    var top := path[|path| - 1].page;
    assert StepOk(t, path, target, |path| - 1);
    var front := path[..|path| - 1];
    forall j | 0 <= j < |front|
      ensures StepOk(t, front, top, j)
    {
      assert StepOk(t, path, target, j);
    }
  }

  /** The separators around a child bound every key stored in a leaf below that child. */
  lemma {:induction false} SubtreeBounds(t: Tree, path: seq<PathEntry>, leaf: PageId, j: nat)
    requires Shaped(t) && t.w.NoSplit?
    requires PathTo(t, path, leaf) && j < |path|
    ensures path[j].page in t.pages && t.pages[path[j].page].Internal?
    ensures path[j].childIndex < |t.pages[path[j].page].children| == |t.pages[path[j].page].keys| + 1
    ensures var n, i := t.pages[path[j].page], path[j].childIndex;
            forall k | k in t.pages[leaf].keys ::
              (i > 0 ==> n.keys[i - 1] <= k) && (i < |n.keys| ==> k < n.keys[i])
    ensures t.g[path[j].page].lo <= t.g[leaf].lo && t.g[leaf].hi <= t.g[path[j].page].hi
    decreases |path| - j
  {
    assert StepOk(t, path, leaf, j);
    assert PageOk(t, path[j].page) && PageOk(t, leaf);
    assert ChildOk(t, path[j].page, path[j].childIndex);
    if j + 1 < |path| {
      SubtreeBounds(t, path, leaf, j + 1);
    }
  }

  // ---------------------------------------------------------------------------------------------
  // Leaf updates

  /** Changing one key of the map in the leaf that owns it. */
  lemma StoreInLeaf(t: Tree, p: PageId, n: Node, contents: map<Key, Rid>, contents': map<Key, Rid>, key: Key)
    requires Shaped(t) && t.w.NoSplit? && Stores(t.pages, t.g, contents)
    requires p in t.pages && t.pages[p].Leaf? && n.Leaf?
    requires t.g[p].lo <= key < t.g[p].hi && LeafStores(n, t.g[p], contents')
    requires forall k | k != key :: (k in contents <==> k in contents') && (k in contents ==> contents[k] == contents'[k])
    ensures Stores(t.pages[p := n], t.g, contents')
  {
    assert PageOk(t, p);
    forall q | q in t.pages && t.pages[q].Leaf? && q != p
      ensures LeafStores(t.pages[q], t.g[q], contents')
    {
      assert PageOk(t, q);
      assert LeafStores(t.pages[q], t.g[q], contents);
      if t.g[q].lo <= key < t.g[q].hi {
        DisjointPages(t, p, q, key);
      }
    }
  }

  /** Splitting a leaf loses and invents no entry. */
  lemma SplitStores(t: Tree, p: PageId, right: PageId, contents: map<Key, Rid>)
    requires Shaped(t) && t.w.NoSplit? && t.over == p && Stores(t.pages, t.g, contents)
    requires p in t.pages && t.pages[p].Leaf? && |t.pages[p].keys| == |t.pages[p].rids| == LEAF_MAX_KEYS + 1
    requires right !in t.pages
    ensures var t' := LeafSplit(t, p, right);
            t'.pages.Keys == t'.g.Keys && Stores(t'.pages, t'.g, contents)
  {
    var t' := LeafSplit(t, p, right);
    assert PageOk(t, p);
    assert LeafStores(t.pages[p], t.g[p], contents);
    HalvesStore(t.pages[p], t.g[p], right, contents);
    forall q | q in t'.pages && t'.pages[q].Leaf?
      ensures LeafStores(t'.pages[q], t'.g[q], contents)
    {
      if q != p && q != right {
        assert LeafStores(t.pages[q], t.g[q], contents);
      }
    }
  }

  lemma HalvesStore(n: Node, f: Fence, right: PageId, contents: map<Key, Rid>)
    requires n.Leaf? && NodeOk(n, f) && LeafStores(n, f, contents) && |n.keys| > 0
    ensures var key := n.keys[|n.keys| / 2];
            && LeafStores(SplitLeft(n, right), f.(hi := key), contents)
            && LeafStores(SplitRight(n), f.(lo := key), contents)
  {
    SortedHalves(n.keys, |n.keys| / 2);
  }

  lemma SortedHalves(keys: seq<Key>, mid: nat)
    requires StrictlySorted(keys) && mid < |keys|
    ensures forall k :: k in keys[..mid] <==> k in keys && k < keys[mid]
    ensures forall k :: k in keys[mid..] <==> k in keys && k >= keys[mid]
  {
    forall k | k in keys
      ensures k < keys[mid] ==> k in keys[..mid]
      ensures k >= keys[mid] ==> k in keys[mid..]
    {
      var i :| 0 <= i < |keys| && keys[i] == k;
      if i < mid {
        assert keys[..mid][i] == k;
      } else {
        assert keys[mid..][i - mid] == k;
      }
    }
  }

  /** The descent above a split page still leads to it. */
  lemma PathSurvives(t: Tree, t': Tree, path: seq<PathEntry>, target: PageId)
    requires Closed(t) && Closed(t') && PathTo(t, path, target) && t'.root == t.root
    requires target in t'.pages
    requires forall p | p in t.pages :: p in t'.pages && t'.g[p].height == t.g[p].height
    requires forall p | p in t.pages && p != target :: t'.pages[p] == t.pages[p]
    ensures PathTo(t', path, target)
  {
    forall j | 0 <= j < |path|
      ensures StepOk(t', path, target, j)
    {
      assert StepOk(t, path, target, j);
    }
  }
}
