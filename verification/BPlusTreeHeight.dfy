/** How deep a B+ tree can get.  find_leaf records its descent in an array of 64 entries; since every
    internal page below the root has at least 170 children, 31-bit page ids never need more than 5. */
module BPlusTreeHeight {
  import opened BPlusTreeNode
  import opened BPlusTreeShape
  import opened BPlusTreeContents
  import opened Sets

  const PATH_CAPACITY: int := 64
  const MAX_PAGES: int := 0x8000_0000

  ghost function Level(t: Tree, h: int): set<PageId>
    requires Closed(t)
  {
    set p | p in t.pages && t.g[p].height == h
  }

  ghost function Kids(t: Tree, s: set<PageId>): set<PageId>
    requires Closed(t)
  {
    set c | c in t.pages && c != t.root && t.g[c].parent in s
  }

  function Power(b: nat, e: nat): (r: nat)
  {
    if e == 0 then 1 else b * Power(b, e - 1)
  }

  /** The children of one page are as many as its child slots. */
  lemma KidsOfOne(t: Tree, p: PageId)
    requires Shaped(t) && t.w.NoSplit?
    requires p in t.pages && t.pages[p].Internal?
    ensures |Kids(t, {p})| >= |t.pages[p].keys| + 1
  {
    assert PageOk(t, p);
    var children := t.pages[p].children;
    forall i, j | 0 <= i < j < |children|
      ensures children[i] != children[j]
    {
      assert ChildOk(t, p, i) && ChildOk(t, p, j);
    }
    forall c | c in children
      ensures c in Kids(t, {p})
    {
      var i :| 0 <= i < |children| && children[i] == c;
      assert ChildOk(t, p, i);
    }
    DistinctSize(children, Kids(t, {p}));
  }

  /** Pages share no children, so a set of full enough pages has 170 times as many. */
  lemma {:induction false} FanOut(t: Tree, s: set<PageId>)
    requires Shaped(t) && t.w.NoSplit?
    requires forall p | p in s :: p in t.pages && t.pages[p].Internal? && p != t.root
    ensures |Kids(t, s)| >= (INTERNAL_MIN_KEYS + 1) * |s|
    decreases |s|
  {
    if s != {} {
      var p := Pick(s);
      assert PageOk(t, p);
      KidsOfOne(t, p);
      FanOut(t, s - {p});
      assert Kids(t, s) == Kids(t, s - {p}) + Kids(t, {p});
      assert Kids(t, s - {p}) !! Kids(t, {p});
      assert |Kids(t, s)| == |Kids(t, s - {p})| + |Kids(t, {p})|;
    }
  }

  /** The level `k` below the root's children holds at least `2 * 170^k` pages. */
  lemma {:induction false} LevelSize(t: Tree, k: nat)
    requires Shaped(t) && t.w.NoSplit? && k < t.g[t.root].height
    ensures |Level(t, t.g[t.root].height - 1 - k)| >= 2 * Power(INTERNAL_MIN_KEYS + 1, k)
    decreases k
  {
    var top := t.g[t.root].height;
    assert PageOk(t, t.root);
    if k == 0 {
      KidsOfOne(t, t.root);
      KidsBelow(t, {t.root}, top);
      SubsetSize(Kids(t, {t.root}), Level(t, top - 1));
    } else {
      LevelSize(t, k - 1);
      var s := Level(t, top - k);
      forall p | p in s
        ensures p in t.pages && t.pages[p].Internal? && p != t.root
      {
        assert PageOk(t, p);
      }
      FanOut(t, s);
      KidsBelow(t, s, top - k);
      SubsetSize(Kids(t, s), Level(t, top - 1 - k));
    }
  }

  lemma KidsBelow(t: Tree, s: set<PageId>, h: int)
    requires Shaped(t) && t.w.NoSplit? && s <= Level(t, h)
    ensures Kids(t, s) <= Level(t, h - 1)
  {
    forall c | c in Kids(t, s)
      ensures c in Level(t, h - 1)
    {
      var p := t.g[c].parent;
      assert PageOk(t, c);
      assert PageOk(t, p);
      var i :| 0 <= i < |t.pages[p].children| && t.pages[p].children[i] == c;
      assert ChildOk(t, p, i);
    }
  }

  /** Between operations a descent passes at most 5 internal pages, far from the end of the path array. */
  lemma PathNeverOverflows(root: PageId, pages: Pages, g: Fences, path: seq<PathEntry>, target: PageId)
    requires WellFormed(root, pages, g)
    requires forall p | p in pages :: p < MAX_PAGES
    requires PathTo(Settled(root, pages, g), path, target)
    ensures |path| <= g[root].height <= 5 < PATH_CAPACITY
  {
    var t := Settled(root, pages, g);
    PathLength(t, path, target);
    PagesBound(t);
    assert Power(170, 5) == 170 * (170 * (170 * (170 * (170 * Power(170, 0)))));
    if g[root].height > 5 {
      LevelSize(t, 5);
      SubsetSize(Level(t, g[root].height - 6), pages.Keys);
    }
  }

  /** Page ids below 2^31 are all distinct, so there are at most 2^31 pages. */
  lemma PagesBound(t: Tree)
    requires Shaped(t)
    requires forall p | p in t.pages :: p < MAX_PAGES
    ensures |t.pages.Keys| <= MAX_PAGES
  {
    forall p | p in t.pages.Keys
      ensures 0 <= p < MAX_PAGES
    {
      assert PageOk(t, p);
    }
    BoundedSize(t.pages.Keys, MAX_PAGES);
  }
}
