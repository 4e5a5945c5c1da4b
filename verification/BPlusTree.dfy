/** The B+ tree index (src/index/b_plus_tree.c) as an object that changes its pages in place, proved to
    behave like a finite map from keys to record ids.

    The buffer pool is abstracted to the page map `pages`: fetching a page succeeds, and a new page gets
    an id that is not in use. */
module BPlusTree {
  import opened BPlusTreeNode
  import opened BPlusTreeShape
  import opened BPlusTreeContents
  import opened Sets

  datatype Code = DB_OK | DB_PAGE_NOT_FOUND | DB_DUPLICATE_KEY

  /** Keys of `s` in ascending order. */
  ghost predicate SortedKeysOf(ks: seq<Key>, s: set<Key>) {
    StrictlySorted(ks) && forall k :: k in ks <==> k in s
  }

  lemma EmptyKeys(ks: seq<Key>, s: set<Key>)
    requires SortedKeysOf(ks, s)
    ensures ks == [] <==> s == {}
  {
    if ks != [] {
      var k := ks[0];
      assert k in ks;
    } else if s != {} {
      var k := Pick(s);
      assert false;
    }
  }

  /** A set has one ascending enumeration, so "in ascending order" determines a result. */
  lemma {:induction false} SortedKeysUnique(a: seq<Key>, b: seq<Key>, s: set<Key>)
    requires SortedKeysOf(a, s) && SortedKeysOf(b, s)
    ensures a == b
    decreases |a|
  {
    if a != [] && b != [] {
      var x, y := a[|a| - 1], b[|b| - 1];
      assert x in s && y in s;
      var i :| 0 <= i < |b| && b[i] == x;
      var j :| 0 <= j < |a| && a[j] == y;
      assert x == y;
      var a', b', s' := a[..|a| - 1], b[..|b| - 1], s - {x};
      assert a == a' + [x] && b == b' + [x];
      assert x !in a' && x !in b';
      forall k
        ensures k in a' <==> k in s'
        ensures k in b' <==> k in s'
      {
        assert k in a <==> k in a' || k == x;
        assert k in b <==> k in b' || k == x;
      }
      SortedKeysUnique(a', b', s');
    } else {
      EmptyKeys(a, s);
      EmptyKeys(b, s);
    }
  }

  ghost function RangeKeys(contents: map<Key, Rid>, low: int, high: int): set<Key> {
    set k | k in contents && low <= k <= high
  }

  /** `rids` are the record ids of the keys in `[low, high]`, in ascending key order. */
  ghost predicate RangeResult(contents: map<Key, Rid>, low: int, high: int, rids: seq<Rid>) {
    exists ks: seq<Key> :: RangeWitness(contents, low, high, rids, ks)
  }

  ghost predicate RangeWitness(contents: map<Key, Rid>, low: int, high: int, rids: seq<Rid>, ks: seq<Key>) {
    && SortedKeysOf(ks, RangeKeys(contents, low, high))
    && |rids| == |ks|
    && forall i | 0 <= i < |ks| :: ks[i] in contents && rids[i] == contents[ks[i]]
  }

  /** A scan has collected exactly the keys of `[low, high]` below `bound`. */
  ghost predicate ScannedTo(contents: map<Key, Rid>, low: int, high: int, bound: int, ks: seq<Key>,
                            results: seq<Rid>, results': seq<Rid>) {
    && StrictlySorted(ks)
    && (forall k :: k in ks <==> k in contents && low <= k < bound && k <= high)
    && |results'| == |results| + |ks| && results == results'[..|results|]
    && (forall i | 0 <= i < |ks| :: ks[i] in contents && results'[|results| + i] == contents[ks[i]])
  }

  lemma ScanStep(contents: map<Key, Rid>, low: int, high: int, bound: int, key: Key, ks: seq<Key>,
                 results: seq<Rid>, results': seq<Rid>, rid: Rid)
    requires results' != [] && results'[|results'| - 1] == rid
    requires ScannedTo(contents, low, high, bound, ks, results, results'[..|results'| - 1])
    requires key in contents && contents[key] == rid && low <= bound <= key <= high
    requires forall k | bound <= k < key :: k !in contents
    ensures ScannedTo(contents, low, high, key + 1, ks + [key], results, results')
  {
  }

  lemma RangeDone(contents: map<Key, Rid>, low: int, high: int, bound: int, ks: seq<Key>,
                  results: seq<Rid>, results': seq<Rid>)
    requires ScannedTo(contents, low, high, bound, ks, results, results')
    requires forall k | k in contents && bound <= k :: high < k
    ensures results <= results' && RangeResult(contents, low, high, results'[|results|..])
  {
    assert RangeWitness(contents, low, high, results'[|results|..], ks);
  }

  /** The inner loop of bpt_find_range: collects the entries of one leaf from `start` on, stopping
      with `past` at the first key above `high`. */
  method ScanLeaf(n: Node, start: nat, high: Key, acc: seq<Rid>,
                  ghost low: Key, ghost from: int, ghost f: Fence, ghost contents: map<Key, Rid>,
                  ghost results: seq<Rid>, ghost ks: seq<Key>)
    returns (acc': seq<Rid>, past: bool, ghost ks': seq<Key>)
    requires n.Leaf? && NodeOk(n, f) && LeafStores(n, f, contents)
    requires start <= |n.keys| && low <= from < f.hi
    requires forall k | from <= k < f.hi && k in n.keys :: k in n.keys[start..]
    requires forall j | start <= j < |n.keys| :: from <= n.keys[j]
    requires forall k | from <= k < f.lo :: k !in contents
    requires ScannedTo(contents, low, high, from, ks, results, acc)
    ensures past ==> results <= acc' && RangeResult(contents, low, high, acc'[|results|..])
    ensures !past ==> ScannedTo(contents, low, high, f.hi, ks', results, acc')
  {
    var i := start;
    acc', ks' := acc, ks;
    ghost var bound := from;
    while i < |n.keys|
      invariant start <= i <= |n.keys|
      invariant low <= bound <= f.hi
      invariant forall k | bound <= k < f.hi && k in n.keys :: k in n.keys[i..]
      invariant forall j | i <= j < |n.keys| :: bound <= n.keys[j]
      invariant forall k | bound <= k < f.lo :: k !in contents
      invariant ScannedTo(contents, low, high, bound, ks', results, acc')
    {
      var k := n.keys[i];
      assert forall j | bound <= j < k :: j !in contents;
      if k > high {
        RangeDone(contents, low, high, bound, ks', results, acc');
        return acc', true, ks';
      }
      acc' := acc' + [n.rids[i]];
      ScanStep(contents, low, high, bound, k, ks', results, acc', n.rids[i]);
      ks' := ks' + [k];
      bound := k + 1;
      i := i + 1;
    }
    past := false;
  }

  class BPlusTree {
    var root: PageId
    var pages: Pages
    const isUnique: bool

    ghost var g: Fences
    ghost var contents: map<Key, Rid>

    ghost predicate Valid()
      reads this
    {
      WellFormed(root, pages, g) && Stores(pages, g, contents)
    }

    ghost function Now(w: Pending, over: PageId): Tree
      reads this
    {
      Tree(root, pages, g, w, over)
    }

    /** bpt_init with no root page: one empty leaf. */
    constructor (unique: bool)
      ensures Valid() && contents == map[] && isUnique == unique
    {
      isUnique := unique;
      var pid: PageId :| pid >= 1;
      root := pid;
      pages := map[pid := Leaf([], [], INVALID_PAGE_ID)];
      g := map[pid := Fence(KEY_MIN, KEY_TOP, 0, INVALID_PAGE_ID)];
      contents := map[];
      new;
      assert PageOk(Now(NoSplit, INVALID_PAGE_ID), root);
    }

    /** bpt_init on the root page of an existing tree. */
    constructor Open(root: PageId, pages: Pages, unique: bool, ghost g: Fences, ghost contents: map<Key, Rid>)
      requires WellFormed(root, pages, g) && Stores(pages, g, contents)
      ensures Valid() && this.root == root && this.pages == pages && this.contents == contents && isUnique == unique
    {
      isUnique := unique;
      this.root, this.pages, this.g, this.contents := root, pages, g, contents;
    }

    method NewPage(n: Node) returns (pid: PageId)
      modifies this`pages
      ensures pid >= 1 && pid !in old(pages) && pages == old(pages)[pid := n]
    {
      FreshId(pages.Keys);
      pid :| pid >= 1 && pid !in pages;
      pages := pages[pid := n];
    }

    /** find_leaf: the leaf that owns `key`, and the descent to it. */
    method FindLeaf(key: Key) returns (leaf: PageId, path: seq<PathEntry>)
      requires Valid() && KEY_MIN <= key < KEY_TOP
      ensures leaf in pages && pages[leaf].Leaf? && g[leaf].lo <= key < g[leaf].hi
      ensures PathTo(Now(NoSplit, INVALID_PAGE_ID), path, leaf)
    {
      ghost var t := Now(NoSplit, INVALID_PAGE_ID);
      leaf, path := root, [];
      assert PageOk(t, leaf);
      while pages[leaf].Internal?
        invariant leaf in pages && PageOk(t, leaf) && g[leaf].lo <= key < g[leaf].hi
        invariant PathTo(t, path, leaf)
        decreases g[leaf].height
      {
        var n := pages[leaf];
        var pos := InternalFindPosition(n.keys, key);
        assert ChildOk(t, leaf, pos);
        ExtendPath(t, path, leaf, pos);
        path := path + [PathEntry(leaf, pos)];
        leaf := n.children[pos];
        assert PageOk(t, leaf);
      }
    }

    /** bpt_find. */
    method Find(key: Key) returns (code: Code, rid: Rid)
      requires Valid() && KEY_MIN <= key < KEY_TOP
      ensures key in contents ==> code == DB_OK && rid == contents[key]
      ensures key !in contents ==> code == DB_PAGE_NOT_FOUND
    {
      rid := Rid(INVALID_PAGE_ID, -1);
      var leaf, path := FindLeaf(key);
      var n := pages[leaf];
      assert PageOk(Now(NoSplit, INVALID_PAGE_ID), leaf);
      assert LeafStores(n, g[leaf], contents);
      var pos := LeafFindPosition(n.keys, key);
      if pos < |n.keys| && n.keys[pos] == key {
        return DB_OK, n.rids[pos];
      }
      return DB_PAGE_NOT_FOUND, rid;
    }

    /** bpt_insert: a new key is added; a present key is refused in a unique index and otherwise gets
        the new record id. */
    method Insert(key: Key, rid: Rid) returns (code: Code)
      requires Valid() && KEY_MIN <= key < KEY_TOP
      modifies this
      ensures Valid()
      ensures code == (if isUnique && key in old(contents) then DB_DUPLICATE_KEY else DB_OK)
      ensures code == DB_OK ==> contents == old(contents)[key := rid]
      ensures code == DB_DUPLICATE_KEY ==> contents == old(contents) && pages == old(pages) && root == old(root)
    {
      var leaf, path := FindLeaf(key);
      var n := pages[leaf];
      ghost var t := Now(NoSplit, INVALID_PAGE_ID);
      assert PageOk(t, leaf);
      assert LeafStores(n, g[leaf], contents);
      var size := |n.keys|;
      var pos := LeafFindPosition(n.keys, key);
      if pos < size && n.keys[pos] == key {
        if isUnique {
          return DB_DUPLICATE_KEY;
        }
        SetRid(leaf, pos, key, rid);
        return DB_OK;
      }
      LeafInsertOk(t, leaf, pos, key, rid, contents);
      pages := pages[leaf := WithEntry(n, pos, key, rid)];
      contents := contents[key := rid];
      if size < LEAF_MAX_KEYS {
        return DB_OK;
      }
      PathSurvives(t, Now(NoSplit, leaf), path, leaf);
      SplitUpwards(leaf, path);
      return DB_OK;
    }

    /** Splits an overfull leaf and enters the new page above it. */
    method SplitUpwards(leaf: PageId, path: seq<PathEntry>)
      requires Shaped(Now(NoSplit, leaf)) && Stores(pages, g, contents)
      requires leaf in pages && pages[leaf].Leaf? && |pages[leaf].keys| == |pages[leaf].rids| == LEAF_MAX_KEYS + 1
      requires PathTo(Now(NoSplit, leaf), path, leaf)
      modifies this`root, this`pages, this`g
      ensures Valid()
    {
      ghost var t1 := Now(NoSplit, leaf);
      var promoted, sibling := SplitLeaf(leaf);
      ghost var t2 := Now(Split(leaf, promoted, sibling), INVALID_PAGE_ID);
      PathSurvives(t1, t2, path, leaf);
      InsertIntoParent(path, leaf, promoted, sibling);
      SameLeavesStore(t2.pages, t2.g, pages, g, contents);
    }

    /** The record id of a present key is replaced where it stands. */
    method SetRid(leaf: PageId, pos: nat, key: Key, rid: Rid)
      requires Valid() && leaf in pages && pages[leaf].Leaf? && |pages[leaf].rids| == |pages[leaf].keys|
      requires pos < |pages[leaf].keys| && pages[leaf].keys[pos] == key
      modifies this`pages, this`contents
      ensures Valid() && contents == old(contents)[key := rid]
    {
      ghost var t := Now(NoSplit, INVALID_PAGE_ID);
      var n := pages[leaf];
      var n' := n.(rids := n.rids[pos := rid]);
      assert PageOk(t, leaf);
      assert LeafStores(n, g[leaf], contents);
      ReplaceLeaf(t, leaf, n');
      StoreInLeaf(t, leaf, n', contents, contents[key := rid], key);
      pages := pages[leaf := n'];
      contents := contents[key := rid];
    }

    /** bpt_remove: only the given key disappears; pages are never merged. */
    method Remove(key: Key) returns (code: Code)
      requires Valid() && KEY_MIN <= key < KEY_TOP
      modifies this`pages, this`contents
      ensures Valid()
      ensures code == if key in old(contents) then DB_OK else DB_PAGE_NOT_FOUND
      ensures contents == old(contents) - {key}
      ensures code == DB_PAGE_NOT_FOUND ==> pages == old(pages)
    {
      var leaf, path := FindLeaf(key);
      var n := pages[leaf];
      ghost var t := Now(NoSplit, INVALID_PAGE_ID);
      assert PageOk(t, leaf);
      assert LeafStores(n, g[leaf], contents);
      var pos := LeafFindPosition(n.keys, key);
      if pos >= |n.keys| || n.keys[pos] != key {
        assert contents - {key} == contents;
        return DB_PAGE_NOT_FOUND;
      }
      var n' := n.(keys := RemoveAt(n.keys, pos), rids := RemoveAt(n.rids, pos));
      LeafRemoveStores(n, g[leaf], pos, key, contents);
      ReplaceLeaf(t, leaf, n');
      StoreInLeaf(t, leaf, n', contents, contents - {key}, key);
      pages := pages[leaf := n'];
      contents := contents - {key};
      return DB_OK;
    }

    /** bpt_find_range: appends the record ids of all keys in `[low, high]`, in ascending key order,
        walking the leaf chain across leaves that removals have emptied. */
    method FindRange(low: Key, high: Key, results: seq<Rid>) returns (results': seq<Rid>)
      requires Valid() && KEY_MIN <= low < KEY_TOP && high < KEY_TOP
      ensures results <= results' && RangeResult(contents, low, high, results'[|results|..])
    {
      var leaf, path := FindLeaf(low);
      ghost var t := Now(NoSplit, INVALID_PAGE_ID);
      ghost var ks: seq<Key> := [];
      ghost var bound: int := low;
      var current := leaf;
      results' := results;
      assert PageOk(t, current);
      while current != INVALID_PAGE_ID
        invariant current != INVALID_PAGE_ID ==>
            current in pages && pages[current].Leaf? && bound == if current == leaf then low else g[current].lo
        invariant current != INVALID_PAGE_ID && current != leaf ==> g[leaf].hi <= g[current].lo
        invariant current == INVALID_PAGE_ID ==> bound == KEY_TOP
        invariant low <= bound <= KEY_TOP
        invariant ScannedTo(contents, low, high, bound, ks, results, results')
        decreases KEY_TOP - bound, if current == INVALID_PAGE_ID then 0 else 1
      {
        var n := pages[current];
        assert PageOk(t, current) && PageOk(t, leaf);
        assert LeafStores(n, g[current], contents);
        var start := 0;
        if current == leaf {
          start := LeafFindPosition(n.keys, low);
        }
        var past;
        results', past, ks := ScanLeaf(n, start, high, results', low, bound, g[current], contents, results, ks);
        if past {
          return;
        }
        bound := g[current].hi;
        current := n.next;
      }
      RangeDone(contents, low, high, bound, ks, results, results');
    }

    /** split_leaf: moves the upper half of an overfull leaf to a new page behind it in the chain. */
    method SplitLeaf(leaf: PageId) returns (promoted: Key, sibling: PageId)
      requires Shaped(Now(NoSplit, leaf)) && Stores(pages, g, contents)
      requires leaf in pages && pages[leaf].Leaf? && |pages[leaf].keys| == |pages[leaf].rids| == LEAF_MAX_KEYS + 1
      modifies this`pages, this`g
      ensures Shaped(Now(Split(leaf, promoted, sibling), INVALID_PAGE_ID)) && Stores(pages, g, contents)
      ensures sibling !in old(pages) && sibling >= 0
      ensures Now(Split(leaf, promoted, sibling), INVALID_PAGE_ID) == LeafSplit(old(Now(NoSplit, leaf)), leaf, sibling)
    {
      ghost var t := Now(NoSplit, leaf);
      var n := pages[leaf];
      var size := |n.keys|;
      var mid := size / 2;
      sibling := NewPage(Leaf([], [], INVALID_PAGE_ID));
      var keys, rids := [], [];
      var i := 0;
      while i < size - mid
        invariant 0 <= i <= size - mid
        invariant keys == n.keys[mid..mid + i] && rids == n.rids[mid..mid + i]
      {
        keys := keys + [n.keys[mid + i]];
        rids := rids + [n.rids[mid + i]];
        i := i + 1;
      }
      promoted := keys[0];
      pages := pages[leaf := Leaf(n.keys[..mid], n.rids[..mid], sibling)][sibling := Leaf(keys, rids, n.next)];
      g := SplitFences(g, leaf, promoted, sibling);
      assert keys == n.keys[mid..] && rids == n.rids[mid..];
      assert pages == LeafSplit(t, leaf, sibling).pages;
      SplitLeafShape(t, leaf, sibling);
      SplitStores(t, leaf, sibling, contents);
    }

    /** insert_into_parent: enters the split of `left` in the page above it, splitting upwards as far
        as pages are full and growing a new root if the root was split. */
    method InsertIntoParent(path: seq<PathEntry>, left: PageId, key: Key, right: PageId)
      requires Shaped(Now(Split(left, key, right), INVALID_PAGE_ID))
      requires PathTo(Now(Split(left, key, right), INVALID_PAGE_ID), path, left)
      modifies this`root, this`pages, this`g
      ensures WellFormed(root, pages, g)
      ensures old(pages.Keys == g.Keys) && SameLeaves(old(pages), old(g), pages, g)
      decreases |path|
    {
      ghost var t := Now(Split(left, key, right), INVALID_PAGE_ID);
      if |path| == 0 {
        var newRoot := NewPage(Internal([key], [left, right]));
        GrowRoot(t, newRoot);
        GrowSameLeaves(t, newRoot);
        g := Adopt(g, [left, right], newRoot)[newRoot := Fence(KEY_MIN, KEY_TOP, g[root].height + 1, INVALID_PAGE_ID)];
        root := newRoot;
        return;
      }
      var parent := path[|path| - 1].page;
      var pos := path[|path| - 1].childIndex;
      EnterStep(t, path, left);
      var size := |pages[parent].keys|;
      pages := pages[parent := WithChild(pages[parent], pos, key, right)];
      if size < INTERNAL_MAX_KEYS {
        return;
      }
      ghost var t1 := Now(NoSplit, parent);
      var promoted, sibling := SplitInternal(parent);
      SplitStep(t1, path[..|path| - 1], parent, sibling);
      ghost var t2 := Now(Split(parent, promoted, sibling), INVALID_PAGE_ID);
      InsertIntoParent(path[..|path| - 1], parent, promoted, sibling);
      assert SameLeaves(t1.pages, t1.g, t2.pages, t2.g);
    }

    /** The inline split in insert_into_parent: the middle key of an overfull internal page moves up. */
    method SplitInternal(page: PageId) returns (promoted: Key, sibling: PageId)
      requires Shaped(Now(NoSplit, page))
      requires page in pages && pages[page].Internal?
      requires |pages[page].children| == |pages[page].keys| + 1 == INTERNAL_MAX_KEYS + 2
      modifies this`pages, this`g
      ensures Shaped(Now(Split(page, promoted, sibling), INVALID_PAGE_ID))
      ensures sibling !in old(pages) && sibling >= 0
      ensures Now(Split(page, promoted, sibling), INVALID_PAGE_ID) == InternalSplit(old(Now(NoSplit, page)), page, sibling)
    {
      ghost var t := Now(NoSplit, page);
      var n := pages[page];
      var size := |n.keys|;
      var mid := size / 2;
      promoted := n.keys[mid];
      sibling := NewPage(Internal([], []));
      var rightCount := size - mid - 1;
      var keys, children := [], [n.children[mid + 1]];
      var i := 0;
      while i < rightCount
        invariant 0 <= i <= rightCount
        invariant keys == n.keys[mid + 1..mid + 1 + i] && children == n.children[mid + 1..mid + 2 + i]
      {
        keys := keys + [n.keys[mid + 1 + i]];
        children := children + [n.children[mid + 1 + i + 1]];
        i := i + 1;
      }
      pages := pages[page := Internal(n.keys[..mid], n.children[..mid + 1])][sibling := Internal(keys, children)];
      g := Adopt(SplitFences(g, page, promoted, sibling), children, sibling);
      assert keys == n.keys[mid + 1..] && children == n.children[mid + 1..];
      assert pages == InternalSplit(t, page, sibling).pages;
      SplitInternalShape(t, page, sibling);
    }
  }

  /** leaf_insert: the entry that goes to position `pos`. */
  function WithEntry(n: Node, pos: nat, key: Key, rid: Rid): Node
    requires n.Leaf? && |n.rids| == |n.keys| && pos <= |n.keys|
  {
    Leaf(InsertAt(n.keys, pos, key), InsertAt(n.rids, pos, rid), n.next)
  }

  lemma LeafInsertOk(t: Tree, p: PageId, pos: nat, key: Key, rid: Rid, contents: map<Key, Rid>)
    requires Shaped(t) && t.w.NoSplit? && t.over == INVALID_PAGE_ID && Stores(t.pages, t.g, contents)
    requires p in t.pages && t.pages[p].Leaf? && |t.pages[p].rids| == |t.pages[p].keys|
    requires t.g[p].lo <= key < t.g[p].hi && pos <= |t.pages[p].keys| && key !in t.pages[p].keys
    requires forall i | 0 <= i < pos :: t.pages[p].keys[i] < key
    requires forall i | pos <= i < |t.pages[p].keys| :: key <= t.pages[p].keys[i]
    ensures var n' := WithEntry(t.pages[p], pos, key, rid);
            && |n'.keys| == |t.pages[p].keys| + 1 <= LEAF_MAX_KEYS + 1
            && Shaped(ReplacedLeaf(t, p, n'))
            && Stores(t.pages[p := n'], t.g, contents[key := rid])
  {
    var n, n' := t.pages[p], WithEntry(t.pages[p], pos, key, rid);
    assert PageOk(t, p);
    assert LeafStores(n, t.g[p], contents);
    LeafInsertNode(n, t.g[p], pos, key, rid);
    LeafInsertStores(n, t.g[p], pos, key, rid, contents);
    assert |n'.keys| == |n.keys| + 1;
    ReplaceLeaf(t, p, n');
    assert Stores(t.pages[p := n'], t.g, contents[key := rid]) by {
      StoreInLeaf(t, p, n', contents, contents[key := rid], key);
    }
  }

  lemma LeafInsertNode(n: Node, f: Fence, pos: nat, key: Key, rid: Rid)
    requires n.Leaf? && NodeOk(n, f) && f.lo <= key < f.hi && pos <= |n.keys| && key !in n.keys
    requires forall i | 0 <= i < pos :: n.keys[i] < key
    requires forall i | pos <= i < |n.keys| :: key <= n.keys[i]
    ensures NodeOk(WithEntry(n, pos, key, rid), f)
  {
    InsertAtSorted(n.keys, pos, key);
  }

  lemma LeafInsertStores(n: Node, f: Fence, pos: nat, key: Key, rid: Rid, contents: map<Key, Rid>)
    requires n.Leaf? && LeafStores(n, f, contents) && pos <= |n.keys| && key !in n.keys
    ensures LeafStores(WithEntry(n, pos, key, rid), f, contents[key := rid])
  {
    var n' := WithEntry(n, pos, key, rid);
    forall k
      ensures k in n'.keys <==> k in n.keys || k == key
    {
      assert n'.keys == n.keys[..pos] + [key] + n.keys[pos..];
      assert n.keys == n.keys[..pos] + n.keys[pos..];
    }
  }

  lemma LeafRemoveStores(n: Node, f: Fence, pos: nat, key: Key, contents: map<Key, Rid>)
    requires n.Leaf? && NodeOk(n, f) && LeafStores(n, f, contents) && pos < |n.keys| && n.keys[pos] == key
    ensures var n' := n.(keys := RemoveAt(n.keys, pos), rids := RemoveAt(n.rids, pos));
            NodeOk(n', f) && LeafStores(n', f, contents - {key})
  {
    RemovedKeys(n.keys, pos);
  }

  lemma RemovedKeys(keys: seq<Key>, pos: nat)
    requires StrictlySorted(keys) && pos < |keys|
    ensures StrictlySorted(RemoveAt(keys, pos))
    ensures forall k :: k in RemoveAt(keys, pos) <==> k in keys && k != keys[pos]
  {
    var keys' := RemoveAt(keys, pos);
    forall k
      ensures k in keys' <==> k in keys && k != keys[pos]
    {
      assert keys' == keys[..pos] + keys[pos + 1..];
      assert keys == keys[..pos] + [keys[pos]] + keys[pos + 1..];
    }
  }

  /** One step of insert_into_parent: the parent takes the pending split and the rest of the path
      still leads to it. */
  lemma EnterStep(t: Tree, path: seq<PathEntry>, left: PageId)
    requires Shaped(t) && t.w.Split? && t.w.left == left && t.over == INVALID_PAGE_ID
    requires PathTo(t, path, left) && path != []
    ensures var p, i := path[|path| - 1].page, path[|path| - 1].childIndex;
            && p in t.pages && t.pages[p].Internal?
            && i <= |t.pages[p].keys| <= INTERNAL_MAX_KEYS && |t.pages[p].children| == |t.pages[p].keys| + 1
            && Shaped(Entered(t, p, i))
            && SameLeaves(t.pages, t.g, Entered(t, p, i).pages, t.g)
            && PathTo(Entered(t, p, i), path[..|path| - 1], p)
  {
    var p, i := path[|path| - 1].page, path[|path| - 1].childIndex;
    assert StepOk(t, path, left, |path| - 1);
    assert PageOk(t, p);
    EnterParent(t, p, i);
    PrefixPath(t, path, left);
    PathSurvives(t, Entered(t, p, i), path[..|path| - 1], p);
  }

  lemma SplitStep(t: Tree, path: seq<PathEntry>, p: PageId, right: PageId)
    requires Shaped(t) && t.w.NoSplit? && t.over == p
    requires p in t.pages && t.pages[p].Internal? && right !in t.pages && right >= 0
    requires |t.pages[p].children| == |t.pages[p].keys| + 1 == INTERNAL_MAX_KEYS + 2
    requires PathTo(t, path, p)
    ensures var t' := InternalSplit(t, p, right);
            && Closed(t')
            && SameLeaves(t.pages, t.g, t'.pages, t'.g)
            && PathTo(t', path, p)
  {
    PathSurvives(t, InternalSplit(t, p, right), path, p);
  }

  lemma GrowSameLeaves(t: Tree, newRoot: PageId)
    requires Shaped(t) && t.w.Split? && newRoot !in t.pages
    ensures Closed(Grown(t, newRoot))
    ensures SameLeaves(t.pages, t.g, Grown(t, newRoot).pages, Grown(t, newRoot).g)
  {
  }

  lemma ExtendPath(t: Tree, path: seq<PathEntry>, p: PageId, i: nat)
    requires Closed(t) && PathTo(t, path, p) && t.pages[p].Internal?
    requires i < |t.pages[p].children| == |t.pages[p].keys| + 1 && ChildOk(t, p, i)
    ensures PathTo(t, path + [PathEntry(p, i)], t.pages[p].children[i])
  {
    var path' := path + [PathEntry(p, i)];
    forall j | 0 <= j < |path'|
      ensures StepOk(t, path', t.pages[p].children[i], j)
    {
      if j < |path| {
        assert StepOk(t, path, p, j);
      }
    }
  }
}
