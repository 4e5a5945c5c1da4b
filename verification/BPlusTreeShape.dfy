/** The shape invariant of the B+ tree and the page transitions that keep it.

    Every page carries a ghost fence: the key interval it is responsible for, its height above the
    leaves and the internal page that refers to it.  All clauses of the invariant are local to one
    page and its children, so a transition is checked page by page. */
module BPlusTreeShape {
  import opened BPlusTreeNode

  datatype Fence = Fence(lo: int, hi: int, height: nat, parent: PageId)

  /** A page that has been split while its new right sibling is not yet known to the parent. */
  datatype Pending = NoSplit | Split(left: PageId, key: Key, right: PageId)

  datatype PathEntry = PathEntry(page: PageId, childIndex: nat)

  type Pages = map<PageId, Node>
  type Fences = map<PageId, Fence>

  /** Keys in each half of an internal page that was split one over capacity. */
  const INTERNAL_MIN_KEYS: int := 169

  /** The state of the tree between two page writes: `w` is a split that still has to reach the parent
      and `over` the page, if any, that holds one entry more than fits. */
  datatype Tree = Tree(root: PageId, pages: Pages, g: Fences, w: Pending, over: PageId)

  ghost function ChildLo(n: Node, f: Fence, i: nat): int
    requires n.Internal? && i <= |n.keys|
  {
    if i == 0 then f.lo else n.keys[i - 1]
  }

  ghost function ChildHi(n: Node, f: Fence, i: nat): int
    requires n.Internal? && i <= |n.keys|
  {
    if i == |n.keys| then f.hi else n.keys[i]
  }

  ghost predicate Closed(t: Tree) {
    && t.pages.Keys == t.g.Keys
    && t.root in t.pages
    && (t.w.Split? ==> t.w.left in t.pages && t.w.right in t.pages)
  }

  /** The upper end of the interval that page `p` had before it was split. */
  ghost function OuterHi(t: Tree, p: PageId): int
    requires Closed(t) && p in t.pages
  {
    if t.w.Split? && t.w.left == p then t.g[t.w.right].hi else t.g[p].hi
  }

  /** A node on its own: sorted keys inside its fence, matching sequence lengths. */
  ghost predicate NodeOk(n: Node, f: Fence) {
    && KEY_MIN <= f.lo < f.hi <= KEY_TOP
    && StrictlySorted(n.keys)
    && (forall i | 0 <= i < |n.keys| :: f.lo <= n.keys[i] < f.hi)
    && match n
       case Leaf(keys, rids, _) => f.height == 0 && |rids| == |keys|
       case Internal(keys, children) =>
         f.height > 0 && |children| == |keys| + 1 && |keys| > 0 && f.lo < keys[0]
  }

  ghost predicate SizeOk(n: Node, isRoot: bool, over: bool) {
    var extra := if over then 1 else 0;
    match n
    case Leaf(keys, _, _) => |keys| <= LEAF_MAX_KEYS + extra
    case Internal(keys, _) => (if isRoot then 1 else INTERNAL_MIN_KEYS) <= |keys| <= INTERNAL_MAX_KEYS + extra
  }

  /** Child `i` of internal page `p` points back to `p` and owns exactly the interval between the
      separators around it. */
  ghost predicate ChildOk(t: Tree, p: PageId, i: nat)
    requires Closed(t)
    requires p in t.pages && t.pages[p].Internal? && i < |t.pages[p].children| == |t.pages[p].keys| + 1
  {
    var c := t.pages[p].children[i];
    && c in t.pages && c != t.root && (t.w.Split? ==> c != t.w.right)
    && t.g[c].parent == p
    && t.g[c].height + 1 == t.g[p].height
    && t.g[c].lo == ChildLo(t.pages[p], t.g[p], i)
    && OuterHi(t, c) == ChildHi(t.pages[p], t.g[p], i)
  }

  ghost predicate IsChild(pages: Pages, p: PageId, c: PageId) {
    p in pages && pages[p].Internal? && c in pages[p].children
  }

  ghost predicate PendingOk(t: Tree)
    requires Closed(t)
  {
    t.w.Split? ==>
      && t.w.left != t.w.right && t.w.right != t.root
      && t.g[t.w.left].hi == t.w.key == t.g[t.w.right].lo
      && t.g[t.w.left].height == t.g[t.w.right].height
      && t.g[t.w.left].parent == t.g[t.w.right].parent
  }

  /** A leaf's successor owns the keys from its upper fence on. */
  ghost predicate ChainOk(t: Tree, p: PageId)
    requires Closed(t) && p in t.pages && t.pages[p].Leaf?
  {
    var next := t.pages[p].next;
    if t.g[p].hi == KEY_TOP then next == INVALID_PAGE_ID
    else next != INVALID_PAGE_ID && next in t.pages && t.pages[next].Leaf? && t.g[next].lo == t.g[p].hi
  }

  ghost predicate TopOfSplit(t: Tree, p: PageId) {
    t.w.Split? && t.w.left == t.root && p == t.w.right
  }

  ghost predicate ChildrenOk(t: Tree, p: PageId)
    requires Closed(t)
    requires p in t.pages && t.pages[p].Internal? && |t.pages[p].children| == |t.pages[p].keys| + 1
  {
    forall i: nat {:trigger ChildOk(t, p, i)} | i < |t.pages[p].children| :: ChildOk(t, p, i)
  }

  /** Everything the invariant says about page `p`. */
  ghost predicate PageOk(t: Tree, p: PageId)
    requires Closed(t) && p in t.pages
  {
    var n := t.pages[p];
    && p >= 0
    && NodeOk(n, t.g[p])
    && SizeOk(n, p == t.root && !(t.w.Split? && t.w.left == p), p == t.over)
    && t.g[p].height <= t.g[t.root].height
    && (t.g[p].height == t.g[t.root].height ==> p == t.root || TopOfSplit(t, p))
    && (p != t.root && !(t.w.Split? && t.w.right == p) ==> IsChild(t.pages, t.g[p].parent, p))
    && (n.Internal? ==> ChildrenOk(t, p))
    && (n.Leaf? ==> ChainOk(t, p))
  }

  /** The whole invariant. */
  ghost predicate Shaped(t: Tree) {
    && Closed(t)
    && PendingOk(t)
    && t.g[t.root].lo == KEY_MIN && OuterHi(t, t.root) == KEY_TOP
    && (forall p {:trigger PageOk(t, p)} | p in t.pages :: PageOk(t, p))
  }

  ghost function Settled(root: PageId, pages: Pages, g: Fences): Tree {
    Tree(root, pages, g, NoSplit, INVALID_PAGE_ID)
  }

  /** The invariant between operations. */
  ghost predicate WellFormed(root: PageId, pages: Pages, g: Fences) {
    Shaped(Settled(root, pages, g))
  }

  // ---------------------------------------------------------------------------------------------
  // Leaf pages

  ghost function ReplacedLeaf(t: Tree, p: PageId, n: Node): Tree {
    t.(pages := t.pages[p := n], over := if |n.keys| > LEAF_MAX_KEYS then p else INVALID_PAGE_ID)
  }

  /** Replacing the entries of a leaf inside its fence keeps the shape; it may overfill by one. */
  lemma ReplaceLeaf(t: Tree, p: PageId, n: Node)
    requires Shaped(t) && t.w.NoSplit? && t.over == INVALID_PAGE_ID
    requires p in t.pages && t.pages[p].Leaf? && n.Leaf? && n.next == t.pages[p].next
    requires NodeOk(n, t.g[p]) && |n.keys| <= LEAF_MAX_KEYS + 1
    ensures Shaped(ReplacedLeaf(t, p, n))
  {
    var t' := ReplacedLeaf(t, p, n);
    forall q | q in t'.pages
      ensures PageOk(t', q)
    {
      assert PageOk(t, q);
      if t'.pages[q].Internal? {
        forall i: nat | i < |t'.pages[q].children|
          ensures ChildOk(t', q, i)
        {
          assert ChildOk(t, q, i);
        }
      }
    }
  }

  function SplitLeft(n: Node, right: PageId): Node
    requires n.Leaf? && |n.rids| == |n.keys|
  {
    Leaf(n.keys[..|n.keys| / 2], n.rids[..|n.keys| / 2], right)
  }

  function SplitRight(n: Node): Node
    requires n.Leaf? && |n.rids| == |n.keys|
  {
    Leaf(n.keys[|n.keys| / 2..], n.rids[|n.keys| / 2..], n.next)
  }

  ghost function SplitFences(g: Fences, p: PageId, key: Key, right: PageId): Fences
    requires p in g
  {
    g[p := g[p].(hi := key)][right := g[p].(lo := key)]
  }

  /** split_leaf: the upper half of leaf `p` moves to the new page `right`. */
  ghost function LeafSplit(t: Tree, p: PageId, right: PageId): Tree
    requires p in t.pages && p in t.g && t.pages[p].Leaf? && |t.pages[p].keys| == |t.pages[p].rids| > 0
  {
    var n := t.pages[p];
    var key := n.keys[|n.keys| / 2];
    Tree(t.root, t.pages[p := SplitLeft(n, right)][right := SplitRight(n)], SplitFences(t.g, p, key, right),
         Split(p, key, right), INVALID_PAGE_ID)
  }

  /** split_leaf turns an overfull leaf into two leaves with one split pending. */
  lemma SplitLeafShape(t: Tree, p: PageId, right: PageId)
    requires Shaped(t) && t.w.NoSplit? && t.over == p
    requires p in t.pages && t.pages[p].Leaf? && |t.pages[p].keys| == |t.pages[p].rids| == LEAF_MAX_KEYS + 1
    requires right !in t.pages && right >= 0
    ensures Shaped(LeafSplit(t, p, right))
  {
    var t' := LeafSplit(t, p, right);
    assert PageOk(t, p);
    forall q | q in t'.pages
      ensures PageOk(t', q)
    {
      SplitLeafPage(t, p, right, q);
    }
  }

  lemma SplitLeafPage(t: Tree, p: PageId, right: PageId, q: PageId)
    requires Shaped(t) && t.w.NoSplit? && t.over == p
    requires p in t.pages && t.pages[p].Leaf? && |t.pages[p].keys| == |t.pages[p].rids| == LEAF_MAX_KEYS + 1
    requires right !in t.pages && right >= 0 && (q in t.pages || q == right)
    ensures PageOk(LeafSplit(t, p, right), q)
  {
    var t' := LeafSplit(t, p, right);
    assert PageOk(t, p);
    if q == right || q == p {
      assert NodeOk(t'.pages[q], t'.g[q]);
    } else {
      assert PageOk(t, q);
      if t'.pages[q].Internal? {
        SplitLeafChildren(t, p, right, q);
      }
    }
  }

  lemma SplitLeafChildren(t: Tree, p: PageId, right: PageId, q: PageId)
    requires Shaped(t) && t.w.NoSplit? && p in t.pages && t.pages[p].Leaf?
    requires |t.pages[p].keys| == |t.pages[p].rids| > 0 && right !in t.pages
    requires q in t.pages && t.pages[q].Internal?
    ensures var t' := LeafSplit(t, p, right);
            t'.pages[q] == t.pages[q] && |t.pages[q].children| == |t.pages[q].keys| + 1 && ChildrenOk(t', q)
  {
    var t' := LeafSplit(t, p, right);
    assert PageOk(t, q);
    forall i: nat | i < |t'.pages[q].children|
      ensures ChildOk(t', q, i)
    {
      assert ChildOk(t, q, i);
    }
  }

  // ---------------------------------------------------------------------------------------------
  // Internal pages

  /** The node after the pending key and its right page were inserted behind child `i`. */
  function WithChild(n: Node, i: nat, key: Key, right: PageId): (r: Node)
    requires n.Internal? && i <= |n.keys| && |n.children| == |n.keys| + 1
  {
    Internal(InsertAt(n.keys, i, key), InsertAt(n.children, i + 1, right))
  }

  ghost function Entered(t: Tree, p: PageId, i: nat): Tree
    requires t.w.Split? && p in t.pages && t.pages[p].Internal?
    requires i <= |t.pages[p].keys| && |t.pages[p].children| == |t.pages[p].keys| + 1
  {
    Tree(t.root, t.pages[p := WithChild(t.pages[p], i, t.w.key, t.w.right)], t.g, NoSplit,
         if |t.pages[p].keys| < INTERNAL_MAX_KEYS then INVALID_PAGE_ID else p)
  }

  /** Entering the pending split in its parent completes it; the parent may overfill by one. */
  lemma EnterParent(t: Tree, p: PageId, i: nat)
    requires Shaped(t) && t.w.Split? && t.over == INVALID_PAGE_ID
    requires p in t.pages && t.pages[p].Internal? && |t.pages[p].children| == |t.pages[p].keys| + 1
    requires i < |t.pages[p].children| && t.pages[p].children[i] == t.w.left
    ensures Shaped(Entered(t, p, i))
  {
    var t' := Entered(t, p, i);
    assert PageOk(t, p);
    assert ChildOk(t, p, i);
    forall q | q in t'.pages
      ensures PageOk(t', q)
    {
      EnterParentPage(t, p, i, q);
    }
  }

  lemma EnterParentPage(t: Tree, p: PageId, i: nat, q: PageId)
    requires Shaped(t) && t.w.Split? && t.over == INVALID_PAGE_ID
    requires p in t.pages && t.pages[p].Internal? && |t.pages[p].children| == |t.pages[p].keys| + 1
    requires i < |t.pages[p].children| && t.pages[p].children[i] == t.w.left
    requires q in t.pages
    ensures PageOk(Entered(t, p, i), q)
  {
    var t' := Entered(t, p, i);
    var n, n' := t.pages[p], t'.pages[p];
    assert PageOk(t, p) && PageOk(t, q);
    assert ChildOk(t, p, i);
    assert IsChild(t'.pages, t.g[q].parent, q) || q == t.root by {
      if q == t.w.right {
        assert n'.children[i + 1] == q;
      } else if q != t.root && t.g[q].parent == p {
        var j :| 0 <= j < |n.children| && n.children[j] == q;
        assert n'.children[if j <= i then j else j + 1] == q;
      }
    }
    if q == p {
      EnterParentNode(t, p, i);
    }
    if t'.pages[q].Internal? {
      EnterParentChildren(t, p, i, q);
    }
  }

  lemma EnterParentNode(t: Tree, p: PageId, i: nat)
    requires Shaped(t) && t.w.Split? && t.over == INVALID_PAGE_ID
    requires p in t.pages && t.pages[p].Internal? && |t.pages[p].children| == |t.pages[p].keys| + 1
    requires i < |t.pages[p].children| && t.pages[p].children[i] == t.w.left
    ensures NodeOk(WithChild(t.pages[p], i, t.w.key, t.w.right), t.g[p])
  {
    assert PageOk(t, p) && PageOk(t, t.w.left) && PageOk(t, t.w.right);
    assert ChildOk(t, p, i);
    var n := t.pages[p];
    InsertAtSorted(n.keys, i, t.w.key);
  }

  lemma EnterParentChildren(t: Tree, p: PageId, i: nat, q: PageId)
    requires Shaped(t) && t.w.Split? && t.over == INVALID_PAGE_ID
    requires p in t.pages && t.pages[p].Internal? && |t.pages[p].children| == |t.pages[p].keys| + 1
    requires i < |t.pages[p].children| && t.pages[p].children[i] == t.w.left
    requires q in t.pages && t.pages[q].Internal?
    ensures var t' := Entered(t, p, i);
            |t'.pages[q].children| == |t'.pages[q].keys| + 1 && ChildrenOk(t', q)
  {
    var t' := Entered(t, p, i);
    assert PageOk(t, p) && PageOk(t, q);
    assert ChildOk(t, p, i);
    forall j: nat | j < |t'.pages[q].children|
      ensures ChildOk(t', q, j)
    {
      if q == p {
        EnteredChild(t, p, i, j);
      } else {
        assert ChildOk(t, q, j);
      }
    }
  }

  lemma EnteredChild(t: Tree, p: PageId, i: nat, j: nat)
    requires Shaped(t) && t.w.Split? && t.over == INVALID_PAGE_ID
    requires p in t.pages && t.pages[p].Internal? && |t.pages[p].children| == |t.pages[p].keys| + 1
    requires i < |t.pages[p].children| && t.pages[p].children[i] == t.w.left && j <= |t.pages[p].children|
    ensures ChildOk(Entered(t, p, i), p, j)
  {
    assert PageOk(t, p);
    assert ChildOk(t, p, i);
    if j <= i {
      assert ChildOk(t, p, j);
    } else if j > i + 1 {
      assert ChildOk(t, p, j - 1);
    }
  }

  function KeepLeft(n: Node): Node
    requires n.Internal? && |n.children| == |n.keys| + 1
  {
    Internal(n.keys[..|n.keys| / 2], n.children[..|n.keys| / 2 + 1])
  }

  function MoveRight(n: Node): Node
    requires n.Internal? && |n.children| == |n.keys| + 1 && |n.keys| > 0
  {
    Internal(n.keys[|n.keys| / 2 + 1..], n.children[|n.keys| / 2 + 1..])
  }

  ghost function Adopt(g: Fences, children: seq<PageId>, parent: PageId): Fences {
    map p | p in g :: if p in children then g[p].(parent := parent) else g[p]
  }

  /** The upper half of internal page `p` moves to the new page `right` and the middle key moves up. */
  ghost function InternalSplit(t: Tree, p: PageId, right: PageId): Tree
    requires p in t.pages && p in t.g && t.pages[p].Internal?
    requires |t.pages[p].children| == |t.pages[p].keys| + 1 && |t.pages[p].keys| > 0
  {
    var n := t.pages[p];
    var key := n.keys[|n.keys| / 2];
    Tree(t.root, t.pages[p := KeepLeft(n)][right := MoveRight(n)],
         Adopt(SplitFences(t.g, p, key, right), MoveRight(n).children, right),
         Split(p, key, right), INVALID_PAGE_ID)
  }

  lemma ChildrenApart(t: Tree, p: PageId, i: nat, j: nat)
    requires Shaped(t) && p in t.pages && t.pages[p].Internal?
    requires i < j < |t.pages[p].children| == |t.pages[p].keys| + 1
    ensures t.pages[p].children[i] in t.g && t.pages[p].children[j] in t.g
    ensures t.g[t.pages[p].children[i]].lo < t.g[t.pages[p].children[j]].lo
  {
    assert PageOk(t, p);
    assert ChildOk(t, p, i) && ChildOk(t, p, j);
  }

  /** Which pages the split hands over: the children behind the middle key, and no other page. */
  lemma MovedChildren(t: Tree, p: PageId, right: PageId)
    requires Shaped(t) && t.w.NoSplit?
    requires p in t.pages && t.pages[p].Internal? && right !in t.pages
    requires |t.pages[p].children| == |t.pages[p].keys| + 1 && |t.pages[p].keys| > 0
    ensures var moved := MoveRight(t.pages[p]).children;
            && p !in moved && right !in moved
            && (forall q {:trigger q in moved} :: q in moved ==> q in t.pages && t.g[q].parent == p)
            && (forall j: nat | j < |t.pages[p].children| :: t.pages[p].children[j] in moved <==> j > |t.pages[p].keys| / 2)
  {
    var n := t.pages[p];
    var mid := |n.keys| / 2;
    var moved := MoveRight(n).children;
    assert PageOk(t, p);
    forall q | q in moved
      ensures q in t.pages && t.g[q].parent == p && t.g[q].height < t.g[p].height
    {
      var k :| 0 <= k < |moved| && moved[k] == q;
      assert ChildOk(t, p, k + mid + 1);
    }
    forall j: nat | j < |n.children|
      ensures n.children[j] in moved <==> j > mid
    {
      if n.children[j] in moved {
        var k :| 0 <= k < |moved| && moved[k] == n.children[j];
        if j < k + mid + 1 {
          ChildrenApart(t, p, j, k + mid + 1);
        }
      }
      if j > mid {
        assert moved[j - mid - 1] == n.children[j];
      }
    }
  }

  /** Splitting an overfull internal page: again two pages and one pending split. */
  lemma SplitInternalShape(t: Tree, p: PageId, right: PageId)
    requires Shaped(t) && t.w.NoSplit? && t.over == p
    requires p in t.pages && t.pages[p].Internal? && right !in t.pages && right >= 0
    requires |t.pages[p].children| == |t.pages[p].keys| + 1 == INTERNAL_MAX_KEYS + 2
    ensures Shaped(InternalSplit(t, p, right))
  {
    var t' := InternalSplit(t, p, right);
    MovedChildren(t, p, right);
    assert PageOk(t, p);
    forall q | q in t'.pages
      ensures PageOk(t', q)
    {
      SplitInternalPage(t, p, right, q);
    }
  }

  lemma SplitInternalPage(t: Tree, p: PageId, right: PageId, q: PageId)
    requires Shaped(t) && t.w.NoSplit? && t.over == p
    requires p in t.pages && t.pages[p].Internal? && right !in t.pages && right >= 0
    requires |t.pages[p].children| == |t.pages[p].keys| + 1 == INTERNAL_MAX_KEYS + 2
    requires q in t.pages || q == right
    ensures PageOk(InternalSplit(t, p, right), q)
  {
    var t' := InternalSplit(t, p, right);
    if q == right || q == p {
      SplitInternalNode(t, p, right);
    } else {
      assert PageOk(t, q);
    }
    if q != right && q != t.root {
      SplitInternalParent(t, p, right, q);
    }
    if t'.pages[q].Internal? {
      SplitInternalChildren(t, p, right, q);
    }
  }

  /** The two halves are proper nodes of the parent's height. */
  lemma SplitInternalNode(t: Tree, p: PageId, right: PageId)
    requires Shaped(t) && t.w.NoSplit? && t.over == p
    requires p in t.pages && t.pages[p].Internal? && right !in t.pages && right >= 0
    requires |t.pages[p].children| == |t.pages[p].keys| + 1 == INTERNAL_MAX_KEYS + 2
    ensures var t' := InternalSplit(t, p, right);
            && p >= 0
            && NodeOk(t'.pages[p], t'.g[p]) && SizeOk(t'.pages[p], false, false)
            && NodeOk(t'.pages[right], t'.g[right]) && SizeOk(t'.pages[right], false, false)
            && t'.g[p] == t.g[p].(hi := t'.w.key)
            && t'.g[right] == t.g[p].(lo := t'.w.key)
            && t'.g[t.root].height == t.g[t.root].height
            && t.g[p].height <= t.g[t.root].height
            && (t.g[p].height == t.g[t.root].height ==> p == t.root)
  {
    MovedChildren(t, p, right);
    assert PageOk(t, p);
  }

  lemma SplitInternalParent(t: Tree, p: PageId, right: PageId, q: PageId)
    requires Shaped(t) && t.w.NoSplit? && t.over == p
    requires p in t.pages && t.pages[p].Internal? && right !in t.pages && right >= 0
    requires |t.pages[p].children| == |t.pages[p].keys| + 1 == INTERNAL_MAX_KEYS + 2
    requires q in t.pages && q != t.root
    ensures var t' := InternalSplit(t, p, right); IsChild(t'.pages, t'.g[q].parent, q)
  {
    var t' := InternalSplit(t, p, right);
    var n := t.pages[p];
    var mid := |n.keys| / 2;
    MovedChildren(t, p, right);
    assert PageOk(t, q);
    if t.g[q].parent == p {
      var j :| 0 <= j < |n.children| && n.children[j] == q;
      if j <= mid {
        assert t'.pages[p].children[j] == q;
      } else {
        assert t'.pages[right].children[j - mid - 1] == q;
      }
    }
  }

  lemma SplitInternalChildren(t: Tree, p: PageId, right: PageId, q: PageId)
    requires Shaped(t) && t.w.NoSplit? && t.over == p
    requires p in t.pages && t.pages[p].Internal? && right !in t.pages && right >= 0
    requires |t.pages[p].children| == |t.pages[p].keys| + 1 == INTERNAL_MAX_KEYS + 2
    requires q == right || (q in t.pages && t.pages[q].Internal?)
    ensures var t' := InternalSplit(t, p, right);
            |t'.pages[q].children| == |t'.pages[q].keys| + 1 && ChildrenOk(t', q)
  {
    var t' := InternalSplit(t, p, right);
    if q == p || q == right {
      forall j: nat | j < |t'.pages[q].children|
        ensures ChildOk(t', q, j)
      {
        SplitInternalChild(t, p, right, if q == right then j + |t.pages[p].keys| / 2 + 1 else j);
      }
    } else {
      SplitInternalOthers(t, p, right, q);
    }
  }

  /** The children of the other pages stay where they are. */
  lemma SplitInternalOthers(t: Tree, p: PageId, right: PageId, q: PageId)
    requires Shaped(t) && t.w.NoSplit?
    requires p in t.pages && t.pages[p].Internal? && right !in t.pages
    requires |t.pages[p].children| == |t.pages[p].keys| + 1 && |t.pages[p].keys| > 0
    requires q in t.pages && t.pages[q].Internal? && q != p
    ensures var t' := InternalSplit(t, p, right);
            t'.pages[q] == t.pages[q] && |t.pages[q].children| == |t.pages[q].keys| + 1 && ChildrenOk(t', q)
  {
    var t' := InternalSplit(t, p, right);
    MovedChildren(t, p, right);
    assert PageOk(t, q);
    forall j: nat | j < |t.pages[q].children|
      ensures ChildOk(t', q, j)
    {
      assert ChildOk(t, q, j);
    }
  }

  /** Child `j` of the overfull page ends up, with its fences, in the half it belongs to. */
  lemma SplitInternalChild(t: Tree, p: PageId, right: PageId, j: nat)
    requires Shaped(t) && t.w.NoSplit? && t.over == p
    requires p in t.pages && t.pages[p].Internal? && right !in t.pages && right >= 0
    requires |t.pages[p].children| == |t.pages[p].keys| + 1 == INTERNAL_MAX_KEYS + 2
    requires j < |t.pages[p].children|
    ensures Closed(InternalSplit(t, p, right))
    ensures var mid := |t.pages[p].keys| / 2;
            if j <= mid then ChildOk(InternalSplit(t, p, right), p, j)
            else ChildOk(InternalSplit(t, p, right), right, j - mid - 1)
  {
    MovedChildren(t, p, right);
    assert PageOk(t, p);
    assert ChildOk(t, p, j);
  }

  ghost function Grown(t: Tree, newRoot: PageId): Tree
    requires t.w.Split? && t.root in t.g
  {
    Settled(newRoot, t.pages[newRoot := Internal([t.w.key], [t.w.left, t.w.right])],
            Adopt(t.g, [t.w.left, t.w.right], newRoot)
              [newRoot := Fence(KEY_MIN, KEY_TOP, t.g[t.root].height + 1, INVALID_PAGE_ID)])
  }

  /** A pending split of the root is completed by a new root above the two pages. */
  lemma GrowRoot(t: Tree, newRoot: PageId)
    requires Shaped(t) && t.over == INVALID_PAGE_ID
    requires t.w.Split? && t.w.left == t.root
    requires newRoot !in t.pages && newRoot >= 0
    ensures Shaped(Grown(t, newRoot))
  {
    var t' := Grown(t, newRoot);
    assert PageOk(t, t.w.left) && PageOk(t, t.w.right);
    forall q | q in t'.pages
      ensures PageOk(t', q)
    {
      if q == newRoot {
        assert ChildOk(t', q, 0) && ChildOk(t', q, 1);
      } else {
        GrowRootBelow(t, newRoot, q);
      }
    }
  }

  lemma GrowRootBelow(t: Tree, newRoot: PageId, q: PageId)
    requires Shaped(t) && t.over == INVALID_PAGE_ID
    requires t.w.Split? && t.w.left == t.root
    requires newRoot !in t.pages && q in t.pages
    ensures PageOk(Grown(t, newRoot), q)
  {
    var t' := Grown(t, newRoot);
    var n := t'.pages[newRoot];
    assert PageOk(t, q);
    assert n.children[0] == t.w.left && n.children[1] == t.w.right;
    if t'.pages[q].Internal? {
      forall i: nat | i < |t'.pages[q].children|
        ensures ChildOk(t', q, i)
      {
        assert ChildOk(t, q, i);
      }
    }
  }
}
