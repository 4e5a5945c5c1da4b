/** Nodes of the B+ tree index (src/index/b_plus_tree_node.[ch]).

    A node page is modelled by the sequences it stores.  A node may hold one entry more than its
    capacity while it is being split. */
module BPlusTreeNode {

  const PAGE_SIZE := 4096
  const NODE_SIZE_OFFSET := 25
  const LEAF_ENTRIES_OFFSET := NODE_SIZE_OFFSET + 4 + 4
  const LEAF_ENTRY_SIZE := 16
  const INTERNAL_ENTRIES_OFFSET := NODE_SIZE_OFFSET + 4
  const INTERNAL_CHILD_SIZE := 4
  const INTERNAL_ENTRY_SIZE := 12

  /** Entries that fit between the leaf header and the end of the page. */
  const LEAF_MAX_KEYS: int := (PAGE_SIZE - LEAF_ENTRIES_OFFSET) / LEAF_ENTRY_SIZE
  /** Keys that fit next to child 0 in an internal page. */
  const INTERNAL_MAX_KEYS: int := (PAGE_SIZE - INTERNAL_ENTRIES_OFFSET - INTERNAL_CHILD_SIZE) / INTERNAL_ENTRY_SIZE

  /** Keys are 64-bit signed integers; fences range over one value more. */
  const KEY_MIN: int := -0x8000_0000_0000_0000
  const KEY_TOP: int := 0x8000_0000_0000_0000
  type Key = int

  type PageId = int
  const INVALID_PAGE_ID: PageId := -1

  datatype Rid = Rid(pageId: PageId, slotId: int)

  datatype Node =
    | Leaf(keys: seq<Key>, rids: seq<Rid>, next: PageId)
    | Internal(keys: seq<Key>, children: seq<PageId>)

  predicate StrictlySorted(s: seq<int>) {
    forall i, j | 0 <= i < j < |s| :: s[i] < s[j]
  }

  function InsertAt<T>(s: seq<T>, i: nat, x: T): (r: seq<T>)
    requires i <= |s|
    ensures |r| == |s| + 1 && r[i] == x
    ensures forall j | 0 <= j < i :: r[j] == s[j]
    ensures forall j | i < j < |r| :: r[j] == s[j - 1]
  {
    s[..i] + [x] + s[i..]
  }

  lemma InsertAtSorted(s: seq<int>, i: nat, x: int)
    requires StrictlySorted(s) && i <= |s|
    requires i > 0 ==> s[i - 1] < x
    requires i < |s| ==> x < s[i]
    ensures StrictlySorted(InsertAt(s, i, x))
  {
    var r := InsertAt(s, i, x);
    forall j, k | 0 <= j < k < |r|
      ensures r[j] < r[k]
    {
      assert j < i ==> s[j] <= s[i - 1];
      assert k > i ==> s[i] <= s[k - 1];
    }
  }

  function RemoveAt<T>(s: seq<T>, i: nat): (r: seq<T>)
    requires i < |s|
    ensures |r| == |s| - 1
    ensures forall j | 0 <= j < i :: r[j] == s[j]
    ensures forall j | i <= j < |r| :: r[j] == s[j + 1]
  {
    s[..i] + s[i + 1..]
  }

  /** internal_find_position: the child whose key interval holds `key`. */
  method InternalFindPosition(keys: seq<Key>, key: Key) returns (pos: nat)
    requires StrictlySorted(keys)
    ensures pos <= |keys|
    ensures forall i | 0 <= i < pos :: keys[i] <= key
    ensures forall i | pos <= i < |keys| :: key < keys[i]
  {
    var lo, hi := 0, |keys|;
    while lo < hi
      invariant 0 <= lo <= hi <= |keys|
      invariant forall i | 0 <= i < lo :: keys[i] <= key
      invariant forall i | hi <= i < |keys| :: key < keys[i]
    {
      var mid := lo + (hi - lo) / 2;
      if keys[mid] <= key {
        lo := mid + 1;
      } else {
        hi := mid;
      }
    }
    pos := lo;
  }

  /** leaf_find_position: the first entry whose key is not below `key`. */
  method LeafFindPosition(keys: seq<Key>, key: Key) returns (pos: nat)
    requires StrictlySorted(keys)
    ensures pos <= |keys|
    ensures forall i | 0 <= i < pos :: keys[i] < key
    ensures forall i | pos <= i < |keys| :: key <= keys[i]
    ensures key in keys <==> pos < |keys| && keys[pos] == key
  {
    var lo, hi := 0, |keys|;
    while lo < hi
      invariant 0 <= lo <= hi <= |keys|
      invariant forall i | 0 <= i < lo :: keys[i] < key
      invariant forall i | hi <= i < |keys| :: key <= keys[i]
    {
      var mid := lo + (hi - lo) / 2;
      if keys[mid] < key {
        lo := mid + 1;
      } else {
        hi := mid;
      }
    }
    pos := lo;
  }
}
