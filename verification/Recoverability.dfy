/** Leaving some transactions out of a history: exactly when the others do not notice. */
module Recoverability {
  import opened Wrappers
  import opened Serializability

  /** The accesses of the transactions in `kept`. */
  ghost function Kept(h: History, kept: set<TxnId>): History {
    if h == [] then []
    else Kept(h[..|h| - 1], kept) + if h[|h| - 1].txn in kept then [h[|h| - 1]] else []
  }

  /** The transactions of an order that are in `kept`. */
  ghost function Those(order: seq<TxnId>, kept: set<TxnId>): seq<TxnId> {
    if order == [] then []
    else Those(order[..|order| - 1], kept) + if order[|order| - 1] in kept then [order[|order| - 1]] else []
  }

  // ---------------------------------------------------------------------------------------------
  // Dirty reads

  /** The transaction whose value a read at the end of the history gets, if it is not the initial one. */
  ghost function LastWriter(h: History, r: ResourceId): Option<TxnId> {
    if h == [] then None
    else if h[|h| - 1].write && h[|h| - 1].resource == r then Some(h[|h| - 1].txn)
    else LastWriter(h[..|h| - 1], r)
  }

  ghost predicate FromKept(h: History, kept: set<TxnId>, r: ResourceId) {
    var w := LastWriter(h, r);
    w.Some? ==> w.value in kept
  }

  /** A kept transaction reads what a transaction that is left out has written. */
  ghost predicate DirtyRead(h: History, kept: set<TxnId>, j: int) {
    0 <= j < |h| && !h[j].write && h[j].txn in kept && !FromKept(h[..j], kept, h[j].resource)
  }

  ghost predicate ReadsClean(h: History, kept: set<TxnId>) {
    forall j :: !DirtyRead(h, kept, j)
  }

  /** No resource ends with the value of a transaction that is left out. */
  ghost predicate EndsClean(h: History, kept: set<TxnId>) {
    forall r :: FromKept(h, kept, r)
  }

  /** The kept transactions have read the same in two states. */
  ghost predicate SameReads(s: State, s': State, kept: set<TxnId>) {
    forall t | t in kept :: SeenBy(s, t) == SeenBy(s', t)
  }

  ghost predicate SameDatabase(s: State, s': State) {
    forall r :: Lookup(s.db, r) == Lookup(s'.db, r)
  }

  lemma RunSnoc(f: Program, s: State, h: History)
    requires h != []
    ensures Run(f, s, h) == Step(f, Run(f, s, h[..|h| - 1]), h[|h| - 1])
  {
    var last := [h[|h| - 1]];
    assert h == h[..|h| - 1] + last && last[1..] == [];
    RunAppend(f, s, h[..|h| - 1], last);
  }

  lemma CleanPrefix(h: History, kept: set<TxnId>)
    requires ReadsClean(h, kept) && h != []
    ensures ReadsClean(h[..|h| - 1], kept)
    ensures !h[|h| - 1].write && h[|h| - 1].txn in kept ==> FromKept(h[..|h| - 1], kept, h[|h| - 1].resource)
  {
    var front := h[..|h| - 1];
    assert !DirtyRead(h, kept, |front|);
    forall j
      ensures !DirtyRead(front, kept, j)
    {
      assert !DirtyRead(h, kept, j);
      assert 0 <= j < |front| ==> front[..j] == h[..j];
    }
  }

  /** Without dirty reads the kept transactions read the same on their own, and what they have written last
      is the same. */
  lemma {:induction false} CleanRun(f: Program, s: State, h: History, kept: set<TxnId>)
    requires ReadsClean(h, kept)
    ensures SameReads(Run(f, s, h), Run(f, s, Kept(h, kept)), kept)
    ensures forall r | FromKept(h, kept, r) :: Lookup(Run(f, s, h).db, r) == Lookup(Run(f, s, Kept(h, kept)).db, r)
    decreases |h|
  {
    if h != [] {
      var front, x := h[..|h| - 1], h[|h| - 1];
      CleanPrefix(h, kept);
      CleanRun(f, s, front, kept);
      RunSnoc(f, s, h);
      if x.txn in kept {
        var k := Kept(h, kept);
        assert k[..|k| - 1] == Kept(front, kept);
        RunSnoc(f, s, k);
      } else {
        assert Kept(h, kept) == Kept(front, kept);
      }
      forall r | FromKept(h, kept, r)
        ensures Lookup(Run(f, s, h).db, r) == Lookup(Run(f, s, Kept(h, kept)).db, r)
      {
        assert !(x.write && x.resource == r) ==> FromKept(front, kept, r);
      }
    }
  }

  // ---------------------------------------------------------------------------------------------
  // A program that betrays dirty reads

  /** Kept transactions write 0, the others 1. */
  ghost function Marking(kept: set<TxnId>): Program {
    (t, r, seen) => if t in kept then 0 else 1
  }

  const BLANK := State(map[], map[])

  ghost predicate AllZero(values: seq<Value>) {
    forall i | 0 <= i < |values| :: values[i] == 0
  }

  ghost predicate OnlyZeros(s: State) {
    (forall r :: Lookup(s.db, r) == 0) && forall t :: AllZero(SeenBy(s, t))
  }

  lemma ZeroStep(s: State, x: Op, kept: set<TxnId>)
    requires OnlyZeros(s) && x.txn in kept
    ensures OnlyZeros(Step(Marking(kept), s, x))
  {
    var s' := Step(Marking(kept), s, x);
    forall t
      ensures AllZero(SeenBy(s', t))
    {
      assert AllZero(SeenBy(s, t));
    }
    forall r
      ensures Lookup(s'.db, r) == 0
    {
      assert Lookup(s.db, r) == 0;
    }
  }

  lemma {:induction false} KeptSeeZero(h: History, kept: set<TxnId>)
    ensures OnlyZeros(Run(Marking(kept), BLANK, Kept(h, kept)))
    decreases |h|
  {
    if h != [] {
      var front, x := h[..|h| - 1], h[|h| - 1];
      KeptSeeZero(front, kept);
      if x.txn in kept {
        var k := Kept(h, kept);
        assert k[..|k| - 1] == Kept(front, kept);
        RunSnoc(Marking(kept), BLANK, k);
        ZeroStep(Run(Marking(kept), BLANK, Kept(front, kept)), x, kept);
      } else {
        assert Kept(h, kept) == Kept(front, kept);
      }
    }
  }

  /** In the whole history a resource holds 1 exactly if a transaction that is left out wrote it last. */
  lemma {:induction false} MarkedDatabase(h: History, kept: set<TxnId>, r: ResourceId)
    ensures Lookup(Run(Marking(kept), BLANK, h).db, r) == if FromKept(h, kept, r) then 0 else 1
    decreases |h|
  {
    if h != [] {
      RunSnoc(Marking(kept), BLANK, h);
      MarkedDatabase(h[..|h| - 1], kept, r);
    }
  }

  /** Nobody forgets a value read. */
  lemma {:induction false} SeenGrows(f: Program, s: State, h: History, t: TxnId, v: Value)
    requires v in SeenBy(s, t)
    ensures v in SeenBy(Run(f, s, h), t)
    decreases |h|
  {
    if h != [] {
      SeenGrows(f, Step(f, s, h[0]), h[1..], t, v);
    }
  }

  lemma DirtyReadShows(h: History, kept: set<TxnId>, j: int)
    requires DirtyRead(h, kept, j)
    ensures !SameReads(Run(Marking(kept), BLANK, h), Run(Marking(kept), BLANK, Kept(h, kept)), kept)
  {
    var f, t := Marking(kept), h[j].txn;
    var upto := h[..j + 1];
    assert upto[..|upto| - 1] == h[..j];
    MarkedDatabase(h[..j], kept, h[j].resource);
    RunSnoc(f, BLANK, upto);
    var seen := SeenBy(Run(f, BLANK, upto), t);
    assert seen[|seen| - 1] == 1;
    SeenGrows(f, Run(f, BLANK, upto), h[j + 1..], t, 1);
    assert h == upto + h[j + 1..];
    RunAppend(f, BLANK, upto, h[j + 1..]);
    KeptSeeZero(h, kept);
  }

  /** On their own the kept transactions read what they have read in the whole history. */
  ghost predicate ReadsUnchanged(f: Program, s: State, h: History, kept: set<TxnId>) {
    SameReads(Run(f, s, h), Run(f, s, Kept(h, kept)), kept)
  }

  ghost predicate DatabaseUnchanged(f: Program, s: State, h: History, kept: set<TxnId>) {
    SameDatabase(Run(f, s, h), Run(f, s, Kept(h, kept)))
  }

  /** Whatever the transactions do, those that are kept read the same on their own: exactly if there is no
      dirty read. */
  lemma ReadsCleanIff(h: History, kept: set<TxnId>)
    ensures ReadsClean(h, kept) <==> forall f: Program, s: State :: ReadsUnchanged(f, s, h, kept)
  {
    if ReadsClean(h, kept) {
      forall f: Program, s: State
        ensures ReadsUnchanged(f, s, h, kept)
      {
        CleanRun(f, s, h, kept);
      }
    } else {
      var j :| DirtyRead(h, kept, j);
      DirtyReadShows(h, kept, j);
      assert !ReadsUnchanged(Marking(kept), BLANK, h, kept);
    }
  }

  /** They also leave the same database: exactly if, besides, nobody else wrote a resource last. */
  lemma EffectCleanIff(h: History, kept: set<TxnId>)
    ensures ReadsClean(h, kept) && EndsClean(h, kept) <==>
              forall f: Program, s: State :: ReadsUnchanged(f, s, h, kept) && DatabaseUnchanged(f, s, h, kept)
  {
    ReadsCleanIff(h, kept);
    if ReadsClean(h, kept) && EndsClean(h, kept) {
      forall f: Program, s: State
        ensures DatabaseUnchanged(f, s, h, kept)
      {
        CleanRun(f, s, h, kept);
      }
    } else if !EndsClean(h, kept) {
      var r :| !FromKept(h, kept, r);
      MarkedDatabase(h, kept, r);
      KeptSeeZero(h, kept);
      assert !DatabaseUnchanged(Marking(kept), BLANK, h, kept);
    }
  }

  // ---------------------------------------------------------------------------------------------
  // Orders

  lemma Snoc(h: History, x: Op, order: seq<TxnId>, t: TxnId, kept: set<TxnId>)
    ensures Kept(h + [x], kept) == Kept(h, kept) + if x.txn in kept then [x] else []
    ensures Those(order + [t], kept) == Those(order, kept) + if t in kept then [t] else []
  {
    assert (h + [x])[..|h|] == h && (order + [t])[..|order|] == order;
  }

  lemma {:induction false} KeptPositions(h: History, kept: set<TxnId>, i: int, j: int) returns (k: int, l: int)
    requires 0 <= i < j < |Kept(h, kept)|
    ensures 0 <= k < l < |h| && h[k] == Kept(h, kept)[i] && h[l] == Kept(h, kept)[j]
    ensures h[k].txn in kept && h[l].txn in kept
    decreases |h|
  {
    var front := h[..|h| - 1];
    if j < |Kept(front, kept)| {
      k, l := KeptPositions(front, kept, i, j);
    } else {
      k := KeptPosition(front, kept, i);
      l := |h| - 1;
    }
  }

  lemma {:induction false} KeptPosition(h: History, kept: set<TxnId>, i: int) returns (k: int)
    requires 0 <= i < |Kept(h, kept)|
    ensures 0 <= k < |h| && h[k] == Kept(h, kept)[i] && h[k].txn in kept
    decreases |h|
  {
    var front := h[..|h| - 1];
    if i < |Kept(front, kept)| {
      k := KeptPosition(front, kept, i);
    } else {
      k := |h| - 1;
    }
  }

  lemma {:induction false} ThoseMembers(order: seq<TxnId>, kept: set<TxnId>)
    ensures forall t :: t in Those(order, kept) <==> t in order && t in kept
    ensures Distinct(order) ==> Distinct(Those(order, kept))
    decreases |order|
  {
    if order != [] {
      var front, t := order[..|order| - 1], order[|order| - 1];
      ThoseMembers(front, kept);
      assert order == front + [t];
      if Distinct(order) {
        forall i | 0 <= i < |Those(front, kept)|
          ensures Those(front, kept)[i] != t
        {
          assert Those(front, kept)[i] in Those(front, kept);
        }
      }
    }
  }

  lemma {:induction false} ThoseKeepOrder(order: seq<TxnId>, kept: set<TxnId>, a: TxnId, b: TxnId)
    requires Precedes(order, a, b) && a in kept && b in kept
    ensures Precedes(Those(order, kept), a, b)
    decreases |order|
  {
    var front, t := order[..|order| - 1], order[|order| - 1];
    var i, j :| 0 <= i < j < |order| && order[i] == a && order[j] == b;
    var o', o := Those(front, kept), Those(order, kept);
    if j < |front| {
      assert front[i] == a && front[j] == b;
      ThoseKeepOrder(front, kept, a, b);
      var m, n :| 0 <= m < n < |o'| && o'[m] == a && o'[n] == b;
      assert o[m] == a && o[n] == b;
    } else {
      ThoseMembers(front, kept);
      assert front[i] == a;
      var m :| 0 <= m < |o'| && o'[m] == a;
      assert o[m] == a && o[|o'|] == b;
    }
  }
}
