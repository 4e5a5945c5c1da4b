/** The deadlock detector (src/transaction/deadlock_detector.c): every transaction waits for at most one
    other, and detection follows the waits-for edges from each waiting transaction. */
module DeadlockDetector {
  import opened Sets
  import LockManager

  type TxnId = int
  const INVALID_TXN_ID: TxnId := -1

  type Edges = map<TxnId, TxnId>

  /** The transaction `t` waits for.  INVALID_TXN_ID is no transaction and ends a walk. */
  function WaitsFor(m: Edges, t: TxnId): TxnId {
    if t in m then m[t] else INVALID_TXN_ID
  }

  /** A walk along waits-for edges through transactions. */
  ghost predicate IsWalk(m: Edges, p: seq<TxnId>) {
    && (forall i | 0 <= i < |p| :: p[i] != INVALID_TXN_ID)
    && (forall i | 0 <= i < |p| - 1 :: WaitsFor(m, p[i]) == p[i + 1])
  }

  /** `p` is a cycle: a walk whose last transaction waits for the first. */
  ghost predicate IsCycle(m: Edges, p: seq<TxnId>) {
    p != [] && IsWalk(m, p) && WaitsFor(m, p[|p| - 1]) == p[0]
  }

  ghost predicate Deadlocked(m: Edges, t: TxnId) {
    exists p :: IsCycle(m, p) && t in p
  }

  ghost predicate Acyclic(m: Edges) {
    forall p :: !IsCycle(m, p)
  }

  ghost predicate Distinct(s: seq<TxnId>) {
    forall i, j | 0 <= i < j < |s| :: s[i] != s[j]
  }

  /** A walk that still goes on and repeats nobody is no longer than the map. */
  lemma WalkLength(m: Edges, stack: seq<TxnId>)
    requires IsWalk(m, stack) && Distinct(stack)
    requires stack != [] ==> WaitsFor(m, stack[|stack| - 1]) != INVALID_TXN_ID
    ensures |stack| <= |m|
  {
    forall t | t in stack
      ensures t in m.Keys
    {
      var i :| 0 <= i < |stack| && stack[i] == t;
      assert i < |stack| - 1 ==> WaitsFor(m, stack[i]) == stack[i + 1];
    }
    DistinctSize(stack, m.Keys);
  }

  /** Meeting a transaction of the walk again closes a cycle through it. */
  lemma CycleFound(m: Edges, stack: seq<TxnId>, i: nat)
    requires IsWalk(m, stack) && i < |stack| && WaitsFor(m, stack[|stack| - 1]) == stack[i]
    ensures Deadlocked(m, stack[i]) && stack[i] in m
  {
    var p := stack[i..];
    assert forall j | 0 <= j < |p| :: p[j] == stack[i + j];
    assert IsCycle(m, p);
    assert p[0] in p;
    assert WaitsFor(m, stack[i]) == (if i < |stack| - 1 then stack[i + 1] else stack[i]);
  }

  /** Who is on a cycle waits for somebody on it. */
  lemma CycleCloses(m: Edges, p: seq<TxnId>, t: TxnId)
    requires IsCycle(m, p) && t in p
    ensures WaitsFor(m, t) in p && t in m
  {
    var i :| 0 <= i < |p| && p[i] == t;
    if i < |p| - 1 {
      assert WaitsFor(m, p[i]) == p[i + 1];
    }
  }

  /** A walk from a deadlocked transaction never ends. */
  lemma {:induction false} WalkStaysOnCycle(m: Edges, p: seq<TxnId>, stack: seq<TxnId>, k: nat)
    requires IsCycle(m, p) && IsWalk(m, stack) && k < |stack| && stack[0] in p
    ensures stack[k] in p
    decreases k
  {
    if k > 0 {
      WalkStaysOnCycle(m, p, stack, k - 1);
      assert WaitsFor(m, stack[k - 1]) == stack[k];
      CycleCloses(m, p, stack[k - 1]);
    }
  }

  lemma EndedWalk(m: Edges, stack: seq<TxnId>, start: TxnId)
    requires IsWalk(m, stack)
    requires if stack == [] then start == INVALID_TXN_ID
             else stack[0] == start && WaitsFor(m, stack[|stack| - 1]) == INVALID_TXN_ID
    ensures !Deadlocked(m, start)
  {
    forall p | IsCycle(m, p)
      ensures start !in p
    {
      if start in p && stack != [] {
        WalkStaysOnCycle(m, p, stack, |stack| - 1);
        CycleCloses(m, p, stack[|stack| - 1]);
      }
    }
  }

  lemma NoDeadlock(m: Edges)
    ensures Acyclic(m) <==> forall t | t in m :: !Deadlocked(m, t)
  {
    forall p | IsCycle(m, p)
      ensures p[0] in m && Deadlocked(m, p[0])
    {
      CycleFound(m, p, 0);
    }
  }

  /** Removing the edge of a transaction removes exactly the cycles through it. */
  lemma RemovalBreaksItsCyclesOnly(m: Edges, v: TxnId, p: seq<TxnId>)
    ensures IsCycle(m - {v}, p) <==> IsCycle(m, p) && v !in p
  {
    if IsCycle(m - {v}, p) {
      forall t | t in p
        ensures t in m && t != v && WaitsFor(m - {v}, t) == WaitsFor(m, t)
      {
        CycleCloses(m - {v}, p, t);
      }
      forall i | 0 <= i < |p|
        ensures WaitsFor(m, p[i]) == WaitsFor(m - {v}, p[i])
      {
        assert p[i] in p;
      }
    }
    if IsCycle(m, p) && v !in p {
      forall i | 0 <= i < |p|
        ensures WaitsFor(m, p[i]) == WaitsFor(m - {v}, p[i])
      {
        assert p[i] in p;
      }
    }
  }

  /** Rounds of detection, each removing the victim it found. */
  ghost predicate Rounds(m: Edges, victims: seq<TxnId>) {
    victims == [] || (Deadlocked(m, victims[0]) && Rounds(m - {victims[0]}, victims[1..]))
  }

  /** The edges left after the rounds. */
  ghost function Remaining(m: Edges, victims: seq<TxnId>): Edges {
    if victims == [] then m else Remaining(m - {victims[0]}, victims[1..])
  }

  lemma {:induction false} NextRound(m: Edges, victims: seq<TxnId>, v: TxnId)
    requires Rounds(m, victims) && Deadlocked(Remaining(m, victims), v)
    ensures Rounds(m, victims + [v]) && Remaining(m, victims + [v]) == Remaining(m, victims) - {v}
    decreases |victims|
  {
    if victims == [] {
      assert (victims + [v])[1..] == [];
    } else {
      assert (victims + [v])[1..] == victims[1..] + [v];
      NextRound(m - {victims[0]}, victims[1..], v);
    }
  }

  lemma {:induction false} RemainingEdges(m: Edges, victims: seq<TxnId>)
    ensures var r := Remaining(m, victims);
            && r.Keys <= m.Keys
            && forall t | t in m && t !in victims :: t in r && r[t] == m[t]
    decreases |victims|
  {
    if victims != [] {
      RemainingEdges(m - {victims[0]}, victims[1..]);
    }
  }

  /** There are at most as many rounds as edges, and no cycle is broken twice. */
  lemma {:induction false} RoundsEnd(m: Edges, victims: seq<TxnId>, p: seq<TxnId>)
    requires Rounds(m, victims)
    ensures |victims| <= |m|
    ensures IsCycle(m, p) ==> forall i, j | 0 <= i < j < |victims| :: !(victims[i] in p && victims[j] in p)
    decreases |victims|
  {
    if victims != [] {
      var v, rest := victims[0], victims[1..];
      var q :| IsCycle(m, q) && v in q;
      CycleCloses(m, q, v);
      assert |m - {v}| == |m| - 1 by { assert (m - {v}).Keys == m.Keys - {v}; assert |m.Keys - {v}| == |m.Keys| - 1; }
      RoundsEnd(m - {v}, rest, p);
      RemovalBreaksItsCyclesOnly(m, v, p);
      if IsCycle(m, p) && v in p {
        LaterVictimsElsewhere(m - {v}, rest, m, p, v);
      }
      assert forall i | 0 < i < |victims| :: victims[i] == rest[i - 1];
    }
  }

  /** Once one member of a cycle has lost its edge, no later victim lies on that cycle. */
  lemma {:induction false} LaterVictimsElsewhere(m': Edges, victims: seq<TxnId>, m: Edges, p: seq<TxnId>, v: TxnId)
    requires IsCycle(m, p) && v in p && v !in m'
    requires forall t | t in m' :: t in m && m'[t] == m[t]
    requires Rounds(m', victims)
    ensures forall t | t in victims :: t !in p
    decreases |victims|
  {
    if victims != [] {
      var u := victims[0];
      var q :| IsCycle(m', q) && u in q;
      CyclesThrough(m', q, m, p, u, v);
      LaterVictimsElsewhere(m' - {u}, victims[1..], m, p, v);
    }
  }

  /** Two cycles that share a transaction visit the same ones, so the walk round `p` from `u` meets `v`. */
  lemma CyclesThrough(m': Edges, q: seq<TxnId>, m: Edges, p: seq<TxnId>, u: TxnId, v: TxnId)
    requires IsCycle(m', q) && u in q && IsCycle(m, p) && v in p && v !in m'
    requires forall t | t in m' :: t in m && m'[t] == m[t]
    ensures u !in p
  {
    if i :| 0 <= i < |p| && p[i] == u {
      WalkMeets(m', q, m, p, i, v);
      CycleCloses(m', q, v);
    }
  }

  lemma WalkMeets(m': Edges, q: seq<TxnId>, m: Edges, p: seq<TxnId>, i: nat, v: TxnId)
    requires IsCycle(m', q) && i < |p| && p[i] in q && IsCycle(m, p) && v in p
    requires forall t | t in m' :: t in m && m'[t] == m[t]
    ensures v in q
  {
    var j :| 0 <= j < |p| && p[j] == v;
    var r := p[i..] + p[..i];
    var k := if i <= j then j - i else j + |p| - i;
    assert r[k] == v && r[0] == p[i];
    forall n | 0 <= n < |r| - 1
      ensures WaitsFor(m, r[n]) == r[n + 1]
    {
      if n < |p| - i - 1 {
        assert WaitsFor(m, p[i + n]) == p[i + n + 1];
      } else if n >= |p| - i {
        assert WaitsFor(m, p[n - (|p| - i)]) == p[n - (|p| - i) + 1];
      }
    }
    FollowsBoth(m', q, m, r, k);
  }

  lemma {:induction false} FollowsBoth(m': Edges, q: seq<TxnId>, m: Edges, r: seq<TxnId>, k: nat)
    requires IsCycle(m', q) && k < |r| && r[0] in q
    requires forall n | 0 <= n < |r| - 1 :: WaitsFor(m, r[n]) == r[n + 1]
    requires forall t | t in m' :: t in m && m'[t] == m[t]
    ensures r[k] in q
    decreases k
  {
    if k > 0 {
      FollowsBoth(m', q, m, r, k - 1);
      CycleCloses(m', q, r[k - 1]);
      assert WaitsFor(m, r[k - 1]) == r[k];
    }
  }

  class DeadlockDetector {
    var waitsFor: Edges

    constructor ()
      ensures waitsFor == map[]
    {
      waitsFor := map[];
    }

    /** deadlock_add_edge: a later edge of the same transaction replaces the earlier one. */
    method AddEdge(a: TxnId, b: TxnId)
      modifies this
      ensures waitsFor == old(waitsFor)[a := b]
    {
      waitsFor := waitsFor[a := b];
    }

    /** deadlock_remove_edges. */
    method RemoveEdges(t: TxnId)
      modifies this
      ensures waitsFor == old(waitsFor) - {t}
    {
      waitsFor := waitsFor - {t};
    }

    /** deadlock_detect: INVALID_TXN_ID exactly when there is no cycle, otherwise a transaction on one. */
    method Detect() returns (victim: TxnId)
      ensures victim == INVALID_TXN_ID <==> Acyclic(waitsFor)
      ensures victim != INVALID_TXN_ID ==> Deadlocked(waitsFor, victim) && victim in waitsFor
    {
      var todo := waitsFor.Keys;
      while todo != {}
        invariant todo <= waitsFor.Keys
        invariant forall t | t in waitsFor && t !in todo :: !Deadlocked(waitsFor, t)
        decreases |todo|
      {
        var start := LockManager.PickAny(todo);
        todo := todo - {start};
        var stack: seq<TxnId> := [];
        var current := start;
        while current != INVALID_TXN_ID
          invariant IsWalk(waitsFor, stack) && Distinct(stack)
          invariant current == if stack == [] then start else WaitsFor(waitsFor, stack[|stack| - 1])
          invariant stack != [] ==> stack[0] == start
          invariant current != INVALID_TXN_ID ==> |stack| <= |waitsFor|
          decreases |waitsFor| + 1 - |stack|, if current == INVALID_TXN_ID then 0 else 1
        {
          var i := 0;
          while i < |stack|
            invariant 0 <= i <= |stack|
            invariant forall j | 0 <= j < i :: stack[j] != current
          {
            if stack[i] == current {
              CycleFound(waitsFor, stack, i);
              return current;
            }
            i := i + 1;
          }
          stack := stack + [current];
          current := WaitsFor(waitsFor, current);
          if current != INVALID_TXN_ID {
            WalkLength(waitsFor, stack);
          }
        }
        EndedWalk(waitsFor, stack, start);
      }
      NoDeadlock(waitsFor);
      return INVALID_TXN_ID;
    }

    /** Detecting and removing the victim's edge until nobody is deadlocked: at most as many rounds as edges. */
    method BreakAll() returns (victims: seq<TxnId>)
      modifies this
      ensures Acyclic(waitsFor) && |victims| <= |old(waitsFor)| && Rounds(old(waitsFor), victims)
      ensures forall t | t in old(waitsFor) && t !in victims :: t in waitsFor && waitsFor[t] == old(waitsFor)[t]
      ensures waitsFor.Keys <= old(waitsFor).Keys
    {
      victims := [];
      while true
        invariant Rounds(old(waitsFor), victims) && waitsFor == Remaining(old(waitsFor), victims)
        decreases |waitsFor|
      {
        var victim := Detect();
        if victim == INVALID_TXN_ID {
          RoundsEnd(old(waitsFor), victims, []);
          RemainingEdges(old(waitsFor), victims);
          return;
        }
        NextRound(old(waitsFor), victims, victim);
        assert |(waitsFor - {victim}).Keys| == |waitsFor.Keys| - 1 by {
          assert (waitsFor - {victim}).Keys == waitsFor.Keys - {victim};
        }
        RemoveEdges(victim);
        victims := victims + [victim];
      }
    }
  }
}
