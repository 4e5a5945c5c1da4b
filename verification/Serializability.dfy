/** Histories of reads and writes, and when an interleaved history has the effect of a serial one. */
module Serializability {

  type TxnId = int
  type ResourceId = int
  type Value = int

  datatype Op = Op(txn: TxnId, resource: ResourceId, write: bool)

  type History = seq<Op>

  /** The database and, for each transaction, the values it has read so far. */
  datatype State = State(db: map<ResourceId, Value>, seen: map<TxnId, seq<Value>>)

  /** What a transaction writes may depend on everything it has read. */
  type Program = (TxnId, ResourceId, seq<Value>) -> Value

  function Lookup(db: map<ResourceId, Value>, r: ResourceId): Value {
    if r in db then db[r] else 0
  }

  function SeenBy(s: State, t: TxnId): seq<Value> {
    if t in s.seen then s.seen[t] else []
  }

  function Step(f: Program, s: State, op: Op): State {
    if op.write then s.(db := s.db[op.resource := f(op.txn, op.resource, SeenBy(s, op.txn))])
    else s.(seen := s.seen[op.txn := SeenBy(s, op.txn) + [Lookup(s.db, op.resource)]])
  }

  function Run(f: Program, s: State, h: History): State
    decreases |h|
  {
    if h == [] then s else Run(f, Step(f, s, h[0]), h[1..])
  }

  /** Accesses of two transactions to one resource, at least one of them a write. */
  predicate Conflict(a: Op, b: Op) {
    a.txn != b.txn && a.resource == b.resource && (a.write || b.write)
  }

  function Only(h: History, t: TxnId): History {
    if h == [] then [] else (if h[0].txn == t then [h[0]] else []) + Only(h[1..], t)
  }

  function Without(h: History, t: TxnId): History {
    if h == [] then [] else (if h[0].txn != t then [h[0]] else []) + Without(h[1..], t)
  }

  lemma {:induction false} WithoutMembers(h: History, t: TxnId)
    ensures forall x :: x in Without(h, t) <==> x in h && x.txn != t
    decreases |h|
  {
    if h != [] {
      WithoutMembers(h[1..], t);
      assert h == [h[0]] + h[1..];
    }
  }

  /** The serial history that runs the transactions one after the other. */
  function Serial(h: History, order: seq<TxnId>): History {
    if order == [] then [] else Serial(h, order[..|order| - 1]) + Only(h, order[|order| - 1])
  }

  /** Transaction `a` stands before `b` in the order. */
  ghost predicate Precedes(order: seq<TxnId>, a: TxnId, b: TxnId) {
    exists i, j :: 0 <= i < j < |order| && order[i] == a && order[j] == b
  }

  /** Conflicting accesses occur in the order of their transactions. */
  ghost predicate ConflictsFollow(h: History, order: seq<TxnId>) {
    forall i, j | 0 <= i < j < |h| && Conflict(h[i], h[j]) :: Precedes(order, h[i].txn, h[j].txn)
  }

  ghost predicate Distinct(order: seq<TxnId>) {
    forall i, j | 0 <= i < j < |order| :: order[i] != order[j]
  }

  lemma {:induction false} RunAppend(f: Program, s: State, a: History, b: History)
    ensures Run(f, s, a + b) == Run(f, Run(f, s, a), b)
    decreases |a|
  {
    if a == [] {
      assert a + b == b;
    } else {
      assert (a + b)[1..] == a[1..] + b;
      RunAppend(f, Step(f, s, a[0]), a[1..], b);
    }
  }

  /** Accesses of different transactions that do not conflict commute. */
  lemma Commute(f: Program, s: State, a: Op, b: Op)
    requires a.txn != b.txn && !Conflict(a, b)
    ensures Step(f, Step(f, s, a), b) == Step(f, Step(f, s, b), a)
  {
    var sa, sb := Step(f, s, a), Step(f, s, b);
    assert SeenBy(sa, b.txn) == SeenBy(s, b.txn) && SeenBy(sb, a.txn) == SeenBy(s, a.txn);
    assert Step(f, sa, b).db == Step(f, sb, a).db;
    assert Step(f, sa, b).seen == Step(f, sb, a).seen;
  }

  /** An access moves behind a whole stretch it does not conflict with. */
  lemma {:induction false} MovePast(f: Program, s: State, a: Op, h: History)
    requires forall x | x in h :: x.txn != a.txn && !Conflict(a, x)
    ensures Run(f, Step(f, s, a), h) == Step(f, Run(f, s, h), a)
    decreases |h|
  {
    if h != [] {
      assert h[0] in h;
      Commute(f, s, a, h[0]);
      MovePast(f, Step(f, s, h[0]), a, h[1..]);
    }
  }

  /** A transaction whose accesses conflict with nothing that comes later may run last. */
  lemma {:induction false} MoveToEnd(f: Program, s: State, h: History, t: TxnId)
    requires forall i, j | 0 <= i < j < |h| && h[i].txn == t :: !Conflict(h[i], h[j])
    ensures Run(f, s, h) == Run(f, s, Without(h, t) + Only(h, t))
    decreases |h|
  {
    if h == [] {
      assert Without(h, t) + Only(h, t) == h;
    } else {
      var a, rest := h[0], h[1..];
      assert forall i | 0 <= i < |rest| :: rest[i] == h[i + 1];
      MoveToEnd(f, Step(f, s, a), rest, t);
      var w, o := Without(rest, t), Only(rest, t);
      RunAppend(f, Step(f, s, a), w, o);
      if a.txn == t {
        WithoutMembers(rest, t);
        forall x | x in w
          ensures x.txn != a.txn && !Conflict(a, x)
        {
          var j :| 0 <= j < |rest| && rest[j] == x;
          assert h[j + 1] == x && h[0] == a;
        }
        MovePast(f, s, a, w);
        RunAppend(f, s, w, [a] + o);
        assert ([a] + o)[1..] == o;
        assert Without(h, t) == w && Only(h, t) == [a] + o;
      } else {
        RunAppend(f, s, [a] + w, o);
        assert ([a] + w)[1..] == w;
        assert Without(h, t) == [a] + w && Only(h, t) == o;
      }
    }
  }

  lemma {:induction false} OnlyWithout(h: History, t: TxnId, u: TxnId)
    requires t != u
    ensures Only(Without(h, t), u) == Only(h, u)
    decreases |h|
  {
    if h != [] {
      OnlyWithout(h[1..], t, u);
      var w := Without(h[1..], t);
      if h[0].txn != t {
        assert ([h[0]] + w)[1..] == w;
      } else {
        assert [] + w == w;
      }
    }
  }

  lemma {:induction false} SerialWithout(h: History, order: seq<TxnId>, t: TxnId)
    requires t !in order
    ensures Serial(Without(h, t), order) == Serial(h, order)
    decreases |order|
  {
    if order != [] {
      SerialWithout(h, order[..|order| - 1], t);
      OnlyWithout(h, t, order[|order| - 1]);
    }
  }

  /** Dropping one transaction keeps the others' accesses in their order. */
  lemma {:induction false} WithoutPositions(h: History, t: TxnId, i: int, j: int) returns (k: int, l: int)
    requires 0 <= i < j < |Without(h, t)|
    ensures 0 <= k < l < |h| && h[k] == Without(h, t)[i] && h[l] == Without(h, t)[j]
    decreases |h|
  {
    var rest, w := h[1..], Without(h[1..], t);
    if h[0].txn == t {
      assert Without(h, t) == w;
      k, l := WithoutPositions(rest, t, i, j);
      k, l := k + 1, l + 1;
    } else {
      assert Without(h, t) == [h[0]] + w;
      if i == 0 {
        var m := PositionOf(rest, t, j - 1);
        k, l := 0, m + 1;
      } else {
        k, l := WithoutPositions(rest, t, i - 1, j - 1);
        k, l := k + 1, l + 1;
      }
    }
  }

  lemma PositionOf(h: History, t: TxnId, j: int) returns (m: int)
    requires 0 <= j < |Without(h, t)|
    ensures 0 <= m < |h| && h[m] == Without(h, t)[j]
  {
    var x := Without(h, t)[j];
    WithoutMembers(h, t);
    assert x in Without(h, t);
    m :| 0 <= m < |h| && h[m] == x;
  }

  /** Serialisability: a history whose conflicts follow an order of its transactions has the effect of
      running the transactions one after the other in that order - the same final database, and the
      same values read by every transaction. */
  lemma {:induction false} Serialisable(f: Program, s: State, h: History, order: seq<TxnId>)
    requires Distinct(order) && ConflictsFollow(h, order)
    requires forall x | x in h :: x.txn in order
    ensures Run(f, s, h) == Run(f, s, Serial(h, order))
    decreases |order|
  {
    if order != [] {
      var front, t := order[..|order| - 1], order[|order| - 1];
      LastConflictsWithNothingLater(h, order);
      MoveToEnd(f, s, h, t);
      var w := Without(h, t);
      WithoutFollows(h, order);
      WithoutMembers(h, t);
      forall x | x in w
        ensures x.txn in front
      {
        var i :| 0 <= i < |order| && order[i] == x.txn;
        assert front[i] == x.txn;
      }
      Serialisable(f, s, w, front);
      SerialWithout(h, front, t);
      RunAppend(f, s, w, Only(h, t));
      RunAppend(f, s, Serial(h, front), Only(h, t));
    }
  }

  lemma LastConflictsWithNothingLater(h: History, order: seq<TxnId>)
    requires Distinct(order) && ConflictsFollow(h, order) && order != []
    ensures forall i, j | 0 <= i < j < |h| && h[i].txn == order[|order| - 1] :: !Conflict(h[i], h[j])
  {
    forall i, j | 0 <= i < j < |h| && h[i].txn == order[|order| - 1]
      ensures !Conflict(h[i], h[j])
    {
      assert !Precedes(order, h[i].txn, h[j].txn);
    }
  }

  lemma WithoutFollows(h: History, order: seq<TxnId>)
    requires Distinct(order) && ConflictsFollow(h, order) && order != []
    ensures Distinct(order[..|order| - 1])
    ensures ConflictsFollow(Without(h, order[|order| - 1]), order[..|order| - 1])
    ensures order[|order| - 1] !in order[..|order| - 1]
  {
    var front, t := order[..|order| - 1], order[|order| - 1];
    var w := Without(h, t);
    WithoutMembers(h, t);
    forall i, j | 0 <= i < j < |w| && Conflict(w[i], w[j])
      ensures Precedes(front, w[i].txn, w[j].txn)
    {
      var k, l := WithoutPositions(h, t, i, j);
      var a, b :| 0 <= a < b < |order| && order[a] == w[i].txn && order[b] == w[j].txn;
      assert w[j] in w;
      assert front[a] == w[i].txn && front[b] == w[j].txn;
    }
  }
}
