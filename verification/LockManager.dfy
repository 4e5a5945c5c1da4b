/** The lock manager (src/transaction/lock_manager.c): one request queue per resource. */
module LockManager {

  type TxnId = int
  type ResourceId = int

  datatype LockMode = Shared | Exclusive | IntentShared | IntentExclusive

  datatype Request = Request(txn: TxnId, mode: LockMode, granted: bool)

  type Queue = seq<Request>
  type Table = map<ResourceId, Queue>

  /** The order of the modes in the enumeration lock_mode_t, by which a re-request is judged an upgrade. */
  function Rank(m: LockMode): int {
    match m
    case Shared => 0
    case Exclusive => 1
    case IntentShared => 2
    case IntentExclusive => 3
  }

  /** The compatibility matrix. */
  predicate Compatible(a: LockMode, b: LockMode) {
    match a
    case Shared => b.Shared? || b.IntentShared?
    case Exclusive => false
    case IntentShared => !b.Exclusive?
    case IntentExclusive => b.IntentShared? || b.IntentExclusive?
  }

  /** The modes that two transactions may hold beside each other. */
  const BESIDE: set<(LockMode, LockMode)> :=
    {(Shared, Shared), (Shared, IntentShared), (IntentShared, Shared), (IntentShared, IntentShared),
     (IntentShared, IntentExclusive), (IntentExclusive, IntentShared), (IntentExclusive, IntentExclusive)}

  lemma CompatibleIff(a: LockMode, b: LockMode)
    ensures Compatible(a, b) <==> (a, b) in BESIDE
  {
  }

  /** Some granted request other than number `i` excludes `mode`. */
  ghost predicate Blocked(q: Queue, i: int, mode: LockMode) {
    exists j :: 0 <= j < |q| && j != i && q[j].granted && !Compatible(mode, q[j].mode)
  }

  // ---------------------------------------------------------------------------------------------
  // What the operations do to one queue

  ghost predicate FirstOf(q: Queue, txn: TxnId, i: int) {
    0 <= i < |q| && q[i].txn == txn && forall j | 0 <= j < i :: q[j].txn != txn
  }

  ghost predicate Waits(q: Queue, txn: TxnId) {
    exists i :: FirstOf(q, txn, i)
  }

  /** lock_acquire on the queue of the resource. */
  ghost function Acquired(q: Queue, txn: TxnId, mode: LockMode): Queue {
    if Waits(q, txn) then
      var i :| FirstOf(q, txn, i);
      if q[i].granted then
        if Rank(mode) > Rank(q[i].mode) then q[i := q[i].(mode := mode)] else q
      else q[i := Request(txn, mode, !Blocked(q, i, mode))]
    else q + [Request(txn, mode, !Blocked(q, -1, mode))]
  }

  /** Whether `txn` holds a granted request, which is what lock_acquire reports. */
  ghost predicate Holds(q: Queue, txn: TxnId) {
    exists i :: FirstOf(q, txn, i) && q[i].granted
  }

  /** The transaction's granted request is for exactly this mode. */
  ghost predicate HoldsMode(q: Queue, txn: TxnId, mode: LockMode) {
    exists i :: FirstOf(q, txn, i) && q[i].granted && q[i].mode == mode
  }

  /** Its granted request is for a mode that comes later in the enumeration, which a re-request does not change. */
  ghost predicate HoldsLater(q: Queue, txn: TxnId, mode: LockMode) {
    exists i :: FirstOf(q, txn, i) && q[i].granted && Rank(mode) < Rank(q[i].mode)
  }

  /** Success means that the mode asked for is held, unless a later one was held before. */
  lemma GrantedMode(q: Queue, txn: TxnId, mode: LockMode)
    requires Holds(Acquired(q, txn, mode), txn)
    ensures HoldsMode(Acquired(q, txn, mode), txn, mode) <==> !HoldsLater(q, txn, mode)
  {
    var q' := Acquired(q, txn, mode);
    var k :| FirstOf(q', txn, k) && q'[k].granted;
    if Waits(q, txn) {
      var i :| FirstOf(q, txn, i) && q' == (
        if q[i].granted then
          if Rank(mode) > Rank(q[i].mode) then q[i := q[i].(mode := mode)] else q
        else q[i := Request(txn, mode, !Blocked(q, i, mode))]);
      assert FirstOf(q', txn, i);
      if Rank(mode) == Rank(q[i].mode) {
        SameRank(mode, q[i].mode);
      }
    } else {
      assert forall j | 0 <= j < |q| :: q[j] == q'[j];
      assert k < |q| ==> FirstOf(q, txn, k);
      assert q'[|q|].mode == mode;
    }
  }

  lemma SameRank(a: LockMode, b: LockMode)
    requires Rank(a) == Rank(b)
    ensures a == b
  {
  }

  /** A first request joins the queue; it is granted exactly if its mode goes with that of every holder. */
  lemma FirstRequest(q: Queue, txn: TxnId, mode: LockMode)
    requires forall j {:trigger q[j]} :: 0 <= j < |q| ==> q[j].txn != txn
    ensures var granted := forall j {:trigger q[j]} :: 0 <= j < |q| && q[j].granted ==> (mode, q[j].mode) in BESIDE;
            Acquired(q, txn, mode) == q + [Request(txn, mode, granted)]
  {
    ModesBeside(q, -1, mode);
  }

  lemma FirstOutcome(q: Queue, txn: TxnId, mode: LockMode)
    ensures (forall j {:trigger q[j]} :: 0 <= j < |q| ==> q[j].txn != txn) ==>
              (Holds(Acquired(q, txn, mode), txn) <==>
                 forall j {:trigger q[j]} :: 0 <= j < |q| && q[j].granted ==> (mode, q[j].mode) in BESIDE)
  {
    if forall j {:trigger q[j]} :: 0 <= j < |q| ==> q[j].txn != txn {
      FirstRequest(q, txn, mode);
      assert FirstOf(Acquired(q, txn, mode), txn, |q|);
    }
  }

  /** A waiting request is judged anew, with the new mode. */
  lemma WaitingRequest(q: Queue, txn: TxnId, mode: LockMode, i: nat)
    requires i < |q| && q[i].txn == txn && !q[i].granted && forall j {:trigger q[j]} :: 0 <= j < i ==> q[j].txn != txn
    ensures var granted := forall j {:trigger q[j]} :: 0 <= j < |q| && j != i && q[j].granted ==> (mode, q[j].mode) in BESIDE;
            Acquired(q, txn, mode) == q[i := Request(txn, mode, granted)]
  {
    assert FirstOf(q, txn, i);
    ModesBeside(q, i, mode);
  }

  /** A held lock takes the new mode exactly if it comes later in S, X, IS, IX, whoever else holds a lock. */
  lemma HeldRequest(q: Queue, txn: TxnId, mode: LockMode, i: nat)
    requires i < |q| && q[i].txn == txn && q[i].granted && forall j {:trigger q[j]} :: 0 <= j < i ==> q[j].txn != txn
    ensures var raised := (q[i].mode, mode) in {(Shared, Exclusive), (Shared, IntentShared), (Shared, IntentExclusive),
                                                (Exclusive, IntentShared), (Exclusive, IntentExclusive),
                                                (IntentShared, IntentExclusive)};
            Acquired(q, txn, mode) == q[i := Request(txn, if raised then mode else q[i].mode, true)]
  {
    assert FirstOf(q, txn, i);
  }

  lemma ModesBeside(q: Queue, i: int, mode: LockMode)
    ensures Blocked(q, i, mode) <==>
            !(forall j {:trigger q[j]} :: 0 <= j < |q| && j != i && q[j].granted ==> (mode, q[j].mode) in BESIDE)
  {
    forall j | 0 <= j < |q| {
      CompatibleIff(mode, q[j].mode);
    }
  }

  function Without(q: Queue, txn: TxnId): (r: Queue)
    ensures forall x :: x in r <==> x in q && x.txn != txn
  {
    if q == [] then []
    else if q[|q| - 1].txn == txn then Without(q[..|q| - 1], txn)
    else Without(q[..|q| - 1], txn) + [q[|q| - 1]]
  }

  /** The waiting requests from number `k` on are granted in queue order as far as they are compatible. */
  ghost function Regranted(q: Queue, k: nat): (r: Queue)
    decreases |q| - k
  {
    if k >= |q| then q
    else if !q[k].granted && !Blocked(q, k, q[k].mode) then Regranted(q[k := q[k].(granted := true)], k + 1)
    else Regranted(q, k + 1)
  }

  /** lock_release_all on one queue. */
  ghost function Released(q: Queue, txn: TxnId): Queue {
    if Without(q, txn) == q then q else Regranted(Without(q, txn), 0)
  }

  ghost function QueueOf(t: Table, r: ResourceId): Queue {
    if r in t then t[r] else []
  }

  ghost function ReleasedTable(t: Table, txn: TxnId): Table {
    map r | r in t :: Released(t[r], txn)
  }

  /** Some element of a set, in no particular order: the iteration order of the hash map. */
  method PickAny<T(==)>(s: set<T>) returns (x: T)
    requires s != {}
    ensures x in s
  {
    x :| x in s;
  }

  class LockManager {
    var table: Table

    constructor ()
      ensures table == map[]
    {
      table := map[];
    }

    /** lock_acquire: reports whether the transaction holds a lock on the resource, of whatever mode. */
    method Acquire(txn: TxnId, resource: ResourceId, mode: LockMode) returns (ok: bool)
      modifies this
      ensures table == old(table)[resource := Acquired(QueueOf(old(table), resource), txn, mode)]
      ensures ok == Holds(table[resource], txn)
      ensures var q := QueueOf(old(table), resource);
              (forall j {:trigger q[j]} :: 0 <= j < |q| ==> q[j].txn != txn) ==>
                (ok <==> forall j {:trigger q[j]} :: 0 <= j < |q| && q[j].granted ==> (mode, q[j].mode) in BESIDE)
      ensures ok ==> (HoldsMode(table[resource], txn, mode) <==> !HoldsLater(QueueOf(old(table), resource), txn, mode))
    {
      ok := Enqueue(txn, resource, mode);
      FirstOutcome(QueueOf(old(table), resource), txn, mode);
      if ok {
        GrantedMode(QueueOf(old(table), resource), txn, mode);
      }
    }

    /** The search for the transaction's request and what becomes of it. */
    method Enqueue(txn: TxnId, resource: ResourceId, mode: LockMode) returns (ok: bool)
      modifies this
      ensures table == old(table)[resource := Acquired(QueueOf(old(table), resource), txn, mode)]
      ensures ok == Holds(table[resource], txn)
    {
      if resource !in table {
        table := table[resource := []];
      }
      var q := table[resource];
      var i := 0;
      while i < |q|
        invariant 0 <= i <= |q|
        invariant forall j | 0 <= j < i :: q[j].txn != txn
      {
        if q[i].txn == txn {
          assert FirstOf(q, txn, i);
          if q[i].granted {
            if Rank(mode) > Rank(q[i].mode) {
              table := table[resource := q[i := q[i].(mode := mode)]];
            }
            assert FirstOf(table[resource], txn, i);
            return true;
          }
          var blocked := IsBlocked(q, i, mode);
          table := table[resource := q[i := Request(txn, mode, !blocked)]];
          assert FirstOf(table[resource], txn, i);
          return !blocked;
        }
        i := i + 1;
      }
      var blocked := IsBlocked(q, -1, mode);
      table := table[resource := q + [Request(txn, mode, !blocked)]];
      assert FirstOf(table[resource], txn, |q|);
      return !blocked;
    }

    /** lock_release_all: drops every request of the transaction and grants what can then be granted. */
    method ReleaseAll(txn: TxnId)
      modifies this
      ensures table == ReleasedTable(old(table), txn)
    {
      var todo := table.Keys;
      while todo != {}
        invariant todo <= table.Keys == old(table).Keys
        invariant forall r | r in table ::
                    table[r] == if r in todo then old(table)[r] else Released(old(table)[r], txn)
        decreases |todo|
      {
        var r := PickAny(todo);
        var q := ReleaseQueue(table[r], txn);
        table := table[r := q];
        todo := todo - {r};
      }
      forall r | r in table
        ensures table[r] == Released(old(table)[r], txn)
      {
        assert r !in todo;
      }
    }
  }

  method IsBlocked(q: Queue, i: int, mode: LockMode) returns (blocked: bool)
    ensures blocked == Blocked(q, i, mode)
  {
    var j := 0;
    while j < |q|
      invariant 0 <= j <= |q|
      invariant forall k | 0 <= k < j :: k == i || !q[k].granted || Compatible(mode, q[k].mode)
    {
      if j != i && q[j].granted && !Compatible(mode, q[j].mode) {
        return true;
      }
      j := j + 1;
    }
    return false;
  }

  /** Removal of a transaction's requests by shifting the later ones down. */
  method RemoveRequests(q0: Queue, txn: TxnId) returns (q: Queue)
    ensures q == Without(q0, txn)
  {
    q := q0;
    ghost var n := 0;
    var j := 0;
    while j < |q|
      invariant 0 <= j <= n <= |q0| && |q| - j == |q0| - n
      invariant q[..j] == Without(q0[..n], txn)
      invariant q[j..] == q0[n..]
    {
      assert q[j] == q[j..][0] == q0[n..][0] == q0[n];
      assert q0[..n + 1][..n] == q0[..n];
      assert q[j..][1..] == q0[n..][1..] == q0[n + 1..];
      if q[j].txn == txn {
        q := q[..j] + q[j + 1..];
      } else {
        j := j + 1;
      }
      n := n + 1;
    }
    assert q0[..n] == q0 && q[..j] == q;
  }

  /** The two loops over one queue: removal, then granting. */
  method ReleaseQueue(q0: Queue, txn: TxnId) returns (q: Queue)
    ensures q == Released(q0, txn)
  {
    q := RemoveRequests(q0, txn);
    WithoutShorter(q0, txn);
    if |q| < |q0| {
      var k := 0;
      while k < |q|
        invariant 0 <= k <= |q|
        invariant Regranted(q, k) == Regranted(Without(q0, txn), 0)
      {
        if !q[k].granted {
          var blocked := IsBlocked(q, k, q[k].mode);
          if !blocked {
            q := q[k := q[k].(granted := true)];
          }
        }
        k := k + 1;
      }
    }
  }

  lemma {:induction false} WithoutShorter(q: Queue, txn: TxnId)
    ensures |Without(q, txn)| <= |q|
    ensures |Without(q, txn)| == |q| ==> Without(q, txn) == q
    decreases |q|
  {
    if q != [] {
      WithoutShorter(q[..|q| - 1], txn);
      assert q == q[..|q| - 1] + [q[|q| - 1]];
    }
  }
}
