/** Transactions over the lock manager (src/transaction/txn_manager.c) as a state machine, and the
    guarantee that strict two-phase locking gives: every run is serialisable in the order in which its
    transactions end.  An abort undoes nothing, so aborted transactions take part in that order. */
module TwoPhaseLocking {
  import opened LockManager
  import opened LockTable
  import S = Serializability
  import R = Recoverability

  type Op = S.Op

  datatype Status = Active | Committed | Aborted

  datatype Event = Access(op: Op) | Finished(txn: TxnId, committed: bool)

  /** `log` is the history of everything the transactions did. */
  datatype System = System(nextId: TxnId, status: map<TxnId, Status>, table: Table, log: seq<Event>)

  datatype Action =
    | Begin
    | Ask(txn: TxnId, resource: ResourceId, mode: LockMode)
    | Touch(txn: TxnId, resource: ResourceId, write: bool)
    | Finish(txn: TxnId, commit: bool)

  ghost predicate IsActive(s: System, t: TxnId) {
    t in s.status && s.status[t] == Active
  }

  /** A granted shared or exclusive lock covers reading, a granted exclusive lock covers writing. */
  predicate Covers(m: LockMode, write: bool) {
    m.Exclusive? || (m.Shared? && !write)
  }

  ghost predicate Covered(q: Queue, t: TxnId, write: bool) {
    exists x :: x in q && x.txn == t && x.granted && Covers(x.mode, write)
  }

  /** A transaction may read under a granted S or X and write under a granted X, and otherwise it may not. */
  lemma CoveredIff(q: Queue, t: TxnId, write: bool)
    ensures Covered(q, t, write) <==>
            Request(t, Exclusive, true) in q || (!write && Request(t, Shared, true) in q)
  {
    if Covered(q, t, write) {
      var x :| x in q && x.txn == t && x.granted && Covers(x.mode, write);
      assert x == Request(t, x.mode, true);
    }
  }

  /** The re-request turns a lock that covers accesses into an intention lock, which covers none. */
  ghost predicate DropsCover(q: Queue, txn: TxnId, mode: LockMode) {
    exists i :: Raises(q, txn, mode, i) && Covers(q[i].mode, false) && !Covers(mode, false)
  }

  /** A request that neither overrides another holder nor gives up cover. */
  ghost predicate Protective(q: Queue, txn: TxnId, mode: LockMode) {
    !OverridesHolder(q, txn, mode) && !DropsCover(q, txn, mode)
  }

  /** Each access is made by an active transaction under a lock that covers it. */
  ghost predicate Enabled(s: System, a: Action) {
    match a
    case Begin => true
    case Ask(txn, resource, mode) => Protective(QueueOf(s.table, resource), txn, mode)
    case Touch(txn, resource, write) => IsActive(s, txn) && Covered(QueueOf(s.table, resource), txn, write)
    case Finish(txn, commit) => IsActive(s, txn)
  }

  ghost function Next(s: System, a: Action): System {
    match a
    case Begin => s.(nextId := s.nextId + 1, status := s.status[s.nextId := Active])
    case Ask(txn, resource, mode) => s.(table := After(s.table, Lock(txn, resource, mode)))
    case Touch(txn, resource, write) => s.(log := s.log + [Access(S.Op(txn, resource, write))])
    case Finish(txn, commit) =>
      s.(status := s.status[txn := if commit then Committed else Aborted],
         table := After(s.table, End(txn)),
         log := s.log + [Finished(txn, commit)])
  }

  const INITIAL := System(1, map[], map[], [])

  ghost function StateAfter(actions: seq<Action>): System {
    if actions == [] then INITIAL else Next(StateAfter(actions[..|actions| - 1]), actions[|actions| - 1])
  }

  /** Every action of the run is enabled where it is taken. */
  ghost predicate Legal(actions: seq<Action>) {
    actions != [] ==>
      Legal(actions[..|actions| - 1]) && Enabled(StateAfter(actions[..|actions| - 1]), actions[|actions| - 1])
  }

  // ---------------------------------------------------------------------------------------------
  // The invariant

  ghost predicate AccessAt(s: System, i: int, op: Op) {
    0 <= i < |s.log| && s.log[i] == Access(op)
  }

  ghost predicate FinishedAt(s: System, k: int, t: TxnId) {
    0 <= k < |s.log| && s.log[k].Finished? && s.log[k].txn == t
  }

  ghost predicate QueuesOk(t: Table) {
    forall r | r in t :: OneEach(t[r]) && GrantedCompatible(t[r])
  }

  /** Everything an active transaction has accessed is still covered by its locks. */
  ghost predicate StillCovered(s: System) {
    forall i, op | AccessAt(s, i, op) && IsActive(s, op.txn) ::
      Covered(QueueOf(s.table, op.resource), op.txn, op.write)
  }

  /** The log says of a transaction what its status says: it ended once, after all its accesses. */
  ghost predicate LogOk(s: System) {
    && (forall t | t in s.status :: t < s.nextId)
    && (forall i, op | AccessAt(s, i, op) :: op.txn in s.status)
    && (forall i, op | AccessAt(s, i, op) && !IsActive(s, op.txn) :: exists k :: FinishedAt(s, k, op.txn) && i < k)
    && (forall k, t | FinishedAt(s, k, t) ::
          t in s.status && s.status[t] == if s.log[k].committed then Committed else Aborted)
    && (forall k, t, i, op | FinishedAt(s, k, t) && AccessAt(s, i, op) && op.txn == t :: i < k)
    && (forall k, l, t | FinishedAt(s, k, t) && FinishedAt(s, l, t) :: k == l)
  }

  /** Between two conflicting accesses the transaction that came first has ended. */
  ghost predicate Separated(s: System) {
    forall i, j, a, b | AccessAt(s, i, a) && AccessAt(s, j, b) && i < j && S.Conflict(a, b) ::
      exists k :: FinishedAt(s, k, a.txn) && i < k < j
  }

  ghost predicate Inv(s: System) {
    QueuesOk(s.table) && StillCovered(s) && LogOk(s) && Separated(s)
  }

  // ---------------------------------------------------------------------------------------------
  // Locks

  lemma AcquireKeepsCover(q: Queue, txn: TxnId, mode: LockMode, t: TxnId, write: bool)
    requires OneEach(q) && !DropsCover(q, txn, mode) && Covered(q, t, write)
    ensures Covered(Acquired(q, txn, mode), t, write)
  {
    var q' := Acquired(q, txn, mode);
    var x :| x in q && x.txn == t && x.granted && Covers(x.mode, write);
    if Waits(q, txn) {
      var i :| FirstOf(q, txn, i);
      AcquiredAt(q, txn, mode, i);
      var k :| 0 <= k < |q| && q[k] == x;
      assert q'[k] in q';
      if k == i && Rank(mode) > Rank(x.mode) {
        assert Raises(q, txn, mode, i);
      }
    } else {
      assert x in q';
    }
  }

  /** Exactly when lock_acquire keeps both what protects a transaction's accesses: compatible holders
      and, for the asking transaction, the cover it had. */
  lemma ProtectiveIff(q: Queue, txn: TxnId, mode: LockMode)
    requires OneEach(q) && GrantedCompatible(q)
    ensures Protective(q, txn, mode) <==>
              && GrantedCompatible(Acquired(q, txn, mode))
              && forall t, write | Covered(q, t, write) :: Covered(Acquired(q, txn, mode), t, write)
  {
    AcquireKeepsCompatible(q, txn, mode);
    if DropsCover(q, txn, mode) {
      var i :| Raises(q, txn, mode, i) && Covers(q[i].mode, false) && !Covers(mode, false);
      AcquiredAt(q, txn, mode, i);
      assert q[i] in q && Covered(q, txn, false);
      var q' := Acquired(q, txn, mode);
      AcquireKeepsOneEach(q, txn, mode);
      forall x | x in q' && x.txn == txn
        ensures x.mode == mode
      {
        var k :| 0 <= k < |q'| && q'[k] == x;
        assert k == i;
      }
      assert !Covered(q', txn, false);
    } else {
      forall t, write | Covered(q, t, write)
        ensures Covered(Acquired(q, txn, mode), t, write)
      {
        AcquireKeepsCover(q, txn, mode, t, write);
      }
    }
  }

  lemma ReleaseKeepsCover(q: Queue, txn: TxnId, t: TxnId, write: bool)
    requires OneEach(q) && GrantedCompatible(q) && t != txn && Covered(q, t, write)
    ensures Covered(Released(q, txn), t, write)
  {
    ReleaseOk(q, txn);
    var x :| x in q && x.txn == t && x.granted && Covers(x.mode, write);
    assert x in Released(q, txn);
  }

  /** Two transactions cannot both cover conflicting accesses. */
  lemma CoverExcludes(q: Queue, a: Op, b: Op)
    requires GrantedCompatible(q) && S.Conflict(a, b)
    ensures !(Covered(q, a.txn, a.write) && Covered(q, b.txn, b.write))
  {
    forall x, y | x in q && y in q && x.txn == a.txn && y.txn == b.txn && x.granted && y.granted
      ensures Compatible(x.mode, y.mode)
    {
      var i :| 0 <= i < |q| && q[i] == x;
      var j :| 0 <= j < |q| && q[j] == y;
    }
  }

  // ---------------------------------------------------------------------------------------------
  // Every step keeps the invariant

  lemma AskKeepsInv(s: System, txn: TxnId, resource: ResourceId, mode: LockMode)
    requires Inv(s) && Enabled(s, Ask(txn, resource, mode))
    ensures Inv(Next(s, Ask(txn, resource, mode)))
  {
    var s' := Next(s, Ask(txn, resource, mode));
    var q := QueueOf(s.table, resource);
    AcquireKeepsOneEach(q, txn, mode);
    AcquireKeepsCompatible(q, txn, mode);
    forall i, op | AccessAt(s', i, op) && IsActive(s', op.txn)
      ensures Covered(QueueOf(s'.table, op.resource), op.txn, op.write)
    {
      assert AccessAt(s, i, op);
      if op.resource == resource {
        AcquireKeepsCover(q, txn, mode, op.txn, op.write);
      }
    }
    SameLog(s, s');
  }

  /** The log clauses depend on the log and the status only. */
  lemma SameLog(s: System, s': System)
    requires LogOk(s) && Separated(s) && s'.log == s.log && s'.status == s.status && s'.nextId == s.nextId
    ensures LogOk(s') && Separated(s')
  {
    assert forall i, op :: AccessAt(s, i, op) == AccessAt(s', i, op);
    assert forall k, t :: FinishedAt(s, k, t) == FinishedAt(s', k, t);
    assert forall t :: IsActive(s, t) == IsActive(s', t);
  }

  lemma BeginKeepsInv(s: System)
    requires Inv(s)
    ensures Inv(Next(s, Begin))
  {
    var s' := Next(s, Begin);
    assert forall i, op :: AccessAt(s, i, op) == AccessAt(s', i, op);
    assert forall k, t :: FinishedAt(s, k, t) == FinishedAt(s', k, t);
    forall i, op | AccessAt(s', i, op)
      ensures IsActive(s', op.txn) == IsActive(s, op.txn)
    {
      assert AccessAt(s, i, op);
    }
    assert LogOk(s') by {
      forall i, op | AccessAt(s', i, op) && !IsActive(s', op.txn)
        ensures exists k :: FinishedAt(s', k, op.txn) && i < k
      {
        assert AccessAt(s, i, op);
        var k :| FinishedAt(s, k, op.txn) && i < k;
        assert FinishedAt(s', k, op.txn);
      }
    }
    assert StillCovered(s');
    assert Separated(s') by {
      forall i, j, a, b | AccessAt(s', i, a) && AccessAt(s', j, b) && i < j && S.Conflict(a, b)
        ensures exists k :: FinishedAt(s', k, a.txn) && i < k < j
      {
        assert AccessAt(s, i, a) && AccessAt(s, j, b);
        var k :| FinishedAt(s, k, a.txn) && i < k < j;
        assert FinishedAt(s', k, a.txn);
      }
    }
  }

  lemma TouchKeepsInv(s: System, txn: TxnId, resource: ResourceId, write: bool)
    requires Inv(s) && Enabled(s, Touch(txn, resource, write))
    ensures Inv(Next(s, Touch(txn, resource, write)))
  {
    var s' := Next(s, Touch(txn, resource, write));
    var n, op0 := |s.log|, S.Op(txn, resource, write);
    forall i, op | AccessAt(s', i, op)
      ensures AccessAt(s, i, op) || (i == n && op == op0)
    {
    }
    assert forall k, t :: FinishedAt(s', k, t) == FinishedAt(s, k, t);
    assert LogOk(s') by {
      forall i, op | AccessAt(s', i, op) && !IsActive(s', op.txn)
        ensures exists k :: FinishedAt(s', k, op.txn) && i < k
      {
        assert AccessAt(s, i, op);
        var k :| FinishedAt(s, k, op.txn) && i < k;
        assert FinishedAt(s', k, op.txn);
      }
    }
    assert StillCovered(s');
    forall i, j, a, b | AccessAt(s', i, a) && AccessAt(s', j, b) && i < j && S.Conflict(a, b)
      ensures exists k :: FinishedAt(s', k, a.txn) && i < k < j
    {
      assert AccessAt(s, i, a);
      if AccessAt(s, j, b) {
        var k :| FinishedAt(s, k, a.txn) && i < k < j;
        assert FinishedAt(s', k, a.txn);
      } else {
        CoverExcludes(QueueOf(s.table, resource), a, b);
        assert !IsActive(s, a.txn);
        var k :| FinishedAt(s, k, a.txn) && i < k;
        assert FinishedAt(s', k, a.txn);
      }
    }
  }

  lemma FinishKeepsInv(s: System, txn: TxnId, commit: bool)
    requires Inv(s) && Enabled(s, Finish(txn, commit))
    ensures Inv(Next(s, Finish(txn, commit)))
  {
    var s' := Next(s, Finish(txn, commit));
    var n := |s.log|;
    assert forall i, op :: AccessAt(s', i, op) == AccessAt(s, i, op);
    forall k, t | FinishedAt(s', k, t)
      ensures FinishedAt(s, k, t) || (k == n && t == txn)
    {
    }
    assert FinishedAt(s', n, txn);
    forall r | r in s'.table
      ensures OneEach(s'.table[r]) && GrantedCompatible(s'.table[r])
    {
      ReleaseOk(s.table[r], txn);
    }
    assert StillCovered(s') by {
      forall i, op | AccessAt(s', i, op) && IsActive(s', op.txn)
        ensures Covered(QueueOf(s'.table, op.resource), op.txn, op.write)
      {
        assert AccessAt(s, i, op) && IsActive(s, op.txn);
        ReleaseKeepsCover(QueueOf(s.table, op.resource), txn, op.txn, op.write);
      }
    }
    FinishKeepsLog(s, txn, commit);
  }

  lemma FinishKeepsLog(s: System, txn: TxnId, commit: bool)
    requires Inv(s) && Enabled(s, Finish(txn, commit))
    ensures LogOk(Next(s, Finish(txn, commit))) && Separated(Next(s, Finish(txn, commit)))
  {
    var s' := Next(s, Finish(txn, commit));
    var n := |s.log|;
    assert forall i, op :: AccessAt(s', i, op) == AccessAt(s, i, op);
    forall k, t | FinishedAt(s', k, t)
      ensures (FinishedAt(s, k, t) && t != txn && s'.log[k] == s.log[k]) || (k == n && t == txn)
    {
    }
    assert FinishedAt(s', n, txn);
    forall i, op | AccessAt(s', i, op) && !IsActive(s', op.txn)
      ensures exists k :: FinishedAt(s', k, op.txn) && i < k
    {
      assert AccessAt(s, i, op);
      if op.txn != txn {
        var k :| FinishedAt(s, k, op.txn) && i < k;
        assert FinishedAt(s', k, op.txn);
      }
    }
    forall i, j, a, b | AccessAt(s', i, a) && AccessAt(s', j, b) && i < j && S.Conflict(a, b)
      ensures exists k :: FinishedAt(s', k, a.txn) && i < k < j
    {
      assert AccessAt(s, i, a) && AccessAt(s, j, b);
      var k :| FinishedAt(s, k, a.txn) && i < k < j;
      assert FinishedAt(s', k, a.txn);
    }
  }

  lemma {:induction false} RunKeepsInv(actions: seq<Action>)
    requires Legal(actions)
    ensures Inv(StateAfter(actions))
    decreases |actions|
  {
    if actions != [] {
      var s, a := StateAfter(actions[..|actions| - 1]), actions[|actions| - 1];
      RunKeepsInv(actions[..|actions| - 1]);
      match a
      case Begin => BeginKeepsInv(s);
      case Ask(txn, resource, mode) => AskKeepsInv(s, txn, resource, mode);
      case Touch(txn, resource, write) => TouchKeepsInv(s, txn, resource, write);
      case Finish(txn, commit) => FinishKeepsInv(s, txn, commit);
    }
  }

  // ---------------------------------------------------------------------------------------------
  // Serialisability

  /** Everything that was done to the database, by whomever. */
  ghost function Accesses(log: seq<Event>): S.History {
    if log == [] then []
    else
      var e := log[|log| - 1];
      Accesses(log[..|log| - 1]) + if e.Access? then [e.op] else []
  }

  /** The transactions that have ended, in the order of their commits and aborts. */
  ghost function EndOrder(log: seq<Event>): seq<TxnId> {
    if log == [] then []
    else
      var e := log[|log| - 1];
      EndOrder(log[..|log| - 1]) + if e.Finished? then [e.txn] else []
  }

  /** The transactions that still run, in any order. */
  ghost predicate AreRunning(s: System, running: seq<TxnId>) {
    S.Distinct(running) && forall t :: t in running <==> IsActive(s, t)
  }

  ghost function Committers(s: System): set<TxnId> {
    set t | t in s.status && s.status[t] == Committed
  }

  /** The accesses of the transactions that committed. */
  ghost function CommittedHistory(s: System): S.History {
    R.Kept(Accesses(s.log), Committers(s))
  }

  ghost function CommitOrder(s: System): seq<TxnId> {
    R.Those(EndOrder(s.log), Committers(s))
  }

  lemma {:induction false} AccessPosition(log: seq<Event>, i: int) returns (k: int)
    requires 0 <= i < |Accesses(log)|
    ensures 0 <= k < |log| && log[k] == Access(Accesses(log)[i])
    decreases |log|
  {
    var front := log[..|log| - 1];
    if i < |Accesses(front)| {
      k := AccessPosition(front, i);
    } else {
      k := |log| - 1;
    }
  }

  lemma {:induction false} AccessPositions(log: seq<Event>, i: int, j: int) returns (k: int, l: int)
    requires 0 <= i < j < |Accesses(log)|
    ensures 0 <= k < l < |log| && log[k] == Access(Accesses(log)[i]) && log[l] == Access(Accesses(log)[j])
    decreases |log|
  {
    var front := log[..|log| - 1];
    if j < |Accesses(front)| {
      k, l := AccessPositions(front, i, j);
    } else {
      k := AccessPosition(front, i);
      l := |log| - 1;
    }
  }

  ghost predicate EndAt(log: seq<Event>, k: int, t: TxnId) {
    0 <= k < |log| && log[k].Finished? && log[k].txn == t
  }

  lemma {:induction false} EndPosition(log: seq<Event>, n: int) returns (k: int)
    requires 0 <= n < |EndOrder(log)|
    ensures EndAt(log, k, EndOrder(log)[n])
    decreases |log|
  {
    var front := log[..|log| - 1];
    if n < |EndOrder(front)| {
      k := EndPosition(front, n);
    } else {
      k := |log| - 1;
    }
  }

  lemma {:induction false} EndsInOrder(log: seq<Event>, k: int, l: int, a: TxnId, b: TxnId)
    requires EndAt(log, k, a)
    ensures a in EndOrder(log)
    ensures EndAt(log, l, b) && k < l ==> S.Precedes(EndOrder(log), a, b)
    decreases |log|
  {
    var front, last := log[..|log| - 1], log[|log| - 1];
    var o := EndOrder(log);
    if k < |log| - 1 {
      EndsInOrder(front, k, l, a, b);
      var o' := EndOrder(front);
      var i :| 0 <= i < |o'| && o'[i] == a;
      assert o[i] == a;
      if EndAt(log, l, b) && k < l {
        if l < |log| - 1 {
          var i, j :| 0 <= i < j < |o'| && o'[i] == a && o'[j] == b;
          assert o[i] == a && o[j] == b;
        } else {
          assert o[|o'|] == b;
        }
      }
    } else {
      assert o[|o| - 1] == a;
    }
  }

  lemma {:induction false} EndOrderDistinct(s: System, log: seq<Event>)
    requires LogOk(s) && log <= s.log
    ensures S.Distinct(EndOrder(log))
    decreases |log|
  {
    if log != [] {
      var front, e := log[..|log| - 1], log[|log| - 1];
      EndOrderDistinct(s, front);
      var o' := EndOrder(front);
      if e.Finished? {
        forall i | 0 <= i < |o'|
          ensures o'[i] != e.txn
        {
          var k := EndPosition(front, i);
          assert FinishedAt(s, k, o'[i]) && FinishedAt(s, |log| - 1, e.txn);
        }
      }
    }
  }

  /** Nobody in the order of ends is active. */
  lemma EndersEnded(s: System, i: int)
    requires LogOk(s) && 0 <= i < |EndOrder(s.log)|
    ensures EndOrder(s.log)[i] in s.status && !IsActive(s, EndOrder(s.log)[i])
  {
    var k := EndPosition(s.log, i);
    assert FinishedAt(s, k, EndOrder(s.log)[i]);
  }

  /** Who accesses something and does not run any more is in the order of ends. */
  lemma AccessorOf(s: System, i: int)
    requires LogOk(s) && 0 <= i < |Accesses(s.log)|
    ensures var t := Accesses(s.log)[i].txn; t in s.status && (IsActive(s, t) || t in EndOrder(s.log))
  {
    var op := Accesses(s.log)[i];
    var k := AccessPosition(s.log, i);
    assert AccessAt(s, k, op);
    if !IsActive(s, op.txn) {
      var m :| FinishedAt(s, m, op.txn) && k < m;
      EndsInOrder(s.log, m, m, op.txn, op.txn);
    }
  }

  /** Of two conflicting accesses the first one's transaction has ended, before the other's if that has
      ended too. */
  lemma ConflictInOrder(s: System, i: int, j: int)
    requires Inv(s) && 0 <= i < j < |Accesses(s.log)| && S.Conflict(Accesses(s.log)[i], Accesses(s.log)[j])
    ensures var a, b := Accesses(s.log)[i].txn, Accesses(s.log)[j].txn;
            && a in EndOrder(s.log) && a in s.status && !IsActive(s, a)
            && (IsActive(s, b) || S.Precedes(EndOrder(s.log), a, b))
  {
    var a, b := Accesses(s.log)[i], Accesses(s.log)[j];
    var k, l := AccessPositions(s.log, i, j);
    assert AccessAt(s, k, a) && AccessAt(s, l, b);
    var m :| FinishedAt(s, m, a.txn) && k < m < l;
    EndsInOrder(s.log, m, m, a.txn, a.txn);
    if !IsActive(s, b.txn) {
      var n :| FinishedAt(s, n, b.txn) && l < n;
      EndsInOrder(s.log, m, n, a.txn, b.txn);
    }
  }

  /** Conflicting accesses occur in the order in which their transactions end; who still runs comes last. */
  lemma ConflictsFollowEnds(s: System, running: seq<TxnId>)
    requires Inv(s) && AreRunning(s, running)
    ensures S.ConflictsFollow(Accesses(s.log), EndOrder(s.log) + running)
    ensures S.Distinct(EndOrder(s.log) + running)
    ensures forall x | x in Accesses(s.log) :: x.txn in EndOrder(s.log) + running
  {
    var h, ends := Accesses(s.log), EndOrder(s.log);
    var order := ends + running;
    EndOrderDistinct(s, s.log);
    forall i, j | 0 <= i < j < |order|
      ensures order[i] != order[j]
    {
      if i < |ends| <= j {
        EndersEnded(s, i);
        assert running[j - |ends|] in running;
      }
    }
    forall i, j | 0 <= i < j < |h| && S.Conflict(h[i], h[j])
      ensures S.Precedes(order, h[i].txn, h[j].txn)
    {
      ConflictInOrder(s, i, j);
      if IsActive(s, h[j].txn) {
        Before(ends, running, h[i].txn, h[j].txn);
      } else {
        var m, n :| 0 <= m < n < |ends| && ends[m] == h[i].txn && ends[n] == h[j].txn;
        assert order[m] == h[i].txn && order[n] == h[j].txn;
      }
    }
    forall x | x in h
      ensures x.txn in order
    {
      var i :| 0 <= i < |h| && h[i] == x;
      AccessorOf(s, i);
    }
  }

  lemma Before(ends: seq<TxnId>, running: seq<TxnId>, a: TxnId, b: TxnId)
    requires a in ends && b in running
    ensures S.Precedes(ends + running, a, b)
  {
    var m :| 0 <= m < |ends| && ends[m] == a;
    var n :| 0 <= n < |running| && running[n] == b;
    assert (ends + running)[m] == a && (ends + running)[|ends| + n] == b;
  }

  /** Serialisability of every run: the database is what it would be, and everybody - aborted and running
      transactions included - has read what he would have read, if the transactions had run one after the
      other, first those that have ended in the order of their ends. */
  lemma RunsAreSerialisable(actions: seq<Action>, running: seq<TxnId>, f: S.Program, s0: S.State)
    requires Legal(actions) && AreRunning(StateAfter(actions), running)
    ensures var log := StateAfter(actions).log;
            S.Run(f, s0, Accesses(log)) == S.Run(f, s0, S.Serial(Accesses(log), EndOrder(log) + running))
  {
    RunKeepsInv(actions);
    var s := StateAfter(actions);
    ConflictsFollowEnds(s, running);
    S.Serialisable(f, s0, Accesses(s.log), EndOrder(s.log) + running);
  }

  // ---------------------------------------------------------------------------------------------
  // The transactions that committed

  /** Conflicting accesses of committed transactions occur in the order of their commits. */
  lemma ConflictsFollowCommits(s: System)
    requires Inv(s)
    ensures S.ConflictsFollow(CommittedHistory(s), CommitOrder(s)) && S.Distinct(CommitOrder(s))
    ensures forall x | x in CommittedHistory(s) :: x.txn in CommitOrder(s)
  {
    var all, kept := Accesses(s.log), Committers(s);
    var h, ends := CommittedHistory(s), EndOrder(s.log);
    EndOrderDistinct(s, s.log);
    R.ThoseMembers(ends, kept);
    forall i, j | 0 <= i < j < |h| && S.Conflict(h[i], h[j])
      ensures S.Precedes(CommitOrder(s), h[i].txn, h[j].txn)
    {
      var k, l := R.KeptPositions(all, kept, i, j);
      ConflictInOrder(s, k, l);
      R.ThoseKeepOrder(ends, kept, h[i].txn, h[j].txn);
    }
    forall x | x in h
      ensures x.txn in CommitOrder(s)
    {
      var i :| 0 <= i < |h| && h[i] == x;
      var k := R.KeptPosition(all, kept, i);
      AccessorOf(s, k);
    }
  }

  /** The accesses of the committed transactions alone have the effect of a serial run of these in the order
      of their commits. */
  lemma CommittedRunsAreSerialisable(actions: seq<Action>, f: S.Program, s0: S.State)
    requires Legal(actions)
    ensures var s := StateAfter(actions);
            S.Run(f, s0, CommittedHistory(s)) == S.Run(f, s0, S.Serial(CommittedHistory(s), CommitOrder(s)))
  {
    RunKeepsInv(actions);
    var s := StateAfter(actions);
    ConflictsFollowCommits(s);
    S.Serialisable(f, s0, CommittedHistory(s), CommitOrder(s));
  }

  ghost function Happened(s: System, f: S.Program, s0: S.State): S.State {
    S.Run(f, s0, Accesses(s.log))
  }

  /** The committed transactions run alone, one after the other in the order of their commits. */
  ghost function CommittedOnly(s: System, f: S.Program, s0: S.State): S.State {
    S.Run(f, s0, S.Serial(CommittedHistory(s), CommitOrder(s)))
  }

  ghost predicate ReadsExplained(s: System, f: S.Program, s0: S.State) {
    R.SameReads(Happened(s, f, s0), CommittedOnly(s, f, s0), Committers(s))
  }

  ghost predicate DatabaseExplained(s: System, f: S.Program, s0: S.State) {
    R.SameDatabase(Happened(s, f, s0), CommittedOnly(s, f, s0))
  }

  lemma ExplainedIs(actions: seq<Action>, f: S.Program, s0: S.State)
    requires Legal(actions)
    ensures var s := StateAfter(actions);
            && ReadsExplained(s, f, s0) == R.ReadsUnchanged(f, s0, Accesses(s.log), Committers(s))
            && DatabaseExplained(s, f, s0) == R.DatabaseUnchanged(f, s0, Accesses(s.log), Committers(s))
  {
    CommittedRunsAreSerialisable(actions, f, s0);
  }

  /** Committed transactions have read what they would have read without the others, whatever the
      transactions do: exactly if none of them read a value that an aborted one had written last. */
  lemma CommittedReadsIff(actions: seq<Action>)
    requires Legal(actions)
    ensures var s := StateAfter(actions);
            R.ReadsClean(Accesses(s.log), Committers(s)) <==> forall f: S.Program, s0: S.State :: ReadsExplained(s, f, s0)
  {
    var s := StateAfter(actions);
    R.ReadsCleanIff(Accesses(s.log), Committers(s));
    forall f: S.Program, s0: S.State
      ensures ReadsExplained(s, f, s0) == R.ReadsUnchanged(f, s0, Accesses(s.log), Committers(s))
    {
      ExplainedIs(actions, f, s0);
    }
  }

  /** The database, too, is what the committed transactions alone would have left: exactly if, besides, no
      resource was written last by a transaction that did not commit. */
  lemma CommittedEffectIff(actions: seq<Action>)
    requires Legal(actions)
    ensures var s := StateAfter(actions);
            R.ReadsClean(Accesses(s.log), Committers(s)) && R.EndsClean(Accesses(s.log), Committers(s)) <==>
              forall f: S.Program, s0: S.State :: ReadsExplained(s, f, s0) && DatabaseExplained(s, f, s0)
  {
    var s := StateAfter(actions);
    R.EffectCleanIff(Accesses(s.log), Committers(s));
    forall f: S.Program, s0: S.State
      ensures ReadsExplained(s, f, s0) == R.ReadsUnchanged(f, s0, Accesses(s.log), Committers(s))
      ensures DatabaseExplained(s, f, s0) == R.DatabaseUnchanged(f, s0, Accesses(s.log), Committers(s))
    {
      ExplainedIs(actions, f, s0);
    }
  }

  lemma {:induction false} LastWriterAt(h: S.History, r: ResourceId) returns (i: int)
    requires R.LastWriter(h, r).Some?
    ensures 0 <= i < |h| && h[i] == S.Op(R.LastWriter(h, r).value, r, true)
    decreases |h|
  {
    i := |h| - 1;
    if !(h[i].write && h[i].resource == r) {
      i := LastWriterAt(h[..|h| - 1], r);
    }
  }

  /** A committed transaction never reads from one that still runs: what is dirty comes from an abort. */
  lemma DirtyReadsComeFromAborts(s: System, j: int) returns (k: int, writer: TxnId)
    requires Inv(s) && R.DirtyRead(Accesses(s.log), Committers(s), j)
    ensures writer in s.status && s.status[writer] == Aborted
    ensures AccessAt(s, k, S.Op(writer, Accesses(s.log)[j].resource, true))
  {
    var h := Accesses(s.log);
    var i := LastWriterAt(h[..j], h[j].resource);
    assert h[i] == h[..j][i];
    writer := h[i].txn;
    ConflictInOrder(s, i, j);
    k := AccessPosition(s.log, i);
  }

  ghost predicate AbortedWrite(s: System, k: int, op: Op) {
    AccessAt(s, k, op) && op.write && op.txn in s.status && s.status[op.txn] == Aborted
  }

  /** So it is enough that no transaction that aborts has written. */
  lemma DirtyOnlyIfAbortedWrite(actions: seq<Action>)
    requires Legal(actions)
    ensures var s := StateAfter(actions);
            R.ReadsClean(Accesses(s.log), Committers(s)) || exists k, op :: AbortedWrite(s, k, op)
  {
    RunKeepsInv(actions);
    var s := StateAfter(actions);
    if !R.ReadsClean(Accesses(s.log), Committers(s)) {
      var j :| R.DirtyRead(Accesses(s.log), Committers(s), j);
      var k, writer := DirtyReadsComeFromAborts(s, j);
      assert AbortedWrite(s, k, S.Op(writer, Accesses(s.log)[j].resource, true));
    }
  }
}
