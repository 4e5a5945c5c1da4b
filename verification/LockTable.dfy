/** What every run of the lock manager keeps, and the exact condition under which a re-request of a held
    lock breaks it. */
module LockTable {
  import opened LockManager

  /** Each transaction has at most one request for the resource. */
  ghost predicate OneEach(q: Queue) {
    forall i, j | 0 <= i < j < |q| :: q[i].txn != q[j].txn
  }

  /** Granted requests do not exclude each other. */
  ghost predicate GrantedCompatible(q: Queue) {
    forall i, j | 0 <= i < |q| && 0 <= j < |q| && i != j && q[i].granted && q[j].granted ::
      Compatible(q[i].mode, q[j].mode)
  }

  /** A request waits only because of a granted request that excludes it. */
  ghost predicate NoLostWakeup(q: Queue) {
    forall i | 0 <= i < |q| && !q[i].granted :: Blocked(q, i, q[i].mode)
  }

  ghost predicate QueueOk(q: Queue) {
    OneEach(q) && GrantedCompatible(q) && NoLostWakeup(q)
  }

  lemma CompatibleSymmetric(a: LockMode, b: LockMode)
    ensures Compatible(a, b) == Compatible(b, a)
  {
  }

  /** `txn` holds request `i` and asks for a mode that comes later in the enumeration. */
  ghost predicate Raises(q: Queue, txn: TxnId, mode: LockMode, i: int) {
    FirstOf(q, txn, i) && q[i].granted && Rank(mode) > Rank(q[i].mode)
  }

  /** The re-request overrides another holder. */
  ghost predicate OverridesHolder(q: Queue, txn: TxnId, mode: LockMode) {
    exists i :: Raises(q, txn, mode, i) && Blocked(q, i, mode)
  }

  /** The re-request gives up the only lock that some waiting request waits for. */
  ghost predicate StrandsWaiter(q: Queue, txn: TxnId, mode: LockMode) {
    exists i, w :: Raises(q, txn, mode, i) && Strands(q, mode, i, w)
  }

  ghost predicate Strands(q: Queue, mode: LockMode, i: int, w: int) {
    && 0 <= w < |q| && !q[w].granted
    && Compatible(q[w].mode, mode)
    && forall j | 0 <= j < |q| && j != i && j != w && q[j].granted :: Compatible(q[w].mode, q[j].mode)
  }

  /** lock_acquire looks at the first request of the transaction only; there is one at most. */
  lemma AcquiredAt(q: Queue, txn: TxnId, mode: LockMode, i: int)
    requires FirstOf(q, txn, i)
    ensures Acquired(q, txn, mode) ==
              if q[i].granted then
                if Rank(mode) > Rank(q[i].mode) then q[i := q[i].(mode := mode)] else q
              else q[i := Request(txn, mode, !Blocked(q, i, mode))]
  {
    assert Waits(q, txn);
    forall j | FirstOf(q, txn, j)
      ensures j == i
    {
      assert !(j < i) && !(i < j);
    }
  }

  lemma FindFirst(q: Queue, txn: TxnId, k: nat) returns (i: nat)
    requires k < |q| && q[k].txn == txn
    ensures FirstOf(q, txn, i)
  {
    i := 0;
    while q[i].txn != txn
      invariant 0 <= i <= k
      invariant forall j | 0 <= j < i :: q[j].txn != txn
      decreases k - i
    {
      i := i + 1;
    }
  }

  lemma AcquireKeepsOneEach(q: Queue, txn: TxnId, mode: LockMode)
    requires OneEach(q)
    ensures OneEach(Acquired(q, txn, mode))
  {
    if Waits(q, txn) {
      var i :| FirstOf(q, txn, i);
      AcquiredAt(q, txn, mode, i);
    } else if k: nat :| k < |q| && q[k].txn == txn {
      var i := FindFirst(q, txn, k);
      assert false;
    }
  }

  /** Acquiring keeps granted requests compatible exactly when it overrides no other holder. */
  lemma AcquireKeepsCompatible(q: Queue, txn: TxnId, mode: LockMode)
    requires GrantedCompatible(q)
    ensures GrantedCompatible(Acquired(q, txn, mode)) <==> !OverridesHolder(q, txn, mode)
  {
    var q' := Acquired(q, txn, mode);
    if Waits(q, txn) {
      var i :| FirstOf(q, txn, i);
      AcquiredAt(q, txn, mode, i);
      if OverridesHolder(q, txn, mode) {
        var k :| Raises(q, txn, mode, k) && Blocked(q, k, mode);
        assert !(k < i) && !(i < k);
        var j :| 0 <= j < |q| && j != i && q[j].granted && !Compatible(mode, q[j].mode);
        assert q'[j] == q[j] && q'[i].mode == mode;
      } else {
        assert Raises(q, txn, mode, i) ==> !Blocked(q, i, mode);
        GrantOne(q, q', i, mode);
      }
    } else {
      assert !OverridesHolder(q, txn, mode);
      GrantOne(q + [Request(txn, mode, false)], q', |q|, mode);
    }
  }

  /** Giving request `i` the mode `mode` is harmless if no other granted request excludes it. */
  lemma GrantOne(q: Queue, q': Queue, i: nat, mode: LockMode)
    requires GrantedCompatible(q) && |q'| == |q| && i < |q|
    requires forall j | 0 <= j < |q| && j != i :: q'[j] == q[j]
    requires q'[i].granted ==> (q[i].granted && q'[i].mode == q[i].mode) || (q'[i].mode == mode && !Blocked(q', i, mode))
    ensures GrantedCompatible(q')
  {
    forall j, k | 0 <= j < |q'| && 0 <= k < |q'| && j != k && q'[j].granted && q'[k].granted
      ensures Compatible(q'[j].mode, q'[k].mode)
    {
      CompatibleSymmetric(q'[j].mode, q'[k].mode);
    }
  }

  /** Acquiring loses no wake-up exactly when it strands no waiting request. */
  lemma AcquireKeepsWakeups(q: Queue, txn: TxnId, mode: LockMode)
    requires NoLostWakeup(q)
    ensures NoLostWakeup(Acquired(q, txn, mode)) <==> !StrandsWaiter(q, txn, mode)
  {
    var q' := Acquired(q, txn, mode);
    if Waits(q, txn) {
      var i :| FirstOf(q, txn, i);
      AcquiredAt(q, txn, mode, i);
      forall k, w | Raises(q, txn, mode, k) && Strands(q, mode, k, w)
        ensures !NoLostWakeup(q')
      {
        assert !(k < i) && !(i < k);
        assert !q'[w].granted && q'[w].mode == q[w].mode;
        assert !Blocked(q', w, q'[w].mode);
      }
      if !StrandsWaiter(q, txn, mode) {
        forall w | 0 <= w < |q'| && !q'[w].granted
          ensures Blocked(q', w, q'[w].mode)
        {
          StillBlocked(q, q', i, w, txn, mode);
        }
      }
    } else {
      assert !StrandsWaiter(q, txn, mode);
      forall w | 0 <= w < |q'| && !q'[w].granted
        ensures Blocked(q', w, q'[w].mode)
      {
        var j :| 0 <= j < |q| && j != w && q[j].granted && !Compatible(q'[w].mode, q[j].mode);
        assert q'[j] == q[j];
      }
    }
  }

  lemma StillBlocked(q: Queue, q': Queue, i: int, w: int, txn: TxnId, mode: LockMode)
    requires NoLostWakeup(q) && FirstOf(q, txn, i) && q' == Acquired(q, txn, mode)
    requires !StrandsWaiter(q, txn, mode) && 0 <= w < |q| == |q'| && !q'[w].granted
    ensures Blocked(q', w, q'[w].mode)
  {
    AcquiredAt(q, txn, mode, i);
    if w == i {
      var j :| 0 <= j < |q| && j != w && q[j].granted && !Compatible(mode, q[j].mode);
      assert q'[j] == q[j];
    } else {
      assert Blocked(q, w, q[w].mode);
      if Raises(q, txn, mode, i) {
        assert !Strands(q, mode, i, w);
        if Compatible(q[w].mode, mode) {
          var j :| 0 <= j < |q| && j != i && j != w && q[j].granted && !Compatible(q[w].mode, q[j].mode);
          assert q'[j] == q[j];
        } else {
          assert q'[i].mode == mode && q'[i].granted;
        }
      } else {
        var j :| 0 <= j < |q| && j != w && q[j].granted && !Compatible(q[w].mode, q[j].mode);
        assert q'[j] == q[j];
      }
    }
  }

  /** A request that neither overrides a holder nor strands a waiter. */
  ghost predicate Harmless(q: Queue, txn: TxnId, mode: LockMode) {
    !OverridesHolder(q, txn, mode) && !StrandsWaiter(q, txn, mode)
  }

  lemma AcquireOkIff(q: Queue, txn: TxnId, mode: LockMode)
    requires QueueOk(q)
    ensures QueueOk(Acquired(q, txn, mode)) <==> Harmless(q, txn, mode)
  {
    AcquireKeepsOneEach(q, txn, mode);
    AcquireKeepsCompatible(q, txn, mode);
    AcquireKeepsWakeups(q, txn, mode);
  }

  /** Two holders of a shared lock: one may become exclusive beside the other. */
  lemma RaiseOverridesHolder()
    ensures var q := [Request(1, Shared, true), Request(2, Shared, true)];
            QueueOk(q) && Acquired(q, 1, Exclusive) == [Request(1, Exclusive, true), Request(2, Shared, true)]
    ensures !GrantedCompatible([Request(1, Exclusive, true), Request(2, Shared, true)])
  {
    var q := [Request(1, Shared, true), Request(2, Shared, true)];
    assert FirstOf(q, 1, 0);
    AcquiredAt(q, 1, Exclusive, 0);
    var q' := [Request(1, Exclusive, true), Request(2, Shared, true)];
    assert q'[0].granted && q'[1].granted && !Compatible(q'[0].mode, q'[1].mode);
  }

  /** An exclusive holder that "upgrades" to intention-shared leaves a compatible request waiting. */
  lemma RaiseStrandsWaiter()
    ensures var q := [Request(1, Exclusive, true), Request(2, IntentShared, false)];
            QueueOk(q) && Acquired(q, 1, IntentShared) == [Request(1, IntentShared, true), Request(2, IntentShared, false)]
    ensures !NoLostWakeup([Request(1, IntentShared, true), Request(2, IntentShared, false)])
  {
    var q := [Request(1, Exclusive, true), Request(2, IntentShared, false)];
    assert q[0].granted && !Compatible(q[1].mode, q[0].mode);
    assert Blocked(q, 1, q[1].mode);
    assert FirstOf(q, 1, 0);
    AcquiredAt(q, 1, IntentShared, 0);
    var q' := [Request(1, IntentShared, true), Request(2, IntentShared, false)];
    assert !Blocked(q', 1, q'[1].mode);
  }

  // ---------------------------------------------------------------------------------------------
  // Release

  lemma {:induction false} WithoutKeeps(q: Queue, txn: TxnId)
    requires OneEach(q) && GrantedCompatible(q)
    ensures OneEach(Without(q, txn)) && GrantedCompatible(Without(q, txn))
    decreases |q|
  {
    if q != [] {
      var front, last := q[..|q| - 1], q[|q| - 1];
      assert forall i | 0 <= i < |front| :: front[i] == q[i];
      WithoutKeeps(front, txn);
      forall x | x in Without(front, txn)
        ensures Beside(x, last)
      {
        var k :| 0 <= k < |front| && front[k] == x;
        assert q[k] == x;
        CompatibleSymmetric(x.mode, last.mode);
      }
      AppendKeeps(Without(front, txn), last);
    }
  }

  /** Two requests of different transactions that may stand in one queue. */
  ghost predicate Beside(x: Request, y: Request) {
    x.txn != y.txn && (x.granted && y.granted ==> Compatible(x.mode, y.mode) && Compatible(y.mode, x.mode))
  }

  lemma AppendKeeps(q: Queue, x: Request)
    requires OneEach(q) && GrantedCompatible(q)
    requires forall y | y in q :: Beside(y, x)
    ensures OneEach(q + [x]) && GrantedCompatible(q + [x])
  {
    forall i | 0 <= i < |q|
      ensures Beside(q[i], x)
    {
      assert q[i] in q;
    }
  }

  /** The requests before number `k` that wait are blocked. */
  ghost predicate BlockedUpTo(q: Queue, k: nat) {
    k <= |q| && forall i | 0 <= i < k && !q[i].granted :: Blocked(q, i, q[i].mode)
  }

  /** One turn of the granting loop. */
  lemma GrantedTurn(q: Queue, k: nat, q': Queue)
    requires k < |q| && OneEach(q) && GrantedCompatible(q) && BlockedUpTo(q, k)
    requires !q[k].granted && !Blocked(q, k, q[k].mode) && q' == q[k := q[k].(granted := true)]
    ensures OneEach(q') && GrantedCompatible(q') && BlockedUpTo(q', k + 1)
  {
    GrantOne(q, q', k, q[k].mode);
    forall i | 0 <= i < k + 1 && !q'[i].granted
      ensures Blocked(q', i, q'[i].mode)
    {
      var j :| 0 <= j < |q| && j != i && q[j].granted && !Compatible(q[i].mode, q[j].mode);
      assert q'[j].granted && q'[j].mode == q[j].mode;
    }
  }

  lemma {:induction false} RegrantedKeeps(q: Queue, k: nat)
    requires OneEach(q) && GrantedCompatible(q) && BlockedUpTo(q, k)
    ensures QueueOk(Regranted(q, k))
    ensures |Regranted(q, k)| == |q|
    ensures forall i | 0 <= i < |q| :: Regranted(q, k)[i].txn == q[i].txn && Regranted(q, k)[i].mode == q[i].mode
                                       && (q[i].granted ==> Regranted(q, k)[i].granted)
    decreases |q| - k
  {
    if k < |q| {
      if !q[k].granted && !Blocked(q, k, q[k].mode) {
        var q' := q[k := q[k].(granted := true)];
        GrantedTurn(q, k, q');
        RegrantedKeeps(q', k + 1);
      } else {
        RegrantedKeeps(q, k + 1);
      }
    }
  }

  /** lock_release_all keeps the queue in order, leaves nothing of the transaction in it and takes no
      granted lock away from anybody else. */
  lemma ReleaseOk(q: Queue, txn: TxnId)
    requires OneEach(q) && GrantedCompatible(q)
    ensures OneEach(Released(q, txn)) && GrantedCompatible(Released(q, txn))
    ensures NoLostWakeup(q) ==> NoLostWakeup(Released(q, txn))
    ensures forall x | x in Released(q, txn) :: x.txn != txn && (x in q || Request(x.txn, x.mode, false) in q)
    ensures forall x | x in q && x.txn != txn && x.granted :: x in Released(q, txn)
  {
    WithoutKeeps(q, txn);
    var w, r := Without(q, txn), Released(q, txn);
    if w != q {
      RegrantedKeeps(w, 0);
    }
    forall x | x in r
      ensures x.txn != txn && (x in q || Request(x.txn, x.mode, false) in q)
    {
      var i :| 0 <= i < |r| && r[i] == x;
      assert w[i] in w;
    }
    forall x | x in q && x.txn != txn && x.granted
      ensures x in r
    {
      assert x in w;
      var i :| 0 <= i < |w| && w[i] == x;
      assert r[i] == x;
    }
  }

  // ---------------------------------------------------------------------------------------------
  // Runs

  datatype Step = Lock(txn: TxnId, resource: ResourceId, mode: LockMode) | End(txn: TxnId)

  ghost function After(t: Table, s: Step): Table {
    match s
    case Lock(txn, resource, mode) => t[resource := Acquired(QueueOf(t, resource), txn, mode)]
    case End(txn) => ReleasedTable(t, txn)
  }

  ghost function AfterAll(steps: seq<Step>): Table {
    if steps == [] then map[] else After(AfterAll(steps[..|steps| - 1]), steps[|steps| - 1])
  }

  ghost predicate TableOk(t: Table) {
    forall r | r in t :: QueueOk(t[r])
  }

  ghost predicate HarmlessStep(t: Table, s: Step) {
    s.Lock? ==> Harmless(QueueOf(t, s.resource), s.txn, s.mode)
  }

  lemma StepOkIff(t: Table, s: Step)
    requires TableOk(t)
    ensures TableOk(After(t, s)) <==> HarmlessStep(t, s)
  {
    match s
    case Lock(txn, resource, mode) =>
      AcquireOkIff(QueueOf(t, resource), txn, mode);
      assert resource in After(t, s);
    case End(txn) =>
      forall r | r in t
        ensures QueueOk(Released(t[r], txn))
      {
        ReleaseOk(t[r], txn);
      }
  }

  /** Every lock table of the run is in order. */
  ghost predicate RunOk(steps: seq<Step>) {
    TableOk(AfterAll(steps)) && (steps != [] ==> RunOk(steps[..|steps| - 1]))
  }

  /** Every step of the run is harmless where it is taken. */
  ghost predicate RunHarmless(steps: seq<Step>) {
    steps != [] ==>
      RunHarmless(steps[..|steps| - 1]) && HarmlessStep(AfterAll(steps[..|steps| - 1]), steps[|steps| - 1])
  }

  lemma {:induction false} RunOkIff(steps: seq<Step>)
    ensures RunOk(steps) <==> RunHarmless(steps)
    decreases |steps|
  {
    if steps != [] {
      var front := steps[..|steps| - 1];
      RunOkIff(front);
      if TableOk(AfterAll(front)) {
        StepOkIff(AfterAll(front), steps[|steps| - 1]);
      }
    }
  }

  /** After its end a transaction has no request in any queue, whatever was in the table before. */
  lemma NothingHeldAfterEnd(t: Table, txn: TxnId, r: ResourceId)
    requires r in t
    ensures r in After(t, End(txn)) && forall x | x in After(t, End(txn))[r] :: x.txn != txn
  {
    RegrantedOwners(Without(t[r], txn), 0);
    forall x | x in Released(t[r], txn)
      ensures x.txn != txn
    {
      var i :| 0 <= i < |Released(t[r], txn)| && Released(t[r], txn)[i] == x;
      assert Without(t[r], txn)[i] in Without(t[r], txn);
    }
  }

  /** Granting changes nobody's place. */
  lemma {:induction false} RegrantedOwners(q: Queue, k: nat)
    ensures |Regranted(q, k)| == |q| && forall i | 0 <= i < |q| :: Regranted(q, k)[i].txn == q[i].txn
    decreases |q| - k
  {
    if k < |q| {
      if !q[k].granted && !Blocked(q, k, q[k].mode) {
        RegrantedOwners(q[k := q[k].(granted := true)], k + 1);
      } else {
        RegrantedOwners(q, k + 1);
      }
    }
  }
}
