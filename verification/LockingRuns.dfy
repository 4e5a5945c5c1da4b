/** Runs of the transaction manager that show where its guarantees end: a value read from a transaction that
    aborted, an upgrade over another holder, and a success that covers no access. */
module LockingRuns {
  import opened LockManager
  import opened LockTable
  import opened TwoPhaseLocking
  import S = Serializability
  import R = Recoverability

  // ---------------------------------------------------------------------------------------------
  // One step at a time

  /** The run leads to the state. */
  ghost predicate Reaches(actions: seq<Action>, s: System) {
    Legal(actions) && StateAfter(actions) == s
  }

  ghost predicate Leads(s: System, a: Action, s': System) {
    Enabled(s, a) && Next(s, a) == s'
  }

  lemma Then(actions: seq<Action>, s: System, a: Action, s': System) returns (longer: seq<Action>)
    requires Reaches(actions, s) && Leads(s, a, s')
    ensures Reaches(longer, s')
  {
    longer := actions + [a];
    assert longer[..|actions|] == actions;
  }

  lemma BeginLeads(id: TxnId, status: map<TxnId, Status>, status': map<TxnId, Status>, t: Table, log: seq<Event>)
    requires status' == status[id := Active]
    ensures Leads(System(id, status, t, log), Begin, System(id + 1, status', t, log))
  {
  }

  /** A first request for resource 7, which nobody has excluded. */
  lemma LockLeads(s: System, t: TxnId, mode: LockMode, q: Queue, q': Queue, s': System)
    requires q == QueueOf(s.table, 7) && q' == q + [Request(t, mode, true)]
    requires forall i | 0 <= i < |q| :: q[i].txn != t && (q[i].granted ==> Compatible(mode, q[i].mode))
    requires s.table.Keys <= {7} && s' == System(s.nextId, s.status, map[7 := q'], s.log)
    ensures Leads(s, Ask(t, 7, mode), s')
  {
    assert !Waits(q, t) && !Blocked(q, -1, mode);
    assert Acquired(q, t, mode) == q';
    assert s.table[7 := q'] == map[7 := q'];
  }

  lemma TouchLeads(s: System, t: TxnId, write: bool, q: Queue, i: nat, s': System)
    requires IsActive(s, t) && s.table == map[7 := q] && i < |q|
    requires q[i].txn == t && q[i].granted && Covers(q[i].mode, write)
    requires s' == System(s.nextId, s.status, s.table, s.log + [Access(S.Op(t, 7, write))])
    ensures Leads(s, Touch(t, 7, write), s')
  {
    assert q[i] in q;
  }

  lemma FinishLeads(s: System, t: TxnId, commit: bool, q: Queue, q': Queue, s': System)
    requires IsActive(s, t) && s.table == map[7 := q] && q' == Released(q, t)
    requires s' == System(s.nextId, s'.status, map[7 := q'], s.log + [Finished(t, commit)])
    requires s'.status == s.status[t := if commit then Committed else Aborted]
    ensures Leads(s, Finish(t, commit), s')
  {
    assert After(s.table, End(t)) == map[7 := q'];
  }

  /** Releasing the last request of a queue. */
  lemma ReleaseLast(q: Queue, x: Request)
    requires forall y | y in q :: y.txn != x.txn && y.granted
    ensures Released(q + [x], x.txn) == q
  {
    assert (q + [x])[..|q|] == q;
    WithoutAll(q, x.txn);
    GrantedStay(q, 0);
  }

  lemma {:induction false} WithoutAll(q: Queue, t: TxnId)
    requires forall y | y in q :: y.txn != t
    ensures Without(q, t) == q
    decreases |q|
  {
    if q != [] {
      WithoutAll(q[..|q| - 1], t);
    }
  }

  lemma {:induction false} GrantedStay(q: Queue, k: nat)
    requires forall y | y in q :: y.granted
    ensures Regranted(q, k) == q
    decreases |q| - k
  {
    if k < |q| {
      assert q[k] in q;
      GrantedStay(q, k + 1);
    }
  }

  lemma LogSnoc(log: seq<Event>, e: Event)
    ensures Accesses(log + [e]) == Accesses(log) + if e.Access? then [e.op] else []
    ensures EndOrder(log + [e]) == EndOrder(log) + if e.Finished? then [e.txn] else []
  {
    assert (log + [e])[..|log|] == log;
  }

  const ALWAYS_42: S.Program := (t, r, seen) => 42

  // ---------------------------------------------------------------------------------------------
  // A write that outlives its transaction

  /** Two states of a run of one transaction that writes and aborts. */
  ghost function Locked(w: S.Op): System {
    System(2, map[1 := Active], map[7 := [Request(1, Exclusive, true)]], [])
  }

  ghost function WriterGone(w: S.Op): System {
    System(2, map[1 := Aborted], map[7 := []], [Access(w)] + [Finished(1, false)])
  }

  lemma WriterLocks(w: S.Op) returns (a: seq<Action>)
    ensures Reaches(a, Locked(w))
  {
    var x := Request(1, Exclusive, true);
    var s1 := System(2, map[1 := Active], map[], []);
    BeginLeads(1, map[], map[1 := Active], map[], []);
    assert [] + [x] == [x];
    LockLeads(s1, 1, Exclusive, [], [x], Locked(w));
    a := Then([], INITIAL, Begin, s1);
    a := Then(a, s1, Ask(1, 7, Exclusive), Locked(w));
  }

  lemma WriterLeaves(w: S.Op, s: System)
    requires w == S.Op(1, 7, true) && s == System(2, map[1 := Active], map[7 := [Request(1, Exclusive, true)]], [Access(w)])
    ensures Leads(Locked(w), Touch(1, 7, true), s) && Leads(s, Finish(1, false), WriterGone(w))
  {
    var x := Request(1, Exclusive, true);
    assert [] + [Access(w)] == [Access(w)];
    TouchLeads(Locked(w), 1, true, [x], 0, s);
    ReleaseLast([], x);
    assert [] + [x] == [x];
    FinishLeads(s, 1, false, [x], [], WriterGone(w));
  }

  /** The first transaction has written and aborted. */
  lemma WriterAborts(w: S.Op) returns (a: seq<Action>)
    requires w == S.Op(1, 7, true)
    ensures Reaches(a, WriterGone(w))
  {
    a := WriterLocks(w);
    var s := System(2, map[1 := Active], map[7 := [Request(1, Exclusive, true)]], [Access(w)]);
    WriterLeaves(w, s);
    a := Then(a, Locked(w), Touch(1, 7, true), s);
    a := Then(a, s, Finish(1, false), WriterGone(w));
  }

  ghost function ReaderActive(log: seq<Event>, table: Table): System {
    System(3, map[1 := Aborted, 2 := Active], table, log)
  }

  lemma ReaderLocks(log: seq<Event>)
    ensures var s := System(2, map[1 := Aborted], map[7 := []], log);
            && Leads(s, Begin, ReaderActive(log, map[7 := []]))
            && Leads(ReaderActive(log, map[7 := []]), Ask(2, 7, Shared), ReaderActive(log, map[7 := [Request(2, Shared, true)]]))
  {
    var x := Request(2, Shared, true);
    BeginLeads(2, map[1 := Aborted], map[1 := Aborted, 2 := Active], map[7 := []], log);
    assert [] + [x] == [x];
    LockLeads(ReaderActive(log, map[7 := []]), 2, Shared, [], [x], ReaderActive(log, map[7 := [x]]));
  }

  lemma ReaderLeaves(log: seq<Event>, r: S.Op, s: System)
    requires r == S.Op(2, 7, false)
    requires s == System(3, map[1 := Aborted, 2 := Committed], map[7 := []], log + [Access(r)] + [Finished(2, true)])
    ensures var t := map[7 := [Request(2, Shared, true)]];
            && Leads(ReaderActive(log, t), Touch(2, 7, false), ReaderActive(log + [Access(r)], t))
            && Leads(ReaderActive(log + [Access(r)], t), Finish(2, true), s)
  {
    var x := Request(2, Shared, true);
    var t := map[7 := [x]];
    TouchLeads(ReaderActive(log, t), 2, false, [x], 0, ReaderActive(log + [Access(r)], t));
    ReleaseLast([], x);
    assert [] + [x] == [x];
    FinishLeads(ReaderActive(log + [Access(r)], t), 2, true, [x], [], s);
  }

  /** The second one reads and commits. */
  lemma ReaderCommits(a0: seq<Action>, log: seq<Event>, r: S.Op) returns (a: seq<Action>)
    requires r == S.Op(2, 7, false) && Reaches(a0, System(2, map[1 := Aborted], map[7 := []], log))
    ensures Reaches(a, System(3, map[1 := Aborted, 2 := Committed], map[7 := []], log + [Access(r)] + [Finished(2, true)]))
  {
    var t := map[7 := [Request(2, Shared, true)]];
    var last := System(3, map[1 := Aborted, 2 := Committed], map[7 := []], log + [Access(r)] + [Finished(2, true)]);
    ReaderLocks(log);
    ReaderLeaves(log, r, last);
    a := Then(a0, System(2, map[1 := Aborted], map[7 := []], log), Begin, ReaderActive(log, map[7 := []]));
    a := Then(a, ReaderActive(log, map[7 := []]), Ask(2, 7, Shared), ReaderActive(log, t));
    a := Then(a, ReaderActive(log, t), Touch(2, 7, false), ReaderActive(log + [Access(r)], t));
    a := Then(a, ReaderActive(log + [Access(r)], t), Finish(2, true), last);
  }

  lemma AbortedWriteLog(log: seq<Event>, w: S.Op, r: S.Op)
    requires log == [Access(w)] + [Finished(1, false)] + [Access(r)] + [Finished(2, true)]
    ensures Accesses(log) == [w, r] && EndOrder(log) == [1, 2]
  {
    LogSnoc([], Access(w));
    assert [] + [Access(w)] == [Access(w)];
    LogSnoc([Access(w)], Finished(1, false));
    LogSnoc([Access(w)] + [Finished(1, false)], Access(r));
    LogSnoc([Access(w)] + [Finished(1, false)] + [Access(r)], Finished(2, true));
  }

  lemma OnlySecondKept(w: S.Op, r: S.Op)
    requires w.txn == 1 && r.txn == 2
    ensures R.Kept([w, r], {2}) == [r] && R.Those([1, 2], {2}) == [2]
  {
    R.Snoc([], w, [], 1, {2});
    R.Snoc([w], r, [1], 2, {2});
    assert [] + [w] == [w] && [w] + [r] == [w, r] && [] + [1] == [1] && [1] + [2] == [1, 2];
  }

  lemma RunOne(f: S.Program, s: S.State, x: S.Op)
    ensures S.Run(f, s, [x]) == S.Step(f, s, x)
  {
    assert [x][1..] == [];
  }

  lemma RunTwo(f: S.Program, s: S.State, x: S.Op, y: S.Op)
    ensures S.Run(f, s, [x, y]) == S.Step(f, S.Step(f, s, x), y)
  {
    assert [x, y][1..] == [y];
    RunOne(f, S.Step(f, s, x), y);
  }

  lemma AbortedWriteEffects(w: S.Op, r: S.Op)
    requires w == S.Op(1, 7, true) && r == S.Op(2, 7, false)
    ensures S.SeenBy(S.Run(ALWAYS_42, R.BLANK, [w, r]), 2) == [42]
    ensures S.SeenBy(S.Run(ALWAYS_42, R.BLANK, S.Serial([r], [2])), 2) == [0]
  {
    RunTwo(ALWAYS_42, R.BLANK, w, r);
    RunOne(ALWAYS_42, R.BLANK, r);
    assert [r][1..] == [] && [2][..0] == [];
    assert S.Serial([r], [2]) == S.Only([r], 2) == [r];
  }

  /** A legal run in which a committed transaction has read 42, written by one that aborted; alone it would
      have read 0. */
  lemma AbortedWriteIsRead() returns (actions: seq<Action>)
    ensures Legal(actions)
    ensures var s := StateAfter(actions);
            && Committers(s) == {2}
            && S.SeenBy(Happened(s, ALWAYS_42, R.BLANK), 2) == [42]
            && S.SeenBy(CommittedOnly(s, ALWAYS_42, R.BLANK), 2) == [0]
  {
    var w, r := S.Op(1, 7, true), S.Op(2, 7, false);
    actions := WriterAborts(w);
    actions := ReaderCommits(actions, [Access(w)] + [Finished(1, false)], r);
    var s := StateAfter(actions);
    AbortedWriteLog(s.log, w, r);
    assert Committers(s) == {2};
    OnlySecondKept(w, r);
    AbortedWriteEffects(w, r);
  }

  // ---------------------------------------------------------------------------------------------
  // An upgrade over another holder

  ghost function BothActive(q: Queue, log: seq<Event>): System {
    System(3, map[1 := Active, 2 := Active], map[7 := q], log)
  }

  lemma BothBegin() returns (a: seq<Action>, s: System)
    ensures Reaches(a, s) && s == System(3, map[1 := Active, 2 := Active], map[], [])
  {
    var s1 := System(2, map[1 := Active], map[], []);
    s := System(3, map[1 := Active, 2 := Active], map[], []);
    BeginLeads(1, map[], map[1 := Active], map[], []);
    BeginLeads(2, map[1 := Active], map[1 := Active, 2 := Active], map[], []);
    a := Then([], INITIAL, Begin, s1);
    a := Then(a, s1, Begin, s);
  }

  lemma FirstShares(s: System, x: Request)
    requires s == System(3, map[1 := Active, 2 := Active], map[], []) && x == Request(1, Shared, true)
    ensures Leads(s, Ask(1, 7, Shared), BothActive([x], []))
  {
    assert [] + [x] == [x];
    LockLeads(s, 1, Shared, [], [x], BothActive([x], []));
  }

  lemma SecondShares(x: Request, y: Request)
    requires x == Request(1, Shared, true) && y == Request(2, Shared, true)
    ensures Leads(BothActive([x], []), Ask(2, 7, Shared), BothActive([x, y], []))
  {
    var q := [x];
    assert q + [y] == [x, y] && q[0] == x;
    LockLeads(BothActive(q, []), 2, Shared, q, [x, y], BothActive([x, y], []));
  }

  /** Two transactions share a lock and the first has read under it. */
  lemma BothRead(r: S.Op) returns (a: seq<Action>)
    requires r == S.Op(1, 7, false)
    ensures Reaches(a, BothActive([Request(1, Shared, true), Request(2, Shared, true)], [Access(r)]))
  {
    var x, y := Request(1, Shared, true), Request(2, Shared, true);
    var s;
    a, s := BothBegin();
    assert [] + [Access(r)] == [Access(r)];
    FirstShares(s, x);
    SecondShares(x, y);
    TouchLeads(BothActive([x, y], []), 1, false, [x, y], 0, BothActive([x, y], [Access(r)]));
    a := Then(a, s, Ask(1, 7, Shared), BothActive([x], []));
    a := Then(a, BothActive([x], []), Ask(2, 7, Shared), BothActive([x, y], []));
    a := Then(a, BothActive([x, y], []), Touch(1, 7, false), BothActive([x, y], [Access(r)]));
  }

  /** The second one makes its lock exclusive beside the first one's. */
  lemma UpgradeOverHolder(s: System)
    requires s.table == map[7 := [Request(1, Shared, true), Request(2, Shared, true)]]
    ensures !Enabled(s, Ask(2, 7, Exclusive))
    ensures Next(s, Ask(2, 7, Exclusive)) ==
              s.(table := map[7 := [Request(1, Shared, true), Request(2, Exclusive, true)]])
  {
    var q := s.table[7];
    assert FirstOf(q, 2, 1);
    AcquiredAt(q, 2, Exclusive, 1);
    assert q[0].granted && !Compatible(Exclusive, q[0].mode);
    assert Raises(q, 2, Exclusive, 1) && Blocked(q, 1, Exclusive);
    assert QueueOf(s.table, 7) == q;
    var q' := [Request(1, Shared, true), Request(2, Exclusive, true)];
    assert Acquired(q, 2, Exclusive) == q';
    assert s.table[7 := q'] == map[7 := q'];
  }

  /** It writes and commits. */
  lemma WriteBesideReader(log: seq<Event>, w: S.Op, s: System, s1: System, s': System)
    requires w == S.Op(2, 7, true) && s == BothActive([Request(1, Shared, true), Request(2, Exclusive, true)], log)
    requires s1 == s.(log := log + [Access(w)])
    requires s' == System(3, map[1 := Active, 2 := Committed], map[7 := [Request(1, Shared, true)]],
                          log + [Access(w)] + [Finished(2, true)])
    ensures Leads(s, Touch(2, 7, true), s1) && Leads(s1, Finish(2, true), s')
  {
    var x, y := Request(1, Shared, true), Request(2, Exclusive, true);
    TouchLeads(s, 2, true, [x, y], 1, s1);
    assert [x] + [y] == [x, y];
    ReleaseLast([x], y);
    FinishLeads(s1, 2, true, [x, y], [x], s');
  }

  /** The first reads again and commits. */
  lemma ReadAgain(log: seq<Event>, r: S.Op, s: System, s1: System, s': System)
    requires r == S.Op(1, 7, false)
    requires s == System(3, map[1 := Active, 2 := Committed], map[7 := [Request(1, Shared, true)]], log)
    requires s1 == s.(log := log + [Access(r)])
    requires s' == System(3, map[1 := Committed, 2 := Committed], map[7 := []], log + [Access(r)] + [Finished(1, true)])
    ensures Leads(s, Touch(1, 7, false), s1) && Leads(s1, Finish(1, true), s')
  {
    var x := Request(1, Shared, true);
    TouchLeads(s, 1, false, [x], 0, s1);
    assert [] + [x] == [x];
    ReleaseLast([], x);
    FinishLeads(s1, 1, true, [x], [], s');
  }

  lemma UpgradeHistory(log: seq<Event>, r: S.Op, w: S.Op)
    requires log == [Access(r)] + [Access(w)] + [Finished(2, true)] + [Access(r)] + [Finished(1, true)]
    ensures Accesses(log) == [r, w, r]
  {
    LogSnoc([], Access(r));
    assert [] + [Access(r)] == [Access(r)];
    LogSnoc([Access(r)], Access(w));
    LogSnoc([Access(r)] + [Access(w)], Finished(2, true));
    LogSnoc([Access(r)] + [Access(w)] + [Finished(2, true)], Access(r));
    LogSnoc([Access(r)] + [Access(w)] + [Finished(2, true)] + [Access(r)], Finished(1, true));
  }

  /** What the first transaction has read if the others run before or behind it: the same value twice. */
  ghost predicate ReadsOnce(s: S.State, ran: bool) {
    var seen := S.SeenBy(s, 1);
    if ran then |seen| == 2 && seen[0] == seen[1] else seen == []
  }

  lemma {:induction false} SerialReadsOnce(h: S.History, order: seq<TxnId>)
    requires h == [S.Op(1, 7, false), S.Op(2, 7, true), S.Op(1, 7, false)] && S.Distinct(order)
    ensures ReadsOnce(S.Run(ALWAYS_42, R.BLANK, S.Serial(h, order)), 1 in order)
    decreases |order|
  {
    if order != [] {
      var front, t := order[..|order| - 1], order[|order| - 1];
      SerialReadsOnce(h, front);
      S.RunAppend(ALWAYS_42, R.BLANK, S.Serial(h, front), S.Only(h, t));
      assert order == front + [t] && t !in front;
      OnlyReadsOnce(S.Run(ALWAYS_42, R.BLANK, S.Serial(h, front)), h, t, 1 in front);
    }
  }

  lemma OnlyReadsOnce(s: S.State, h: S.History, t: TxnId, ran: bool)
    requires h == [S.Op(1, 7, false), S.Op(2, 7, true), S.Op(1, 7, false)]
    requires ReadsOnce(s, ran) && (ran ==> t != 1)
    ensures ReadsOnce(S.Run(ALWAYS_42, s, S.Only(h, t)), ran || t == 1)
  {
    OnlyOf(h, t);
    if t == 1 {
      RunTwo(ALWAYS_42, s, h[0], h[0]);
    } else if t == 2 {
      RunOne(ALWAYS_42, s, h[1]);
    }
  }

  lemma OnlyOf(h: S.History, t: TxnId)
    requires h == [S.Op(1, 7, false), S.Op(2, 7, true), S.Op(1, 7, false)]
    ensures S.Only(h, t) == if t == 1 then [h[0], h[0]] else if t == 2 then [h[1]] else []
  {
    assert h[1..] == [h[1], h[2]] && [h[1], h[2]][1..] == [h[2]] && [h[2]][1..] == [];
    assert S.Only([h[2]], t) == if t == 1 then [h[2]] else [];
  }

  lemma ReadsTwice(h: S.History)
    requires h == [S.Op(1, 7, false), S.Op(2, 7, true), S.Op(1, 7, false)]
    ensures S.SeenBy(S.Run(ALWAYS_42, R.BLANK, h), 1) == [0, 42]
  {
    assert h[1..] == [h[1], h[2]];
    var s1 := S.Step(ALWAYS_42, R.BLANK, h[0]);
    RunTwo(ALWAYS_42, s1, h[1], h[2]);
    assert S.SeenBy(s1, 1) == [0];
  }

  /** From a state that a legal run reaches, the second transaction upgrades over the first, writes and
      commits; then the first reads again.  Every access is covered by a granted lock, but no serial order has
      the same effect. */
  lemma UpgradeBreaksSerialisability() returns (actions: seq<Action>)
    ensures Legal(actions) && !Enabled(StateAfter(actions), Ask(2, 7, Exclusive))
    ensures var s1 := Next(StateAfter(actions), Ask(2, 7, Exclusive));
            var s2 := Next(s1, Touch(2, 7, true));
            var s3 := Next(s2, Finish(2, true));
            var s4 := Next(s3, Touch(1, 7, false));
            var h := Accesses(Next(s4, Finish(1, true)).log);
            && Enabled(s1, Touch(2, 7, true)) && Enabled(s2, Finish(2, true))
            && Enabled(s3, Touch(1, 7, false)) && Enabled(s4, Finish(1, true))
            && forall order | S.Distinct(order) ::
                 S.Run(ALWAYS_42, R.BLANK, h) != S.Run(ALWAYS_42, R.BLANK, S.Serial(h, order))
  {
    var r, w := S.Op(1, 7, false), S.Op(2, 7, true);
    actions := BothRead(r);
    var x, y := Request(1, Shared, true), Request(2, Exclusive, true);
    var l0, l2 := [Access(r)], [Access(r)] + [Access(w)] + [Finished(2, true)];
    var s3 := System(3, map[1 := Active, 2 := Committed], map[7 := [x]], l2);
    var s5 := System(3, map[1 := Committed, 2 := Committed], map[7 := []], l2 + [Access(r)] + [Finished(1, true)]);
    UpgradeOverHolder(StateAfter(actions));
    WriteBesideReader(l0, w, BothActive([x, y], l0), BothActive([x, y], l0 + [Access(w)]), s3);
    ReadAgain(l2, r, s3, s3.(log := l2 + [Access(r)]), s5);
    UpgradeHistory(s5.log, r, w);
    NoSerialOrder(r, w);
  }

  lemma NoSerialOrder(r: S.Op, w: S.Op)
    requires r == S.Op(1, 7, false) && w == S.Op(2, 7, true)
    ensures forall order | S.Distinct(order) ::
              S.Run(ALWAYS_42, R.BLANK, [r, w, r]) != S.Run(ALWAYS_42, R.BLANK, S.Serial([r, w, r], order))
  {
    ReadsTwice([r, w, r]);
    forall order | S.Distinct(order)
      ensures S.Run(ALWAYS_42, R.BLANK, [r, w, r]) != S.Run(ALWAYS_42, R.BLANK, S.Serial([r, w, r], order))
    {
      SerialReadsOnce([r, w, r], order);
    }
  }

  // ---------------------------------------------------------------------------------------------
  // A success that covers nothing

  lemma IntentStays(s: System)
    requires s == System(2, map[1 := Active], map[7 := [Request(1, IntentExclusive, true)]], [])
    ensures Leads(s, Ask(1, 7, Exclusive), s) && Holds(s.table[7], 1)
    ensures forall write :: !Enabled(s, Touch(1, 7, write))
  {
    var q := s.table[7];
    assert FirstOf(q, 1, 0);
    AcquiredAt(q, 1, Exclusive, 0);
    forall mode, i | Raises(q, 1, mode, i)
      ensures mode != Exclusive
    {
      assert i == 0;
    }
    assert s.table[7 := q] == s.table;
  }

  /** The holder of an intention lock asks for an exclusive one, which comes earlier in the enumeration, and is told
      that it holds a lock; neither reading nor writing is covered by it. */
  lemma SuccessWithoutCover() returns (actions: seq<Action>)
    ensures Legal(actions)
    ensures var s := StateAfter(actions);
            && QueueOf(s.table, 7) == [Request(1, IntentExclusive, true)] && Enabled(s, Ask(1, 7, Exclusive))
            && Holds(QueueOf(Next(s, Ask(1, 7, Exclusive)).table, 7), 1)
            && forall write :: !Enabled(Next(s, Ask(1, 7, Exclusive)), Touch(1, 7, write))
  {
    var x := Request(1, IntentExclusive, true);
    var s1, s2 := System(2, map[1 := Active], map[], []), System(2, map[1 := Active], map[7 := [x]], []);
    BeginLeads(1, map[], map[1 := Active], map[], []);
    assert [] + [x] == [x];
    LockLeads(s1, 1, IntentExclusive, [], [x], s2);
    actions := Then([], INITIAL, Begin, s1);
    actions := Then(actions, s1, Ask(1, 7, IntentExclusive), s2);
    IntentStays(s2);
  }
}
