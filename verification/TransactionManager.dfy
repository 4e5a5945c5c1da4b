/** The transaction manager (src/transaction/txn_manager.c) as an object over the lock manager.  Its
    operations are the Begin and Finish steps of the two-phase locking system. */
module TransactionManager {
  import opened LockManager
  import opened TwoPhaseLocking

  datatype Code = DB_OK | DB_TXN_ABORTED

  class TransactionManager {
    var nextTxnId: TxnId
    /** The state field of every transaction begun so far. */
    var state: map<TxnId, Status>
    /** The ids in the table of active transactions. */
    var active: set<TxnId>
    const locks: LockManager

    ghost var log: seq<Event>

    ghost predicate Valid()
      reads this
    {
      && (forall t | t in state :: t < nextTxnId)
      && (forall t :: t in active <==> t in state && state[t] == Active)
    }

    /** The system state this object and its lock manager represent. */
    ghost function View(): System
      reads this, locks
    {
      System(nextTxnId, state, locks.table, log)
    }

    constructor (locks: LockManager)
      requires locks.table == map[]
      ensures Valid() && View() == INITIAL && this.locks == locks
    {
      nextTxnId := 1;
      state := map[];
      active := {};
      this.locks := locks;
      log := [];
    }

    /** txn_begin: ids are handed out once. */
    method Begin() returns (txn: TxnId)
      requires Valid()
      modifies this
      ensures Valid() && View() == Next(old(View()), TwoPhaseLocking.Begin)
      ensures txn !in old(state) && txn in active
    {
      txn := nextTxnId;
      nextTxnId := nextTxnId + 1;
      state := state[txn := Active];
      active := active + {txn};
    }

    /** txn_commit: an active transaction gives up all its locks and ends; any other is refused. */
    method Commit(txn: TxnId) returns (code: Code)
      requires Valid() && txn in state
      modifies this, locks
      ensures Valid()
      ensures code == if old(state[txn]) == Active then DB_OK else DB_TXN_ABORTED
      ensures View() == if code == DB_OK then Next(old(View()), Finish(txn, true)) else old(View())
    {
      if state[txn] != Active {
        return DB_TXN_ABORTED;
      }
      locks.ReleaseAll(txn);
      state := state[txn := Committed];
      active := active - {txn};
      log := log + [Finished(txn, true)];
      return DB_OK;
    }

    /** txn_abort. */
    method Abort(txn: TxnId) returns (code: Code)
      requires Valid() && txn in state
      modifies this, locks
      ensures Valid()
      ensures code == if old(state[txn]) == Active then DB_OK else DB_TXN_ABORTED
      ensures View() == if code == DB_OK then Next(old(View()), Finish(txn, false)) else old(View())
    {
      if state[txn] != Active {
        return DB_TXN_ABORTED;
      }
      locks.ReleaseAll(txn);
      state := state[txn := Aborted];
      active := active - {txn};
      log := log + [Finished(txn, false)];
      return DB_OK;
    }
  }
}
