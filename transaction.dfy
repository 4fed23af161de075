/** The JTA `UserTransaction` the guest-booking endpoint drives: begin, commit,
    rollback, over the one store. */
module Transaction {
  import opened Store

  /** No transaction, or one begun when the store stood at `snapshot`. */
  datatype Status = NoTransaction | Active(snapshot: Tables)

  /** How `rollback` ended: the changes were undone, the transaction manager
      failed (`SystemException`), or there was no transaction to roll back
      (`IllegalStateException`). */
  datatype RollbackResult = RolledBack | SystemFailure | IllegalState

  class UserTransaction {
    const db: Database
    var status: Status

    /** The snapshot of an open transaction is a well-formed store. */
    ghost predicate Valid()
      reads this
    {
      status.Active? ==> WellFormed(status.snapshot)
    }

    constructor (db: Database)
      ensures this.db == db && status == NoTransaction
    {
      this.db := db;
      status := NoTransaction;
    }

    /** `begin`: opens a transaction that remembers the store as it is. */
    method Begin()
      requires status == NoTransaction && db.Valid()
      modifies this
      ensures status == Active(db.State()) && Valid()
    {
      status := Active(db.State());
    }

    /** `commit`: the changes stay and the transaction ends; when `fault` holds
      the commit fails (`RollbackException` and its kin), the transaction
      manager discards the changes, and the transaction ends all the same. */
    method Commit(fault: bool) returns (committed: bool)
      requires status.Active? && Valid() && db.Valid()
      modifies this, db
      ensures status == NoTransaction && db.Valid()
      ensures committed == !fault
      ensures committed ==> db.State() == old(db.State())
      ensures !committed ==> db.State() == old(status.snapshot)
    {
      if fault {
        Restore(status.snapshot);
        committed := false;
      } else {
        committed := true;
      }
      status := NoTransaction;
    }

    /** `rollback`: puts the store back as it was at `begin` and ends the
      transaction; when `fault` holds the transaction manager fails and
      nothing changes; without a transaction it refuses. */
    method Rollback(fault: bool) returns (r: RollbackResult)
      requires Valid() && db.Valid()
      modifies this, db
      ensures db.Valid() && Valid()
      ensures old(status).NoTransaction? ==>
        r == IllegalState && status == old(status) && db.State() == old(db.State())
      ensures old(status).Active? && fault ==>
        r == SystemFailure && status == old(status) && db.State() == old(db.State())
      ensures old(status).Active? && !fault ==>
        r == RolledBack && status == NoTransaction && db.State() == old(status.snapshot)
    {
      if status.NoTransaction? {
        return IllegalState;
      }
      if fault {
        return SystemFailure;
      }
      Restore(status.snapshot);
      status := NoTransaction;
      r := RolledBack;
    }

    method Restore(snapshot: Tables)
      requires WellFormed(snapshot)
      modifies db
      ensures db.State() == snapshot && db.Valid()
    {
      db.customers := snapshot.customers;
      db.flights := snapshot.flights;
      db.bookings := snapshot.bookings;
      db.nextId := snapshot.nextId;
    }
  }
}
