/**
 * The `matches` table behind the SQLite connection, as a map from match
 * identifier to row with a single open transaction at a time. The table's
 * UNIQUE constraint on `matchId` is checked when a row is inserted, as SQLite
 * does for every UNIQUE constraint under its default ABORT conflict policy;
 * every other failure of the
 * engine (disk, locks, I/O) is not modelled and arrives as a `fault` argument.
 */
module Store {
  import opened Wrappers
  import opened UInt64
  import opened Classify

  /** SQLite's result code for a constraint violation (SQLITE_CONSTRAINT). */
  const ConstraintViolation: int := 19

  type Rows = map<ULong, MatchRow>

  /** Each row is stored under its own match identifier. */
  ghost predicate KeyedById(rows: Rows) {
    forall k :: k in rows ==> rows[k].matchId == k
  }

  /** The error an INSERT of `matchId` reports when `keys` are already in the table. */
  function InsertError(keys: set<ULong>, matchId: ULong, fault: Option<int>): Option<int> {
    if matchId in keys then Some(ConstraintViolation) else fault
  }

  class MatchStore {
    /** The committed rows. */
    var rows: Rows
    /** The rows inserted by the open transaction and not yet committed. */
    var staged: Rows
    var inTransaction: bool

    ghost predicate Valid()
      reads this
    {
      && KeyedById(rows)
      && KeyedById(staged)
      && rows.Keys !! staged.Keys
      && (!inTransaction ==> staged == map[])
    }

    /** A store opened on a table that already holds `initial`. */
    constructor (initial: Rows)
      requires KeyedById(initial)
      ensures Valid() && !inTransaction
      ensures rows == initial
    {
      rows := initial;
      staged := map[];
      inTransaction := false;
    }

    /** `conn.BeginTransaction()`. */
    method BeginTransaction()
      requires Valid() && !inTransaction
      modifies this
      ensures Valid() && inTransaction
      ensures rows == old(rows) && staged == map[]
    {
      inTransaction := true;
    }

    /**
     * `insertCommand.ExecuteNonQuery()` inside the open transaction: refused
     * with code 19 when the identifier is already in the table, otherwise
     * refused with `fault` when the engine fails, otherwise staged.
     */
    method Insert(row: MatchRow, fault: Option<int>) returns (err: Option<int>)
      requires Valid() && inTransaction
      modifies this
      ensures Valid() && inTransaction && rows == old(rows)
      ensures err == InsertError(old(rows).Keys + old(staged).Keys, row.matchId, fault)
      ensures staged == if err.None? then old(staged)[row.matchId := row] else old(staged)
    {
      err := InsertError(rows.Keys + staged.Keys, row.matchId, fault);
      if err.None? {
        staged := staged[row.matchId := row];
      }
    }

    /**
     * `transaction.Commit()`: with no fault, the staged rows join the table
     * and the transaction ends; with a fault, nothing is committed and the
     * transaction stays open until it is disposed.
     */
    method Commit(fault: Option<int>) returns (err: Option<int>)
      requires Valid() && inTransaction
      modifies this
      ensures Valid()
      ensures err == fault
      ensures err.None? ==> rows == old(rows) + old(staged) && !inTransaction
      ensures err.Some? ==> rows == old(rows) && staged == old(staged) && inTransaction
      ensures forall k :: k in old(rows) ==> k in rows && rows[k] == old(rows)[k]
    {
      err := fault;
      if err.None? {
        rows := rows + staged;
        staged := map[];
        inTransaction := false;
      }
    }

    /** Leaving the `using` block: an uncommitted transaction is rolled back. */
    method Dispose()
      requires Valid()
      modifies this
      ensures Valid() && !inTransaction
      ensures rows == old(rows) && staged == map[]
    {
      staged := map[];
      inTransaction := false;
    }
  }
}
