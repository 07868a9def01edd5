/**
  The reorder engine of a grid: it reads the current `row id -> position`
  order of one parent's children, merges the caller's overrides into it, sorts
  the result by value and writes the dense positions `0..N-1` back, one UPDATE
  per row inside one transaction, collecting a structured error for every row
  whose statement reports an error.

  The database is abstract: the scoped read is a given sequence of rows, the
  table is a map from row id to stored position, whether a row's statement
  reports an error is the set `failing`, and a lost connection is an event of
  the `ConnectionEvent` datatype.
 */
module PositionUpdater {
  import opened OrderedMaps
  import opened StableSort

  type RowId = int

  /** One row of the scoped read: a child's id and its stored position. */
  datatype Row = Row(id: RowId, position: int)

  /** A requested override: the row and the sort key it should be placed by. */
  datatype RowUpdate = RowUpdate(id: RowId, newPosition: int)

  /** A user-displayable error record: translation key, domain and parameters. */
  datatype FieldError = FieldError(key: string, domain: string, parameters: seq<RowId>)

  const CouldNotUpdateKey: string := "Could not update #%i"
  const NotificationDomain: string := "Admin.Catalog.Notification"

  /** The record collected for a row whose update reported an error. */
  function CouldNotUpdate(id: RowId): FieldError
  {
    FieldError(CouldNotUpdateKey, NotificationDomain, [id])
  }

  /**
    What happens to the connection during the write phase: nothing, a
    connection failure while the update of the row at index `row` executes,
    or a connection failure while committing.
   */
  datatype ConnectionEvent = Healthy | LostAtRow(row: nat) | LostAtCommit

  /** One issued `UPDATE table SET position = :position WHERE id = :rowId`. */
  datatype Statement = Statement(rowId: RowId, position: nat)

  /** How the transaction ended. */
  datatype TxEnd = Committed | RolledBack

  /**
    The outcome of the write phase: the table afterwards, the returned error
    list, the statements issued in order, and how the transaction ended.
   */
  datatype WriteResult = WriteResult(
    store: map<RowId, int>,
    errors: seq<FieldError>,
    issued: seq<Statement>,
    end: TxEnd)

  // ---------------------------------------------------------------------
  // Reading the current order and merging the overrides

  function RowEntries(rows: seq<Row>): seq<Entry<RowId, int>>
  {
    seq(|rows|, i requires 0 <= i < |rows| => Entry(rows[i].id, rows[i].position))
  }

  function UpdateEntries(updates: seq<RowUpdate>): seq<Entry<RowId, int>>
  {
    seq(|updates|, i requires 0 <= i < |updates| => Entry(updates[i].id, updates[i].newPosition))
  }

  /** The ids of the read rows, in read order, repetitions included. */
  function RowIds(rows: seq<Row>): seq<RowId>
  {
    Keys(RowEntries(rows))
  }

  /** The ids of the overrides, in caller order, repetitions included. */
  function UpdateIds(updates: seq<RowUpdate>): seq<RowId>
  {
    Keys(UpdateEntries(updates))
  }

  /** The read rows folded into an ordered dictionary `id => position`. */
  function CurrentPositions(rows: seq<Row>): (r: seq<Entry<RowId, int>>)
    ensures UniqueKeys(r)
  {
    AssignAll([], RowEntries(rows))
  }

  /** The current positions with every override assigned over them, in caller order. */
  function NewPositions(rows: seq<Row>, updates: seq<RowUpdate>): (r: seq<Entry<RowId, int>>)
    ensures UniqueKeys(r)
  {
    AssignAll(CurrentPositions(rows), UpdateEntries(updates))
  }

  /** The read fold holds one entry per distinct id, in order of first appearance. */
  lemma {:induction false} CurrentPositionsKeys(rows: seq<Row>)
    ensures Keys(CurrentPositions(rows)) == NewKeys([], RowIds(rows))
    ensures Distinct(Keys(CurrentPositions(rows)))
    ensures forall id :: id in Keys(CurrentPositions(rows)) <==> id in RowIds(rows)
  {
    AssignAllKeys([], RowEntries(rows));
    assert [] + NewKeys([], RowIds(rows)) == NewKeys([], RowIds(rows));
    NewKeysDistinct([], RowIds(rows));
    forall id ensures id in Keys(CurrentPositions(rows)) <==> id in RowIds(rows) {
      NewKeysMembers([], RowIds(rows), id);
    }
  }

  /** A repeated id takes the position of its last row. */
  lemma {:induction false} CurrentPositionsLastRowWins(rows: seq<Row>, i: int)
    requires 0 <= i < |rows|
    requires forall j :: i < j < |rows| ==> rows[j].id != rows[i].id
    ensures Lookup(CurrentPositions(rows), rows[i].id) == Some(rows[i].position)
  {
    AssignAllLastWins([], RowEntries(rows), i);
  }

  /**
    The merged key order: the read ids keep their places and the overridden
    ids that were not read follow, in order of first appearance among the
    overrides. Hence the key set is the union of both.
   */
  lemma {:induction false} NewPositionsKeys(rows: seq<Row>, updates: seq<RowUpdate>)
    ensures Keys(NewPositions(rows, updates))
         == Keys(CurrentPositions(rows)) + NewKeys(Keys(CurrentPositions(rows)), UpdateIds(updates))
    ensures forall id :: id in Keys(NewPositions(rows, updates))
                     <==> id in RowIds(rows) || id in UpdateIds(updates)
  {
    var current := CurrentPositions(rows);
    AssignAllKeys(current, UpdateEntries(updates));
    CurrentPositionsKeys(rows);
    forall id ensures id in Keys(NewPositions(rows, updates)) <==> id in RowIds(rows) || id in UpdateIds(updates) {
      NewKeysMembers(Keys(current), UpdateIds(updates), id);
    }
  }

  /** An overridden id ends with the sort key of its last override. */
  lemma {:induction false} NewPositionsLastOverrideWins(rows: seq<Row>, updates: seq<RowUpdate>, i: int)
    requires 0 <= i < |updates|
    requires forall j :: i < j < |updates| ==> updates[j].id != updates[i].id
    ensures Lookup(NewPositions(rows, updates), updates[i].id) == Some(updates[i].newPosition)
  {
    AssignAllLastWins(CurrentPositions(rows), UpdateEntries(updates), i);
  }

  /** An id that is not overridden keeps the position it was read with. */
  lemma {:induction false} NewPositionsKeepsUntouched(rows: seq<Row>, updates: seq<RowUpdate>, id: RowId)
    requires id !in UpdateIds(updates)
    ensures Lookup(NewPositions(rows, updates), id) == Lookup(CurrentPositions(rows), id)
  {
    AssignAllKeepsOthers(CurrentPositions(rows), UpdateEntries(updates), id);
  }

  // ---------------------------------------------------------------------
  // The write phase

  /** The statement for the i-th entry of the sorted order: position i. */
  function Schedule(sorted: seq<Entry<RowId, int>>): (r: seq<Statement>)
    ensures |r| == |sorted|
  {
    seq(|sorted|, i requires 0 <= i < |sorted| => Statement(sorted[i].key, i))
  }

  /** The positions a sequence of statements writes. */
  function WrittenPositions(stmts: seq<Statement>): set<nat>
  {
    set s | s in stmts :: s.position
  }

  /** The scheduled positions are exactly `0..N-1`, and only ids of the dictionary are written. */
  lemma {:induction false} ScheduleIsDense(sorted: seq<Entry<RowId, int>>)
    ensures forall p: int :: p in WrittenPositions(Schedule(sorted)) <==> 0 <= p < |sorted|
    ensures forall s :: s in Schedule(sorted) ==> s.rowId in Keys(sorted)
  {
    var sch := Schedule(sorted);
    forall p: int | 0 <= p < |sorted|
      ensures p in WrittenPositions(sch)
    {
      assert sch[p] in sch;
    }
    forall s | s in sch ensures s.rowId in Keys(sorted) {
      var i :| 0 <= i < |sch| && sch[i] == s;
      assert Keys(sorted)[i] == s.rowId;
    }
  }

  /**
    The error records for the rows `ids`, in order: one per id whose
    statement reports an error.
   */
  function ErrorsFor(ids: seq<RowId>, failing: set<RowId>): (r: seq<FieldError>)
    ensures |r| <= |ids|
  {
    if ids == [] then []
    else (if ids[0] in failing then [CouldNotUpdate(ids[0])] else []) + ErrorsFor(ids[1..], failing)
  }

  /**
    Every record is a `Could not update #%i` notification naming one failing
    row of `ids`, and every failing row of `ids` has its record.
   */
  lemma {:induction false} ErrorsForRecords(ids: seq<RowId>, failing: set<RowId>)
    ensures |ErrorsFor(ids, failing)| <= |ids|
    ensures forall e :: e in ErrorsFor(ids, failing) ==>
      e.key == CouldNotUpdateKey && e.domain == NotificationDomain
      && |e.parameters| == 1 && e.parameters[0] in ids && e.parameters[0] in failing
    ensures forall id :: id in ids && id in failing ==> CouldNotUpdate(id) in ErrorsFor(ids, failing)
  {
    if ids != [] {
      ErrorsForRecords(ids[1..], failing);
      assert ids == [ids[0]] + ids[1..];
    }
  }
  /** The records of two runs of rows are the records of each, one after the other. */
  lemma {:induction false} ErrorsForAppend(a: seq<RowId>, b: seq<RowId>, failing: set<RowId>)
    ensures ErrorsFor(a + b, failing) == ErrorsFor(a, failing) + ErrorsFor(b, failing)
  {
    if a == [] {
      assert a + b == b;
    } else {
      ErrorsForAppend(a[1..], b, failing);
      assert (a + b)[1..] == a[1..] + b;
    }
  }


  /** The number of rows whose statement is executed before the connection is lost. */
  function RowsReached(n: nat, conn: ConnectionEvent): (k: nat)
    ensures k <= n
    ensures k < n <==> conn.LostAtRow? && conn.row < n
  {
    if conn.LostAtRow? && conn.row < n then conn.row else n
  }

  /** The loop variables of the write loop. */
  datatype Progress = Progress(
    staged: map<RowId, int>,
    errors: seq<FieldError>,
    issued: seq<Statement>,
    interrupted: bool)

  /**
    One iteration of the write loop for row `id` at `index`: issue the update,
    which changes the row when it exists and its statement succeeds, and
    record an error when the statement reports one.
   */
  function WriteRow(p: Progress, id: RowId, index: nat, failing: set<RowId>): (r: Progress)
    ensures r.staged.Keys == p.staged.Keys
    ensures |r.issued| == |p.issued| + 1
  {
    Progress(
      if id in p.staged && id !in failing then p.staged[id := index] else p.staged,
      if id in failing then p.errors + [CouldNotUpdate(id)] else p.errors,
      p.issued + [Statement(id, index)],
      p.interrupted)
  }

  /** The write loop from `index` on; a lost connection leaves it at once. */
  function WriteLoop(sorted: seq<Entry<RowId, int>>, index: nat, p: Progress,
                     failing: set<RowId>, conn: ConnectionEvent): (r: Progress)
    requires index <= |sorted|
    ensures r.staged.Keys == p.staged.Keys
    ensures r.interrupted <==> p.interrupted || (conn.LostAtRow? && index <= conn.row < |sorted|)
    decreases |sorted| - index
  {
    if index == |sorted| then p
    else if conn == LostAtRow(index) then p.(interrupted := true)
    else WriteLoop(sorted, index + 1, WriteRow(p, sorted[index].key, index, failing), failing, conn)
  }

  /** A row reached before the connection is lost is written, and the loop moves on. */
  lemma {:induction false} WriteLoopStep(sorted: seq<Entry<RowId, int>>, index: nat, p: Progress,
                      failing: set<RowId>, conn: ConnectionEvent)
    requires index < RowsReached(|sorted|, conn)
    ensures WriteLoop(sorted, index, p, failing, conn)
         == WriteLoop(sorted, index + 1, WriteRow(p, sorted[index].key, index, failing), failing, conn)
  {
  }

  /**
    The write loop from `index` on, started with the statements of the rows
    before `index` issued, issues the scheduled statements up to the lost
    connection, and is interrupted exactly when the connection is lost
    while one of the rows is written (at an index below their number).
   */
  lemma {:induction false} WriteLoopIssues(sorted: seq<Entry<RowId, int>>, index: nat, p: Progress,
                                           failing: set<RowId>, conn: ConnectionEvent)
    requires index <= RowsReached(|sorted|, conn)
    requires !p.interrupted
    requires p.issued == Schedule(sorted)[..index]
    ensures var n := RowsReached(|sorted|, conn);
      var r := WriteLoop(sorted, index, p, failing, conn);
      && r.issued == Schedule(sorted)[..n]
      && (r.interrupted <==> n < |sorted|)
    decreases |sorted| - index
  {
    var n := RowsReached(|sorted|, conn);
    if index == n {
      if index < |sorted| {
        assert conn == LostAtRow(index);
      }
    } else {
      var id := sorted[index].key;
      var p' := WriteRow(p, id, index, failing);
      assert Schedule(sorted)[..index + 1] == Schedule(sorted)[..index] + [Statement(id, index)];
      WriteLoopStep(sorted, index, p, failing, conn);
      WriteLoopIssues(sorted, index + 1, p', failing, conn);
    }
  }

  /**
    The write loop from `index` on, started with the records of the rows
    before `index`, returns the records of every row it reaches, in order.
   */
  lemma {:induction false} WriteLoopErrors(sorted: seq<Entry<RowId, int>>, index: nat, p: Progress,
                                           failing: set<RowId>, conn: ConnectionEvent)
    requires index <= RowsReached(|sorted|, conn)
    requires p.errors == ErrorsFor(Keys(sorted)[..index], failing)
    ensures WriteLoop(sorted, index, p, failing, conn).errors
         == ErrorsFor(Keys(sorted)[..RowsReached(|sorted|, conn)], failing)
    decreases |sorted| - index
  {
    var n := RowsReached(|sorted|, conn);
    if index < n {
      var id := sorted[index].key;
      var p' := WriteRow(p, id, index, failing);
      WriteRowErrors(sorted, index, p, failing);
      assert WriteLoop(sorted, index, p, failing, conn) == WriteLoop(sorted, index + 1, p', failing, conn) by {
        WriteLoopStep(sorted, index, p, failing, conn);
      }
      WriteLoopErrors(sorted, index + 1, p', failing, conn);
    }
  }

  /** Writing row `index` extends the records of the rows before it by its own. */
  lemma {:induction false} WriteRowErrors(sorted: seq<Entry<RowId, int>>, index: nat, p: Progress,
                                          failing: set<RowId>)
    requires index < |sorted|
    requires p.errors == ErrorsFor(Keys(sorted)[..index], failing)
    ensures WriteRow(p, sorted[index].key, index, failing).errors
         == ErrorsFor(Keys(sorted)[..index + 1], failing)
  {
    var id := sorted[index].key;
    assert Keys(sorted)[..index + 1] == Keys(sorted)[..index] + [id];
    ErrorsForAppend(Keys(sorted)[..index], [id], failing);
    assert [id][1..] == [];
  }

  /** The write loop from `index` on stages position j for every existing, non-failing row j it reaches. */
  lemma {:induction false} WriteLoopPlaces(sorted: seq<Entry<RowId, int>>, index: nat, p: Progress,
                                           failing: set<RowId>, conn: ConnectionEvent)
    requires UniqueKeys(sorted)
    requires index <= RowsReached(|sorted|, conn)
    ensures var n := RowsReached(|sorted|, conn);
      var r := WriteLoop(sorted, index, p, failing, conn);
      forall j :: index <= j < n && sorted[j].key in p.staged && sorted[j].key !in failing
        ==> r.staged[sorted[j].key] == j
    decreases |sorted| - index
  {
    var n := RowsReached(|sorted|, conn);
    if index < n {
      var id := sorted[index].key;
      var p' := WriteRow(p, id, index, failing);
      var r := WriteLoop(sorted, index + 1, p', failing, conn);
      assert WriteLoop(sorted, index, p, failing, conn) == r by {
        WriteLoopStep(sorted, index, p, failing, conn);
      }
      WriteLoopPlaces(sorted, index + 1, p', failing, conn);
      if id in p.staged && id !in failing {
        assert r.staged[id] == index by {
          WriteLoopKeeps(sorted, index + 1, p', failing, conn);
          assert id !in Keys(sorted)[index + 1..n] by {
            forall t | index + 1 <= t < n ensures Keys(sorted)[t] != id {
              assert sorted[t].key != sorted[index].key;
            }
          }
        }
      }
    }
  }

  /** The write loop from `index` on leaves every row it does not write successfully as it was. */
  lemma {:induction false} WriteLoopKeeps(sorted: seq<Entry<RowId, int>>, index: nat, p: Progress,
                                          failing: set<RowId>, conn: ConnectionEvent)
    requires index <= RowsReached(|sorted|, conn)
    ensures var n := RowsReached(|sorted|, conn);
      var r := WriteLoop(sorted, index, p, failing, conn);
      forall id :: id in p.staged && (id !in Keys(sorted)[index..n] || id in failing)
        ==> r.staged[id] == p.staged[id]
    decreases |sorted| - index
  {
    var n := RowsReached(|sorted|, conn);
    if index < n {
      var id := sorted[index].key;
      var p' := WriteRow(p, id, index, failing);
      var r := WriteLoop(sorted, index + 1, p', failing, conn);
      assert WriteLoop(sorted, index, p, failing, conn) == r by {
        WriteLoopStep(sorted, index, p, failing, conn);
      }
      WriteLoopKeeps(sorted, index + 1, p', failing, conn);
      assert Keys(sorted)[index..n] == [id] + Keys(sorted)[index + 1..n];
      forall id' | id' in p.staged && (id' !in Keys(sorted)[index..n] || id' in failing)
        ensures r.staged[id'] == p.staged[id']
      {
        assert id' !in Keys(sorted)[index + 1..n] || id' in failing;
      }
    }
  }

  /**
    `updatePositions`: run the write loop inside a transaction. The batch is
    committed exactly when the connection survives every row and the commit;
    otherwise it is rolled back and the table is left as it was.
   */
  function UpdatePositions(store: map<RowId, int>, sorted: seq<Entry<RowId, int>>,
                           failing: set<RowId>, conn: ConnectionEvent): (r: WriteResult)
    ensures r.end == Committed <==> conn == Healthy || (conn.LostAtRow? && conn.row >= |sorted|)
    ensures r.end == RolledBack ==> r.store == store
  {
    var p0 := Progress(store, [], [], false);
    assert Schedule(sorted)[..0] == [];
    WriteLoopIssues(sorted, 0, p0, failing, conn);
    var p := WriteLoop(sorted, 0, p0, failing, conn);
    if p.interrupted || conn == LostAtCommit then WriteResult(store, p.errors, p.issued, RolledBack)
    else WriteResult(p.staged, p.errors, p.issued, Committed)
  }

  /**
    The statements issued are the schedule up to the lost connection: row i
    of the sorted order is written with position i, and nothing after the
    failure is attempted.
   */
  lemma {:induction false} UpdatePositionsIssues(store: map<RowId, int>, sorted: seq<Entry<RowId, int>>,
                              failing: set<RowId>, conn: ConnectionEvent)
    ensures UpdatePositions(store, sorted, failing, conn).issued
         == Schedule(sorted)[..RowsReached(|sorted|, conn)]
  {
    assert Schedule(sorted)[..0] == [];
    WriteLoopIssues(sorted, 0, Progress(store, [], [], false), failing, conn);
  }

  /**
    The returned errors are the records of the rows attempted before the
    connection was lost, in write order; on a rollback they are returned all
    the same, because the error list is never reset.
   */
  lemma {:induction false} UpdatePositionsErrors(store: map<RowId, int>, sorted: seq<Entry<RowId, int>>,
                              failing: set<RowId>, conn: ConnectionEvent)
    ensures UpdatePositions(store, sorted, failing, conn).errors
         == ErrorsFor(Keys(sorted)[..RowsReached(|sorted|, conn)], failing)
  {
    assert Keys(sorted)[..0] == [];
    WriteLoopErrors(sorted, 0, Progress(store, [], [], false), failing, conn);
  }

  /**
    The table after the write phase: no row appears or disappears; on a
    commit, row i of the sorted order holds i when it exists and its
    statement succeeded, and every other row keeps its position.
   */
  lemma {:induction false} UpdatePositionsStore(store: map<RowId, int>, sorted: seq<Entry<RowId, int>>,
                             failing: set<RowId>, conn: ConnectionEvent)
    requires UniqueKeys(sorted)
    ensures var r := UpdatePositions(store, sorted, failing, conn);
      && r.store.Keys == store.Keys
      && (r.end == Committed ==>
            forall j :: 0 <= j < |sorted| && sorted[j].key in store && sorted[j].key !in failing
              ==> r.store[sorted[j].key] == j)
      && (r.end == Committed ==>
            forall id :: id in store && (id !in Keys(sorted) || id in failing) ==> r.store[id] == store[id])
  {
    var p0 := Progress(store, [], [], false);
    assert Schedule(sorted)[..0] == [];
    WriteLoopIssues(sorted, 0, p0, failing, conn);
    WriteLoopPlaces(sorted, 0, p0, failing, conn);
    WriteLoopKeeps(sorted, 0, p0, failing, conn);
    assert Keys(sorted)[0..|sorted|] == Keys(sorted);
  }

  // ---------------------------------------------------------------------
  // The whole update

  /** The merged dictionary in the order it is written: `asort($newPositions)`. */
  function SortedPositions(rows: seq<Row>, updates: seq<RowUpdate>): (r: seq<Entry<RowId, int>>)
    ensures UniqueKeys(r)
    ensures |r| == |NewPositions(rows, updates)|
  {
    var merged := NewPositions(rows, updates);
    SortKeepsKeysUnique(merged);
    Sort(merged)
  }

  /** `update`: merge the overrides, sort by value, then write the dense order back. */
  function Update(rows: seq<Row>, updates: seq<RowUpdate>, store: map<RowId, int>,
                  failing: set<RowId>, conn: ConnectionEvent): (r: WriteResult)
    ensures var n := |NewPositions(rows, updates)|;
      r.end == Committed <==> conn == Healthy || (conn.LostAtRow? && conn.row >= n)
    ensures r.end == RolledBack ==> r.store == store
  {
    UpdatePositions(store, SortedPositions(rows, updates), failing, conn)
  }

  /**
    Only ids of the merged dictionary are written, each with a position
    below its size, and on a commit every other row keeps its position.
   */
  lemma {:induction false} UpdateWritesOnlyMergedRows(rows: seq<Row>, updates: seq<RowUpdate>, store: map<RowId, int>,
                                   failing: set<RowId>, conn: ConnectionEvent)
    ensures var r := Update(rows, updates, store, failing, conn);
      var merged := NewPositions(rows, updates);
      && r.store.Keys == store.Keys
      && (forall s :: s in r.issued ==> s.rowId in Keys(merged) && s.position < |merged|)
      && (r.end == Committed ==>
            forall id :: id in store && (id !in Keys(merged) || id in failing) ==> r.store[id] == store[id])
  {
    var sorted := SortedPositions(rows, updates);
    var merged := NewPositions(rows, updates);
    UpdatePositionsIssues(store, sorted, failing, conn);
    UpdatePositionsStore(store, sorted, failing, conn);
    var r := UpdatePositions(store, sorted, failing, conn);
    ScheduleIsDense(sorted);
    forall s | s in r.issued
      ensures s.rowId in Keys(merged) && s.position < |merged|
    {
      SortKeepsKeys(merged, s.rowId);
      assert s in Schedule(sorted);
    }
    forall id | id !in Keys(merged) ensures id !in Keys(sorted) {
      SortKeepsKeys(merged, id);
    }
  }

  /**
    The returned errors: one `Could not update #%i` record per row whose
    statement reports an error, in write order, and nothing else. When every
    row was attempted, every failing id of the merged dictionary has its
    record; when the connection was lost, the records of the rows written
    before it are still returned.
   */
  lemma {:induction false} UpdateErrors(rows: seq<Row>, updates: seq<RowUpdate>, store: map<RowId, int>,
                     failing: set<RowId>, conn: ConnectionEvent)
    ensures var r := Update(rows, updates, store, failing, conn);
      var sorted := SortedPositions(rows, updates);
      && r.errors == ErrorsFor(Keys(sorted)[..RowsReached(|sorted|, conn)], failing)
      && (forall e :: e in r.errors ==>
            e.key == CouldNotUpdateKey && e.domain == NotificationDomain
            && |e.parameters| == 1 && e.parameters[0] in failing
            && e.parameters[0] in Keys(NewPositions(rows, updates)))
      && (!conn.LostAtRow? ==>
            forall id :: id in Keys(NewPositions(rows, updates)) && id in failing
              ==> CouldNotUpdate(id) in r.errors)
  {
    var sorted := SortedPositions(rows, updates);
    var merged := NewPositions(rows, updates);
    var n := RowsReached(|sorted|, conn);
    var ids := Keys(sorted)[..n];
    UpdatePositionsErrors(store, sorted, failing, conn);
    ErrorsForRecords(ids, failing);
    forall id | id in ids ensures id in Keys(merged) {
      SortKeepsKeys(merged, id);
    }
    if !conn.LostAtRow? {
      assert ids == Keys(sorted);
      forall id | id in Keys(merged) ensures id in ids {
        SortKeepsKeys(merged, id);
      }
    }
  }

  /** With no failing statement, the error list is empty. */
  lemma {:induction false} NoFailuresNoErrors(ids: seq<RowId>, failing: set<RowId>)
    requires forall id :: id in ids ==> id !in failing
    ensures ErrorsFor(ids, failing) == []
  {
    if ids != [] {
      assert ids[0] in ids;
      NoFailuresNoErrors(ids[1..], failing);
    }
  }

  /** A single failing row gives exactly one record, naming that row. */
  lemma {:induction false} OneFailureOneError(ids: seq<RowId>, x: RowId)
    requires Distinct(ids) && x in ids
    ensures ErrorsFor(ids, {x}) == [CouldNotUpdate(x)]
  {
    if ids[0] == x {
      assert forall id :: id in ids[1..] ==> id != x;
      NoFailuresNoErrors(ids[1..], {x});
    } else {
      OneFailureOneError(ids[1..], x);
    }
  }

  /**
    Partial-failure isolation: when exactly one merged row's statement fails,
    the error list names that row alone, and every other existing row still
    receives its position in the sorted order.
   */
  lemma {:induction false} UpdateIsolatesOneFailure(rows: seq<Row>, updates: seq<RowUpdate>, store: map<RowId, int>, x: RowId)
    requires x in Keys(NewPositions(rows, updates))
    ensures var r := Update(rows, updates, store, {x}, Healthy);
      var sorted := SortedPositions(rows, updates);
      && r.errors == [CouldNotUpdate(x)]
      && r.end == Committed
      && r.store.Keys == store.Keys
      && (forall j :: 0 <= j < |sorted| && sorted[j].key in store && sorted[j].key != x
            ==> r.store[sorted[j].key] == j)
  {
    var sorted := SortedPositions(rows, updates);
    var r := UpdatePositions(store, sorted, {x}, Healthy);
    assert r.errors == [CouldNotUpdate(x)] by {
      UpdatePositionsErrors(store, sorted, {x}, Healthy);
      assert Keys(sorted)[..|sorted|] == Keys(sorted);
      SortKeepsKeys(NewPositions(rows, updates), x);
      UniqueKeysIsDistinctKeys(sorted);
      OneFailureOneError(Keys(sorted), x);
    }
    UpdatePositionsStore(store, sorted, {x}, Healthy);
  }

  /** The integers `0..n-1`. */
  function Below(n: nat): (r: set<int>)
    ensures forall p :: p in r <==> 0 <= p < n
  {
    if n == 0 then {} else Below(n - 1) + {n - 1}
  }

  /** The positions `store` holds for the rows `ids`. */
  function StoredPositions(store: map<RowId, int>, ids: seq<RowId>): set<int>
    requires forall id :: id in ids ==> id in store
  {
    set id | id in ids :: store[id]
  }

  /**
    Density: after a healthy update in which every merged row exists and no
    statement fails, the merged rows hold exactly the positions `0..N-1`,
    each once.
   */
  lemma {:induction false} UpdateIsDense(rows: seq<Row>, updates: seq<RowUpdate>, store: map<RowId, int>)
    requires forall id :: id in Keys(NewPositions(rows, updates)) ==> id in store
    ensures var r := Update(rows, updates, store, {}, Healthy);
      var ids := Keys(NewPositions(rows, updates));
      && r.store.Keys == store.Keys
      && StoredPositions(r.store, ids) == Below(|ids|)
      && (forall a, b :: a in ids && b in ids && a != b ==> r.store[a] != r.store[b])
  {
    var merged := NewPositions(rows, updates);
    var sorted := SortedPositions(rows, updates);
    var r := Update(rows, updates, store, {}, Healthy);
    var ids := Keys(merged);
    assert r.store.Keys == store.Keys by {
      UpdateWritesOnlyMergedRows(rows, updates, store, {}, Healthy);
    }
    forall id | id in ids ensures r.store[id] in Below(|ids|) {
      var i := RankOfId(rows, updates, store, id);
    }
    forall a, b | a in ids && b in ids && a != b ensures r.store[a] != r.store[b] {
      var i := RankOfId(rows, updates, store, a);
      var j := RankOfId(rows, updates, store, b);
    }
    forall x | x in Below(|ids|) ensures x in StoredPositions(r.store, ids) {
      var id := sorted[x].key;
      assert id in ids by {
        assert Keys(sorted)[x] == id;
        SortKeepsKeys(merged, id);
      }
      var i := RankOfId(rows, updates, store, id);
    }
  }

  /**
    When every override names a row of the scope, the merge adds no id, and
    a healthy update without failing statements leaves the scope's rows
    holding exactly the positions `0..N-1`, each once.
   */
  lemma {:induction false} UpdateKeepsScopeDense(rows: seq<Row>, updates: seq<RowUpdate>, store: map<RowId, int>)
    requires forall id :: id in UpdateIds(updates) ==> id in RowIds(rows)
    requires forall id :: id in RowIds(rows) ==> id in store
    ensures var r := Update(rows, updates, store, {}, Healthy);
      var ids := Keys(CurrentPositions(rows));
      && Keys(NewPositions(rows, updates)) == ids
      && r.store.Keys == store.Keys
      && StoredPositions(r.store, RowIds(rows)) == Below(|ids|)
  {
    var ids := Keys(CurrentPositions(rows));
    assert Keys(NewPositions(rows, updates)) == ids by {
      NewPositionsKeys(rows, updates);
      CurrentPositionsKeys(rows);
      var added := NewKeys(ids, UpdateIds(updates));
      if added != [] {
        NewKeysMembers(ids, UpdateIds(updates), added[0]);
        assert false;
      }
      assert ids + [] == ids;
    }
    assert forall id :: id in ids ==> id in store by {
      CurrentPositionsKeys(rows);
    }
    UpdateIsDense(rows, updates, store);
    var r := Update(rows, updates, store, {}, Healthy);
    assert StoredPositions(r.store, RowIds(rows)) == StoredPositions(r.store, ids) by {
      CurrentPositionsKeys(rows);
    }
  }

  /**
    The position a row of the merged dictionary receives in a healthy update
    without failing statements: its index in the sorted order.
   */
  lemma {:induction false} RankOfId(rows: seq<Row>, updates: seq<RowUpdate>, store: map<RowId, int>, id: RowId) returns (i: int)
    requires forall id :: id in Keys(NewPositions(rows, updates)) ==> id in store
    requires id in Keys(NewPositions(rows, updates))
    ensures var r := Update(rows, updates, store, {}, Healthy);
      && 0 <= i < |NewPositions(rows, updates)|
      && SortedPositions(rows, updates)[i].key == id
      && id in r.store && r.store[id] == i
  {
    var merged := NewPositions(rows, updates);
    var p :| 0 <= p < |merged| && Keys(merged)[p] == id;
    i := StoredRank(rows, updates, store, {}, p);
  }

  /**
    Override precedence with stability: among the merged rows that are
    written, a row is placed before another exactly when its sort key is
    smaller, or the keys are equal and it comes first in the merged
    dictionary (read order, then new overrides in caller order).
   */
  lemma {:induction false} UpdateRanksRows(rows: seq<Row>, updates: seq<RowUpdate>, store: map<RowId, int>,
                        failing: set<RowId>, p: int, q: int)
    requires var merged := NewPositions(rows, updates);
      && 0 <= p < |merged| && 0 <= q < |merged|
      && merged[p].key in store && merged[p].key !in failing
      && merged[q].key in store && merged[q].key !in failing
    ensures var merged := NewPositions(rows, updates);
      var r := Update(rows, updates, store, failing, Healthy);
      && r.store.Keys == store.Keys
      && ((r.store[merged[p].key] < r.store[merged[q].key])
            <==> (merged[p].value < merged[q].value || (merged[p].value == merged[q].value && p < q)))
  {
    var merged := NewPositions(rows, updates);
    var i := StoredRank(rows, updates, store, failing, p);
    var j := StoredRank(rows, updates, store, failing, q);
    SortRanks(merged, p, q, i, j);
  }

  /**
    Where a written row of the merged dictionary ends up: at its index `i`
    in the sorted order, which is the position stored for it.
   */
  lemma {:induction false} StoredRank(rows: seq<Row>, updates: seq<RowUpdate>, store: map<RowId, int>,
                   failing: set<RowId>, p: int) returns (i: int)
    requires var merged := NewPositions(rows, updates);
      && 0 <= p < |merged| && merged[p].key in store && merged[p].key !in failing
    ensures var merged := NewPositions(rows, updates);
      var r := Update(rows, updates, store, failing, Healthy);
      && 0 <= i < |merged| && SortedPositions(rows, updates)[i] == merged[p]
      && r.store.Keys == store.Keys && r.store[merged[p].key] == i
  {
    var merged := NewPositions(rows, updates);
    var sorted := SortedPositions(rows, updates);
    i := SortIndexOf(merged, p);
    UpdatePositionsPlace(store, sorted, failing, i);
  }

  /** On a commit, the row at index `i` of the written order holds `i`. */
  lemma {:induction false} UpdatePositionsPlace(store: map<RowId, int>, sorted: seq<Entry<RowId, int>>,
                             failing: set<RowId>, i: int)
    requires UniqueKeys(sorted)
    requires 0 <= i < |sorted| && sorted[i].key in store && sorted[i].key !in failing
    ensures var r := UpdatePositions(store, sorted, failing, Healthy);
      r.store.Keys == store.Keys && r.store[sorted[i].key] == i
  {
    UpdatePositionsStore(store, sorted, failing, Healthy);
  }

  /**
    Writing a dictionary whose row i already holds position i, with no
    failing statement and a healthy connection, commits a table equal to the
    one it started from and reports no error.
   */
  lemma {:induction false} UpdatePositionsRewritesSame(store: map<RowId, int>, sorted: seq<Entry<RowId, int>>)
    requires UniqueKeys(sorted)
    requires forall j :: 0 <= j < |sorted| ==> sorted[j].key in store && store[sorted[j].key] == j
    ensures UpdatePositions(store, sorted, {}, Healthy) == WriteResult(store, [], Schedule(sorted), Committed)
  {
    UpdatePositionsErrors(store, sorted, {}, Healthy);
    UpdatePositionsIssues(store, sorted, {}, Healthy);
    UpdatePositionsStore(store, sorted, {}, Healthy);
    var r := UpdatePositions(store, sorted, {}, Healthy);
    NoFailuresNoErrors(Keys(sorted), {});
    assert Keys(sorted)[..|sorted|] == Keys(sorted);
    assert Schedule(sorted)[..|sorted|] == Schedule(sorted);
    forall id | id in store ensures r.store[id] == store[id] {
      if id in Keys(sorted) {
        var j :| 0 <= j < |sorted| && Keys(sorted)[j] == id;
        assert sorted[j].key == id;
      }
    }
  }

  /**
    With a healthy connection and no failing statement, the batch commits
    without errors and row i of the sorted order holds i.
   */
  lemma {:induction false} WrittenWithoutFailures(store: map<RowId, int>, sorted: seq<Entry<RowId, int>>)
    requires UniqueKeys(sorted)
    requires forall j :: 0 <= j < |sorted| ==> sorted[j].key in store
    ensures var r := UpdatePositions(store, sorted, {}, Healthy);
      && r.end == Committed && r.errors == []
      && r.store.Keys == store.Keys
      && (forall j :: 0 <= j < |sorted| ==> r.store[sorted[j].key] == j)
      && (forall id :: id in store && id !in Keys(sorted) ==> r.store[id] == store[id])
  {
    UpdatePositionsErrors(store, sorted, {}, Healthy);
    UpdatePositionsStore(store, sorted, {}, Healthy);
    NoFailuresNoErrors(Keys(sorted), {});
    assert Keys(sorted)[..|sorted|] == Keys(sorted);
  }

  /**
    With a healthy connection and no failing statement, an update whose
    sorted merge is `sorted` commits without errors and row i of `sorted`
    holds i.
   */
  lemma {:induction false} UpdateWithoutFailures(rows: seq<Row>, updates: seq<RowUpdate>, store: map<RowId, int>,
                              sorted: seq<Entry<RowId, int>>)
    requires SortedPositions(rows, updates) == sorted
    requires forall j :: 0 <= j < |sorted| ==> sorted[j].key in store
    ensures var r := Update(rows, updates, store, {}, Healthy);
      && r.end == Committed && r.errors == []
      && r.store.Keys == store.Keys
      && (forall j :: 0 <= j < |sorted| ==> r.store[sorted[j].key] == j)
  {
    WrittenWithoutFailures(store, sorted);
  }

  /**
    Rows read in the dense order `0..N-1`, with distinct ids and no
    overrides, are already the sorted merged dictionary.
   */
  lemma {:induction false} DenseRowsAreSorted(rows: seq<Row>)
    requires forall i, j :: 0 <= i < j < |rows| ==> rows[i].id != rows[j].id
    requires forall i :: 0 <= i < |rows| ==> rows[i].position == i
    ensures SortedPositions(rows, []) == RowEntries(rows)
  {
    var entries := RowEntries(rows);
    DistinctRowsMerge(rows);
    assert SortedByValue(entries) by {
      assert forall i :: 0 <= i < |rows| ==> entries[i].value == i;
    }
    SortIsTheStableSort(entries, entries);
  }

  /** Rows with distinct ids and no overrides merge to the rows themselves. */
  lemma {:induction false} DistinctRowsMerge(rows: seq<Row>)
    requires forall i, j :: 0 <= i < j < |rows| ==> rows[i].id != rows[j].id
    ensures NewPositions(rows, []) == RowEntries(rows)
  {
    DistinctRowsRead(rows);
    assert UpdateEntries([]) == [];
  }

  /** Rows with distinct ids are read into one entry each, in read order. */
  lemma {:induction false} DistinctRowsRead(rows: seq<Row>)
    requires forall i, j :: 0 <= i < j < |rows| ==> rows[i].id != rows[j].id
    ensures CurrentPositions(rows) == RowEntries(rows)
  {
    var entries := RowEntries(rows);
    assert UniqueKeys([] + entries) by {
      assert [] + entries == entries;
      assert forall i :: 0 <= i < |rows| ==> entries[i].key == rows[i].id;
    }
    AssignAllFresh([], entries);
    assert [] + entries == entries;
  }

  /**
    When the scoped read returns the rows in the dense order `0..N-1` that
    the table already holds, a request without overrides rewrites every row
    with the position it has and leaves the table as it was. A request with
    overrides need not be idempotent: see `Scenarios.RepeatedRequestMovesRows`.
   */
  lemma {:induction false} NoOverridesKeepDenseTable(rows: seq<Row>, store: map<RowId, int>)
    requires forall i, j :: 0 <= i < j < |rows| ==> rows[i].id != rows[j].id
    requires forall i :: 0 <= i < |rows| ==> rows[i].position == i
    requires forall i :: 0 <= i < |rows| ==> rows[i].id in store && store[rows[i].id] == i
    ensures Update(rows, [], store, {}, Healthy) == WriteResult(store, [], Schedule(RowEntries(rows)), Committed)
  {
    DenseRowsAreSorted(rows);
    UpdatePositionsRewritesSame(store, RowEntries(rows));
  }
}

/**
  The worked orders of the reorder engine, on a scope with three rows A, B
  and C (any three distinct ids) read at positions 0, 1 and 2.
 */
module Scenarios {
  import opened OrderedMaps
  import opened StableSort
  import opened PositionUpdater

  function ScopeRows(a: RowId, b: RowId, c: RowId): seq<Row>
  {
    [Row(a, 0), Row(b, 1), Row(c, 2)]
  }

  function ScopeStore(a: RowId, b: RowId, c: RowId): map<RowId, int>
  {
    map[a := 0, b := 1, c := 2]
  }

  /** The read fold keeps the rows in read order. */
  lemma {:induction false} ScopeRead(a: RowId, b: RowId, c: RowId)
    requires a != b && b != c && a != c
    ensures CurrentPositions(ScopeRows(a, b, c)) == [Entry(a, 0), Entry(b, 1), Entry(c, 2)]
  {
    DistinctRowsRead(ScopeRows(a, b, c));
    assert RowEntries(ScopeRows(a, b, c)) == [Entry(a, 0), Entry(b, 1), Entry(c, 2)];
  }

  /** The entries of a three-entry dictionary that carry the value `v`. */
  lemma {:induction false} WithValueOfThree(x: Entry<RowId, int>, y: Entry<RowId, int>, z: Entry<RowId, int>, v: int)
    ensures WithValue([x, y, z], v)
         == (if x.value == v then [x] else []) + (if y.value == v then [y] else [])
          + (if z.value == v then [z] else [])
  {
    assert [x, y, z] == [x] + [y] + [z];
    WithValueAppend([x] + [y], [z], v);
    WithValueAppend([x], [y], v);
    assert [x][1..] == [] && [y][1..] == [] && [z][1..] == [];
  }

  /** The merge of the override `{C: -1}`: C keeps its place and takes -1. */
  lemma {:induction false} MoveToFrontMerged(a: RowId, b: RowId, c: RowId)
    requires a != b && b != c && a != c
    ensures NewPositions(ScopeRows(a, b, c), [RowUpdate(c, -1)]) == [Entry(a, 0), Entry(b, 1), Entry(c, -1)]
  {
    var current := [Entry(a, 0), Entry(b, 1), Entry(c, 2)];
    ScopeRead(a, b, c);
    assert UpdateEntries([RowUpdate(c, -1)]) == [Entry(c, -1)];
    AssignAllOne(current, Entry(c, -1));
    AssignExisting(current, 2, -1);
  }

  /** Sorting the merge of `{C: -1}` puts C first. */
  lemma {:induction false} MoveToFrontSorted(a: RowId, b: RowId, c: RowId)
    ensures Sort([Entry(a, 0), Entry(b, 1), Entry(c, -1)]) == [Entry(c, -1), Entry(a, 0), Entry(b, 1)]
  {
    var merged := [Entry(a, 0), Entry(b, 1), Entry(c, -1)];
    var sorted := [Entry(c, -1), Entry(a, 0), Entry(b, 1)];
    forall v ensures WithValue(sorted, v) == WithValue(merged, v) {
      WithValueOfThree(sorted[0], sorted[1], sorted[2], v);
      WithValueOfThree(merged[0], merged[1], merged[2], v);
    }
    SortIsTheStableSort(merged, sorted);
  }

  /** The order written after the overrides. */
  lemma {:induction false} MoveToFrontOrder(a: RowId, b: RowId, c: RowId)
    requires a != b && b != c && a != c
    ensures SortedPositions(ScopeRows(a, b, c), [RowUpdate(c, -1)]) == [Entry(c, -1), Entry(a, 0), Entry(b, 1)]
  {
    MoveToFrontMerged(a, b, c);
    MoveToFrontSorted(a, b, c);
  }

  /** Overriding C with -1 moves it to the front: C(0), A(1), B(2). */
  lemma {:induction false} MoveToFront(a: RowId, b: RowId, c: RowId, store: map<RowId, int>)
    requires a != b && b != c && a != c
    requires a in store && b in store && c in store
    ensures var r := Update(ScopeRows(a, b, c), [RowUpdate(c, -1)], store, {}, Healthy);
      && r.end == Committed && r.errors == []
      && r.store.Keys == store.Keys
      && r.store[c] == 0 && r.store[a] == 1 && r.store[b] == 2
  {
    var sorted := [Entry(c, -1), Entry(a, 0), Entry(b, 1)];
    MoveToFrontOrder(a, b, c);
    UpdateWithoutFailures(ScopeRows(a, b, c), [RowUpdate(c, -1)], store, sorted);
    assert sorted[0].key == c && sorted[1].key == a && sorted[2].key == b;
  }

  /** The merge of `{A: 5, B: 5}`: A and B keep their places and take 5. */
  lemma {:induction false} TieMerged(a: RowId, b: RowId, c: RowId)
    requires a != b && b != c && a != c
    ensures NewPositions(ScopeRows(a, b, c), [RowUpdate(a, 5), RowUpdate(b, 5)])
         == [Entry(a, 5), Entry(b, 5), Entry(c, 2)]
  {
    ScopeRead(a, b, c);
    assert UpdateEntries([RowUpdate(a, 5), RowUpdate(b, 5)]) == [Entry(a, 5), Entry(b, 5)];
    TieAssignments(a, b, c);
  }

  /** The two assignments of `{A: 5, B: 5}`, one after the other. */
  lemma {:induction false} TieAssignments(a: RowId, b: RowId, c: RowId)
    requires a != b && b != c && a != c
    ensures AssignAll([Entry(a, 0), Entry(b, 1), Entry(c, 2)], [Entry(a, 5), Entry(b, 5)])
         == [Entry(a, 5), Entry(b, 5), Entry(c, 2)]
  {
    var current := [Entry(a, 0), Entry(b, 1), Entry(c, 2)];
    var half := [Entry(a, 5), Entry(b, 1), Entry(c, 2)];
    assert Assign(current, a, 5) == half by {
      AssignExisting(current, 0, 5);
    }
    assert AssignAll(current, [Entry(a, 5), Entry(b, 5)]) == AssignAll(half, [Entry(b, 5)]) by {
      assert [Entry(a, 5), Entry(b, 5)][1..] == [Entry(b, 5)];
    }
    AssignAllOne(half, Entry(b, 5));
    AssignExisting(half, 1, 5);
  }

  /** Sorting the merge of `{A: 5, B: 5}` keeps A before B, after C. */
  lemma {:induction false} TieSorted(a: RowId, b: RowId, c: RowId)
    ensures Sort([Entry(a, 5), Entry(b, 5), Entry(c, 2)]) == [Entry(c, 2), Entry(a, 5), Entry(b, 5)]
  {
    var merged := [Entry(a, 5), Entry(b, 5), Entry(c, 2)];
    var sorted := [Entry(c, 2), Entry(a, 5), Entry(b, 5)];
    forall v ensures WithValue(sorted, v) == WithValue(merged, v) {
      WithValueOfThree(sorted[0], sorted[1], sorted[2], v);
      WithValueOfThree(merged[0], merged[1], merged[2], v);
    }
    SortIsTheStableSort(merged, sorted);
  }

  /** The order written after the overrides. */
  lemma {:induction false} TieOrder(a: RowId, b: RowId, c: RowId)
    requires a != b && b != c && a != c
    ensures SortedPositions(ScopeRows(a, b, c), [RowUpdate(a, 5), RowUpdate(b, 5)]) == [Entry(c, 2), Entry(a, 5), Entry(b, 5)]
  {
    TieMerged(a, b, c);
    TieSorted(a, b, c);
  }

  /**
    Overriding A and B with the same key 5 keeps A before B, the order they
    were read in, and both follow C: C(0), A(1), B(2).
   */
  lemma {:induction false} TieKeepsReadOrder(a: RowId, b: RowId, c: RowId, store: map<RowId, int>)
    requires a != b && b != c && a != c
    requires a in store && b in store && c in store
    ensures var r := Update(ScopeRows(a, b, c), [RowUpdate(a, 5), RowUpdate(b, 5)], store, {}, Healthy);
      && r.end == Committed && r.errors == []
      && r.store.Keys == store.Keys
      && r.store[c] == 0 && r.store[a] == 1 && r.store[b] == 2
  {
    var sorted := [Entry(c, 2), Entry(a, 5), Entry(b, 5)];
    TieOrder(a, b, c);
    UpdateWithoutFailures(ScopeRows(a, b, c), [RowUpdate(a, 5), RowUpdate(b, 5)], store, sorted);
    assert sorted[0].key == c && sorted[1].key == a && sorted[2].key == b;
  }

  /** Without overrides the order is unchanged and nothing is reported. */
  lemma {:induction false} NoOverridesKeepOrder(a: RowId, b: RowId, c: RowId)
    requires a != b && b != c && a != c
    ensures var r := Update(ScopeRows(a, b, c), [], ScopeStore(a, b, c), {}, Healthy);
      && r == WriteResult(ScopeStore(a, b, c), [], Schedule(RowEntries(ScopeRows(a, b, c))), Committed)
  {
    NoOverridesKeepDenseTable(ScopeRows(a, b, c), ScopeStore(a, b, c));
  }

  /** The entries of a two-entry dictionary that carry the value `v`. */
  lemma {:induction false} WithValueOfTwo(x: Entry<RowId, int>, y: Entry<RowId, int>, v: int)
    ensures WithValue([x, y], v) == (if x.value == v then [x] else []) + (if y.value == v then [y] else [])
  {
    assert [x, y] == [x] + [y];
    WithValueAppend([x], [y], v);
    assert [x][1..] == [] && [y][1..] == [];
  }

  /** A two-row read with distinct ids and one override of the first row. */
  lemma {:induction false} OverrideFirstOfTwo(a: RowId, b: RowId, p: int, q: int, v: int)
    requires a != b
    ensures NewPositions([Row(a, p), Row(b, q)], [RowUpdate(a, v)]) == [Entry(a, v), Entry(b, q)]
  {
    var rows := [Row(a, p), Row(b, q)];
    var current := [Entry(a, p), Entry(b, q)];
    DistinctRowsRead(rows);
    assert RowEntries(rows) == current;
    assert UpdateEntries([RowUpdate(a, v)]) == [Entry(a, v)];
    AssignAllOne(current, Entry(a, v));
    AssignExisting(current, 0, v);
  }

  /** First sending of `{A: 2}` to A(0), B(2): the tie keeps A first. */
  lemma {:induction false} RepeatFirstOrder(a: RowId, b: RowId)
    requires a != b
    ensures SortedPositions([Row(a, 0), Row(b, 2)], [RowUpdate(a, 2)]) == [Entry(a, 2), Entry(b, 2)]
  {
    var merged := [Entry(a, 2), Entry(b, 2)];
    OverrideFirstOfTwo(a, b, 0, 2, 2);
    assert SortedByValue(merged);
    SortIsTheStableSort(merged, merged);
  }

  /** Second sending of `{A: 2}`, to the table A(0), B(1) the first one left: B now comes first. */
  lemma {:induction false} RepeatSecondOrder(a: RowId, b: RowId)
    requires a != b
    ensures SortedPositions([Row(a, 0), Row(b, 1)], [RowUpdate(a, 2)]) == [Entry(b, 1), Entry(a, 2)]
  {
    var merged := [Entry(a, 2), Entry(b, 1)];
    var sorted := [Entry(b, 1), Entry(a, 2)];
    OverrideFirstOfTwo(a, b, 0, 1, 2);
    forall v ensures WithValue(sorted, v) == WithValue(merged, v) {
      WithValueOfTwo(sorted[0], sorted[1], v);
      WithValueOfTwo(merged[0], merged[1], v);
    }
    SortIsTheStableSort(merged, sorted);
  }

  /**
    A repeated request is not idempotent. Sending `{A: 2}` to the scope
    A(0), B(2) stores A at 0 and B at 1, because the tie between A and B is
    broken by read order. Sending the same request again reads A(0), B(1),
    so the override now exceeds B, and the rows swap: B at 0, A at 1.
   */
  lemma {:induction false} RepeatedRequestMovesRows(a: RowId, b: RowId)
    requires a != b
    ensures var first := Update([Row(a, 0), Row(b, 2)], [RowUpdate(a, 2)], map[a := 0, b := 2], {}, Healthy);
      var second := Update([Row(a, 0), Row(b, 1)], [RowUpdate(a, 2)], first.store, {}, Healthy);
      && first.end == Committed && first.errors == [] && first.store == map[a := 0, b := 1]
      && second.end == Committed && second.errors == [] && second.store == map[a := 1, b := 0]
  {
    var sorted1 := [Entry(a, 2), Entry(b, 2)];
    RepeatFirstOrder(a, b);
    UpdateWithoutFailures([Row(a, 0), Row(b, 2)], [RowUpdate(a, 2)], map[a := 0, b := 2], sorted1);
    var first := Update([Row(a, 0), Row(b, 2)], [RowUpdate(a, 2)], map[a := 0, b := 2], {}, Healthy);
    assert first.store == map[a := 0, b := 1] by {
      assert sorted1[0].key == a && sorted1[1].key == b;
    }
    var sorted2 := [Entry(b, 1), Entry(a, 2)];
    RepeatSecondOrder(a, b);
    UpdateWithoutFailures([Row(a, 0), Row(b, 1)], [RowUpdate(a, 2)], first.store, sorted2);
    assert sorted2[0].key == b && sorted2[1].key == a;
  }

  /** An override naming an id X that the scope did not read is appended to the merge. */
  lemma {:induction false} OutOfScopeMerged(a: RowId, b: RowId, x: RowId, v: int)
    requires a != b && b != x && a != x
    ensures NewPositions([Row(a, 0), Row(b, 1)], [RowUpdate(x, v)]) == [Entry(a, 0), Entry(b, 1), Entry(x, v)]
  {
    var rows := [Row(a, 0), Row(b, 1)];
    var current := [Entry(a, 0), Entry(b, 1)];
    DistinctRowsRead(rows);
    assert RowEntries(rows) == current;
    assert UpdateEntries([RowUpdate(x, v)]) == [Entry(x, v)];
    AssignAllOne(current, Entry(x, v));
    assert x !in Keys(current) by {
      assert Keys(current) == [a, b];
    }
    AssignShape(current, x, v);
  }

  /** The merge with X sorts X between A and B. */
  lemma {:induction false} OutOfScopeOrder(a: RowId, b: RowId, x: RowId)
    requires a != b && b != x && a != x
    ensures SortedPositions([Row(a, 0), Row(b, 1)], [RowUpdate(x, 0)]) == [Entry(a, 0), Entry(x, 0), Entry(b, 1)]
  {
    var merged := [Entry(a, 0), Entry(b, 1), Entry(x, 0)];
    var sorted := [Entry(a, 0), Entry(x, 0), Entry(b, 1)];
    OutOfScopeMerged(a, b, x, 0);
    forall v ensures WithValue(sorted, v) == WithValue(merged, v) {
      WithValueOfThree(sorted[0], sorted[1], sorted[2], v);
      WithValueOfThree(merged[0], merged[1], merged[2], v);
    }
    SortIsTheStableSort(merged, sorted);
  }

  /**
    The UPDATE is not restricted to the parent: an override naming a row X
    of another parent rewrites X, and the scope's own rows A and B are left
    at 0 and 2, with a gap at 1.
   */
  lemma {:induction false} OutOfScopeOverrideWrites(a: RowId, b: RowId, x: RowId)
    requires a != b && b != x && a != x
    ensures var r := Update([Row(a, 0), Row(b, 1)], [RowUpdate(x, 0)], map[a := 0, b := 1, x := 7], {}, Healthy);
      && r.end == Committed && r.errors == []
      && r.store == map[a := 0, b := 2, x := 1]
  {
    var sorted := [Entry(a, 0), Entry(x, 0), Entry(b, 1)];
    OutOfScopeOrder(a, b, x);
    UpdateWithoutFailures([Row(a, 0), Row(b, 1)], [RowUpdate(x, 0)], map[a := 0, b := 1, x := 7], sorted);
    assert sorted[0].key == a && sorted[1].key == x && sorted[2].key == b;
  }

  /**
    An override of a foreign row X whose value sorts after every row of the
    scope takes the last position: X is still rewritten, but A and B keep
    0 and 1, so the scope is left without a gap.
   */
  lemma {:induction false} OutOfScopeLastLeavesNoGap(a: RowId, b: RowId, x: RowId)
    requires a != b && b != x && a != x
    ensures var r := Update([Row(a, 0), Row(b, 1)], [RowUpdate(x, 5)], map[a := 0, b := 1, x := 7], {}, Healthy);
      && r.end == Committed && r.errors == []
      && r.store == map[a := 0, b := 1, x := 2]
  {
    var merged := [Entry(a, 0), Entry(b, 1), Entry(x, 5)];
    OutOfScopeMerged(a, b, x, 5);
    SortIsTheStableSort(merged, merged);
    UpdateWithoutFailures([Row(a, 0), Row(b, 1)], [RowUpdate(x, 5)], map[a := 0, b := 1, x := 7], merged);
    assert merged[0].key == a && merged[1].key == b && merged[2].key == x;
  }
}
