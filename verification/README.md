# Grid position updater

This project models the reorder engine of a catalog grid, `DoctrineGridPositionUpdater`, in Dafny. The engine serves one "reorder the children of this parent" request in four steps:

1. It reads the current `row id => position` order of the parent's children.
2. It assigns the caller's overrides over that order, in caller order.
3. It sorts the result by value with PHP's `asort`.
4. It gives the rows the dense positions `0..N-1` in sorted order. Each row gets one UPDATE, all inside one transaction. For every row whose statement reports an error, a `Could not update #%i` record is collected.

The model has three modules:

- `OrderedMaps` models the PHP array the pipeline works on. It is an association list with distinct keys. Assigning to a present key changes its value in place; assigning to a new key appends it.
  - `Assign` models `$a[$k] = $v`.
  - `AssignAll` models a `foreach` of such assignments.
  - `NewKeys` gives the keys a run of assignments appends.
- `StableSort` models `asort` as a stable insertion sort by value (`Sort`).
  - `WithValue` picks out the entries that share a value. It is the vocabulary for stability.
  - `SortIsTheStableSort` shows that `Sort` is the only sorted, stable rearrangement. The worked examples rely on this.
- `PositionUpdater` models the pipeline:
  - the read fold (`CurrentPositions`);
  - the merge (`NewPositions`);
  - the sorted order (`SortedPositions`);
  - the write phase (`UpdatePositions`, a fold `WriteLoop` over the sorted rows);
  - `update` itself (`Update`).

  `Scenarios` holds worked requests on a three-row scope.

The database is abstract:

- The scoped read is a given sequence of `Row(id, position)`, already in the order of the query.
- The table is a `map<RowId, int>`. An UPDATE of an id that is not in the map changes nothing, just as an SQL UPDATE that matches no row.
- Whether a row's statement reports an error is decided by a set of failing ids. Such a statement changes nothing.
- A lost connection is a `ConnectionEvent`: none, lost while row `k` is written, or lost at commit.
- The write phase returns four things:
  - the table afterwards;
  - the error list;
  - the statements issued, as `(rowId, position)`;
  - whether the transaction was committed or rolled back.

Some behaviours of the code are easy to miss:

- The error records use the domain `Admin.Catalog.Notification`, the literal at `DoctrineGridPositionUpdater.php:106`.
- When the connection fails, the transaction is rolled back but `$errors` is never reset (`:88`, `:113-117`). The records collected before the failure are therefore still returned. `UpdatePositionsErrors` and `UpdateErrors` state this.
- The UPDATE matches on the row id alone, not on the parent (`:95-98`). An override naming an id the scoped read did not return is appended to the merge (`:130`) and written like any other row.
  - When that id is a row of another parent, the UPDATE rewrites that row. Whether or not the id exists, when it sorts before one of the scope's rows it takes a position the scope then lacks, leaving a gap in the scope's own positions. `Scenarios.OutOfScopeOverrideWrites` exhibits both. An override that sorts after every row of the scope leaves no gap, as `Scenarios.OutOfScopeLastLeavesNoGap` shows.
  - When every override names a row of the scope, every row the scope read is in the table, the connection holds and no statement fails, the update commits with the scope's rows at exactly `0..N-1`. `UpdateKeepsScopeDense` states this. A failing statement leaves its row at its old position, so the positions need not be dense then.
- Sending the same request twice can change the table the second time. Override values are compared with the positions read (`:129-131`, `:74`), and the first sending rewrites those positions. `Scenarios.RepeatedRequestMovesRows` exhibits this.

## Model

| member | source | states |
|---|---|---|
| OrderedMaps.Lookup | src/Core/Grid/Position/DoctrineGridPositionUpdater.php:161-162 | Reading a key of the ordered array gives nothing exactly when the key is absent, and otherwise gives a value paired with that key in the array |
| OrderedMaps.LookupIsMembership | src/Core/Grid/Position/DoctrineGridPositionUpdater.php:161-162 | With distinct keys, a key reads as a value exactly when that key/value pair is in the array |
| OrderedMaps.Assign | src/Core/Grid/Position/DoctrineGridPositionUpdater.php:130 | `$a[$k] = $v` leaves every key in the array at most once |
| OrderedMaps.AssignShape | src/Core/Grid/Position/DoctrineGridPositionUpdater.php:130 | `$a[$k] = $v` with `$k` present changes only that entry's value, in its place; with `$k` absent it appends `$k => $v` at the end |
| OrderedMaps.AssignKeys | src/Core/Grid/Position/DoctrineGridPositionUpdater.php:130 | `$a[$k] = $v` keeps the key order, extended by `$k` at the end when it was absent |
| OrderedMaps.AssignExisting | src/Core/Grid/Position/DoctrineGridPositionUpdater.php:130 | Assigning to the key at index i replaces that entry's value and leaves the rest of the array as it was |
| OrderedMaps.AssignLookupSame | src/Core/Grid/Position/DoctrineGridPositionUpdater.php:130 | After `$a[$k] = $v`, reading `$k` gives `$v` |
| OrderedMaps.AssignLookupOther | src/Core/Grid/Position/DoctrineGridPositionUpdater.php:130 | After `$a[$k] = $v`, reading any other key gives what it gave before |
| OrderedMaps.NewKeysMembers | src/Core/Grid/Position/DoctrineGridPositionUpdater.php:129-131 | The keys a run of assignments appends are exactly its keys that were not present |
| OrderedMaps.NewKeysDistinct | src/Core/Grid/Position/DoctrineGridPositionUpdater.php:129-131 | The appended keys are listed once each |
| OrderedMaps.AssignAllKeys | src/Core/Grid/Position/DoctrineGridPositionUpdater.php:129-131 | After a run of assignments, the old keys keep their order and the new keys follow, in order of first assignment |
| OrderedMaps.AssignAllLastWins | src/Core/Grid/Position/DoctrineGridPositionUpdater.php:129-131 | A key assigned several times ends with the value of its last assignment |
| OrderedMaps.AssignAllKeepsOthers | src/Core/Grid/Position/DoctrineGridPositionUpdater.php:129-131 | A key that no assignment mentions keeps its value |
| OrderedMaps.AssignAll | src/Core/Grid/Position/DoctrineGridPositionUpdater.php:129-131 | The `foreach` of assignments keeps keys distinct; what it does to keys and values is stated by `AssignAllKeys`, `AssignAllLastWins` and `AssignAllKeepsOthers` |
| OrderedMaps.AssignAllFresh | src/Core/Grid/Position/DoctrineGridPositionUpdater.php:159-163 | Assigning pairs whose keys are all new appends them, in order |
| StableSort.InsertSorted | src/Core/Grid/Position/DoctrineGridPositionUpdater.php:74 | Inserting an entry into a value-sorted sequence keeps it sorted |
| StableSort.Sort | src/Core/Grid/Position/DoctrineGridPositionUpdater.php:74 | `asort` keeps the number of entries; sortedness, permutation and stability are stated by `SortIsSorted`, `SortPermutes` and `SortIsStable` |
| StableSort.SortIsSorted | src/Core/Grid/Position/DoctrineGridPositionUpdater.php:73-74 | After `asort`, values never decrease |
| StableSort.SortPermutes | src/Core/Grid/Position/DoctrineGridPositionUpdater.php:74 | `asort` only rearranges: the result is the same multiset of key/value pairs |
| StableSort.SortKeepsKeysUnique | src/Core/Grid/Position/DoctrineGridPositionUpdater.php:74 | Sorting an array with distinct keys gives an array with distinct keys |
| StableSort.SortKeepsPairs | src/Core/Grid/Position/DoctrineGridPositionUpdater.php:74 | `asort` keeps every key with its value: every key reads the same before and after |
| StableSort.SortKeepsKeys | src/Core/Grid/Position/DoctrineGridPositionUpdater.php:74 | `asort` neither adds nor drops a key |
| StableSort.SortKeepsEntries | src/Core/Grid/Position/DoctrineGridPositionUpdater.php:74 | `asort` neither adds nor drops an entry |
| StableSort.SortIsStable | src/Core/Grid/Position/DoctrineGridPositionUpdater.php:74 | For every value, the entries that hold it keep their relative order |
| StableSort.SortedIsUnique | src/Core/Grid/Position/DoctrineGridPositionUpdater.php:74 | Two sorted sequences that agree on the entries of every value are equal |
| StableSort.SortIsTheStableSort | src/Core/Grid/Position/DoctrineGridPositionUpdater.php:74 | Any sorted rearrangement that keeps equal values in order is exactly the result of `asort` |
| StableSort.SortKeepsTiesInOrder | src/Core/Grid/Position/DoctrineGridPositionUpdater.php:74 | Of two entries with equal values, the earlier one stays earlier after sorting |
| StableSort.SortRanks | src/Core/Grid/Position/DoctrineGridPositionUpdater.php:73-74 | An entry comes before another after sorting exactly when its value is smaller, or the values are equal and it came first |
| PositionUpdater.CurrentPositionsKeys | src/Core/Grid/Position/DoctrineGridPositionUpdater.php:159-163 | The read fold holds one entry per distinct id, in order of first appearance, and holds exactly the ids read |
| PositionUpdater.CurrentPositions | src/Core/Grid/Position/DoctrineGridPositionUpdater.php:159-163 | The read fold builds an array with distinct keys; its keys and values are stated by `CurrentPositionsKeys` and `CurrentPositionsLastRowWins` |
| PositionUpdater.CurrentPositionsLastRowWins | src/Core/Grid/Position/DoctrineGridPositionUpdater.php:160-163 | A repeated id takes the position of its last row |
| PositionUpdater.DistinctRowsRead | src/Core/Grid/Position/DoctrineGridPositionUpdater.php:159-163 | Rows with distinct ids are read into one entry each, in read order |
| PositionUpdater.NewPositionsKeys | src/Core/Grid/Position/DoctrineGridPositionUpdater.php:124-134 | Read ids keep their places and override ids not read are appended in caller order; the merged ids are the read ids together with the override ids |
| PositionUpdater.NewPositions | src/Core/Grid/Position/DoctrineGridPositionUpdater.php:124-134 | The merge builds an array with distinct keys; its keys and values are stated by `NewPositionsKeys`, `NewPositionsLastOverrideWins` and `NewPositionsKeepsUntouched` |
| PositionUpdater.NewPositionsLastOverrideWins | src/Core/Grid/Position/DoctrineGridPositionUpdater.php:129-131 | An overridden id ends with the value of its last override |
| PositionUpdater.NewPositionsKeepsUntouched | src/Core/Grid/Position/DoctrineGridPositionUpdater.php:124-134 | An id without an override keeps the position it was read with |
| PositionUpdater.DistinctRowsMerge | src/Core/Grid/Position/DoctrineGridPositionUpdater.php:124-134 | Rows with distinct ids and no overrides merge to exactly the rows read |
| PositionUpdater.ScheduleIsDense | src/Core/Grid/Position/DoctrineGridPositionUpdater.php:91-111 | The scheduled positions are exactly `0..N-1`, and only ids of the written array are scheduled |
| PositionUpdater.Schedule | src/Core/Grid/Position/DoctrineGridPositionUpdater.php:91-111 | One statement per entry of the sorted array; `ScheduleIsDense` states which positions and ids it holds |
| PositionUpdater.ErrorsForRecords | src/Core/Grid/Position/DoctrineGridPositionUpdater.php:103-109 | Every error record has key `Could not update #%i`, domain `Admin.Catalog.Notification` and a single parameter that is a failing written row; every failing written row has its record |
| PositionUpdater.ErrorsFor | src/Core/Grid/Position/DoctrineGridPositionUpdater.php:103-109 | At most one record per row written; their contents are stated by `ErrorsForRecords` |
| PositionUpdater.ErrorsForAppend | src/Core/Grid/Position/DoctrineGridPositionUpdater.php:92-111 | The records of two runs of rows are those of the first run followed by those of the second |
| PositionUpdater.NoFailuresNoErrors | src/Core/Grid/Position/DoctrineGridPositionUpdater.php:103-109 | When no statement reports an error, no record is collected |
| PositionUpdater.OneFailureOneError | src/Core/Grid/Position/DoctrineGridPositionUpdater.php:103-109 | A single failing row among distinct rows yields exactly one record, naming it |
| PositionUpdater.RowsReached | src/Core/Grid/Position/DoctrineGridPositionUpdater.php:92-113 | The number of rows attempted falls short of all N rows exactly when the connection is lost while one of them is written (at an index below N, the last row included) |
| PositionUpdater.WriteRow | src/Core/Grid/Position/DoctrineGridPositionUpdater.php:92-110 | One iteration issues exactly one statement and never adds or removes a row of the table; `WriteLoopPlaces`, `WriteLoopKeeps` and `WriteRowErrors` state what it stores and records |
| PositionUpdater.WriteLoop | src/Core/Grid/Position/DoctrineGridPositionUpdater.php:91-113 | The loop never adds or removes a row of the table, and it ends interrupted exactly when it started interrupted or the connection is lost at one of the rows it has still to write |
| PositionUpdater.WriteRowErrors | src/Core/Grid/Position/DoctrineGridPositionUpdater.php:103-110 | Writing row i appends its record, if any, to the records of the rows before it |
| PositionUpdater.WriteLoopIssues | src/Core/Grid/Position/DoctrineGridPositionUpdater.php:91-111 | The loop issues row i with position i for every row up to the lost connection, and is interrupted exactly when the connection is lost while one of the N rows is written (index below N) |
| PositionUpdater.WriteLoopErrors | src/Core/Grid/Position/DoctrineGridPositionUpdater.php:92-111 | The loop collects the records of every row it reaches, in write order; a failing row does not stop the loop |
| PositionUpdater.WriteLoopPlaces | src/Core/Grid/Position/DoctrineGridPositionUpdater.php:92-111 | The loop gives position j to every existing, non-failing row j it reaches |
| PositionUpdater.WriteLoopKeeps | src/Core/Grid/Position/DoctrineGridPositionUpdater.php:92-111 | The loop leaves every row it does not write successfully as it was |
| PositionUpdater.UpdatePositions | src/Core/Grid/Position/DoctrineGridPositionUpdater.php:86-118 | The batch is committed exactly when the connection survives every row and the commit; otherwise it is rolled back and the table is unchanged |
| PositionUpdater.UpdatePositionsIssues | src/Core/Grid/Position/DoctrineGridPositionUpdater.php:91-111 | The statements issued are row i with position i, for every row up to the lost connection and none after it |
| PositionUpdater.UpdatePositionsErrors | src/Core/Grid/Position/DoctrineGridPositionUpdater.php:88-117 | The returned errors are the records of the rows attempted, in write order, and they are returned after a rollback too |
| PositionUpdater.UpdatePositionsStore | src/Core/Grid/Position/DoctrineGridPositionUpdater.php:91-112 | No row appears or disappears; on commit, existing non-failing row i holds i and every other row keeps its position |
| PositionUpdater.UpdatePositionsPlace | src/Core/Grid/Position/DoctrineGridPositionUpdater.php:92-112 | On commit, the existing non-failing row at index i of the written order holds i |
| PositionUpdater.SortedPositions | src/Core/Grid/Position/DoctrineGridPositionUpdater.php:71-74 | The sorted merged array has distinct keys and as many entries as the merged array |
| PositionUpdater.Update | src/Core/Grid/Position/DoctrineGridPositionUpdater.php:69-77 | The request commits exactly when the connection survives all merged rows and the commit; a rollback leaves the table unchanged |
| PositionUpdater.UpdateWritesOnlyMergedRows | src/Core/Grid/Position/DoctrineGridPositionUpdater.php:91-111 | Only ids of the merged array are written, each with a position below its size; on commit every other row keeps its position |
| PositionUpdater.UpdateErrors | src/Core/Grid/Position/DoctrineGridPositionUpdater.php:103-117 | The errors are one `Could not update #%i` record per failing row attempted, in write order and nothing else; when every row was attempted, every failing merged id has its record |
| PositionUpdater.UpdateIsolatesOneFailure | src/Core/Grid/Position/DoctrineGridPositionUpdater.php:102-110 | When exactly one merged row fails, the errors name it alone, the batch commits, and every other existing row still gets its sorted index |
| PositionUpdater.UpdateIsDense | src/Core/Grid/Position/DoctrineGridPositionUpdater.php:91-111 | After a healthy update with no failures, the merged rows hold exactly the positions `0..N-1`, each once |
| PositionUpdater.UpdateKeepsScopeDense | src/Core/Grid/Position/DoctrineGridPositionUpdater.php:69-77 | When every override names a row of the scope and every row read is in the table, the merge adds no id, and a healthy update with no failing statement leaves the scope's rows at exactly `0..N-1` and no row added or removed |
| PositionUpdater.RankOfId | src/Core/Grid/Position/DoctrineGridPositionUpdater.php:91-111 | Each merged row is stored with its index in the sorted order |
| PositionUpdater.StoredRank | src/Core/Grid/Position/DoctrineGridPositionUpdater.php:69-77 | A written merged row ends at the index where `asort` placed it |
| PositionUpdater.UpdateRanksRows | src/Core/Grid/Position/DoctrineGridPositionUpdater.php:69-77 | Of two written merged rows, one gets the lower position exactly when its value is smaller, or the values are equal and it comes first in the merged array |
| PositionUpdater.UpdatePositionsRewritesSame | src/Core/Grid/Position/DoctrineGridPositionUpdater.php:88-117 | Writing an order whose row i already holds i leaves the table as it was, with no errors, and commits |
| PositionUpdater.WrittenWithoutFailures | src/Core/Grid/Position/DoctrineGridPositionUpdater.php:88-117 | With a healthy connection and no failures, the batch commits without errors, row i holds i, and other rows are untouched |
| PositionUpdater.UpdateWithoutFailures | src/Core/Grid/Position/DoctrineGridPositionUpdater.php:69-77 | With a healthy connection and no failures, the request commits without errors and row i of the sorted merge holds i |
| PositionUpdater.DenseRowsAreSorted | src/Core/Grid/Position/DoctrineGridPositionUpdater.php:71-74 | Distinct rows read at `0..N-1` with no overrides are already the sorted merged array |
| PositionUpdater.NoOverridesKeepDenseTable | src/Core/Grid/Position/DoctrineGridPositionUpdater.php:69-77 | A request without overrides on a table already in dense order rewrites every row with its own position and leaves the table unchanged |
| Scenarios.ScopeRead | src/Core/Grid/Position/DoctrineGridPositionUpdater.php:159-163 | Rows A, B, C read at 0, 1, 2 fold to the array `[A => 0, B => 1, C => 2]` |
| Scenarios.MoveToFrontMerged | src/Core/Grid/Position/DoctrineGridPositionUpdater.php:129-131 | The override `C => -1` keeps C in its place with the new value |
| Scenarios.MoveToFrontSorted | src/Core/Grid/Position/DoctrineGridPositionUpdater.php:74 | Sorting `[A => 0, B => 1, C => -1]` puts C first |
| Scenarios.MoveToFront | src/Core/Grid/Position/DoctrineGridPositionUpdater.php:69-77 | The override `C => -1` stores C at 0, A at 1 and B at 2, commits, and reports nothing |
| Scenarios.TieAssignments | src/Core/Grid/Position/DoctrineGridPositionUpdater.php:129-131 | Overrides `A => 5, B => 5` change the values of A and B in place |
| Scenarios.TieSorted | src/Core/Grid/Position/DoctrineGridPositionUpdater.php:74 | Sorting `[A => 5, B => 5, C => 2]` keeps A before B, after C |
| Scenarios.TieKeepsReadOrder | src/Core/Grid/Position/DoctrineGridPositionUpdater.php:69-77 | Overrides `A => 5, B => 5` store C at 0, A at 1 and B at 2: equal values keep read order |
| Scenarios.NoOverridesKeepOrder | src/Core/Grid/Position/DoctrineGridPositionUpdater.php:69-77 | A request without overrides on a dense scope leaves the table as it was and reports nothing |
| Scenarios.OverrideFirstOfTwo | src/Core/Grid/Position/DoctrineGridPositionUpdater.php:124-134 | Overriding the first of two read rows changes its value in place |
| Scenarios.RepeatFirstOrder | src/Core/Grid/Position/DoctrineGridPositionUpdater.php:73-74 | Sending `A => 2` to A(0), B(2): A and B tie at 2 and A stays first |
| Scenarios.RepeatSecondOrder | src/Core/Grid/Position/DoctrineGridPositionUpdater.php:73-74 | Sending `A => 2` again, to A(0), B(1): B now sorts before A |
| Scenarios.RepeatedRequestMovesRows | src/Core/Grid/Position/DoctrineGridPositionUpdater.php:69-77 | The same request sent twice stores A at 0 and B at 1 the first time, then B at 0 and A at 1: a repeated request is not idempotent |
| Scenarios.OutOfScopeMerged | src/Core/Grid/Position/DoctrineGridPositionUpdater.php:129-131 | An override of an id X the scope did not read is appended to the merge |
| Scenarios.OutOfScopeOrder | src/Core/Grid/Position/DoctrineGridPositionUpdater.php:73-74 | The merge with X sorts X between A and B |
| Scenarios.OutOfScopeOverrideWrites | src/Core/Grid/Position/DoctrineGridPositionUpdater.php:91-111 | The override of X rewrites X at 1, and the scope's rows A and B are left at 0 and 2 |
| Scenarios.OutOfScopeLastLeavesNoGap | src/Core/Grid/Position/DoctrineGridPositionUpdater.php:91-111 | An override of X that sorts after A and B still rewrites X, at 2, and leaves A and B at 0 and 1 |

## Left out

- SQL construction is not modelled. This covers the QueryBuilder calls, the `LEFT JOIN` / `WHERE` / `ORDER BY` text, `dbPrefix` and the `PositionDefinition` table and field names. The scoped read is an input sequence already in the query's order, and each UPDATE is a `Statement(rowId, position)`.
- Transactions are outcome flags only: a rollback restores the table as it was before `beginTransaction`. Isolation, real connection behaviour and a failing `beginTransaction` are not modelled.
- The `instanceof Statement && errorCode()` test (`:103`) is an oracle, the set `failing`. Driver result types are not modelled.
- Which exception classes reach the `catch` (`:113`) is not modelled. Every connection failure is one abstract event, and other exceptions that would propagate out of `update` are not modelled.
- PHP array-key coercion is not modelled: numeric strings become integers, so `"5"` and `5` are one key. Row ids are plain integers.
- The `NULL`-id row that the `LEFT JOIN` yields for a parent without children is not modelled.
- Concurrent reorders of the same scope are not modelled.
- `asort` is modelled as a stable sort. PHP guarantees stability only from version 8.0, and earlier versions may order equal values differently.
- Values are unbounded integers; PHP's integer width is not modelled. Values are compared numerically only, so PHP's loose comparison between numeric strings and integers is not modelled either.
- PositionUpdater.NoOverridesKeepDenseTable: idempotence is proved only for a request without overrides on a table already in dense order. With overrides it does not hold, as `Scenarios.RepeatedRequestMovesRows` shows.
- PositionUpdater.Update: its own contract states only the commit/rollback outcome. The density, ordering, error and isolation properties of a request are stated by the `Update…` lemmas above.
