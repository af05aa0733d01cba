# Todo service repository — a Dafny model

This project models the core of a small HTTP todo service written in Rust:
the todo repository (`src/models.rs`) that lists, inserts, patches and
deletes rows of the `todos` table, and the startup argument interpretation
(`src/main.rs`) that picks the listening port and the "skip test data" flag.

The SQLite table is modelled as an in-memory `seq<Todo>` in natural row
order (`Tables.Table`), with the invariant that no id is held by two rows
(`Tables.UniqueIds`). Every repository operation is a pure function from a
table to a `Repository.Step`: the operation's `Result` together with the
table it leaves behind. Modules:

- `Outcomes` — `Option`, `Result`, and the one distinct error `NotFound`.
- `Todos` — `Todo`, `InsertableTodo`, `EditableTodo`, and the field merge of an update.
- `Tables` — the table, its ids, the unique-ids invariant, subsequences, the first row holding an id, and a fresh id.
- `Repository` — `GetAll`, `Insert`, `Update`, `Delete`, `DeleteAll` and their lemmas.
- `Args` — the port and skip-test-data selection.
- `Scenarios` — properties of sequences of operations as a client sees them.

The update is modelled statement by statement, as the code issues it: a
read of the first row holding the id (filter, limit 1), the merge, and an
UPDATE that writes the three mutable columns of every row holding that id.
With unique ids this is exactly "overwrite that one row"; the model also
says what the statements do without the invariant.

Because the listing is limited to five rows in table order, a newly
inserted unchecked row appears in the next listing only when fewer than
five unchecked rows precede it (`Scenarios.InsertedRowListed` proves the
exact condition).

## Model

| member | source | states |
|---|---|---|
| `Todos.Merge` | src/models.rs:75-77 | each patch field that is present replaces the stored field, each absent one keeps the stored value, and the id never changes |
| `Todos.MergeNoChanges` | src/models.rs:75-77 | a patch with no fields leaves the row as it was |
| `Todos.MergeIdempotent` | src/models.rs:75-77 | applying the same patch twice gives the same row as applying it once |
| `Todos.MergeFullPatch` | src/models.rs:75-77 | a patch supplying every field determines the merged row regardless of the stored values (other than the id) |
| `Tables.IndexOf` | src/models.rs:66-70 | the row a query filtered on the id with limit 1 loads: absent exactly when no row holds the id, otherwise the first row that does |
| `Tables.IndexOfUnique` | src/models.rs:66-70 | with unique ids the loaded row is the one row holding the id |
| `Tables.NextRowId` | src/models.rs:49 | storage can always assign a new row an id no row holds |
| `Repository.Unchecked` | src/models.rs:40 | the reference filter of the listing keeps rows in table order (a subsequence) |
| `Repository.UncheckedRows` | src/models.rs:40 | the reference filter keeps exactly the rows with `is_checked == false` |
| `Repository.LoadUnchecked` | src/models.rs:39-42 | the filtered, limited scan returns at most `limit` rows, all unchecked, as a subsequence of the table |
| `Repository.LoadUncheckedIsPrefix` | src/models.rs:39-42 | the scan returns exactly the first `min(limit, #unchecked)` unchecked rows in table order |
| `Repository.GetAll` | src/models.rs:36-45 | the listing succeeds, returns at most 5 rows, none checked, the first `min(5, #unchecked)` unchecked rows in table order, and leaves the table unchanged |
| `Repository.Insert` | src/models.rs:46-52 | the table gains exactly one row, with the payload's title, body and flag and a previously unused id; existing rows stay as they were and ids stay unique |
| `Repository.Fetch` | src/models.rs:66-72 | the read step finds nothing exactly when no row holds the id; otherwise the first row in table order holding it, which is the only one when ids are unique |
| `Repository.SetColumns` | src/models.rs:81-87 | the write step sets title, body and flag of every row holding the id, keeps its id, and leaves every other row unchanged |
| `Repository.SameIds` | src/models.rs:81-87 | a write that keeps every row's id keeps the table's ids and their uniqueness |
| `Repository.Update` | src/models.rs:53-91 | a missing id is a `NotFound` error with the table unchanged; otherwise success, the rows holding the id become the merge of the stored row with the patch, all other rows and all ids are unchanged |
| `Repository.UpdateNoChanges` | src/models.rs:75-87 | with unique ids, an update with an all-absent patch leaves the table as it was |
| `Repository.UpdateIdempotent` | src/models.rs:75-87 | applying the same patch twice gives the same outcome and table as applying it once |
| `Repository.CountZero` | src/models.rs:95 | the number of rows holding an id is zero exactly when no row holds it |
| `Repository.CountUnique` | src/models.rs:95 | with unique ids an id is held by at most one row |
| `Repository.RemoveId` | src/models.rs:95 | the delete statement leaves a subsequence of the table with no row holding the id, shorter by exactly the number of rows that held it, so every other row is kept in order |
| `Repository.RemoveIdRows` | src/models.rs:95 | a row survives the delete statement exactly when it holds another id |
| `Repository.RemoveIdUnique` | src/models.rs:95 | removing rows keeps ids unique |
| `Repository.RemoveAbsent` | src/models.rs:95 | removing an id no row holds changes nothing |
| `Repository.RemoveIdIds` | src/models.rs:95 | removal takes exactly that id out of the table's ids |
| `Repository.RemoveIdFacts` | src/models.rs:95 | with unique ids removal of a present id removes exactly one row, and ids stay unique |
| `Repository.Delete` | src/models.rs:92-98 | delete always succeeds, removes every row holding the id, keeps all other rows in order, and is a no-op when the id is absent |
| `Repository.DeleteIdempotent` | src/models.rs:92-98 | deleting the same id twice is the same as deleting it once |
| `Repository.DeleteAll` | src/models.rs:99-105 | delete-all succeeds and leaves no row |
| `Repository.ListAfterDeleteAll` | src/models.rs:99-104 | after delete-all a listing returns an empty sequence |
| `Args.SelectPort` | src/main.rs:33-39 | the port is `"8080"` when the first argument is missing or empty, and exactly that argument otherwise; it is never empty |
| `Args.SkipTestData` | src/main.rs:41-45 | the flag is set if and only if a second argument exists and equals `"true"` |
| `Args.MissingFlagKeepsTestData` | src/main.rs:44-45 | without a second argument the flag is off, because the fallback `"8080"` is not `"true"` |
| `Args.FullCommandLine` | src/main.rs:33-45 | for `program port flag` the port and the flag are read independently of each other |
| `Scenarios.UncheckedAppend` | src/models.rs:40 | appending a row appends it to the filtered rows exactly when it is unchecked |
| `Scenarios.InsertedRowListed` | src/models.rs:39-51 | a newly inserted unchecked row appears in the next listing if and only if fewer than five unchecked rows precede it |
| `Scenarios.CheckedRowNotListed` | src/models.rs:39-87 | after a patch that only sets `is_checked` to true, no row with that id appears in a listing |
| `Scenarios.CheckOffKeepsText` | src/models.rs:75-87 | with unique ids, such a patch changes only that row's flag: ids, titles and bodies stay as they were |
| `Scenarios.RemoveIdAppend` | src/models.rs:95 | deleting an id from a table with one more row at the end deletes it from the table and keeps or drops that last row by its id |
| `Scenarios.DeleteUndoesInsert` | src/models.rs:46-98 | deleting the row an insert just created gives back the table from before the insert |
| `Scenarios.FetchAfterUpdate` | src/models.rs:53-91 | reading a row back after a successful patch gives the stored row merged with the patch |
| `Scenarios.PatchRoundTrip` | src/models.rs:46-91 | inserting `{"a","b",false}`, patching the body to `"c"` and reading the row back gives `{"a","c",false}` under the same id |

## Left out

- The HTTP handlers (`src/controllers.rs`): connection-pool acquisition, offloading to a blocking thread, JSON (de)serialisation, and mapping every failure to a 500 response. They hold no logic beyond forwarding to the repository.
- The rest of startup in `src/main.rs`: pool construction, running and reverting embedded migrations, CORS, binding and serving. All of it is I/O and framework wiring; the model stops at the two values the arguments select.
- Storage and connection failures: every repository call can fail on a broken connection or query; the model has no such outcome, so `GetAll`, `Insert`, `Delete` and `DeleteAll` always succeed and `NotFound` is the only error.
- Id assignment: storage picks the id of a new row. `Repository.Insert` takes that id as a parameter that no row may hold, and `Tables.NextRowId` shows one always exists.
- Repository.Insert: places the new row at the end of the table, which is where SQLite's natural row order puts a row with a larger rowid; another storage order is not modelled.
- Integer width: ids are unbounded integers, not 32-bit. Ids come from storage and path parameters, and no arithmetic is done on them.
- The lost-update race between the read and the write of an update under concurrent patches: the model is sequential.
- The text of the error raised when an update finds no row.
