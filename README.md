# redbcli, modelled in Dafny

redbcli is an interactive shell over a [redb](https://github.com/cberner/redb)
key-value database file. The user points the session at a database file
(`set`), selects a table (`use`), and then reads entries (`info`), edits the
whole table as JSON in an external editor (`edit`), creates or deletes tables
(`create`, `delete`), creates a database file (`new`) or leaves (`exit`). All
tables map `&str` keys to `&str` values.

This project models:

- `CommonDbManager` (src/redbcontrol.rs) as the class
  `RedbControl.CommonDbManager`. It has the fields `tablename` and `dbpath` and
  methods for `getdb`, `settablename`, `setdbpath` and the five `common_*`
  table operations. Each operation opens the database afresh, so each method
  first calls `GetDb`. The method's contract ties the new store to a value-level
  function of the old store (`Touch`, `Upsert`, `RemoveKey`, `DropTable` in
  module `Store`). The `while let` dump loop of `common_get_all` is the method
  `RedbControl.FormatEntries`. It is proved equal to the entries listed in
  ascending key order.
- The session `CliStatus` and `respond` (src/main.rs) as the class
  `Session.CliStatus` and its method `Respond`. `Respond` does the following:
  - it copies the non-empty session fields into the manager;
  - it applies the checks of each command;
  - it dispatches `info` to its sub-commands;
  - for `edit`, it runs the snapshot / edit / replace-all round trip.
  The ghost predicates `Dispatched`, `EditEffect` and `InfoEffect` state, for
  every command, what the store and the reply become. The session fields
  after each command are stated by separate postconditions of `Respond`.
- The command enums of src/flags.rs as the datatypes `Flags.Commands` and
  `Flags.InfoCommands`.

The store is abstract (module `Store`). The file system is a set of paths.
Paths that hold a database map to that database's tables. A third set names
the paths at which a new file could be created; that set is a constant of the
`Disk`, so no command changes it. The empty path never names an existing file
and can never be created. Every call into redb
is one atomic step, and `Disk.Commit` replaces one database's tables at once.
Several things are inputs rather than computed:

- a line is either already parsed (`Line.Parsed`) or was rejected by the
  argument parser (`Line.Rejected`);
- the editor run is an `EditorRun`: whether it succeeded, and the text left in
  the file;
- the JSON codec is a pair of functions (`Json.serialize`, `Json.parse`).

redb orders `&str` keys byte by byte. For UTF-8 that is the same as code-point
order, so it is modelled as lexicographic order on `char`s (`KeyOrder.LexLe`).
A full range scan yields `KeyOrder.SortedKeys` of the table's keys.
`KeyOrder.AscendingUnique` proves that this sequence is the only ascending
enumeration of the key set.

`HashMap` iteration order in the edit step is unspecified. The two loops
therefore pick an arbitrary remaining key each time, with `:|`. The proofs hold
for every order.

The model follows the code; in particular:

- `set` stores any path. It does not check the file and does not clear the
  selected table (src/main.rs:101-104).
- `use` checks only that a path has been set (src/main.rs:107).
- `info`, `create` and `delete` never check that a path is set. For `info`, a
  missing database shows up as the store's "Database not found" error. For
  `create` and `delete` the store's result is discarded and the reply is
  `Ok(false)` (src/main.rs:201-203, 206-208). `new` does not use the session
  path at all.
- While the manager holds the empty path (the default, until a non-empty
  session path has been copied into it), no database opens. Every command
  except `new` then leaves the store unchanged (`Session.NoPathNoStoreChange`).
- `common_remove_by_key` and `common_update_by_key` always return an error,
  even after their write has committed (src/redbcontrol.rs:132, 144).
- `common_get_by_key` and `common_get_all` create the table when it is absent.
  So do the `info` and `edit` reads, even when the edit is then abandoned.
- `info table <name>` stores `<name>` as the session's table before reading.
  The read, however, uses the manager's table (src/main.rs:97-99, 192-193).
  The manager's table is the session's previous table when that was
  non-empty. Otherwise it is whatever table the manager already held
  (`Session.Sync`). The new name is kept even when the read fails.
- A failed editor run returns `Ok(true)`, which ends the session
  (src/main.rs:140-143).

src/main.rs calls manager methods that src/redbcontrol.rs does not define:
`get_all` returning a map, `list_table`, `create_table`, `delete_table`,
`get_by_key`, `remove_by_key` and `update_by_key`. They come from the
`DealTable`/`DealData` traits, which are not part of this model. They are given
the semantics of the matching `common_*` operations:

- `get_all` returns the table's map and creates the table if needed;
- `list_table` returns the set of table names;
- `create_table` creates the table if needed;
- `delete_table` drops the table, or fails when it does not exist.

## Model

| member | source | states |
|---|---|---|
| Store.Probe | src/redbcontrol.rs:43-50 | Opening the database at a path succeeds exactly when the path is non-empty, the file exists and it holds a database; it then yields the database's tables. A missing file, and the empty path, give `Corrupted("Database not found")`. An existing file that does not open gives the open error. |
| Store.Exists | src/redbcontrol.rs:44-45 | `Path::exists`: the empty path names no file; any other path exists exactly when it is in the file set. |
| Store.Disk.Open | src/redbcontrol.rs:46 | `Database::open` succeeds exactly on a file that holds a database and yields its tables. Otherwise it fails with the open error for that path. |
| Store.Disk.Create | src/main.rs:210-213 | `Database::create`: on an existing database it changes nothing and succeeds (the empty path is never an existing file). On a non-database file it changes nothing and fails. On a missing path where a file can be made, it adds the file with an empty database. On the empty path, or a path where no file can be made, it fails and changes nothing. |
| Store.Disk.Commit | src/redbcontrol.rs:73 | A committed write transaction replaces the tables of the database at one path and changes nothing else. |
| Store.Touch | src/redbcontrol.rs:69-73 | Opening a table in a write transaction creates it empty when it is absent. It adds no other table and changes no existing table. |
| Store.Upsert | src/redbcontrol.rs:90-95 | `insert` binds the key to the value. Every other key of the table and every other table keeps its value, and the table is created if needed. |
| Store.RemoveKey | src/redbcontrol.rs:126-131 | `remove` leaves the key absent and every other entry and table unchanged. Removing an absent key is not an error. |
| Store.DropTable | src/main.rs:205-206 | Deleting a table removes exactly that table and leaves the others unchanged. |
| Store.UpsertReplaced | src/redbcontrol.rs:90-95 | An upsert into a table that was just replaced acts on the replacement. |
| Store.RemoveKeyReplaced | src/redbcontrol.rs:126-131 | A removal from a table that was just replaced acts on the replacement. |
| Store.PutAll | src/redbcontrol.rs:86-97 | A sequence of inserts leaves the table with exactly the old keys plus the written keys. Keys that were not written keep their values. |
| Store.LastWriteWins | src/redbcontrol.rs:86-97 | After a sequence of inserts, each key holds the value of the last insert that wrote it. |
| Store.UpsertAll | src/redbcontrol.rs:86-97 | A sequence of committed inserts into one table creates that table if needed and leaves every other table unchanged. |
| Store.UpsertAllIsPutAll | src/redbcontrol.rs:86-97 | A sequence of committed inserts into one table, each an `Upsert` of the store, leaves that table equal to `PutAll` of its old contents. |
| Store.StoreLastWriteWins | src/redbcontrol.rs:86-97 | On the store, after a sequence of committed inserts, the table holds exactly its old keys plus the written keys. Each written key holds the value of its last write. |
| KeyOrder.LexLe | src/redbcontrol.rs:113 | The key order used by the range scan: a prefix sorts no later than any extension of it, and a key sorts no later than another only if its first character does. |
| KeyOrder.LexLeReflexive | src/redbcontrol.rs:113 | The key order is reflexive. |
| KeyOrder.LexLeTotal | src/redbcontrol.rs:113 | Any two keys are comparable. |
| KeyOrder.LexLeAntisymmetric | src/redbcontrol.rs:113 | Two keys each at most the other are equal. |
| KeyOrder.LexLeTransitive | src/redbcontrol.rs:113 | The key order is transitive. |
| KeyOrder.LeastExists | src/redbcontrol.rs:113-114 | Every non-empty set of keys has a least key, so the range scan always has a next entry until the table is exhausted. |
| KeyOrder.SortedKeys | src/redbcontrol.rs:113-114 | The full range scan visits every key of the table exactly once, in strictly ascending order. |
| KeyOrder.AscendingUnique | src/redbcontrol.rs:113-114 | Two strictly ascending enumerations of the same key set are equal, so the scan order is determined by the keys alone. |
| KeyOrder.SortedKeysFirst | src/redbcontrol.rs:113-114 | The scan starts with the least key and continues with the scan of the remaining keys. |
| RedbControl.Entry | src/redbcontrol.rs:116 | One dump entry is the label `Key: `, then the key, then a fixed label, then the value and a line break. Its length is the key's plus the value's plus 16. |
| RedbControl.ListingCons | src/redbcontrol.rs:114-118 | The dump of a key sequence is the first key's entry followed by the dump of the rest. |
| RedbControl.ListingStep | src/redbcontrol.rs:114-118 | Appending the least remaining key's entry moves it from the rest of the dump to the text already built. |
| RedbControl.ListingEmpty | src/redbcontrol.rs:112-120 | The dump of a table is the empty string exactly when the table has no entries. |
| RedbControl.FormatEntries | src/redbcontrol.rs:112-120 | The `while let` loop builds `"Key: k \n Value: v\n"` for every entry, in ascending key order. The result is empty exactly when the table is empty. |
| RedbControl.CommonDbManager.constructor | src/redbcontrol.rs:26-30 | The default manager has an empty table name and an empty path. |
| RedbControl.CommonDbManager.GetDb | src/redbcontrol.rs:43-50 | `getdb` gives the database at `dbpath`, or the error `Probe` names. It changes nothing. |
| RedbControl.CommonDbManager.SetTableName | src/redbcontrol.rs:51-53 | Only the table name changes, to the given name. |
| RedbControl.CommonDbManager.SetDbPath | src/redbcontrol.rs:54-58 | The path is stored before it is checked, so it changes even when the result is an error. The result succeeds exactly when a database opens there, and otherwise carries the open error. |
| RedbControl.CommonDbManager.CommonGetByKey | src/redbcontrol.rs:64-85 | When the database does not open, returns its error and changes nothing. Otherwise it creates the table if absent and changes no entry. It returns the stored value when the key is present and `Corrupted("Key not found")` when it is not. |
| RedbControl.CommonDbManager.CommonInsertByKey | src/redbcontrol.rs:86-97 | When the database does not open, returns its error and changes nothing. Otherwise it commits the upsert of the key and returns `Ok`. |
| RedbControl.CommonDbManager.CommonGetAll | src/redbcontrol.rs:98-121 | When the database does not open, returns its error and changes nothing. Otherwise it creates the table if absent, changes no entry, and returns the dump of the table's entries in ascending key order. |
| RedbControl.CommonDbManager.CommonRemoveByKey | src/redbcontrol.rs:122-133 | Always an error. When the database opens, the removal of the key is committed first and the error is `Corrupted("Database not found")`. Otherwise nothing changes. |
| RedbControl.CommonDbManager.CommonUpdateByKey | src/redbcontrol.rs:134-145 | Always an error. When the database opens, the upsert of the key is committed first and the error is `Corrupted("Database not found")`. Otherwise nothing changes. |
| RedbControl.CommonDbManager.GetAll | src/main.rs:120 | The shell's `get_all`: the open error with nothing changed, or the table's entries as a map, with the table created if absent. |
| RedbControl.CommonDbManager.ListTable | src/main.rs:174 | The shell's `list_table`: succeeds exactly when the database opens, and yields the names of its tables. It changes nothing. |
| RedbControl.CommonDbManager.CreateTable | src/main.rs:201 | The shell's `create_table`: creates the table if it is absent and leaves every existing table unchanged. When the database does not open, nothing changes. |
| RedbControl.CommonDbManager.DeleteTable | src/main.rs:206 | The shell's `delete_table`: drops an existing table. For an absent table it fails with nothing changed. When the database does not open, nothing changes. |
| Session.Sync | src/main.rs:94-99 | The manager's path or table after the copy at the start of a command: the session's value when it is non-empty, the manager's own value otherwise. It is empty only when both are. |
| Session.NoPathNoStoreChange | src/main.rs:94-96 | While the manager's path is empty, no command other than `new` changes the store. Every storage error is "Database not found", and `edit` with a table selected and `info table` both fail. |
| Session.OverlayStep | src/main.rs:157-159 | Writing one more pending edited entry advances the overlay of the edited map onto the table by that key. |
| Session.RemoveStep | src/main.rs:152-154 | One removal commit of the reconcile step takes the store from "table minus the keys done so far" to "table minus one key more". |
| Session.UpsertStep | src/main.rs:157-159 | One update commit of the reconcile step takes the store from "table overlaid with the entries done so far" to "overlaid with one entry more". |
| Session.CliStatus.constructor | src/main.rs:24-28 | At start-up the session's path is the `--path` argument, or empty. The table is empty, and the manager is fresh with empty fields. |
| Session.CliStatus.Respond | src/main.rs:91-221 | A line the parser rejects returns its error and changes nothing. Otherwise the session's non-empty path and table are first copied into the manager. `set` stores any path; `use` selects a table only once a path is set; `info table` selects its table. The store and the reply follow `Dispatched` for each command: `exit` gives `Ok(true)`; `create`, `delete` and `new` give `Ok(false)` whatever the store says; `edit` and `info` follow `EditEffect` and `InfoEffect`. |
| Session.CliStatus.Administer | src/main.rs:200-214 | `create`, `delete` and `new` discard the store's answer and reply `Ok(false)`. `create` creates the table and `delete` drops an existing one when the database opens. `new` adds an empty database at a missing path where a file can be made. In every other case the store is unchanged. |
| Session.CliStatus.EditTable | src/main.rs:114-167 | With no table selected, `Ok(false)` and nothing changes. Otherwise the snapshot read creates the table. A failed editor gives `Ok(true)`. An unparsable text or a text equal to the snapshot's serialization writes nothing more. Any other parsed map replaces the table exactly: dropped keys are gone, and every other table and database is unchanged. |
| Session.CliStatus.ReplaceEntries | src/main.rs:152-159 | Removing every snapshot key and then writing every edited entry leaves the table equal to the edited map, whatever order either loop takes. |
| Session.CliStatus.DropEntries | src/main.rs:152-154 | The removal loop leaves the table equal to its old contents minus the given keys, in any order of the keys. |
| Session.CliStatus.WriteEntries | src/main.rs:157-159 | The update loop leaves the table equal to its old contents overlaid with the given entries, in any order of the entries. |
| Session.CliStatus.ShowInfo | src/main.rs:169-198 | `info` defaults to `tables`. `tables` lists the tables, changing nothing, when no table is selected, and dumps the table otherwise. `key` with no table selected changes nothing; otherwise it reads the key, creating the table, and a missing key is an error. `table <name>` stores the name as the session's table before dumping the manager's table. Storage errors propagate. |

## Left out

- I/O is not modelled. This covers the REPL loop, rustyline history and the prompt (src/main.rs:23-82). It also covers `write_io` (src/main.rs:84-89), so a failed write to stdout, which `respond` would propagate as an error, is not modelled either.
- Argument parsing with shlex and clap (src/main.rs:92-93, src/flags.rs) is a library. A line reaches `Respond` either parsed or rejected.
- The vim subprocess and the temporary file (src/main.rs:119-145) are external. They are replaced by the `EditorRun` input. A panic from any `unwrap` there is not modelled.
- serde_json (src/main.rs:121, 146) is a library and is kept abstract as the `Json` functions. In particular, the snapshot text of the real program depends on `HashMap` iteration order. The model treats serialization as a function of the map.
- `Store.Disk.Create`: why a file cannot be created (a missing or unwritable directory, or any other I/O error) is not modelled. The paths where a file can be made are an input set, and the failure is a single `CreateFailed` error.
- redb internals are not modelled: transactions, durability, locking, the file format, and errors inside an opened database (`begin_write`, `open_table`, `commit`). Every store call is one atomic step that either fails to open the database or succeeds.
- A crash between the commits of the edit reconcile step is not modelled. The model proves the final state only.
- `Store.Disk.Create`: `Database::create` on an existing file that is not a database fails here, and the file is left unchanged. What redb does with such a file (for example an empty one) is not modelled.
- `read_header`, `read_seeker` and their tests (src/redbcontrol.rs:10-25, 154-168) are raw byte dumps to stdout.
- The console rendering in src/pretty_print.rs and the data carriers in src/lib.rs are output only.
- The `DealTable`/`DealData` methods that src/main.rs calls are not part of this model. They are given the semantics of the matching `common_*` operations, as described above.
