/** An abstract redb store. The file system is a set of paths; the paths that
    hold a redb database map to its tables, and a table maps string keys to
    string values. Every call into the store is one atomic step: a committed
    write transaction replaces a database's tables in one go. */
module Store {
  import opened Wrappers

  type Table = map<string, string>
  type Db = map<string, Table>

  /** The errors the store reports. `Corrupted` is redb's catch-all variant that
      the shell uses for its own messages. */
  datatype StoreError =
    | Corrupted(msg: string)
    | OpenFailed(path: string)
    | TableDoesNotExist(name: string)
    | CreateFailed(path: string)

  type StoreResult<T> = Result<T, StoreError>

  /** The files the process can see, the redb databases among them, and the
      paths at which the process could create a new file (its directory
      exists and is writable). That last set is fixed for the whole session:
      no store call changes it. */
  class Disk {
    var files: set<string>
    var dbs: map<string, Db>
    const creatable: set<string>

    constructor (files: set<string>, dbs: map<string, Db>, creatable: set<string>)
      ensures this.files == files && this.dbs == dbs && this.creatable == creatable
    {
      this.files := files;
      this.dbs := dbs;
      this.creatable := creatable;
    }

    /** `Database::open`: succeeds on a file that holds a database. */
    function Open(path: string): (r: StoreResult<Db>)
      reads this
      ensures r.Ok? <==> path in files && path in dbs
      ensures r.Ok? ==> r.value == dbs[path]
      ensures r.Err? ==> r.error == OpenFailed(path)
    {
      if path in files && path in dbs then Ok(dbs[path]) else Err(OpenFailed(path))
    }

    /** Committing a write transaction on the database at `path`. */
    method Commit(path: string, db: Db)
      modifies this
      ensures files == old(files)
      ensures dbs == old(dbs)[path := db]
    {
      dbs := dbs[path := db];
    }

    /** `Database::create`: opens the database at `path` if there is one, and
        otherwise makes a new, empty one there. A file at `path` that is not a
        database is left alone and the call fails; so does a new file that
        cannot be made (the empty path, or a path whose directory is missing
        or not writable). */
    method Create(path: string) returns (r: StoreResult<()>)
      modifies this
      ensures Exists(old(files), path) ==> files == old(files) && dbs == old(dbs)
      ensures Exists(old(files), path) ==> (r.Ok? <==> path in old(dbs))
      ensures !Exists(old(files), path) && Creatable(creatable, path) ==>
        r == Ok(()) && files == old(files) + {path} && dbs == old(dbs)[path := map[]]
      ensures !Exists(old(files), path) && !Creatable(creatable, path) ==>
        r == Err(CreateFailed(path)) && files == old(files) && dbs == old(dbs)
    {
      if Exists(files, path) {
        if path in dbs {
          r := Ok(());
        } else {
          r := Err(OpenFailed(path));
        }
      } else if Creatable(creatable, path) {
        files := files + {path};
        dbs := dbs[path := map[]];
        r := Ok(());
      } else {
        r := Err(CreateFailed(path));
      }
    }
  }

  /** Whether a new file can be made at `path`: never for the empty path. */
  predicate Creatable(creatable: set<string>, path: string) {
    path != "" && path in creatable
  }

  /** Whether `Path::exists` holds: the empty path names no file. */
  predicate Exists(files: set<string>, path: string)
    ensures Exists(files, path) ==> path != "" && path in files
    ensures path == "" ==> !Exists(files, path)
  {
    path != "" && path in files
  }

  /** What the shell gets when it opens the database at `path`: a missing file
      (the empty path included) is reported as "Database not found", an
      existing file must also open. */
  function Probe(files: set<string>, dbs: map<string, Db>, path: string): (r: StoreResult<Db>)
    ensures r.Ok? <==> path != "" && path in files && path in dbs
    ensures r.Ok? ==> r.value == dbs[path]
    ensures (path == "" || path !in files) ==> r == Err(Corrupted("Database not found"))
    ensures path != "" && path in files && r.Err? ==> r == Err(OpenFailed(path))
  {
    if Exists(files, path) then
      if path in dbs then Ok(dbs[path]) else Err(OpenFailed(path))
    else
      Err(Corrupted("Database not found"))
  }

  /** The contents of table `name`, empty when the table does not exist yet. */
  function TableOf(db: Db, name: string): Table {
    if name in db then db[name] else map[]
  }

  /** Opening table `name` in a write transaction: the table is created empty
      when it is absent, and no table loses or gains an entry. */
  function Touch(db: Db, name: string): (r: Db)
    ensures r.Keys == db.Keys + {name}
    ensures r[name] == TableOf(db, name)
    ensures forall n :: n in db ==> r[n] == db[n]
  {
    if name in db then db else db[name := map[]]
  }

  /** Inserting `key` into table `name`: an upsert. The key is bound to
      `value`, every other key and every other table is as it was. */
  function Upsert(db: Db, name: string, key: string, value: string): (r: Db)
    ensures r.Keys == db.Keys + {name}
    ensures forall n :: n in db && n != name ==> r[n] == db[n]
    ensures key in r[name] && r[name][key] == value
    ensures forall k :: k != key ==> (k in r[name] <==> k in TableOf(db, name))
    ensures forall k :: k != key && k in r[name] ==> r[name][k] == TableOf(db, name)[k]
  {
    db[name := TableOf(db, name)[key := value]]
  }

  /** Removing `key` from table `name`: the key is gone, every other key and
      every other table is as it was; an absent key is no error. */
  function RemoveKey(db: Db, name: string, key: string): (r: Db)
    ensures r.Keys == db.Keys + {name}
    ensures forall n :: n in db && n != name ==> r[n] == db[n]
    ensures key !in r[name]
    ensures forall k :: k != key ==> (k in r[name] <==> k in TableOf(db, name))
    ensures forall k :: k in r[name] ==> r[name][k] == TableOf(db, name)[k]
  {
    db[name := TableOf(db, name) - {key}]
  }

  /** Deleting table `name` with all its entries. */
  function DropTable(db: Db, name: string): (r: Db)
    ensures name !in r
    ensures r.Keys == db.Keys - {name}
    ensures forall n :: n in r ==> r[n] == db[n]
  {
    db - {name}
  }

  /** An upsert into a table that was just replaced acts on the replacement. */
  lemma UpsertReplaced(db: Db, name: string, t: Table, key: string, value: string)
    ensures Upsert(db[name := t], name, key, value) == db[name := t[key := value]]
  {
    assert TableOf(db[name := t], name) == t;
  }

  /** A removal from a table that was just replaced acts on the replacement. */
  lemma RemoveKeyReplaced(db: Db, name: string, t: Table, key: string)
    ensures RemoveKey(db[name := t], name, key) == db[name := t - {key}]
  {
    assert TableOf(db[name := t], name) == t;
  }

  /** The keys a sequence of puts writes. */
  function KeysOf(puts: seq<(string, string)>): set<string> {
    set i | 0 <= i < |puts| :: puts[i].0
  }

  /** A sequence of upserts, applied in order. */
  function PutAll(t: Table, puts: seq<(string, string)>): (r: Table)
    ensures r.Keys == t.Keys + KeysOf(puts)
    ensures forall k :: k in t && k !in KeysOf(puts) ==> r[k] == t[k]
    decreases |puts|
  {
    if puts == [] then t
    else
      assert KeysOf(puts) == {puts[0].0} + KeysOf(puts[1..]) by {
        forall k | k in KeysOf(puts) ensures k in {puts[0].0} + KeysOf(puts[1..]) {
          var i :| 0 <= i < |puts| && puts[i].0 == k;
          if i > 0 {
            assert puts[1..][i - 1].0 == k;
          }
        }
      }
      PutAll(t[puts[0].0 := puts[0].1], puts[1..])
  }

  /** A sequence of `insert`s into table `name`, committed in order. */
  function UpsertAll(db: Db, name: string, puts: seq<(string, string)>): (r: Db)
    ensures r.Keys == if puts == [] then db.Keys else db.Keys + {name}
    ensures forall n :: n in db && n != name ==> r[n] == db[n]
    decreases |puts|
  {
    if puts == [] then db else UpsertAll(Upsert(db, name, puts[0].0, puts[0].1), name, puts[1..])
  }

  /** Inserting a sequence of entries one commit at a time leaves the table as
      `PutAll` of its old contents, and every other table as it was. */
  lemma {:induction false} UpsertAllIsPutAll(db: Db, name: string, puts: seq<(string, string)>)
    requires name in db || puts != []
    ensures UpsertAll(db, name, puts) == db[name := PutAll(TableOf(db, name), puts)]
    decreases |puts|
  {
    if puts == [] {
      assert db[name := db[name]] == db;
    } else {
      var t := TableOf(db, name)[puts[0].0 := puts[0].1];
      var next := db[name := t];
      assert Upsert(db, name, puts[0].0, puts[0].1) == next;
      UpsertAllIsPutAll(next, name, puts[1..]);
      assert TableOf(next, name) == t;
      assert PutAll(TableOf(db, name), puts) == PutAll(t, puts[1..]);
      ReplaceTwice(db, name, t, PutAll(t, puts[1..]));
    }
  }

  lemma ReplaceTwice(db: Db, name: string, a: Table, b: Table)
    ensures db[name := a][name := b] == db[name := b]
  {
  }

  /** Last write wins on the store: after a sequence of inserts into a table,
      every key written holds the value of its last write, and the table holds
      exactly its old keys and the keys written. */
  lemma StoreLastWriteWins(db: Db, name: string, puts: seq<(string, string)>, i: nat)
    requires i < |puts|
    requires forall j :: i < j < |puts| ==> puts[j].0 != puts[i].0
    ensures name in UpsertAll(db, name, puts)
    ensures UpsertAll(db, name, puts)[name].Keys == TableOf(db, name).Keys + KeysOf(puts)
    ensures puts[i].0 in UpsertAll(db, name, puts)[name]
    ensures UpsertAll(db, name, puts)[name][puts[i].0] == puts[i].1
  {
    UpsertAllIsPutAll(db, name, puts);
    LastWriteWins(TableOf(db, name), puts, i);
  }

  /** Last write wins: a key holds the value of the last put that wrote it. */
  lemma {:induction false} LastWriteWins(t: Table, puts: seq<(string, string)>, i: nat)
    requires i < |puts|
    requires forall j :: i < j < |puts| ==> puts[j].0 != puts[i].0
    ensures puts[i].0 in PutAll(t, puts)
    ensures PutAll(t, puts)[puts[i].0] == puts[i].1
    decreases |puts|
  {
    if i == 0 {
      assert forall j :: 0 <= j < |puts[1..]| ==> puts[1..][j].0 != puts[0].0;
    } else {
      LastWriteWins(t[puts[0].0 := puts[0].1], puts[1..], i - 1);
    }
  }
}
