/** The shell's gateway to the store: a manager that remembers a database path
    and a table name, and opens the database afresh for every operation. */
module RedbControl {
  import opened Wrappers
  import opened KeyOrder
  import opened Store

  /** One entry of a table dump: a label, the key, a second label, the value
      and a line break. */
  function Entry(key: string, value: string): (e: string)
    ensures |e| == |key| + |value| + 16
    ensures e[..5] == "Key: " && e[5..5 + |key|] == key
    ensures e[|e| - 1 - |value|..|e| - 1] == value && e[|e| - 1] == '\n'
  {
    "Key: " + key + " \n Value: " + value + "\n"
  }

  /** The entries of `t` for `keys`, one after another. */
  function Listing(t: Table, keys: seq<string>): string
    requires forall k :: k in keys ==> k in t
    decreases |keys|
  {
    if keys == [] then "" else Entry(keys[0], t[keys[0]]) + Listing(t, keys[1..])
  }

  /** The dump of the keys `keys` of `t`, in ascending key order. */
  ghost function Dump(t: Table, keys: set<string>): string
    requires keys <= t.Keys
  {
    Listing(t, SortedKeys(keys))
  }

  lemma ListingCons(t: Table, k: string, keys: seq<string>)
    requires k in t && forall j :: j in keys ==> j in t
    ensures Listing(t, [k] + keys) == Entry(k, t[k]) + Listing(t, keys)
  {
    assert ([k] + keys)[1..] == keys;
  }

  /** Taking the first remaining key moves its entry from the rest of the
      dump to the part already written. */
  lemma ListingStep(t: Table, rest: set<string>, k: string, done: string)
    requires rest <= t.Keys && IsLeast(k, rest)
    ensures done + Dump(t, rest) == (done + Entry(k, t[k])) + Dump(t, rest - {k})
  {
    var tail := SortedKeys(rest - {k});
    SortedKeysFirst(rest, k);
    ListingCons(t, k, tail);
    var e, l := Entry(k, t[k]), Listing(t, tail);
    assert Dump(t, rest) == e + l;
    assert Dump(t, rest - {k}) == l;
    AppendAssoc(done, e, l);
  }

  lemma AppendAssoc(a: string, b: string, c: string)
    ensures a + (b + c) == (a + b) + c
  {
  }

  /** The dump of a table is empty exactly when the table is. */
  lemma ListingEmpty(t: Table)
    ensures Dump(t, t.Keys) == "" <==> t == map[]
  {
    var ks := SortedKeys(t.Keys);
    if t != map[] {
      var k :| k in t.Keys;
      assert k in ks;
      assert |Entry(ks[0], t[ks[0]])| > 0;
    }
  }

  /** The dump loop of `common_get_all`: walks the table in key order and
      appends one entry per key. The dump is empty exactly for an empty table. */
  method FormatEntries(t: Table) returns (s: string)
    ensures s == Dump(t, t.Keys)
    ensures s == "" <==> t == map[]
  {
    s := "";
    var rest := t.Keys;
    while rest != {}
      invariant rest <= t.Keys
      invariant s + Dump(t, rest) == Dump(t, t.Keys)
      decreases |rest|
    {
      LeastExists(rest);
      var k :| IsLeast(k, rest);
      ListingStep(t, rest, k, s);
      s := s + Entry(k, t[k]);
      rest := rest - {k};
    }
    ListingEmpty(t);
  }

  class CommonDbManager {
    var tablename: string
    var dbpath: string

    /** `CommonDbManager::default()`. */
    constructor ()
      ensures tablename == "" && dbpath == ""
    {
      tablename := "";
      dbpath := "";
    }

    /** Opens the database at `dbpath`; changes nothing. */
    method GetDb(disk: Disk) returns (r: StoreResult<Db>)
      ensures r == Probe(disk.files, disk.dbs, dbpath)
    {
      if Exists(disk.files, dbpath) {
        r := disk.Open(dbpath);
        return;
      }
      r := Err(Corrupted("Database not found"));
    }

    method SetTableName(name: string)
      modifies this`tablename
      ensures tablename == name
    {
      tablename := name;
    }

    /** Stores the path first and checks it afterwards, so the path is kept
        even when the check fails. */
    method SetDbPath(path: string, disk: Disk) returns (r: StoreResult<()>)
      modifies this`dbpath
      ensures dbpath == path
      ensures r.Ok? <==> Probe(disk.files, disk.dbs, path).Ok?
      ensures r.Err? ==> r.error == Probe(disk.files, disk.dbs, path).error
    {
      dbpath := path;
      var db :- GetDb(disk);
      r := Ok(());
    }

    /** Looks `key` up in the current table, creating the table first when it
        is absent. */
    method CommonGetByKey(key: string, disk: Disk) returns (r: StoreResult<string>)
      modifies disk
      ensures disk.files == old(disk.files)
      ensures old(Probe(disk.files, disk.dbs, dbpath)).Err? ==>
        r == Err(old(Probe(disk.files, disk.dbs, dbpath)).error) && disk.dbs == old(disk.dbs)
      ensures old(Probe(disk.files, disk.dbs, dbpath)).Ok? ==>
        var db := old(disk.dbs)[dbpath];
        && disk.dbs == old(disk.dbs)[dbpath := Touch(db, tablename)]
        && (key in TableOf(db, tablename) ==> r == Ok(TableOf(db, tablename)[key]))
        && (key !in TableOf(db, tablename) ==> r == Err(Corrupted("Key not found")))
    {
      var db :- GetDb(disk);
      var touched := Touch(db, tablename);
      disk.Commit(dbpath, touched);
      var t := touched[tablename];
      if key in t {
        r := Ok(t[key]);
      } else {
        r := Err(Corrupted("Key not found"));
      }
    }

    /** Binds `key` to `data` in the current table (an upsert) and commits. */
    method CommonInsertByKey(key: string, data: string, disk: Disk) returns (r: StoreResult<()>)
      modifies disk
      ensures disk.files == old(disk.files)
      ensures old(Probe(disk.files, disk.dbs, dbpath)).Err? ==>
        r == Err(old(Probe(disk.files, disk.dbs, dbpath)).error) && disk.dbs == old(disk.dbs)
      ensures old(Probe(disk.files, disk.dbs, dbpath)).Ok? ==>
        r == Ok(()) && disk.dbs == old(disk.dbs)[dbpath := Upsert(old(disk.dbs)[dbpath], tablename, key, data)]
    {
      var db :- GetDb(disk);
      disk.Commit(dbpath, Upsert(db, tablename, key, data));
      r := Ok(());
    }

    /** Dumps the current table in key order, creating the table first when
        it is absent. */
    method CommonGetAll(disk: Disk) returns (r: StoreResult<string>)
      modifies disk
      ensures disk.files == old(disk.files)
      ensures old(Probe(disk.files, disk.dbs, dbpath)).Err? ==>
        r == Err(old(Probe(disk.files, disk.dbs, dbpath)).error) && disk.dbs == old(disk.dbs)
      ensures old(Probe(disk.files, disk.dbs, dbpath)).Ok? ==>
        var t := TableOf(old(disk.dbs)[dbpath], tablename);
        && disk.dbs == old(disk.dbs)[dbpath := Touch(old(disk.dbs)[dbpath], tablename)]
        && r == Ok(Dump(t, t.Keys))
    {
      var db :- GetDb(disk);
      var touched := Touch(db, tablename);
      disk.Commit(dbpath, touched);
      var s := FormatEntries(touched[tablename]);
      r := Ok(s);
    }

    /** Removes `key` from the current table and commits, then reports an
        error all the same. */
    method CommonRemoveByKey(key: string, disk: Disk) returns (r: StoreResult<()>)
      modifies disk
      ensures r.Err?
      ensures disk.files == old(disk.files)
      ensures old(Probe(disk.files, disk.dbs, dbpath)).Err? ==>
        r == Err(old(Probe(disk.files, disk.dbs, dbpath)).error) && disk.dbs == old(disk.dbs)
      ensures old(Probe(disk.files, disk.dbs, dbpath)).Ok? ==>
        r == Err(Corrupted("Database not found"))
        && disk.dbs == old(disk.dbs)[dbpath := RemoveKey(old(disk.dbs)[dbpath], tablename, key)]
    {
      var db :- GetDb(disk);
      disk.Commit(dbpath, RemoveKey(db, tablename, key));
      r := Err(Corrupted("Database not found"));
    }

    /** The same upsert as `CommonInsertByKey`, then reports an error all the
        same. */
    method CommonUpdateByKey(key: string, data: string, disk: Disk) returns (r: StoreResult<()>)
      modifies disk
      ensures r.Err?
      ensures disk.files == old(disk.files)
      ensures old(Probe(disk.files, disk.dbs, dbpath)).Err? ==>
        r == Err(old(Probe(disk.files, disk.dbs, dbpath)).error) && disk.dbs == old(disk.dbs)
      ensures old(Probe(disk.files, disk.dbs, dbpath)).Ok? ==>
        r == Err(Corrupted("Database not found"))
        && disk.dbs == old(disk.dbs)[dbpath := Upsert(old(disk.dbs)[dbpath], tablename, key, data)]
    {
      var db :- GetDb(disk);
      disk.Commit(dbpath, Upsert(db, tablename, key, data));
      r := Err(Corrupted("Database not found"));
    }

    /** `get_all` as the shell calls it: `common_get_all`, returning the
        entries as a map. */
    method GetAll(disk: Disk) returns (r: StoreResult<Table>)
      modifies disk
      ensures disk.files == old(disk.files)
      ensures old(Probe(disk.files, disk.dbs, dbpath)).Err? ==>
        r == Err(old(Probe(disk.files, disk.dbs, dbpath)).error) && disk.dbs == old(disk.dbs)
      ensures old(Probe(disk.files, disk.dbs, dbpath)).Ok? ==>
        && disk.dbs == old(disk.dbs)[dbpath := Touch(old(disk.dbs)[dbpath], tablename)]
        && r == Ok(TableOf(old(disk.dbs)[dbpath], tablename))
    {
      var db :- GetDb(disk);
      var touched := Touch(db, tablename);
      disk.Commit(dbpath, touched);
      r := Ok(touched[tablename]);
    }

    /** `list_table`: the names of the tables of the database; changes
        nothing. */
    method ListTable(disk: Disk) returns (r: StoreResult<set<string>>)
      ensures r.Ok? <==> Probe(disk.files, disk.dbs, dbpath).Ok?
      ensures r.Ok? ==> r.value == disk.dbs[dbpath].Keys
      ensures r.Err? ==> r.error == Probe(disk.files, disk.dbs, dbpath).error
    {
      var db :- GetDb(disk);
      r := Ok(db.Keys);
    }

    /** `create_table`: makes table `name` if it is absent; idempotent. */
    method CreateTable(name: string, disk: Disk) returns (r: StoreResult<()>)
      modifies disk
      ensures disk.files == old(disk.files)
      ensures old(Probe(disk.files, disk.dbs, dbpath)).Err? ==> r.Err? && disk.dbs == old(disk.dbs)
      ensures old(Probe(disk.files, disk.dbs, dbpath)).Ok? ==>
        r == Ok(()) && disk.dbs == old(disk.dbs)[dbpath := Touch(old(disk.dbs)[dbpath], name)]
    {
      var db :- GetDb(disk);
      disk.Commit(dbpath, Touch(db, name));
      r := Ok(());
    }

    /** `delete_table`: drops table `name`; an absent table is an error and
        changes nothing. */
    method DeleteTable(name: string, disk: Disk) returns (r: StoreResult<()>)
      modifies disk
      ensures disk.files == old(disk.files)
      ensures old(Probe(disk.files, disk.dbs, dbpath)).Err? ==> r.Err? && disk.dbs == old(disk.dbs)
      ensures old(Probe(disk.files, disk.dbs, dbpath)).Ok? ==>
        var db := old(disk.dbs)[dbpath];
        && (name in db ==> r == Ok(()) && disk.dbs == old(disk.dbs)[dbpath := DropTable(db, name)])
        && (name !in db ==> r == Err(TableDoesNotExist(name)) && disk.dbs == old(disk.dbs))
    {
      var db :- GetDb(disk);
      if name !in db {
        return Err(TableDoesNotExist(name));
      }
      disk.Commit(dbpath, DropTable(db, name));
      r := Ok(());
    }
  }
}
