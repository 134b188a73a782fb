/** The shell's session: the database path and table the user has chosen, a
    manager that carries them to the store, and the dispatch of one parsed
    command per call, including the edit-reconcile round trip. */
module Session {
  import opened Wrappers
  import opened Store
  import opened Flags
  import opened RedbControl

  /** A command line after argument parsing: a command, or the parser's
      complaint. */
  datatype Line = Parsed(command: Commands) | Rejected(reason: string)

  /** Why a command failed: the line did not parse, or the store refused. */
  datatype Failure = BadLine(reason: string) | Storage(error: StoreError)

  /** `Ok(true)` ends the session. */
  type Reply = Result<bool, Failure>

  /** How the external editor run ended and what the file held afterwards. */
  datatype EditorRun = EditorRun(success: bool, text: string)

  /** The JSON codec: pretty-printing a table, and reading a string-to-string
      object back (`None` for anything else). */
  datatype Json = Json(serialize: Table -> string, parse: string -> Option<Table>)

  /** The manager's field after the copy at the start of a command: the
      session's value when it is set, the manager's own otherwise. */
  function Sync(session: string, current: string): (s: string)
    ensures session != "" ==> s == session
    ensures session == "" ==> s == current
    ensures s == "" <==> session == "" && current == ""
  {
    if session == "" then current else session
  }

  /** The dump of table `name`: creates the table when it is absent and changes
      no entry. */
  ghost predicate Dumped(files: set<string>, before: map<string, Db>, after: map<string, Db>,
                         path: string, name: string, r: Reply)
  {
    match Probe(files, before, path)
    case Err(e) => r == Err(Storage(e)) && after == before
    case Ok(db) => r == Ok(false) && after == before[path := Touch(db, name)]
  }

  /** The store and the reply after `edit` with table `name` selected. The
      snapshot is read first (creating the table); a failed editor ends the
      session, an unparsable or unchanged text changes nothing more, and
      otherwise the table becomes exactly the edited map. */
  ghost predicate EditEffect(files: set<string>, before: map<string, Db>, after: map<string, Db>,
                             path: string, name: string, editor: EditorRun, json: Json, r: Reply)
  {
    match Probe(files, before, path)
    case Err(e) => r == Err(Storage(e)) && after == before
    case Ok(db) =>
      var snapshot := TableOf(db, name);
      if !editor.success then
        r == Ok(true) && after == before[path := Touch(db, name)]
      else
        r == Ok(false) &&
        match json.parse(editor.text)
        case None => after == before[path := Touch(db, name)]
        case Some(edited) =>
          if editor.text == json.serialize(snapshot) then after == before[path := Touch(db, name)]
          else after == before[path := db[name := edited]]
  }

  /** The store and the reply after `info`, given the session's table before
      the command (`selected`) and the manager's table (`name`). */
  ghost predicate InfoEffect(sub: Option<InfoCommands>, selected: string,
                             files: set<string>, before: map<string, Db>, after: map<string, Db>,
                             path: string, name: string, r: Reply)
  {
    match if sub.Some? then sub.value else Tables
    case Tables =>
      if selected == "" then
        after == before &&
        (match Probe(files, before, path)
         case Err(e) => r == Err(Storage(e))
         case Ok(_) => r == Ok(false))
      else
        Dumped(files, before, after, path, name, r)
    case Key(key) =>
      if selected == "" then
        r == Ok(false) && after == before
      else (
        match Probe(files, before, path)
        case Err(e) => r == Err(Storage(e)) && after == before
        case Ok(db) =>
          && after == before[path := Touch(db, name)]
          && r == (if key in TableOf(db, name) then Ok(false) else Err(Storage(Corrupted("Key not found"))))
        )
    case Table(_) =>
      Dumped(files, before, after, path, name, r)
  }

  /** The store and the reply after `create`, `delete` or `new`: the store's
      answer is discarded and the reply is always `Ok(false)`. */
  ghost predicate Administered(command: Commands, files: set<string>, before: map<string, Db>,
                               creatable: set<string>, filesAfter: set<string>, after: map<string, Db>,
                               path: string, r: Reply)
  {
    r == Ok(false) &&
    match command
    case Create(table) =>
      && filesAfter == files
      && after == (match Probe(files, before, path)
                   case Ok(db) => before[path := Touch(db, table)]
                   case Err(_) => before)
    case Delete(table) =>
      && filesAfter == files
      && after == (match Probe(files, before, path)
                   case Ok(db) => if table in db then before[path := DropTable(db, table)] else before
                   case Err(_) => before)
    case New(database) =>
      && (Exists(files, database) ==> filesAfter == files && after == before)
      && (!Exists(files, database) && Creatable(creatable, database) ==>
            filesAfter == files + {database} && after == before[database := map[]])
      && (!Exists(files, database) && !Creatable(creatable, database) ==>
            filesAfter == files && after == before)
    case _ => false
  }

  /** The store and the reply after a parsed command, given the session's
      fields before it and the manager's fields after the copy. */
  ghost predicate Dispatched(command: Commands, filepath: string, tablename: string,
                             files: set<string>, before: map<string, Db>, creatable: set<string>,
                             filesAfter: set<string>, after: map<string, Db>,
                             path: string, name: string, editor: EditorRun, json: Json, r: Reply)
  {
    match command
    case Set(_) => r == Ok(false) && filesAfter == files && after == before
    case Use(_) => r == Ok(false) && filesAfter == files && after == before
    case Edit =>
      && filesAfter == files
      && (tablename == "" ==> r == Ok(false) && after == before)
      && (tablename != "" ==> EditEffect(files, before, after, path, name, editor, json, r))
    case Info(sub) =>
      filesAfter == files && InfoEffect(sub, tablename, files, before, after, path, name, r)
    case Create(_) => Administered(command, files, before, creatable, filesAfter, after, path, r)
    case Delete(_) => Administered(command, files, before, creatable, filesAfter, after, path, r)
    case New(_) => Administered(command, files, before, creatable, filesAfter, after, path, r)
    case Exit => r == Ok(true) && filesAfter == files && after == before
  }

  /** While the manager holds no database path, every command except `new`
      leaves the store as it was, and a command that reports a storage error
      reports "Database not found". */
  lemma NoPathNoStoreChange(command: Commands, filepath: string, tablename: string,
                            files: set<string>, before: map<string, Db>, creatable: set<string>,
                            filesAfter: set<string>, after: map<string, Db>,
                            name: string, editor: EditorRun, json: Json, r: Reply)
    requires !command.New?
    requires Dispatched(command, filepath, tablename, files, before, creatable, filesAfter, after,
                        "", name, editor, json, r)
    ensures filesAfter == files && after == before
    ensures r.Err? ==> r == Err(Storage(Corrupted("Database not found")))
    ensures command.Info? && command.command.Some? && command.command.value.Table? ==> r.Err?
    ensures command.Edit? && tablename != "" ==> r.Err?
  {
    assert Probe(files, before, "") == Err(Corrupted("Database not found"));
  }

  /** Writing one more pending entry over `t`. */
  lemma OverlayStep(t: Table, entries: Table, pending: set<string>, key: string)
    requires key in pending && pending <= entries.Keys
    ensures (t + (entries - pending))[key := entries[key]] == t + (entries - (pending - {key}))
  {
    var lhs := (t + (entries - pending))[key := entries[key]];
    var rhs := t + (entries - (pending - {key}));
    assert lhs.Keys == rhs.Keys;
    forall k | k in lhs
      ensures lhs[k] == rhs[k]
    {
    }
  }

  /** One commit of the removal loop, on the values of the store. */
  lemma RemoveStep(base: map<string, Db>, here: map<string, Db>, after: map<string, Db>,
                   path: string, db: Db, name: string, t: Table, keys: set<string>,
                   doomed: set<string>, key: string)
    requires key in doomed && doomed <= keys
    requires here == base[path := db[name := t - (keys - doomed)]]
    requires after == here[path := RemoveKey(here[path], name, key)]
    ensures after == base[path := db[name := t - (keys - (doomed - {key}))]]
  {
    RemoveKeyReplaced(db, name, t - (keys - doomed), key);
    assert (t - (keys - doomed)) - {key} == t - (keys - (doomed - {key}));
  }

  /** One commit of the write loop, on the values of the store. */
  lemma UpsertStep(base: map<string, Db>, here: map<string, Db>, after: map<string, Db>,
                   path: string, db: Db, name: string, t: Table, entries: Table,
                   pending: set<string>, key: string)
    requires key in pending && pending <= entries.Keys
    requires here == base[path := db[name := t + (entries - pending)]]
    requires after == here[path := Upsert(here[path], name, key, entries[key])]
    ensures (t + (entries - pending))[key := entries[key]] == t + (entries - (pending - {key}))
    ensures after == base[path := db[name := t + (entries - (pending - {key}))]]
  {
    OverlayStep(t, entries, pending, key);
    UpsertReplaced(db, name, t + (entries - pending), key, entries[key]);
  }

  class CliStatus {
    var tablename: string
    var filepath: string
    var dbm: CommonDbManager

    /** The session at start-up: the database path from `--path`, if given. */
    constructor (path: Option<string>)
      ensures filepath == (if path.Some? then path.value else "")
      ensures tablename == ""
      ensures fresh(dbm) && dbm.dbpath == "" && dbm.tablename == ""
    {
      tablename := "";
      filepath := if path.Some? then path.value else "";
      dbm := new CommonDbManager();
    }

    /** Handles one command line. */
    method Respond(line: Line, disk: Disk, editor: EditorRun, json: Json) returns (r: Reply)
      modifies this, dbm, disk
      ensures dbm == old(dbm)
      // A line the parser rejects changes nothing, not even the manager.
      ensures line.Rejected? ==> r == Err(BadLine(line.reason))
      ensures line.Rejected? ==>
        && filepath == old(filepath) && tablename == old(tablename)
        && dbm.dbpath == old(dbm.dbpath) && dbm.tablename == old(dbm.tablename)
        && disk.files == old(disk.files) && disk.dbs == old(disk.dbs)
      // Non-empty session fields are copied into the manager first.
      ensures line.Parsed? ==> dbm.dbpath == Sync(old(filepath), old(dbm.dbpath))
      ensures line.Parsed? ==> dbm.tablename == Sync(old(tablename), old(dbm.tablename))
      // `set` takes any path; nothing else changes the path.
      ensures line.Parsed? ==>
        filepath == (if line.command.Set? then line.command.filepath else old(filepath))
      // `use` needs a path; `info table` selects its table before reading.
      ensures line.Parsed? ==>
        tablename == match line.command
                     case Use(name) => if old(filepath) == "" then old(tablename) else name
                     case Info(Some(Table(name))) => name
                     case _ => old(tablename)
      ensures line.Parsed? ==>
        Dispatched(line.command, old(filepath), old(tablename),
                   old(disk.files), old(disk.dbs), disk.creatable, disk.files, disk.dbs,
                   dbm.dbpath, dbm.tablename, editor, json, r)
    {
      if line.Rejected? {
        return Err(BadLine(line.reason));
      }
      if filepath != "" {
        var ignored := dbm.SetDbPath(filepath, disk);
      }
      if tablename != "" {
        dbm.SetTableName(tablename);
      }
      match line.command {
        case Set(path) =>
          filepath := path;
          r := Ok(false);
        case Use(name) =>
          if filepath == "" {
            return Ok(false);
          }
          tablename := name;
          r := Ok(false);
        case Edit =>
          r := EditTable(disk, editor, json);
        case Info(sub) =>
          r := ShowInfo(sub, disk);
        case Create(_) =>
          r := Administer(line.command, disk);
        case Delete(_) =>
          r := Administer(line.command, disk);
        case New(_) =>
          r := Administer(line.command, disk);
        case Exit =>
          r := Ok(true);
      }
    }

    /** The `create`, `delete` and `new` commands. */
    method Administer(command: Commands, disk: Disk) returns (r: Reply)
      requires command.Create? || command.Delete? || command.New?
      modifies disk
      ensures Administered(command, old(disk.files), old(disk.dbs), disk.creatable,
                           disk.files, disk.dbs, dbm.dbpath, r)
    {
      match command {
        case Create(name) =>
          var ignored := dbm.CreateTable(name, disk);
        case Delete(name) =>
          var ignored := dbm.DeleteTable(name, disk);
        case New(name) =>
          var ignored := disk.Create(name);
      }
      r := Ok(false);
    }

    /** The `edit` command: snapshot, external edit, and the replace-all of
        the table by the edited map. */
    method EditTable(disk: Disk, editor: EditorRun, json: Json) returns (r: Reply)
      modifies disk
      ensures disk.files == old(disk.files)
      ensures tablename == "" ==> r == Ok(false) && disk.dbs == old(disk.dbs)
      ensures tablename != "" ==>
        EditEffect(disk.files, old(disk.dbs), disk.dbs, dbm.dbpath, dbm.tablename, editor, json, r)
    {
      if tablename == "" {
        return Ok(false);
      }
      ghost var before := disk.dbs;
      var got := dbm.GetAll(disk);
      if got.Err? {
        return Err(Storage(got.error));
      }
      var snapshot := got.value;
      var snapshotText := json.serialize(snapshot);
      if !editor.success {
        return Ok(true);
      }
      var modified := editor.text;
      match json.parse(modified) {
        case None =>
          return Ok(false);
        case Some(edited) =>
          if modified == snapshotText {
            return Ok(false);
          }
          ghost var path, name := dbm.dbpath, dbm.tablename;
          ghost var db := before[path];
          ReplaceEntries(snapshot, edited, disk);
          assert Touch(db, name)[name := edited] == db[name := edited];
          assert before[path := Touch(db, name)][path := Touch(db, name)[name := edited]]
              == before[path := db[name := edited]];
          return Ok(false);
      }
    }

    /** The replace-all: removes every key of the snapshot, then writes every
        edited entry, so that the table ends up equal to the edited map. */
    method ReplaceEntries(snapshot: Table, edited: Table, disk: Disk)
      requires Probe(disk.files, disk.dbs, dbm.dbpath).Ok?
      requires dbm.tablename in disk.dbs[dbm.dbpath]
      requires disk.dbs[dbm.dbpath][dbm.tablename] == snapshot
      modifies disk
      ensures disk.files == old(disk.files)
      ensures disk.dbs == old(disk.dbs)[dbm.dbpath := old(disk.dbs)[dbm.dbpath][dbm.tablename := edited]]
    {
      ghost var path, name := dbm.dbpath, dbm.tablename;
      ghost var db := disk.dbs[path];
      DropEntries(snapshot.Keys, disk);
      assert snapshot - snapshot.Keys == map[];
      ghost var cleared := disk.dbs;
      WriteEntries(edited, disk);
      assert map[] + edited == edited;
      assert db[name := map[]][name := edited] == db[name := edited];
      assert old(disk.dbs)[path := db[name := map[]]][path := db[name := edited]]
          == old(disk.dbs)[path := db[name := edited]];
    }

    /** The first loop of the replace-all: removes each of `keys` from the
        current table, one commit per key, in whatever order the set yields
        them. */
    method DropEntries(keys: set<string>, disk: Disk)
      requires Probe(disk.files, disk.dbs, dbm.dbpath).Ok?
      requires dbm.tablename in disk.dbs[dbm.dbpath]
      modifies disk
      ensures disk.files == old(disk.files)
      ensures
        var db := old(disk.dbs)[dbm.dbpath];
        disk.dbs == old(disk.dbs)[dbm.dbpath := db[dbm.tablename := db[dbm.tablename] - keys]]
    {
      ghost var path, name := dbm.dbpath, dbm.tablename;
      ghost var db := disk.dbs[path];
      ghost var t := db[name];
      assert t - (keys - keys) == t;
      assert db[name := t] == db;
      var doomed := keys;
      while doomed != {}
        invariant doomed <= keys
        invariant disk.files == old(disk.files)
        invariant disk.dbs == old(disk.dbs)[path := db[name := t - (keys - doomed)]]
        decreases |doomed|
      {
        var key :| key in doomed;
        ghost var here := disk.dbs;
        var ignored := dbm.CommonRemoveByKey(key, disk);
        RemoveStep(old(disk.dbs), here, disk.dbs, path, db, name, t, keys, doomed, key);
        doomed := doomed - {key};
      }
      assert keys - doomed == keys;
    }

    /** The second loop of the replace-all: writes each entry of `entries`
        into the current table, one commit per key, in any order. */
    method WriteEntries(entries: Table, disk: Disk)
      requires Probe(disk.files, disk.dbs, dbm.dbpath).Ok?
      requires dbm.tablename in disk.dbs[dbm.dbpath]
      modifies disk
      ensures disk.files == old(disk.files)
      ensures
        var db := old(disk.dbs)[dbm.dbpath];
        disk.dbs == old(disk.dbs)[dbm.dbpath := db[dbm.tablename := db[dbm.tablename] + entries]]
    {
      ghost var path, name := dbm.dbpath, dbm.tablename;
      ghost var db := disk.dbs[path];
      ghost var t := db[name];
      assert entries - entries.Keys == map[];
      assert t + map[] == t;
      assert db[name := t] == db;
      var pending := entries.Keys;
      while pending != {}
        invariant pending <= entries.Keys
        invariant disk.files == old(disk.files)
        invariant disk.dbs == old(disk.dbs)[path := db[name := t + (entries - pending)]]
        decreases |pending|
      {
        var key :| key in pending;
        ghost var here := disk.dbs;
        var ignored := dbm.CommonUpdateByKey(key, entries[key], disk);
        UpsertStep(old(disk.dbs), here, disk.dbs, path, db, name, t, entries, pending, key);
        pending := pending - {key};
      }
      assert entries - pending == entries;
    }

    /** The `info` command and its sub-commands. */
    method ShowInfo(sub: Option<InfoCommands>, disk: Disk) returns (r: Reply)
      modifies this`tablename, disk
      ensures disk.files == old(disk.files)
      ensures tablename == (if sub.Some? && sub.value.Table? then sub.value.tablename else old(tablename))
      ensures InfoEffect(sub, old(tablename), disk.files, old(disk.dbs), disk.dbs, dbm.dbpath, dbm.tablename, r)
    {
      var subCommand := if sub.Some? then sub.value else Tables;
      match subCommand {
        case Tables =>
          if tablename == "" {
            var names := dbm.ListTable(disk);
            if names.Err? {
              return Err(Storage(names.error));
            }
            return Ok(false);
          }
          var all := dbm.GetAll(disk);
          if all.Err? {
            return Err(Storage(all.error));
          }
          return Ok(false);
        case Key(key) =>
          if tablename == "" {
            return Ok(false);
          }
          var value := dbm.CommonGetByKey(key, disk);
          if value.Err? {
            return Err(Storage(value.error));
          }
          r := Ok(false);
        case Table(name) =>
          tablename := name;
          var all := dbm.GetAll(disk);
          if all.Err? {
            return Err(Storage(all.error));
          }
          return Ok(false);
      }
    }
  }
}
