/** The catalog: every database under the root directory, the one currently in
    use, and the table operations routed to it. */
module Catalog {
  import opened Values
  import opened VectorTables
  import opened RelationalTables
  import opened Databases

  /** What `list_tables` returns: relational and vector table names. */
  datatype TableNames = TableNames(relational: set<string>, vector: set<string>)

  /** The table names `list_tables` reads off a directory for one table kind:
      every file name with that kind's suffix, with the suffix cut off. A name is
      listed exactly when the directory holds that table's file. */
  function ListedTables(files: Directory, isVector: bool): (names: set<string>)
    ensures forall t :: t in names <==> TableFileName(t, isVector) in files
  {
    var names := set f | f in files && HasSuffix(f, Suffix(isVector)) :: StripSuffix(f);
    assert forall t :: t in names ==> TableFileName(t, isVector) in files by {
      forall t | t in names
        ensures TableFileName(t, isVector) in files
      {
        var f :| f in files && HasSuffix(f, Suffix(isVector)) && StripSuffix(f) == t;
        ListedFileIsTableFile(f, isVector);
      }
    }
    assert forall t :: TableFileName(t, isVector) in files ==> t in names by {
      forall t | TableFileName(t, isVector) in files
        ensures t in names
      {
        StripRecoversName(t, isVector);
      }
    }
    names
  }

  class MascotDB {
    var databases: map<string, Database>
    var currentDb: Database?

    /** Every database is registered under its own name, no two databases
        share a loaded table, and the current database, if any, is a registered
        one. */
    ghost predicate Valid()
      reads this, databases.Values
    {
      && (forall n :: n in databases ==> databases[n].name == n && databases[n].Valid())
      && (forall n, m :: n in databases && m in databases && n != m ==>
            && databases[n].relTables.Values !! databases[m].relTables.Values
            && databases[n].vecTables.Values !! databases[m].vecTables.Values)
      && (currentDb != null ==> currentDb.name in databases && databases[currentDb.name] == currentDb)
    }

    /** Startup: one database, with no table loaded, per directory found under
        the root; no database is current. */
    constructor (root: map<string, Directory>)
      ensures Valid()
      ensures databases.Keys == root.Keys && currentDb == null
      ensures forall n :: n in databases ==>
                && fresh(databases[n]) && databases[n].files == root[n]
                && databases[n].relTables == map[] && databases[n].vecTables == map[]
    {
      var found: map<string, Database> := map[];
      var pending := root.Keys;
      while pending != {}
        invariant found.Keys !! pending && found.Keys + pending == root.Keys
        invariant forall n :: n in found ==>
                    && fresh(found[n]) && found[n].name == n && found[n].files == root[n]
                    && found[n].relTables == map[] && found[n].vecTables == map[]
                    && found[n].Valid()
        decreases pending
      {
        var n :| n in pending;
        var db := new Database(n, root[n]);
        found := found[n := db];
        pending := pending - {n};
      }
      databases := found;
      currentDb := null;
    }

    /** `create_database`: refuses a registered name; otherwise registers a new
        database over an empty directory and makes it current. */
    method CreateDatabase(n: string) returns (r: Result<Database>)
      requires Valid()
      modifies this
      ensures Valid()
      ensures n in old(databases) ==>
                r == Err(AlreadyExists) && databases == old(databases) && currentDb == old(currentDb)
      ensures n !in old(databases) ==>
                && r.Ok? && fresh(r.value) && r.value.name == n
                && r.value.files == map[] && r.value.relTables == map[] && r.value.vecTables == map[]
                && databases == old(databases)[n := r.value]
                && currentDb == r.value
    {
      if n in databases {
        return Err(AlreadyExists);
      }
      var db := new Database(n, map[]);
      databases := databases[n := db];
      currentDb := db;
      r := Ok(db);
    }

    /** `drop_database`: refuses an unknown name; otherwise deletes every file of
        the database's directory, unregisters it, and clears the current
        database exactly when it was the one dropped. */
    method DropDatabase(n: string) returns (r: Outcome)
      requires Valid()
      modifies this, if n in databases then {databases[n]} else {}
      ensures Valid()
      ensures n !in old(databases) ==>
                r == Fail(NotFound) && databases == old(databases) && currentDb == old(currentDb)
      ensures n in old(databases) ==>
                && r == Pass
                && databases == old(databases) - {n}
                && old(databases)[n].files == map[]
                && currentDb == (if old(currentDb) != null && old(currentDb).name == n then null else old(currentDb))
    {
      if n !in databases {
        return Fail(NotFound);
      }
      var db := databases[n];
      db.files := map[];
      databases := databases - {n};
      if currentDb != null && currentDb.name == n {
        currentDb := null;
      }
      r := Pass;
    }

    /** `use_database`: makes a registered database current and returns it; an
        unknown name is answered with None and changes nothing. */
    method UseDatabase(n: string) returns (r: Option<Database>)
      requires Valid()
      modifies this
      ensures Valid() && databases == old(databases)
      ensures n !in databases ==> r == None && currentDb == old(currentDb)
      ensures n in databases ==> r == Some(databases[n]) && currentDb == databases[n]
    {
      if n !in databases {
        return None;
      }
      currentDb := databases[n];
      r := Some(currentDb);
    }

    /** `list_databases`: the registered names. */
    function ListDatabases(): (names: set<string>)
      reads this
      ensures forall n :: n in names <==> n in databases
    {
      databases.Keys
    }

    /** The database `list_tables` looks at: the current one when no name is
        given, the named one if it is registered, otherwise none. */
    function Target(dbName: Option<string>): (r: Database?)
      reads this
      ensures dbName.None? ==> r == currentDb
      ensures dbName.Some? ==> (r != null <==> dbName.value in databases)
      ensures dbName.Some? && r != null ==> r == databases[dbName.value]
    {
      match dbName
      case None => currentDb
      case Some(n) => if n in databases then databases[n] else null
    }

    /** `list_tables`: the tables whose files the target database's directory
        holds, whether or not they are loaded; no tables when there is no
        target. */
    function ListTables(dbName: Option<string>): (r: TableNames)
      reads this, databases.Values, currentDb
      ensures Target(dbName) == null ==> r == TableNames({}, {})
      ensures Target(dbName) != null ==>
                forall t ::
                  && (t in r.relational <==> TableFileName(t, false) in Target(dbName).files)
                  && (t in r.vector <==> TableFileName(t, true) in Target(dbName).files)
    {
      var db := Target(dbName);
      if db == null then TableNames({}, {})
      else TableNames(ListedTables(db.files, false), ListedTables(db.files, true))
    }

    /** A step that changed only the current database and the tables it holds,
        and that added only newly made tables to it, keeps the catalog
        invariant and leaves every other database as it was. */
    twostate lemma OnlyCurrentChanged(db: Database)
      requires old(Valid()) && old(currentDb) == db
      requires unchanged(this) && db.Valid()
      requires forall x :: x in db.relTables.Values ==> x in old(db.relTables.Values) || fresh(x)
      requires forall x :: x in db.vecTables.Values ==> x in old(db.vecTables.Values) || fresh(x)
      requires forall n :: n in databases && databases[n] != db ==>
                 && unchanged(databases[n])
                 && unchanged(databases[n].relTables.Values)
                 && unchanged(databases[n].vecTables.Values)
      ensures Valid()
      ensures forall n, u :: n in databases && databases[n] != db ==>
                && databases[n].VisibleRel(u) == old(databases[n].VisibleRel(u))
                && databases[n].VisibleVec(u) == old(databases[n].VisibleVec(u))
    {
    }

    /** `create_table` on the current database. */
    method CreateTable(t: string, columns: seq<string>) returns (r: Outcome)
      requires Valid()
      modifies currentDb
      ensures Valid()
      ensures currentDb != null ==>
                && t in currentDb.relTables
                && currentDb.files == old(currentDb.files)[TableFileName(t, false) := RelFile(currentDb.relTables[t].ToRecord())]
      ensures forall n, u :: n in databases && databases[n] != currentDb ==>
                && databases[n].VisibleRel(u) == old(databases[n].VisibleRel(u))
                && databases[n].VisibleVec(u) == old(databases[n].VisibleVec(u))
      ensures currentDb != null ==>
                && (forall x :: x in currentDb.relTables.Values ==> x in old(currentDb.relTables.Values) || fresh(x))
                && (forall x :: x in currentDb.vecTables.Values ==> x in old(currentDb.vecTables.Values) || fresh(x))
      ensures currentDb == null ==> r == Fail(NoActiveDatabase)
      ensures currentDb != null ==>
                && r == Pass
                && t in currentDb.relTables && fresh(currentDb.relTables[t])
                && currentDb.VisibleRel(t) == Some(RelRecord(columns, Some(DefaultColumnTypes(columns)), []))
                && (forall u :: u != t ==> currentDb.VisibleRel(u) == old(currentDb.VisibleRel(u)))
                && (forall u :: currentDb.VisibleVec(u) == old(currentDb.VisibleVec(u)))
                && (old(currentDb.Synced()) ==> currentDb.Synced())
    {
      if currentDb == null {
        return Fail(NoActiveDatabase);
      }
      currentDb.CreateTable(t, columns);
      OnlyCurrentChanged(currentDb);
      r := Pass;
    }

    /** `create_vector_table` on the current database. */
    method CreateVectorTable(t: string, dimension: int) returns (r: Outcome)
      requires Valid()
      modifies currentDb
      ensures Valid()
      ensures currentDb != null ==>
                && t in currentDb.vecTables
                && currentDb.files == old(currentDb.files)[TableFileName(t, true) := VecFile(currentDb.vecTables[t].ToRecord())]
      ensures forall n, u :: n in databases && databases[n] != currentDb ==>
                && databases[n].VisibleRel(u) == old(databases[n].VisibleRel(u))
                && databases[n].VisibleVec(u) == old(databases[n].VisibleVec(u))
      ensures currentDb != null ==>
                && (forall x :: x in currentDb.relTables.Values ==> x in old(currentDb.relTables.Values) || fresh(x))
                && (forall x :: x in currentDb.vecTables.Values ==> x in old(currentDb.vecTables.Values) || fresh(x))
      ensures currentDb == null ==> r == Fail(NoActiveDatabase)
      ensures currentDb != null ==>
                && r == Pass
                && t in currentDb.vecTables && fresh(currentDb.vecTables[t])
                && currentDb.VisibleVec(t) == Some(VecRecord(dimension, [], []))
                && (forall u :: u != t ==> currentDb.VisibleVec(u) == old(currentDb.VisibleVec(u)))
                && (forall u :: currentDb.VisibleRel(u) == old(currentDb.VisibleRel(u)))
                && (old(currentDb.Synced()) ==> currentDb.Synced())
    {
      if currentDb == null {
        return Fail(NoActiveDatabase);
      }
      currentDb.CreateVectorTable(t, dimension);
      OnlyCurrentChanged(currentDb);
      r := Pass;
    }

    /** `drop_table` on the current database. */
    method DropTable(t: string, isVector: bool) returns (r: Outcome)
      requires Valid()
      modifies currentDb
      ensures Valid()
      ensures currentDb != null ==> currentDb.files == old(currentDb.files) - {TableFileName(t, isVector)}
      ensures forall n, u :: n in databases && databases[n] != currentDb ==>
                && databases[n].VisibleRel(u) == old(databases[n].VisibleRel(u))
                && databases[n].VisibleVec(u) == old(databases[n].VisibleVec(u))
      ensures currentDb != null ==>
                && (forall x :: x in currentDb.relTables.Values ==> x in old(currentDb.relTables.Values) || fresh(x))
                && (forall x :: x in currentDb.vecTables.Values ==> x in old(currentDb.vecTables.Values) || fresh(x))
      ensures currentDb == null ==> r == Fail(NoActiveDatabase)
      ensures currentDb != null ==>
                && r == Pass
                && (!isVector ==> currentDb.VisibleRel(t) == None)
                && (isVector ==> currentDb.VisibleVec(t) == None)
                && (forall u :: u != t || isVector ==> currentDb.VisibleRel(u) == old(currentDb.VisibleRel(u)))
                && (forall u :: u != t || !isVector ==> currentDb.VisibleVec(u) == old(currentDb.VisibleVec(u)))
                && (old(currentDb.Synced()) ==> currentDb.Synced())
    {
      if currentDb == null {
        return Fail(NoActiveDatabase);
      }
      currentDb.DropTable(t, isVector);
      OnlyCurrentChanged(currentDb);
      r := Pass;
    }

    /** `insert` into a relational table of the current database: the table is
        loaded from disk if it is not in memory, the row is appended, and the
        table's file is rewritten. */
    method Insert(t: string, data: RowInput) returns (r: Outcome)
      requires Valid()
      modifies currentDb, if currentDb == null then {} else currentDb.relTables.Values
      ensures Valid()
      ensures currentDb != null && r.Pass? ==>
                && t in currentDb.relTables
                && currentDb.files == old(currentDb.files)[TableFileName(t, false) := RelFile(currentDb.relTables[t].ToRecord())]
      ensures currentDb != null && r.Fail? ==> currentDb.files == old(currentDb.files)
      ensures forall n, u :: n in databases && databases[n] != currentDb ==>
                && databases[n].VisibleRel(u) == old(databases[n].VisibleRel(u))
                && databases[n].VisibleVec(u) == old(databases[n].VisibleVec(u))
      ensures currentDb != null ==>
                && (forall x :: x in currentDb.relTables.Values ==> x in old(currentDb.relTables.Values) || fresh(x))
                && (forall x :: x in currentDb.vecTables.Values ==> x in old(currentDb.vecTables.Values) || fresh(x))
      ensures currentDb == null ==> r == Fail(NoActiveDatabase)
      ensures currentDb != null && old(currentDb.VisibleRel(t)).None? ==>
                r == Fail(NotFound) && currentDb.VisibleRel(t) == None
      ensures currentDb != null && old(currentDb.VisibleRel(t)).Some? ==>
                var before := old(currentDb.VisibleRel(t)).value;
                && t in currentDb.relTables
                && match RowFor(before.columns, data)
                   case None =>
                     r == Fail(ColumnCountMismatch) && currentDb.VisibleRel(t) == Some(before)
                   case Some(row) =>
                     r == Pass && currentDb.VisibleRel(t) == Some(before.(rows := before.rows + [row]))
      ensures currentDb != null ==>
                && (forall u :: u != t ==> currentDb.VisibleRel(u) == old(currentDb.VisibleRel(u)))
                && (forall u :: currentDb.VisibleVec(u) == old(currentDb.VisibleVec(u)))
                && (old(currentDb.Synced()) ==> currentDb.Synced())
    {
      if currentDb == null {
        return Fail(NoActiveDatabase);
      }
      var db := currentDb;
      r := db.Insert(t, data);
      OnlyCurrentChanged(db);
    }

    /** `insert` into a vector table of the current database: the table is
        loaded from disk if it is not in memory, the vector is appended, and the
        table's file is rewritten. */
    method InsertVector(t: string, vector: Vector, meta: Option<Metadata>) returns (r: Outcome)
      requires Valid()
      modifies currentDb, if currentDb == null then {} else currentDb.vecTables.Values
      ensures Valid()
      ensures currentDb != null && r.Pass? ==>
                && t in currentDb.vecTables
                && currentDb.files == old(currentDb.files)[TableFileName(t, true) := VecFile(currentDb.vecTables[t].ToRecord())]
      ensures currentDb != null && r.Fail? ==> currentDb.files == old(currentDb.files)
      ensures forall n, u :: n in databases && databases[n] != currentDb ==>
                && databases[n].VisibleRel(u) == old(databases[n].VisibleRel(u))
                && databases[n].VisibleVec(u) == old(databases[n].VisibleVec(u))
      ensures currentDb != null ==>
                && (forall x :: x in currentDb.relTables.Values ==> x in old(currentDb.relTables.Values) || fresh(x))
                && (forall x :: x in currentDb.vecTables.Values ==> x in old(currentDb.vecTables.Values) || fresh(x))
      ensures currentDb == null ==> r == Fail(NoActiveDatabase)
      ensures currentDb != null && old(currentDb.VisibleVec(t)).None? ==>
                r == Fail(NotFound) && currentDb.VisibleVec(t) == None
      ensures currentDb != null && old(currentDb.VisibleVec(t)).Some? ==>
                var before := old(currentDb.VisibleVec(t)).value;
                && t in currentDb.vecTables
                && if |vector| != before.dimension then
                     r == Fail(DimensionMismatch) && currentDb.VisibleVec(t) == Some(before)
                   else
                     && r == Pass
                     && currentDb.VisibleVec(t) == Some(before.(vectors := before.vectors + [vector],
                                                               metadata := before.metadata + [MetadataOrEmpty(meta)]))
      ensures currentDb != null ==>
                && (forall u :: u != t ==> currentDb.VisibleVec(u) == old(currentDb.VisibleVec(u)))
                && (forall u :: currentDb.VisibleRel(u) == old(currentDb.VisibleRel(u)))
                && (old(currentDb.Synced()) ==> currentDb.Synced())
    {
      if currentDb == null {
        return Fail(NoActiveDatabase);
      }
      var db := currentDb;
      r := db.InsertVector(t, vector, meta);
      OnlyCurrentChanged(db);
    }

    /** `select` on a relational table of the current database, loading it from
        disk first if it is not in memory. */
    method Select(t: string, cond: Option<Row -> bool>, names: Option<seq<string>>)
      returns (r: Result<Selection>)
      requires Valid()
      modifies currentDb
      ensures Valid()
      ensures currentDb != null ==> currentDb.files == old(currentDb.files)
      ensures forall n, u :: n in databases && databases[n] != currentDb ==>
                && databases[n].VisibleRel(u) == old(databases[n].VisibleRel(u))
                && databases[n].VisibleVec(u) == old(databases[n].VisibleVec(u))
      ensures currentDb != null ==>
                && (forall x :: x in currentDb.relTables.Values ==> x in old(currentDb.relTables.Values) || fresh(x))
                && (forall x :: x in currentDb.vecTables.Values ==> x in old(currentDb.vecTables.Values) || fresh(x))
      ensures currentDb == null ==> r == Err(NoActiveDatabase)
      ensures currentDb != null && old(currentDb.VisibleRel(t)).None? ==> r == Err(NotFound)
      ensures currentDb != null && old(currentDb.VisibleRel(t)).Some? ==>
                && t in currentDb.relTables
                && currentDb.relTables[t].ToRecord() == old(currentDb.VisibleRel(t)).value
                && r == currentDb.relTables[t].Select(cond, names)
                && var rec := old(currentDb.VisibleRel(t)).value;
                   var asWritten := SelectAsWritten(rec.columns, rec.rows, cond, names);
                   && r.Ok? == asWritten.Ok?
                   && (r.Ok? ==> r.value.rows == asWritten.value.rows)
                   && (!Projects(names) ==> r == asWritten)
      ensures currentDb != null ==>
                && (forall u :: currentDb.VisibleRel(u) == old(currentDb.VisibleRel(u)))
                && (forall u :: currentDb.VisibleVec(u) == old(currentDb.VisibleVec(u)))
                && (old(currentDb.Synced()) ==> currentDb.Synced())
    {
      if currentDb == null {
        return Err(NoActiveDatabase);
      }
      var db := currentDb;
      var found := db.AcquireRel(t);
      OnlyCurrentChanged(db);
      if !found {
        return Err(NotFound);
      }
      r := db.relTables[t].Select(cond, names);
    }

    /** `vector_search` on a vector table of the current database, loading it
        from disk first if it is not in memory. */
    method VectorSearch(t: string, query: Vector, topK: int, similarity: (Vector, Vector) -> real)
      returns (r: Result<seq<Hit>>)
      requires Valid()
      modifies currentDb
      ensures Valid()
      ensures currentDb != null ==> currentDb.files == old(currentDb.files)
      ensures forall n, u :: n in databases && databases[n] != currentDb ==>
                && databases[n].VisibleRel(u) == old(databases[n].VisibleRel(u))
                && databases[n].VisibleVec(u) == old(databases[n].VisibleVec(u))
      ensures currentDb != null ==>
                && (forall x :: x in currentDb.relTables.Values ==> x in old(currentDb.relTables.Values) || fresh(x))
                && (forall x :: x in currentDb.vecTables.Values ==> x in old(currentDb.vecTables.Values) || fresh(x))
      ensures currentDb == null ==> r == Err(NoActiveDatabase)
      ensures currentDb != null && old(currentDb.VisibleVec(t)).None? ==> r == Err(NotFound)
      ensures currentDb != null && old(currentDb.VisibleVec(t)).Some? ==>
                && t in currentDb.vecTables
                && SearchResult(old(currentDb.VisibleVec(t)).value, query, topK, similarity, r)
      ensures currentDb != null ==>
                && (forall u :: currentDb.VisibleRel(u) == old(currentDb.VisibleRel(u)))
                && (forall u :: currentDb.VisibleVec(u) == old(currentDb.VisibleVec(u)))
                && (old(currentDb.Synced()) ==> currentDb.Synced())
    {
      if currentDb == null {
        return Err(NoActiveDatabase);
      }
      var db := currentDb;
      r := db.Search(t, query, topK, similarity);
      OnlyCurrentChanged(db);
    }
  }

  /** The rows the session below inserts, in insertion order. */
  const SessionRows: seq<Row> := [[Int(1), Int(2)], [Int(3), Int(4)]]

  /** The start of a session through the catalog: create a database, which
      becomes current, and an empty table `t` with columns `a` and `b` in it. */
  method CreateShop(m: MascotDB) returns (db: Database)
    requires m.Valid() && "shop" !in m.databases
    modifies m
    ensures m.Valid() && m.currentDb == db && fresh(db)
    ensures forall x :: x in db.relTables.Values ==> fresh(x)
    ensures db.Synced()
    ensures db.VisibleRel("t") == Some(RelRecord(["a", "b"], Some(DefaultColumnTypes(["a", "b"])), []))
  {
    var created := m.CreateDatabase("shop");
    db := m.currentDb;
    assert db.Synced();
    var _ := m.CreateTable("t", ["a", "b"]);
  }

  /** One insert of the session into `t` of the current database, whose row
      `data` builds is `row`: the row is appended to the table and its file, and
      any table the insert registers is new. */
  method InsertIntoShop(m: MascotDB, data: RowInput, rows: seq<Row>, row: Row)
    requires m.Valid() && m.currentDb != null && m.currentDb.Synced()
    requires m.currentDb.VisibleRel("t") == Some(RelRecord(["a", "b"], Some(DefaultColumnTypes(["a", "b"])), rows))
    requires RowFor(["a", "b"], data) == Some(row)
    modifies m.currentDb, m.currentDb.relTables.Values
    ensures m.Valid() && m.currentDb.Synced()
    ensures m.currentDb.VisibleRel("t") == Some(RelRecord(["a", "b"], Some(DefaultColumnTypes(["a", "b"])), rows + [row]))
    ensures forall x :: x in m.currentDb.relTables.Values ==> x in old(m.currentDb.relTables.Values) || fresh(x)
  {
    var _ := m.Insert("t", data);
  }

  /** The rows the session's two inputs build for the columns `a` and `b`: a
      positional list is taken as it is, a mapping is laid out by column. */
  lemma SessionInputs()
    ensures RowFor(["a", "b"], Positional([Int(1), Int(2)])) == Some([Int(1), Int(2)])
    ensures RowFor(["a", "b"], Keyed(map["a" := Int(3), "b" := Int(4)])) == Some([Int(3), Int(4)])
  {
    var columns := ["a", "b"];
    var row := RowFor(columns, Keyed(map["a" := Int(3), "b" := Int(4)])).value;
    assert columns[0] == "a" && columns[1] == "b";
    assert |row| == 2 && row[0] == Int(3) && row[1] == Int(4);
    assert row == [Int(3), Int(4)];
  }

  /** The middle of the session: insert one row into `t` by position and one
      by column name. The table then holds both rows in insertion order, and so
      does its file. */
  method FillShop(m: MascotDB)
    requires m.Valid() && m.currentDb != null && m.currentDb.Synced()
    requires m.currentDb.VisibleRel("t") == Some(RelRecord(["a", "b"], Some(DefaultColumnTypes(["a", "b"])), []))
    modifies m.currentDb, m.currentDb.relTables.Values
    ensures m.Valid() && m.currentDb.Synced()
    ensures m.currentDb.VisibleRel("t") == Some(RelRecord(["a", "b"], Some(DefaultColumnTypes(["a", "b"])), SessionRows))
  {
    SessionInputs();
    InsertIntoShop(m, Positional([Int(1), Int(2)]), [], [Int(1), Int(2)]);
    assert [] + [[Int(1), Int(2)]] == [[Int(1), Int(2)]];
    InsertIntoShop(m, Keyed(map["a" := Int(3), "b" := Int(4)]), [[Int(1), Int(2)]], [Int(3), Int(4)]);
    assert [[Int(1), Int(2)]] + [[Int(3), Int(4)]] == SessionRows;
  }

  /** A vector session in the current database: create a two-dimensional
      vector table `v`, then insert one vector with its metadata into it. The
      table then holds exactly that entry, and so does its file. */
  method CreateAndInsertVector(m: MascotDB)
    requires m.Valid() && m.currentDb != null && m.currentDb.Synced()
    modifies m.currentDb, m.currentDb.vecTables.Values
    ensures m.Valid() && m.currentDb.Synced()
    ensures m.currentDb.VisibleVec("v") == Some(VecRecord(2, [[1.0, 0.0]], [map["id" := Int(1)]]))
  {
    var _ := m.CreateVectorTable("v", 2);
    var meta := map["id" := Int(1)];
    var _ := m.InsertVector("v", [1.0, 0.0], Some(meta));
    assert MetadataOrEmpty(Some(meta)) == meta;
    assert [] + [[1.0, 0.0]] == [[1.0, 0.0]] && [] + [meta] == [meta];
  }

  /** Dropping a relational table through the catalog takes it off the
      current database's `list_tables`, since its file is deleted. */
  method DropAndList(m: MascotDB, t: string) returns (listed: TableNames)
    requires m.Valid()
    modifies m.currentDb
    ensures m.currentDb != null ==> t !in listed.relational
  {
    var _ := m.DropTable(t, false);
    listed := m.ListTables(None);
  }

  /** A `select` writes nothing, so the current database's `list_tables` is
      the same before and after it. */
  method SelectAndList(m: MascotDB, t: string) returns (before: TableNames, after: TableNames)
    requires m.Valid()
    modifies m.currentDb
    ensures before == after
  {
    before := m.ListTables(None);
    var _ := m.Select(t, None, None);
    after := m.ListTables(None);
  }

  /** A whole session: after creating and filling `t`, selecting everything
      from it answers its columns over both inserted rows, and the table's file
      still holds them. */
  method CreateInsertSelect(m: MascotDB) returns (r: Result<Selection>)
    requires m.Valid() && "shop" !in m.databases
    modifies m
    ensures r == Ok(Selection(["a", "b"], SessionRows))
    ensures m.currentDb != null
    ensures LoadableRel(m.currentDb.files, "t") ==
              Some(RelRecord(["a", "b"], Some(DefaultColumnTypes(["a", "b"])), SessionRows))
  {
    var db := CreateShop(m);
    FillShop(m);
    r := m.Select("t", None, None);
  }
}
