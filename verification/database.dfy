/** A database: a named directory of table files, plus the tables of that
    directory that have been loaded into memory. Relational and vector tables
    live in two independent namespaces. */
module Databases {
  import opened Values
  import opened VectorTables
  import opened RelationalTables

  /** The contents of a table file as a load reads them: a relational record, a
      vector record, or something that does not decode (bad JSON, missing keys). */
  datatype Stored = RelFile(rel: RelRecord) | VecFile(vec: VecRecord) | Unreadable

  /** A database directory: file name to file contents. */
  type Directory = map<string, Stored>

  const RelSuffix: string := ".rel.db"
  const VecSuffix: string := ".vec.db"

  /** The file-name suffix of a table kind; both have seven characters. */
  function Suffix(isVector: bool): (s: string)
    ensures |s| == 7
  {
    if isVector then VecSuffix else RelSuffix
  }

  /** `str.endswith`: whether the last characters of `f` are `suffix`. */
  predicate HasSuffix(f: string, suffix: string) {
    |suffix| <= |f| && f[|f| - |suffix|..] == suffix
  }

  /** `_get_table_path`, relative to the database directory: `<t>.rel.db` or
      `<t>.vec.db`. */
  function TableFileName(t: string, isVector: bool): (f: string)
    ensures |f| == |t| + 7
  {
    t + Suffix(isVector)
  }

  /** What `list_tables` makes of a file name: its last seven characters cut off. */
  function StripSuffix(f: string): (t: string)
    requires |f| >= 7
    ensures |t| == |f| - 7
  {
    f[..|f| - 7]
  }

  /** A generated file name carries its kind's suffix and strips back to the
      table name. */
  lemma StripRecoversName(t: string, isVector: bool)
    ensures HasSuffix(TableFileName(t, isVector), Suffix(isVector))
    ensures !HasSuffix(TableFileName(t, isVector), Suffix(!isVector))
    ensures StripSuffix(TableFileName(t, isVector)) == t
  {
    var f := TableFileName(t, isVector);
    assert f[|f| - 7..] == Suffix(isVector);
    assert f[..|f| - 7] == t;
  }

  /** Every file name with a kind's suffix is the file name of the table it
      strips to. */
  lemma ListedFileIsTableFile(f: string, isVector: bool)
    requires HasSuffix(f, Suffix(isVector))
    ensures TableFileName(StripSuffix(f), isVector) == f
  {
    assert f == f[..|f| - 7] + f[|f| - 7..];
  }

  /** Distinct tables, or tables of distinct kinds, never share a file. */
  lemma TableFileNamesDistinct(t: string, u: string, v: bool, w: bool)
    requires t != u || v != w
    ensures TableFileName(t, v) != TableFileName(u, w)
  {
    if TableFileName(t, v) == TableFileName(u, w) {
      StripRecoversName(t, v);
      StripRecoversName(u, w);
    }
  }

  /** The relational table a load of `t` from the directory would rebuild, if
      its file exists and decodes as a relational record. */
  function LoadableRel(files: Directory, t: string): (r: Option<RelRecord>)
    ensures r.Some? ==> TableFileName(t, false) in files && r.value.columnTypes.Some?
  {
    var f := TableFileName(t, false);
    if f in files && files[f].RelFile? then Some(Canonical(files[f].rel)) else None
  }

  /** The vector table a load of `t` from the directory would rebuild. */
  function LoadableVec(files: Directory, t: string): (r: Option<VecRecord>)
    ensures r.Some? ==> TableFileName(t, true) in files
  {
    var f := TableFileName(t, true);
    if f in files && files[f].VecFile? then Some(files[f].vec) else None
  }

  class Database {
    const name: string
    var relTables: map<string, RelationalTable>
    var vecTables: map<string, VectorTable>
    var files: Directory

    /** No table object is registered under two names. */
    ghost predicate Valid()
      reads this
    {
      && (forall a, b :: a in relTables && b in relTables && a != b ==> relTables[a] != relTables[b])
      && (forall a, b :: a in vecTables && b in vecTables && a != b ==> vecTables[a] != vecTables[b])
    }

    /** The relational table `t` as table operations see it: the loaded table if
        there is one, otherwise what loading it from disk would give. */
    ghost function VisibleRel(t: string): Option<RelRecord>
      reads this, relTables.Values
    {
      if t in relTables then Some(relTables[t].ToRecord()) else LoadableRel(files, t)
    }

    /** The vector table `t` as table operations see it. */
    ghost function VisibleVec(t: string): Option<VecRecord>
      reads this, vecTables.Values
    {
      if t in vecTables then Some(vecTables[t].ToRecord()) else LoadableVec(files, t)
    }

    /** Disk mirrors memory: every loaded table is what loading its file again
        would rebuild. */
    ghost predicate Synced()
      reads this, relTables.Values, vecTables.Values
    {
      && (forall t :: t in relTables ==> LoadableRel(files, t) == Some(relTables[t].ToRecord()))
      && (forall t :: t in vecTables ==> LoadableVec(files, t) == Some(vecTables[t].ToRecord()))
    }

    /** A database over a directory holding `files`, with no table loaded. */
    constructor (name: string, files: Directory)
      ensures this.name == name && this.files == files
      ensures relTables == map[] && vecTables == map[]
      ensures Valid() && Synced()
    {
      this.name := name;
      this.files := files;
      relTables := map[];
      vecTables := map[];
    }

    /** `_save_table`: overwrites the table's file with its current record. */
    method SaveTable(t: string, isVector: bool)
      requires if isVector then t in vecTables else t in relTables
      modifies this
      ensures relTables == old(relTables) && vecTables == old(vecTables)
      ensures files == old(files)[TableFileName(t, isVector) :=
                if isVector then VecFile(vecTables[t].ToRecord()) else RelFile(relTables[t].ToRecord())]
      ensures !isVector ==> LoadableRel(files, t) == Some(relTables[t].ToRecord())
      ensures isVector ==> LoadableVec(files, t) == Some(vecTables[t].ToRecord())
    {
      var f := TableFileName(t, isVector);
      if isVector {
        files := files[f := VecFile(vecTables[t].ToRecord())];
      } else {
        files := files[f := RelFile(relTables[t].ToRecord())];
      }
    }

    /** Replacing the contents of t's file leaves every other table's file alone. */
    lemma OtherFilesUnchanged(old_files: Directory, t: string, isVector: bool)
      requires files.Keys == old_files.Keys + {TableFileName(t, isVector)}
                 || files.Keys == old_files.Keys - {TableFileName(t, isVector)}
      requires forall f :: f in files && f != TableFileName(t, isVector) ==> files[f] == old_files[f]
      ensures forall u :: u != t || isVector ==> LoadableRel(files, u) == LoadableRel(old_files, u)
      ensures forall u :: u != t || !isVector ==> LoadableVec(files, u) == LoadableVec(old_files, u)
    {
      forall u | u != t || isVector
        ensures LoadableRel(files, u) == LoadableRel(old_files, u)
      {
        TableFileNamesDistinct(u, t, false, isVector);
      }
      forall u | u != t || !isVector
        ensures LoadableVec(files, u) == LoadableVec(old_files, u)
      {
        TableFileNamesDistinct(u, t, true, isVector);
      }
    }

    /** `create_table`: registers a new empty relational table under `t`,
        replacing any table of that name, and writes its file. */
    method CreateTable(t: string, columns: seq<string>)
      requires Valid()
      modifies this
      ensures Valid()
      ensures t in relTables && fresh(relTables[t])
      ensures relTables == old(relTables)[t := relTables[t]] && vecTables == old(vecTables)
      ensures VisibleRel(t) == Some(RelRecord(columns, Some(DefaultColumnTypes(columns)), []))
      ensures files == old(files)[TableFileName(t, false) := RelFile(relTables[t].ToRecord())]
      ensures forall u :: u != t ==> VisibleRel(u) == old(VisibleRel(u))
      ensures forall u :: VisibleVec(u) == old(VisibleVec(u))
      ensures old(Synced()) ==> Synced()
    {
      var table := new RelationalTable(columns);
      relTables := relTables[t := table];
      SaveTable(t, false);
      OtherFilesUnchanged(old(files), t, false);
    }

    /** `create_vector_table`: registers a new empty vector table under `t`,
        replacing any table of that name, and writes its file. */
    method CreateVectorTable(t: string, dimension: int)
      requires Valid()
      modifies this
      ensures Valid()
      ensures t in vecTables && fresh(vecTables[t])
      ensures vecTables == old(vecTables)[t := vecTables[t]] && relTables == old(relTables)
      ensures VisibleVec(t) == Some(VecRecord(dimension, [], []))
      ensures files == old(files)[TableFileName(t, true) := VecFile(vecTables[t].ToRecord())]
      ensures forall u :: u != t ==> VisibleVec(u) == old(VisibleVec(u))
      ensures forall u :: VisibleRel(u) == old(VisibleRel(u))
      ensures old(Synced()) ==> Synced()
    {
      var table := new VectorTable(dimension);
      vecTables := vecTables[t := table];
      SaveTable(t, true);
      OtherFilesUnchanged(old(files), t, true);
    }

    /** `drop_table`: forgets the table in memory if it is loaded and deletes its
        file if there is one; it succeeds in every case. */
    method DropTable(t: string, isVector: bool)
      requires Valid()
      modifies this
      ensures Valid()
      ensures !isVector ==> relTables == old(relTables) - {t} && vecTables == old(vecTables)
      ensures isVector ==> vecTables == old(vecTables) - {t} && relTables == old(relTables)
      ensures files == old(files) - {TableFileName(t, isVector)}
      ensures !isVector ==> VisibleRel(t) == None
      ensures isVector ==> VisibleVec(t) == None
      ensures forall u :: u != t || isVector ==> VisibleRel(u) == old(VisibleRel(u))
      ensures forall u :: u != t || !isVector ==> VisibleVec(u) == old(VisibleVec(u))
      ensures old(Synced()) ==> Synced()
    {
      var f := TableFileName(t, isVector);
      if isVector {
        vecTables := vecTables - {t};
      } else {
        relTables := relTables - {t};
      }
      if f in files {
        files := files - {f};
      }
      OtherFilesUnchanged(old(files), t, isVector);
    }

    /** `_load_table`: rebuilds table `t` from its file. A missing file, a file
        that does not decode, and a file holding the other kind of table all
        report "not found" and change nothing. */
    method LoadTable(t: string, isVector: bool) returns (found: bool)
      requires Valid()
      modifies this
      ensures Valid()
      ensures files == old(files)
      ensures !isVector ==> vecTables == old(vecTables)
      ensures isVector ==> relTables == old(relTables)
      ensures !isVector ==> found == LoadableRel(files, t).Some?
      ensures isVector ==> found == LoadableVec(files, t).Some?
      ensures !isVector && found ==>
                && t in relTables && fresh(relTables[t])
                && relTables == old(relTables)[t := relTables[t]]
                && Some(relTables[t].ToRecord()) == LoadableRel(files, t)
      ensures isVector && found ==>
                && t in vecTables && fresh(vecTables[t])
                && vecTables == old(vecTables)[t := vecTables[t]]
                && Some(vecTables[t].ToRecord()) == LoadableVec(files, t)
      ensures !found ==> relTables == old(relTables) && vecTables == old(vecTables)
    {
      var f := TableFileName(t, isVector);
      if f !in files {
        return false;
      }
      var stored := files[f];
      if !isVector && stored.RelFile? {
        var table := new RelationalTable.FromRecord(stored.rel);
        relTables := relTables[t := table];
        found := true;
      } else if isVector && stored.VecFile? {
        var table := new VectorTable.FromRecord(stored.vec);
        vecTables := vecTables[t := table];
        found := true;
      } else {
        found := false;
      }
    }

    /** The lookup every relational table operation starts with: the loaded
        table, else the table loaded from disk. The table is available exactly
        when it is visible, and it holds the visible record; what table
        operations see does not change. */
    method AcquireRel(t: string) returns (found: bool)
      requires Valid()
      modifies this
      ensures Valid()
      ensures files == old(files) && vecTables == old(vecTables)
      ensures found == old(VisibleRel(t)).Some? && found == (t in relTables)
      ensures found ==> relTables[t].ToRecord() == old(VisibleRel(t)).value
      ensures relTables == old(relTables)
              || (t !in old(relTables) && t in relTables && fresh(relTables[t])
                  && relTables == old(relTables)[t := relTables[t]])
      ensures forall u :: VisibleRel(u) == old(VisibleRel(u))
      ensures old(Synced()) ==> Synced()
    {
      if t in relTables {
        return true;
      }
      found := LoadTable(t, false);
    }

    /** The vector-table counterpart of AcquireRel. */
    method AcquireVec(t: string) returns (found: bool)
      requires Valid()
      modifies this
      ensures Valid()
      ensures files == old(files) && relTables == old(relTables)
      ensures found == old(VisibleVec(t)).Some? && found == (t in vecTables)
      ensures found ==> vecTables[t].ToRecord() == old(VisibleVec(t)).value
      ensures vecTables == old(vecTables)
              || (t !in old(vecTables) && t in vecTables && fresh(vecTables[t])
                  && vecTables == old(vecTables)[t := vecTables[t]])
      ensures forall u :: VisibleVec(u) == old(VisibleVec(u))
      ensures old(Synced()) ==> Synced()
    {
      if t in vecTables {
        return true;
      }
      found := LoadTable(t, true);
    }

    /** The write half of a relational insert on an acquired table: the row
        built from `data` is appended and the table's file rewritten; a row that
        does not fit the columns is refused and nothing is written. */
    method AppendRow(t: string, data: RowInput) returns (r: Outcome)
      requires Valid() && t in relTables
      modifies this, relTables[t]
      ensures Valid()
      ensures relTables == old(relTables) && vecTables == old(vecTables)
      ensures r.Pass? ==> files == old(files)[TableFileName(t, false) := RelFile(relTables[t].ToRecord())]
      ensures r.Fail? ==> files == old(files)
      ensures var before := old(relTables[t].ToRecord());
              match RowFor(before.columns, data)
              case None => r == Fail(ColumnCountMismatch) && VisibleRel(t) == Some(before)
              case Some(row) => r == Pass && VisibleRel(t) == Some(before.(rows := before.rows + [row]))
      ensures forall u :: u != t ==> VisibleRel(u) == old(VisibleRel(u))
      ensures forall u :: VisibleVec(u) == old(VisibleVec(u))
      ensures old(Synced()) ==> Synced()
    {
      var table := relTables[t];
      r := table.Insert(data);
      if r.Pass? {
        SaveTable(t, false);
        OtherFilesUnchanged(old(files), t, false);
      }
    }

    /** The write half of a vector insert on an acquired table: the vector and
        its metadata are appended and the table's file rewritten; a vector of the
        wrong length is refused and nothing is written. */
    method AppendVector(t: string, vector: Vector, meta: Option<Metadata>) returns (r: Outcome)
      requires Valid() && t in vecTables
      modifies this, vecTables[t]
      ensures Valid()
      ensures relTables == old(relTables) && vecTables == old(vecTables)
      ensures r.Pass? ==> files == old(files)[TableFileName(t, true) := VecFile(vecTables[t].ToRecord())]
      ensures r.Fail? ==> files == old(files)
      ensures var before := old(vecTables[t].ToRecord());
              if |vector| != before.dimension then
                r == Fail(DimensionMismatch) && VisibleVec(t) == Some(before)
              else
                && r == Pass
                && VisibleVec(t) == Some(before.(vectors := before.vectors + [vector],
                                                  metadata := before.metadata + [MetadataOrEmpty(meta)]))
      ensures forall u :: u != t ==> VisibleVec(u) == old(VisibleVec(u))
      ensures forall u :: VisibleRel(u) == old(VisibleRel(u))
      ensures old(Synced()) ==> Synced()
    {
      var table := vecTables[t];
      r := table.Insert(vector, meta);
      if r.Pass? {
        SaveTable(t, true);
        OtherFilesUnchanged(old(files), t, true);
      }
    }

    /** The database's part of `mascotDB.insert` for a relational table: look
        the table up (loading it if need be), report it missing if it is
        neither loaded nor loadable, otherwise append the row and save. */
    method Insert(t: string, data: RowInput) returns (r: Outcome)
      requires Valid()
      modifies this, relTables.Values
      ensures Valid()
      ensures vecTables == old(vecTables)
      ensures r.Pass? ==>
                t in relTables && files == old(files)[TableFileName(t, false) := RelFile(relTables[t].ToRecord())]
      ensures r.Fail? ==> files == old(files)
      ensures forall x :: x in relTables.Values ==> x in old(relTables.Values) || fresh(x)
      ensures old(VisibleRel(t)).None? ==> r == Fail(NotFound) && VisibleRel(t) == None
      ensures old(VisibleRel(t)).Some? ==>
                var before := old(VisibleRel(t)).value;
                && t in relTables
                && match RowFor(before.columns, data)
                   case None =>
                     r == Fail(ColumnCountMismatch) && VisibleRel(t) == Some(before)
                   case Some(row) =>
                     r == Pass && VisibleRel(t) == Some(before.(rows := before.rows + [row]))
      ensures forall u :: u != t ==> VisibleRel(u) == old(VisibleRel(u))
      ensures forall u :: VisibleVec(u) == old(VisibleVec(u))
      ensures old(Synced()) ==> Synced()
    {
      var found := AcquireRel(t);
      if !found {
        return Fail(NotFound);
      }
      r := AppendRow(t, data);
    }

    /** The database's part of `mascotDB.insert` for a vector table. */
    method InsertVector(t: string, vector: Vector, meta: Option<Metadata>) returns (r: Outcome)
      requires Valid()
      modifies this, vecTables.Values
      ensures Valid()
      ensures relTables == old(relTables)
      ensures r.Pass? ==>
                t in vecTables && files == old(files)[TableFileName(t, true) := VecFile(vecTables[t].ToRecord())]
      ensures r.Fail? ==> files == old(files)
      ensures forall x :: x in vecTables.Values ==> x in old(vecTables.Values) || fresh(x)
      ensures old(VisibleVec(t)).None? ==> r == Fail(NotFound) && VisibleVec(t) == None
      ensures old(VisibleVec(t)).Some? ==>
                var before := old(VisibleVec(t)).value;
                && t in vecTables
                && if |vector| != before.dimension then
                     r == Fail(DimensionMismatch) && VisibleVec(t) == Some(before)
                   else
                     && r == Pass
                     && VisibleVec(t) == Some(before.(vectors := before.vectors + [vector],
                                                       metadata := before.metadata + [MetadataOrEmpty(meta)]))
      ensures forall u :: u != t ==> VisibleVec(u) == old(VisibleVec(u))
      ensures forall u :: VisibleRel(u) == old(VisibleRel(u))
      ensures old(Synced()) ==> Synced()
    {
      var found := AcquireVec(t);
      if !found {
        return Fail(NotFound);
      }
      r := AppendVector(t, vector, meta);
    }

    /** The database's part of `mascotDB.search`: look the vector table up
        (loading it if need be), report it missing if it is neither loaded nor
        loadable, otherwise rank its entries against the query. */
    method Search(t: string, query: Vector, topK: int, similarity: (Vector, Vector) -> real)
      returns (r: Result<seq<Hit>>)
      requires Valid()
      modifies this
      ensures Valid()
      ensures files == old(files) && relTables == old(relTables)
      ensures forall x :: x in vecTables.Values ==> x in old(vecTables.Values) || fresh(x)
      ensures old(VisibleVec(t)).None? ==> r == Err(NotFound)
      ensures old(VisibleVec(t)).Some? ==>
                && t in vecTables
                && SearchResult(old(VisibleVec(t)).value, query, topK, similarity, r)
      ensures forall u :: VisibleVec(u) == old(VisibleVec(u))
      ensures forall u :: VisibleRel(u) == old(VisibleRel(u))
      ensures old(Synced()) ==> Synced()
    {
      var found := AcquireVec(t);
      if !found {
        return Err(NotFound);
      }
      r := vecTables[t].Search(query, topK, similarity);
    }
  }
}
