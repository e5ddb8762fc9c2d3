# mascotDB storage engine, modelled in Dafny

mascotDB is a small database server. Its storage engine (`backend/engine.py`)
keeps two kinds of tables:

- **Relational tables** hold ordered columns and rows. They are read and
  changed through predicates over rows: `insert`, `select`, `update` and
  `delete`.
- **Vector tables** hold a fixed dimension, a list of vectors and a parallel
  list of metadata, searched exhaustively for the `top_k` entries most similar
  to a query.

A **database** is a directory of table files (`<name>.rel.db`, `<name>.vec.db`),
plus the tables of that directory loaded into memory. The **catalog**
(`mascotDB`) holds:

- every database found under its root directory;
- a pointer to the current database;
- table operations routed to the current database, which load a table from
  disk on first use.

The model follows the engine class by class:

| module | file | models |
|---|---|---|
| `Values` | `values.dfy` | cell and metadata values, vectors, error kinds, `Option`/`Result`/`Outcome` |
| `Ranking` | `ranking.dfy` | the ranking and top-k selection of `search`, and the `[:top_k]` slice |
| `VectorTables` | `vector_table.dfy` | `VectorTable` and its saved record |
| `RelationalTables` | `relational_table.dfy` | `RelationalTable`, its saved record, and the specification functions of select, update and delete |
| `Databases` | `database.dfy` | `Database` over an abstract directory (file name to stored record) |
| `Catalog` | `catalog.dfy` | `mascotDB` |

Representation choices:

- **Classes.** Tables, databases and the catalog are classes, because the
  engine updates them in place. Their methods state the new table contents
  and the new directory exactly. For the maps of loaded tables, they state
  that only new tables are ever added. They also say what they preserve.
- **Table invariants.** `VectorTable.Valid` says metadata is aligned with the
  vectors and every vector has the table's dimension. `RelationalTable.Valid`
  says every row has one value per column. Both are preserved by every
  operation, but not checked on load, just as `from_dict` does not check them.
- **Catalog invariant.** `MascotDB.Valid` says every database is registered
  under its own name, no two databases share a loaded table object, and the
  current database is a registered one. Every catalog operation keeps it. A
  table operation therefore leaves every database other than the current one
  exactly as it was.
- **The database directory** is a map from file name to `Stored`: a relational
  record, a vector record, or `Unreadable` (bad JSON or missing keys).
- **Lazy loading.** `Database.VisibleRel` and `Database.VisibleVec` give the
  table that operations see: the loaded one if there is one, otherwise what
  `_load_table` would build from the file. Loading never changes what is
  visible.
- **`Database.Synced`** says disk mirrors memory. Every operation that writes
  preserves it.
- **Errors.** A raised `ValueError` becomes a `Fail`/`Err` value naming the
  error kind. `MalformedTable` stands for two errors on data that breaks a
  table invariant (possible only for a table loaded from a file):
  - the `IndexError`s the source raises on rows too short for a column
    position, or on metadata shorter than the vectors;
  - the numpy `ValueError` that `search` raises when a stored vector does not
    have the table's dimension (a ragged array, or a product with the query of
    mismatched shape).
- **Sessions.** `CreateInsertSelect` and `CreateAndInsertVector` chain
  catalog operations as a client would, and state the final answer and the
  final file contents.
- **Similarity.** Cosine similarity over numpy arrays is an abstract function
  `(stored, query) -> real` passed to the search. The ranking is proved for
  every such function.

## Model

| member | source | states |
|---|---|---|
| Ranking.SliceCount | backend/engine.py:34 | the number of ranked entries `[:top_k]` keeps never exceeds the number of entries (it is `min(top_k, n)` for `top_k >= 0`, and drops `-top_k` entries from the end otherwise) |
| Ranking.ArgMax | backend/engine.py:34 | returns a position of a best-scoring candidate: no candidate scores higher, and every candidate before it scores strictly lower (the first best one) |
| Ranking.RemoveAt | backend/engine.py:34 | taking one entry out of a repetition-free index list leaves a repetition-free list of exactly the other indices |
| Ranking.TopIndices | backend/engine.py:34 | returns exactly `count` indices, distinct and in range, in non-increasing score order, with no left-out index scoring above any chosen one |
| VectorTables.MetadataOrEmpty | backend/engine.py:17 | the stored metadata is the given mapping, or `{}` when none is given |
| VectorTables.Scores | backend/engine.py:26-32 | one score per stored vector, in storage order, each the similarity of that vector to the query |
| VectorTables.VectorTable.ToRecord | backend/engine.py:44-58 | the saved record holds exactly the table's dimension, vectors and metadata |
| VectorTables.VectorTable.constructor | backend/engine.py:7-10 | a new table has the given dimension, no vectors, no metadata, and satisfies the table invariant |
| VectorTables.VectorTable.FromRecord | backend/engine.py:44-65 | rebuilding from a record reproduces the record's dimension, vectors and metadata (the `to_dict`/`from_dict` round trip); the result satisfies the invariant exactly when the record does, since nothing is re-validated |
| VectorTables.VectorTable.Insert | backend/engine.py:12-17 | a vector of the wrong length fails with a dimension mismatch and changes nothing; otherwise the vector and its metadata (`{}` when none) are appended to the two lists; the invariant is preserved |
| VectorTables.VectorTable.Search | backend/engine.py:19-42 | an empty table answers `[]` whatever the query; a wrong-length query fails; otherwise it answers `SliceCount(n, top_k)` hits whose indices form a top ranking by score, each carrying its own score and metadata; on a valid table it fails only on a wrong-length query, so it never fails when the table is empty or the query has the table's dimension |
| RelationalTables.Filter | backend/engine.py:88 | a comprehension keeps exactly the elements the predicate accepts, and no more elements than it was given |
| RelationalTables.FilterAppend | backend/engine.py:88 | filtering distributes over concatenation, so kept rows stay in their original order |
| RelationalTables.FilterKeepsAll | backend/engine.py:88 | a predicate accepting every row keeps the list unchanged |
| RelationalTables.Kept | backend/engine.py:87-88 | without a condition every row is kept; otherwise a row is kept exactly when it is a row of the table that passes the condition (`Matches`), and no more rows are kept than there were |
| RelationalTables.IndexOf | backend/engine.py:91 | `list.index` returns the first position holding the name |
| RelationalTables.RowFor | backend/engine.py:74-81 | a positional list is accepted exactly when its length matches the columns and is then the row; a mapping always gives a row of one value per column, holding the mapped value or null |
| RelationalTables.KeyedRowIgnoresUnknownKeys | backend/engine.py:75-76 | keys of a mapping that name no column do not affect the inserted row |
| RelationalTables.KnownNames | backend/engine.py:91 | the projected names are all columns of the table |
| RelationalTables.ProjectionIndices | backend/engine.py:91 | one position per known requested name, in the requested order, each the position of that name in the columns |
| RelationalTables.DefaultColumnTypes | backend/engine.py:72 | types exactly the table's columns, each as `text` |
| RelationalTables.Canonical | backend/engine.py:119-122 | a loaded record keeps its columns and rows and always has column types: stored types are kept as they are, missing ones become `text` for every column |
| RelationalTables.SelectAsWritten | backend/engine.py:84-97 | `select` as the source writes it: without a projection, header and the kept rows; with one, the header is the requested list verbatim while each row holds the values of the known names only; fails only on a row too short for a projected position |
| RelationalTables.SelectAsWrittenMislabels | backend/engine.py:90-95 | selecting `["x", "a"]` from a table with the single column `a` returns header `["x", "a"]` over rows `[[1]]`, labelling the value of `a` as `x` |
| RelationalTables.FilterKeepsWidth | backend/engine.py:88 | filtering rows of one width leaves rows of that width |
| RelationalTables.KeptWidth | backend/engine.py:87-88 | rows of one width stay that width whatever `select` keeps, with or without a condition |
| RelationalTables.UpdatedRow | backend/engine.py:100-105 | an updated row keeps its length; a cell whose column the update does not name is untouched; the first position of every named existing column within the row holds the new value (`IsUpdateTarget` picks those positions) |
| RelationalTables.UpdatedRows | backend/engine.py:99-105 | one row per row: rows failing the condition are untouched, rows passing it are updated as `UpdatedRow` states |
| RelationalTables.UniqueColumnsTargets | backend/engine.py:100 | when column names are distinct, an update writes a column exactly when the update names it |
| RelationalTables.UpdatedRowIdempotent | backend/engine.py:104-105 | writing a row's updated columns again changes nothing |
| RelationalTables.UpdateIdempotent | backend/engine.py:99-105 | applying the same update twice gives the rows one application gives |
| RelationalTables.NothingLeftToDelete | backend/engine.py:107-108 | after a delete, the same predicate matches no remaining row |
| RelationalTables.DeletePartitions | backend/engine.py:107-108 | the rows a delete keeps and the rows a select with the same predicate returns together number exactly the table's rows |
| RelationalTables.DeleteIdempotent | backend/engine.py:107-108 | deleting twice with the same predicate is deleting once |
| RelationalTables.RelationalTable.ToRecord | backend/engine.py:110-115 | the saved record holds exactly the table's columns, column types and rows |
| RelationalTables.RelationalTable.constructor | backend/engine.py:69-72 | a new table has the given columns, no rows, every column typed `text`, and satisfies the invariant |
| RelationalTables.RelationalTable.FromRecord | backend/engine.py:110-123 | rebuilding from a saved record reproduces its columns, column types and rows (the `to_dict`/`from_dict` round trip); a record without column types gets `text` for every column |
| RelationalTables.RelationalTable.Insert | backend/engine.py:74-82 | a wrong-length list fails with a column-count mismatch and changes nothing; otherwise exactly one row, the one `RowFor` builds, is appended at the end; the invariant is preserved |
| RelationalTables.RelationalTable.Select | backend/engine.py:84-97 | without a projection (`Projects` is false: no names or an empty list), returns the columns and exactly the matching rows in order; with one, returns per kept row the values of the requested known names in requested order, under a header naming exactly those columns so every row is as wide as the header; fails only on a row too short for a projected position, never on a valid table; it succeeds exactly when `SelectAsWritten` does, with the same rows, and equals it without a projection |
| RelationalTables.RelationalTable.Update | backend/engine.py:99-105 | keeps columns, row count and order; on success each matching row (every row without a predicate) has exactly the named existing columns overwritten and all else untouched; it fails exactly when a matching row is too short for a written column, leaving the earlier rows written, that row partly written and the later rows untouched; never fails on a valid table |
| RelationalTables.RelationalTable.Delete | backend/engine.py:107-108 | leaves exactly the rows the predicate rejects, in order, and preserves the invariant |
| Databases.TableFileName | backend/engine.py:156-158 | a table's file name is seven characters longer than the table name |
| Databases.StripSuffix | backend/engine.py:256-261 | cutting a file name's suffix leaves a name seven characters shorter |
| Databases.Suffix | backend/engine.py:156-158 | both table file suffixes are seven characters long |
| Databases.StripRecoversName | backend/engine.py:255-262 | a generated file name ends in its kind's suffix (`HasSuffix`, the `endswith` test) and not the other, and cutting seven characters gives back the table name |
| Databases.ListedFileIsTableFile | backend/engine.py:255-262 | every file name ending in a kind's suffix is the file name of the table it strips to |
| Databases.TableFileNamesDistinct | backend/engine.py:156-158 | two different tables, or tables of different kinds, never share a file |
| Databases.LoadableRel | backend/engine.py:171-189 | a relational table is loadable only from its own file, and a loaded record always has column types |
| Databases.LoadableVec | backend/engine.py:171-189 | a vector table is loadable only from its own file |
| Databases.Database.constructor | backend/engine.py:127-133 | a database over a directory has no table loaded and is in sync with its disk |
| Databases.Database.SaveTable | backend/engine.py:160-169 | overwrites exactly the table's own file with its record, so loading it back rebuilds the same table |
| Databases.Database.OtherFilesUnchanged | backend/engine.py:160-169 | writing or removing one table's file leaves what every other table would load unchanged |
| Databases.Database.CreateTable | backend/engine.py:135-137 | registers a fresh empty relational table, replacing a same-named one, writes its file, changes no other visible table and keeps disk in sync |
| Databases.Database.CreateVectorTable | backend/engine.py:139-141 | the same for a vector table of the given dimension |
| Databases.Database.DropTable | backend/engine.py:143-154 | always succeeds; afterwards the table is neither loaded nor on disk, no other table is affected, and disk stays in sync |
| Databases.Database.LoadTable | backend/engine.py:171-189 | reports success exactly when the file exists and decodes as a table of the requested kind, then holds a fresh table equal to the file's record; otherwise changes nothing; never writes the directory |
| Databases.Database.AcquireRel | backend/engine.py:310-313 | the relational table is available after the lookup exactly when it was visible, and then holds the visible record; nothing visible changes |
| Databases.Database.AcquireVec | backend/engine.py:321-324 | the same for a vector table |
| Databases.Database.AppendRow | backend/engine.py:301-303 | appends the row to the loaded table and rewrites exactly that table's file with the new record, or refuses a wrong-length row and leaves the directory as it was; other tables and sync are preserved |
| Databases.Database.AppendVector | backend/engine.py:292-294 | appends the vector to the loaded table and rewrites exactly that table's file with the new record, or refuses a wrong-length vector and leaves the directory as it was; other tables and sync are preserved |
| Databases.Database.Insert | backend/engine.py:297-305 | a relational table neither loaded nor loadable is not found and stays so; otherwise the row is appended to the visible table, or a wrong-length row is refused; on success exactly the table's file is rewritten with its new record, on any failure the directory is unchanged; other tables are unchanged, disk is kept in sync, and only fresh tables are added |
| Databases.Database.InsertVector | backend/engine.py:288-296 | the same for a vector and its metadata, refusing a vector of the wrong length: exactly the table's file is rewritten on success, and the directory is unchanged on failure |
| Databases.Database.Search | backend/engine.py:318-327 | a vector table neither loaded nor loadable is not found; otherwise the answer satisfies the search specification on the visible table; nothing visible changes and the directory is not written |
| Catalog.ListedTables | backend/engine.py:252-262 | a name is listed exactly when the directory holds that table's file of the given kind |
| Catalog.MascotDB.constructor | backend/engine.py:193-206 | one registered database per directory under the root, each over that directory with no table loaded; no current database |
| Catalog.MascotDB.CreateDatabase | backend/engine.py:208-214 | a registered name fails with already-exists and changes nothing; otherwise a fresh empty database is registered and made current |
| Catalog.MascotDB.DropDatabase | backend/engine.py:216-230 | an unknown name fails with not-found and changes nothing; otherwise the database's files are deleted, it is unregistered, and the current database is cleared exactly when it was the dropped one |
| Catalog.MascotDB.UseDatabase | backend/engine.py:232-237 | an unknown name answers None and leaves the current database alone; otherwise that database becomes current and is returned |
| Catalog.MascotDB.ListDatabases | backend/engine.py:239-240 | exactly the registered names |
| Catalog.MascotDB.Target | backend/engine.py:243-250 | no name means the current database (none if there is none); a name gives the database registered under it, or none when it is unknown |
| Catalog.MascotDB.OnlyCurrentChanged | backend/engine.py:269-327 | a table operation that changes only the current database and adds only new tables to it keeps the catalog invariant and leaves every other database's tables as they were |
| Catalog.MascotDB.ListTables | backend/engine.py:242-267 | with no current database (no name given) or an unknown name, no tables; otherwise exactly the tables whose files the target's directory holds, by kind |
| Catalog.MascotDB.CreateTable | backend/engine.py:269-275 | fails without a current database; otherwise a fresh empty table is registered there under the name, replacing any same-named one; the directory changes in exactly that table's file, which holds the new record; no other table changes, and only fresh tables are ever added |
| Catalog.MascotDB.CreateVectorTable | backend/engine.py:277-279 | fails without a current database; otherwise a fresh empty vector table of the given dimension is registered there, replacing any same-named one; the directory changes in exactly that table's file; only fresh tables are ever added |
| Catalog.MascotDB.DropTable | backend/engine.py:281-283 | fails without a current database; otherwise drops the table there from memory, and the directory loses exactly the table's file; every other table and database is left as it was |
| Catalog.MascotDB.Insert | backend/engine.py:297-305 | fails without a current database; a table neither loaded nor loadable is not found; otherwise the row is appended to the visible table (or a wrong-length row refused); on success exactly the table's file is rewritten, on failure the directory is unchanged; other tables unchanged, disk kept in sync; a table the lazy load registers is fresh; every other database unchanged |
| Catalog.MascotDB.InsertVector | backend/engine.py:285-296 | the same for a vector and its metadata, refusing a wrong-length vector; exactly the table's file is rewritten on success, and the directory is unchanged on failure; a table the lazy load registers is fresh; every other database unchanged |
| Catalog.MascotDB.Select | backend/engine.py:307-316 | fails without a current database; a table neither loaded nor loadable is not found; otherwise the answer is the table's `Select` on exactly the visible record, which succeeds exactly when the source's select does, with its rows, and equals it without a projection; the directory is not written; a table the lazy load registers is fresh; nothing visible changes in any database |
| Catalog.MascotDB.VectorSearch | backend/engine.py:318-327 | fails without a current database; a table neither loaded nor loadable is not found; otherwise the answer satisfies the search specification on the visible record; the directory is not written; a table the lazy load registers is fresh; nothing visible changes in any database |
| Catalog.DropAndList | backend/engine.py:281-283 | after dropping a relational table of the current database, `list_tables` no longer lists it |
| Catalog.SelectAndList | backend/engine.py:307-316 | a `select` leaves the current database's `list_tables` answer as it was |
| Catalog.SessionInputs | backend/engine.py:74-81 | the positional list `[1, 2]` is taken as the row as given, and the mapping `{"a": 3, "b": 4}` is laid out by column as `[3, 4]` |
| Catalog.CreateShop | backend/engine.py:208-275 | creating a database and then a table `t` with columns `a`, `b` leaves a fresh current database holding only new tables, with `t` empty and in sync with its file |
| Catalog.InsertIntoShop | backend/engine.py:297-305 | one insert appends the row it builds to `t` and to its file, and registers only new tables, so a further insert on the same table is allowed |
| Catalog.FillShop | backend/engine.py:297-305 | inserting `[1, 2]` and then `{"a": 3, "b": 4}` into the empty `t` leaves exactly the rows `[[1, 2], [3, 4]]`, in insertion order, in the table and its file |
| Catalog.CreateInsertSelect | backend/engine.py:307-316 | after creating and filling `t`, selecting everything answers header `["a", "b"]` over `[[1, 2], [3, 4]]`, and the table's file loads back to the same rows |
| Catalog.CreateAndInsertVector | backend/engine.py:277-296 | creating a two-dimensional vector table and inserting `[1.0, 0.0]` with metadata `{"id": 1}` leaves exactly that entry in the table and its file |

## Findings

| source | as written | input that shows it | evidently intended | confidence | as-written member | corrected member |
|---|---|---|---|---|---|---|
| backend/engine.py:90-95 | with a projection, the returned header is the requested name list, unknown names included, while each row holds only the values of the known names | table with column `a` and row `[1]`, select with columns `["x", "a"]`: header `["x", "a"]`, rows `[[1]]`, so `1` appears under `x` | the header names exactly the columns projected, so every row is as wide as the header | medium, not executed | RelationalTables.SelectAsWrittenMislabels | RelationalTables.RelationalTable.Select |

The corrected `RelationalTable.Select` is what the catalog's `Select` answers
with. `SelectAsWritten` keeps the source's behaviour for comparison.

## Left out

- Cosine similarity (`backend/engine.py:26-32`) is floating point over numpy
  arrays and is not modelled. The score is an abstract function, so
  normalisation, a zero-norm vector and NaN scores are not captured.
- Default arguments (dimension 128, `top_k` 5, `is_vector` false, no
  metadata) are not modelled: every call passes them.
- VectorTables.VectorTable.Search: does not fix the order among equal scores.
  `np.argsort(...)[::-1]` puts ties in an order the model leaves open, so the
  contract only states non-increasing scores.
- VectorTables.VectorTable.Search: a metadata list shorter than the vector
  list fails in the source only when a chosen index reaches past it. The
  contract allows this failure exactly when metadata is shorter, without
  saying which top-k choices trigger it.
- File I/O is not modelled: `os.makedirs`, `open`, `json.dump`, `json.load`,
  `os.listdir`, `os.remove` and `os.rmdir`. Each database directory is a map
  from file name to stored record. JSON encoding, and the way it turns tuples
  and numbers into lists and floats, is not modelled. A file that does not
  decode is `Unreadable`.
- The `print` diagnostic of a failed load (`backend/engine.py:188`) is not
  modelled.
- Files at the root that are not directories, subdirectories inside a
  database directory, and changes made to directories by other processes are
  not modelled. `CreateDatabase` starts from an empty directory, as a database
  created by the engine does.
- The order of `list_databases` and `list_tables` (dict and directory
  listing order) is not modelled. The results are sets.
- Aliasing of Python lists is not modelled:
  - `select` without a condition or projection returns the table's own row
    list;
  - `from_dict` adopts the loaded lists;
  - `update` writes into row lists that may be shared.

  The model's sequences are values.
- Python's dynamic typing is not modelled. Cells and metadata are a closed
  `Value` datatype. `mascotDB.insert` is split by its `is_vector` flag into
  `Insert` (a positional list or a mapping) and `InsertVector` (a vector and
  optional metadata). Inputs of any other shape are not modelled.
- RelationalTables.RelationalTable.Update: the order of writes within the
  row where an update stops is not modelled. The source writes the named
  columns in the insertion order of the `updates` dict, so the columns before
  the failing one are already written. A `map` has no order, so the contract
  (`StoppedAt`) allows any subset of that row's targets to be written, and the
  body writes none of them.
- Catalog.MascotDB.Select: answers with the corrected `RelationalTable.Select`
  (see Findings), whose header is the known requested names. The source's
  `select` returns the requested names verbatim as the header. The contract
  states that the two agree on success or failure, on the rows, and on the
  whole answer when there is no projection. The header differs when a
  requested name is not a column.
- Catalog.MascotDB.DropDatabase: a dropped database object kept by a caller
  can still be written through. The model only states that its directory is
  emptied and that it is no longer registered.
- `backend/server.py` (the HTTP front end and its SQL parsing) is not part of
  this model.
