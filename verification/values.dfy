/** Values shared by every part of the storage engine: the JSON-shaped cells and
    metadata the tables hold, and the error kinds the engine raises. */
module Values {

  /** A cell of a relational row or an entry of a vector's metadata. The engine
      stores whatever the caller passes and persists it as JSON, so a cell is one
      of the JSON shapes. */
  datatype Value =
    | Null
    | Bool(b: bool)
    | Int(i: int)
    | Float(f: real)
    | Str(s: string)
    | Arr(items: seq<Value>)
    | Obj(fields: map<string, Value>)

  /** A row of a relational table, aligned positionally with its columns. */
  type Row = seq<Value>

  /** The metadata attached to one stored vector. */
  type Metadata = map<string, Value>

  /** A stored or queried vector. */
  type Vector = seq<real>

  datatype Option<+T> = None | Some(value: T)

  /** The conditions under which the engine raises instead of returning. */
  datatype Error =
    | DimensionMismatch    // a vector's length differs from the table's dimension
    | ColumnCountMismatch  // a positional row's length differs from the column count
    | MalformedTable       // data loaded from disk that the operation cannot index
    | AlreadyExists        // a database name that is already registered
    | NotFound             // a database or table that neither memory nor disk holds
    | NoActiveDatabase     // a table operation with no current database

  datatype Result<+T> = Ok(value: T) | Err(error: Error)

  datatype Outcome = Pass | Fail(error: Error)
}
