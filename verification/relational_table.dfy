/** A relational table: an ordered list of column names, a declared type per
    column (informational only) and an ordered list of rows aligned with the
    columns, read and changed through predicates over rows. */
module RelationalTables {
  import opened Values

  /** The persisted form of a relational table, the record written to
      `<name>.rel.db`. A record read back from disk may lack the column types,
      hence the Option. */
  datatype RelRecord = RelRecord(columns: seq<string>, columnTypes: Option<map<string, string>>, rows: seq<Row>)

  /** What an insert accepts: a positional list of values or a mapping from
      column name to value. */
  datatype RowInput = Positional(values: seq<Value>) | Keyed(entries: map<string, Value>)

  /** What `select` returns: the header and the rows. */
  datatype Selection = Selection(header: seq<string>, rows: seq<Row>)

  /** The elements of `s` that `keep` accepts, in their original order. */
  function Filter<T(!new)>(s: seq<T>, keep: T -> bool): (r: seq<T>)
    ensures |r| <= |s|
    ensures forall x :: x in r <==> x in s && keep(x)
  {
    if s == [] then []
    else if keep(s[0]) then [s[0]] + Filter(s[1..], keep)
    else Filter(s[1..], keep)
  }

  /** Filtering distributes over concatenation: the kept elements of a list
      appear in the order the list has them. */
  lemma {:induction false} FilterAppend<T(!new)>(a: seq<T>, b: seq<T>, keep: T -> bool)
    ensures Filter(a + b, keep) == Filter(a, keep) + Filter(b, keep)
  {
    if a == [] {
      assert a + b == b;
    } else {
      assert (a + b)[1..] == a[1..] + b;
      FilterAppend(a[1..], b, keep);
    }
  }

  /** A filter that accepts every element keeps the list as it is. */
  lemma {:induction false} FilterKeepsAll<T(!new)>(s: seq<T>, keep: T -> bool)
    requires forall x :: x in s ==> keep(x)
    ensures Filter(s, keep) == s
  {
    if s != [] {
      assert forall x :: x in s[1..] ==> x in s;
      FilterKeepsAll(s[1..], keep);
    }
  }

  /** The predicate that accepts exactly the rows `p` rejects. */
  function Rejects(p: Row -> bool): Row -> bool {
    row => !p(row)
  }

  /** Once the rows `p` accepts are deleted, filtering by `p` finds nothing. */
  lemma NothingLeftToDelete(rows: seq<Row>, p: Row -> bool)
    ensures Filter(Filter(rows, Rejects(p)), p) == []
  {
  }

  /** What a delete keeps and what a select with the same condition returns
      split the rows between them: together they are as many as the rows. */
  lemma {:induction false} DeletePartitions(rows: seq<Row>, p: Row -> bool)
    ensures |Filter(rows, Rejects(p))| + |Filter(rows, p)| == |rows|
  {
    if rows != [] {
      DeletePartitions(rows[1..], p);
    }
  }

  /** Deleting twice by the same condition is deleting once. */
  lemma DeleteIdempotent(rows: seq<Row>, p: Row -> bool)
    ensures Filter(Filter(rows, Rejects(p)), Rejects(p)) == Filter(rows, Rejects(p))
  {
    FilterKeepsAll(Filter(rows, Rejects(p)), Rejects(p));
  }

  /** Python's `list.index`: the first position of a name that occurs. */
  function IndexOf(columns: seq<string>, c: string): (k: nat)
    requires c in columns
    ensures k < |columns| && columns[k] == c
    ensures forall j :: 0 <= j < k ==> columns[j] != c
  {
    if columns[0] == c then 0 else 1 + IndexOf(columns[1..], c)
  }

  /** Every column declared as text, the default type map. */
  function DefaultColumnTypes(columns: seq<string>): (types: map<string, string>)
    ensures forall c :: c in types <==> c in columns
    ensures forall c :: c in types ==> types[c] == "text"
  {
    map c | c in columns :: "text"
  }

  /** The record a table rebuilt from `rec` holds: the record itself, with the
      default types filled in when the record has none. */
  function Canonical(rec: RelRecord): (r: RelRecord)
    ensures r.columns == rec.columns && r.rows == rec.rows && r.columnTypes.Some?
    ensures rec.columnTypes.Some? ==> r == rec
    ensures rec.columnTypes.None? ==> r.columnTypes.value == DefaultColumnTypes(rec.columns)
  {
    match rec.columnTypes
    case Some(_) => rec
    case None => rec.(columnTypes := Some(DefaultColumnTypes(rec.columns)))
  }

  /** The row an insert appends, or None when a positional list has the wrong
      number of values. */
  function RowFor(columns: seq<string>, data: RowInput): (row: Option<Row>)
    ensures data.Positional? ==> (row.Some? <==> |data.values| == |columns|)
    ensures data.Positional? && row.Some? ==> row.value == data.values
    ensures data.Keyed? ==> row.Some? && |row.value| == |columns|
    ensures data.Keyed? ==> forall i :: 0 <= i < |columns| ==>
              row.value[i] == (if columns[i] in data.entries then data.entries[columns[i]] else Null)
  {
    match data
    case Positional(values) =>
      if |values| != |columns| then None else Some(values)
    case Keyed(entries) =>
      Some(seq(|columns|, i requires 0 <= i < |columns| =>
             if columns[i] in entries then entries[columns[i]] else Null))
  }

  /** Keys that name no column do not change the row a mapping becomes. */
  lemma KeyedRowIgnoresUnknownKeys(columns: seq<string>, entries: map<string, Value>)
    ensures RowFor(columns, Keyed(entries)) ==
            RowFor(columns, Keyed(map c | c in entries && c in columns :: entries[c]))
  {
    var a := RowFor(columns, Keyed(entries)).value;
    var b := RowFor(columns, Keyed(map c | c in entries && c in columns :: entries[c])).value;
    assert forall i :: 0 <= i < |columns| ==> columns[i] in columns;
    assert a == b;
  }

  /** The rows a `select` condition keeps: all of them when there is none. */
  function Kept(rows: seq<Row>, cond: Option<Row -> bool>): (kept: seq<Row>)
    ensures cond.None? ==> kept == rows
    ensures |kept| <= |rows|
    ensures forall row :: row in kept <==> row in rows && Matches(cond, row)
  {
    match cond
    case None => rows
    case Some(p) => Filter(rows, p)
  }

  /** Filtering rows of one width leaves rows of that width. */
  lemma FilterKeepsWidth(rows: seq<Row>, keep: Row -> bool, width: nat)
    requires forall i :: 0 <= i < |rows| ==> |rows[i]| == width
    ensures forall i :: 0 <= i < |Filter(rows, keep)| ==> |Filter(rows, keep)[i]| == width
  {
    var kept := Filter(rows, keep);
    forall i | 0 <= i < |kept|
      ensures |kept[i]| == width
    {
      assert kept[i] in kept;
      var k :| 0 <= k < |rows| && rows[k] == kept[i];
    }
  }

  /** Rows of one width stay of that width whatever `select` keeps. */
  lemma KeptWidth(rows: seq<Row>, cond: Option<Row -> bool>, width: nat)
    ensures (forall i :: 0 <= i < |rows| ==> |rows[i]| == width) ==>
              forall i :: 0 <= i < |Kept(rows, cond)| ==> |Kept(rows, cond)[i]| == width
  {
    if cond.Some? && forall i :: 0 <= i < |rows| ==> |rows[i]| == width {
      FilterKeepsWidth(rows, cond.value, width);
    }
  }

  /** Whether a row passes an optional condition (`select` and `update`):
      every row passes when there is none. */
  predicate Matches(cond: Option<Row -> bool>, row: Row) {
    match cond
    case None => true
    case Some(p) => p(row)
  }

  /** `select` projects only when it is given a non-empty list of names. */
  predicate Projects(names: Option<seq<string>>) {
    names.Some? && names.value != []
  }

  /** The requested names that are columns of the table, in the requested order. */
  function KnownNames(columns: seq<string>, names: seq<string>): (known: seq<string>)
    ensures forall c :: c in known ==> c in columns
  {
    Filter(names, c => c in columns)
  }

  /** The column positions a projection reads. */
  function ProjectionIndices(columns: seq<string>, names: seq<string>): (idx: seq<nat>)
    ensures |idx| == |KnownNames(columns, names)|
    ensures forall j :: 0 <= j < |idx| ==>
              idx[j] < |columns| && columns[idx[j]] == KnownNames(columns, names)[j]
  {
    var known := KnownNames(columns, names);
    seq(|known|, j requires 0 <= j < |known| => IndexOf(columns, known[j]))
  }

  /** Every row has every position the projection reads. */
  predicate Fits(rows: seq<Row>, idx: seq<nat>) {
    forall i, j :: 0 <= i < |rows| && 0 <= j < |idx| ==> idx[j] < |rows[i]|
  }

  /** `select` as the source writes it. With a projection, the header it
      returns is the list of requested names, unknown ones included, while the
      rows hold only the columns that exist. */
  function SelectAsWritten(columns: seq<string>, rows: seq<Row>, cond: Option<Row -> bool>,
                           names: Option<seq<string>>): (r: Result<Selection>)
    ensures !Projects(names) ==> r == Ok(Selection(columns, Kept(rows, cond)))
    ensures Projects(names) ==>
              (r.Ok? <==> Fits(Kept(rows, cond), ProjectionIndices(columns, names.value)))
    ensures Projects(names) && r.Ok? ==>
              var kept := Kept(rows, cond);
              var idx := ProjectionIndices(columns, names.value);
              && r.value.header == names.value
              && |r.value.rows| == |kept|
              && forall i :: 0 <= i < |kept| ==>
                   && |r.value.rows[i]| == |idx|
                   && forall j :: 0 <= j < |idx| ==> r.value.rows[i][j] == kept[i][idx[j]]
    ensures r.Err? ==> r.error == MalformedTable
  {
    var kept := Kept(rows, cond);
    if !Projects(names) then Ok(Selection(columns, kept))
    else
      var idx := ProjectionIndices(columns, names.value);
      if !Fits(kept, idx) then Err(MalformedTable)
      else
        Ok(Selection(names.value,
                     seq(|kept|, i requires 0 <= i < |kept| =>
                           seq(|idx|, j requires 0 <= j < |idx| => kept[i][idx[j]]))))
  }

  /** The header the source returns can mislabel values: asking a table with
      the single column "a" for ["x", "a"] returns the header ["x", "a"] over
      rows holding only the value of "a", which the header calls "x". */
  lemma SelectAsWrittenMislabels()
    ensures var r := SelectAsWritten(["a"], [[Int(1)]], None, Some(["x", "a"]));
            && r.Ok?
            && r.value.header == ["x", "a"]
            && r.value.rows == [[Int(1)]]
  {
    var columns := ["a"];
    var names := ["x", "a"];
    assert "x" !in columns;
    assert Filter(names[1..], c => c in columns) == ["a"] by {
      assert names[1..][1..] == [];
    }
    assert KnownNames(columns, names) == ["a"];
    assert ProjectionIndices(columns, names) == [0];
    var r := SelectAsWritten(columns, [[Int(1)]], None, Some(names));
    assert |r.value.rows| == 1 && |r.value.rows[0]| == 1 && r.value.rows[0][0] == Int(1);
    assert r.value.rows[0] == [Int(1)];
  }

  /** Whether column position k is written by an update: it holds a name that
      the update mentions and is that name's first position. */
  predicate IsUpdateTarget(columns: seq<string>, updates: map<string, Value>, k: int) {
    0 <= k < |columns| && columns[k] in updates && IndexOf(columns, columns[k]) == k
  }

  /** Whether a row has every position an update writes. */
  predicate TakesUpdate(row: Row, columns: seq<string>, updates: map<string, Value>) {
    forall k :: 0 <= k < |columns| && IsUpdateTarget(columns, updates, k) ==> k < |row|
  }

  /** One row after an update has written it. */
  function UpdatedRow(row: Row, columns: seq<string>, updates: map<string, Value>): (r: Row)
    ensures |r| == |row|
    ensures forall k :: 0 <= k < |row| && !IsUpdateTarget(columns, updates, k) ==> r[k] == row[k]
    ensures forall c :: c in updates && c in columns && IndexOf(columns, c) < |row| ==>
              r[IndexOf(columns, c)] == updates[c]
  {
    seq(|row|, k requires 0 <= k < |row| =>
          if IsUpdateTarget(columns, updates, k) then updates[columns[k]] else row[k])
  }

  /** All rows after an update: the matching rows written, the others as they were. */
  function UpdatedRows(rows: seq<Row>, columns: seq<string>, updates: map<string, Value>,
                       cond: Option<Row -> bool>): (r: seq<Row>)
    ensures |r| == |rows|
    ensures forall i :: 0 <= i < |rows| && !Matches(cond, rows[i]) ==> r[i] == rows[i]
    ensures forall i :: 0 <= i < |rows| && Matches(cond, rows[i]) ==> r[i] == UpdatedRow(rows[i], columns, updates)
  {
    seq(|rows|, i requires 0 <= i < |rows| =>
          if Matches(cond, rows[i]) then UpdatedRow(rows[i], columns, updates) else rows[i])
  }

  /** The rows an update leaves when it stops at row b, the first matching row
      too short for a written position: the rows before b written, row b written
      at some of its positions (in an order the model does not fix), the rows
      after b untouched. */
  ghost predicate StoppedAt(before: seq<Row>, after: seq<Row>, columns: seq<string>,
                            updates: map<string, Value>, cond: Option<Row -> bool>, b: int)
  {
    && 0 <= b < |before| == |after|
    && Matches(cond, before[b]) && !TakesUpdate(before[b], columns, updates)
    && (forall i :: 0 <= i < b && Matches(cond, before[i]) ==> TakesUpdate(before[i], columns, updates))
    && (forall i :: 0 <= i < b ==> after[i] == UpdatedRows(before, columns, updates, cond)[i])
    && |after[b]| == |before[b]|
    && (forall k :: 0 <= k < |after[b]| ==>
          after[b][k] == before[b][k] || after[b][k] == UpdatedRow(before[b], columns, updates)[k])
    && (forall i :: b < i < |before| ==> after[i] == before[i])
  }

  /** With distinct column names, an update writes exactly the columns it names. */
  lemma UniqueColumnsTargets(columns: seq<string>, updates: map<string, Value>, k: int)
    requires forall i, j :: 0 <= i < j < |columns| ==> columns[i] != columns[j]
    requires 0 <= k < |columns|
    ensures IsUpdateTarget(columns, updates, k) <==> columns[k] in updates
  {
    if columns[k] in updates {
      var f := IndexOf(columns, columns[k]);
    }
  }

  /** A written row is written again to the same values. */
  lemma UpdatedRowIdempotent(row: Row, columns: seq<string>, updates: map<string, Value>)
    ensures UpdatedRow(UpdatedRow(row, columns, updates), columns, updates) == UpdatedRow(row, columns, updates)
  {
  }

  /** Applying the same update twice is applying it once: a row the first pass
      wrote is written to the same values again, and a row it left alone still
      does not match. */
  lemma UpdateIdempotent(rows: seq<Row>, columns: seq<string>, updates: map<string, Value>,
                         cond: Option<Row -> bool>)
    ensures var once := UpdatedRows(rows, columns, updates, cond);
      UpdatedRows(once, columns, updates, cond) == once
  {
    var once := UpdatedRows(rows, columns, updates, cond);
    var twice := UpdatedRows(once, columns, updates, cond);
    forall i | 0 <= i < |rows|
      ensures twice[i] == once[i]
    {
      if Matches(cond, rows[i]) {
        UpdatedRowIdempotent(rows[i], columns, updates);
      }
    }
  }

  class RelationalTable {
    var columns: seq<string>
    var columnTypes: map<string, string>
    var rows: seq<Row>

    /** The table invariant: every row has one value per column. The constructor,
        Insert, Update and Delete keep it; FromRecord does not check it. */
    ghost predicate Valid()
      reads this
    {
      forall i :: 0 <= i < |rows| ==> |rows[i]| == |columns|
    }

    /** The record `to_dict` produces: the columns, the column types and the rows. */
    function ToRecord(): (rec: RelRecord)
      reads this
      ensures rec.columns == columns && rec.columnTypes == Some(columnTypes) && rec.rows == rows
    {
      RelRecord(columns, Some(columnTypes), rows)
    }

    constructor (columns: seq<string>)
      ensures this.columns == columns && rows == []
      ensures columnTypes == DefaultColumnTypes(columns)
      ensures Valid()
    {
      this.columns := columns;
      rows := [];
      columnTypes := DefaultColumnTypes(columns);
    }

    /** `from_dict`: rebuilds a table from its record, falling back to text for
        every column when the record has no types; rows are taken as they are. */
    constructor FromRecord(rec: RelRecord)
      ensures ToRecord() == Canonical(rec)
      ensures rec.columnTypes.Some? ==> ToRecord() == rec
      ensures rec.columnTypes.None? ==> columnTypes == DefaultColumnTypes(rec.columns)
    {
      columns := rec.columns;
      rows := rec.rows;
      columnTypes := match rec.columnTypes
        case Some(types) => types
        case None => DefaultColumnTypes(rec.columns);
    }

    /** Appends one row built from a positional list or a keyed mapping; a list
        of the wrong length is refused and nothing changes. */
    method Insert(data: RowInput) returns (r: Outcome)
      modifies this
      ensures columns == old(columns) && columnTypes == old(columnTypes)
      ensures RowFor(columns, data).None? ==> r == Fail(ColumnCountMismatch) && rows == old(rows)
      ensures RowFor(columns, data).Some? ==> r == Pass && rows == old(rows) + [RowFor(columns, data).value]
      ensures old(Valid()) ==> Valid()
    {
      match RowFor(columns, data)
      case None =>
        r := Fail(ColumnCountMismatch);
      case Some(row) =>
        rows := rows + [row];
        r := Pass;
    }

    /** Filters the rows by the condition, if any, then projects them onto the
        requested names that are columns, if any names are given; the header
        names exactly the projected columns, so every returned row is as wide as
        the header (see SelectAsWritten for the header the source returns). */
    function Select(cond: Option<Row -> bool>, names: Option<seq<string>>): (r: Result<Selection>)
      reads this
      ensures cond.None? && !Projects(names) ==> r == Ok(Selection(columns, rows))
      ensures !Projects(names) ==> r == Ok(Selection(columns, Kept(rows, cond)))
      ensures Projects(names) ==>
                (r.Ok? <==> Fits(Kept(rows, cond), ProjectionIndices(columns, names.value)))
      ensures Projects(names) && r.Ok? ==>
                var kept := Kept(rows, cond);
                var idx := ProjectionIndices(columns, names.value);
                && r.value.header == KnownNames(columns, names.value)
                && |r.value.rows| == |kept|
                && forall i :: 0 <= i < |kept| ==>
                     && |r.value.rows[i]| == |r.value.header|
                     && forall j :: 0 <= j < |idx| ==> r.value.rows[i][j] == kept[i][idx[j]]
      ensures r.Err? ==> r.error == MalformedTable
      ensures Valid() ==> r.Ok? && forall i :: 0 <= i < |r.value.rows| ==> |r.value.rows[i]| == |r.value.header|
      ensures var w := SelectAsWritten(columns, rows, cond, names);
              && r.Ok? == w.Ok?
              && (r.Ok? ==> r.value.rows == w.value.rows)
              && (!Projects(names) ==> r == w)
    {
      KeptWidth(rows, cond, |columns|);
      match SelectAsWritten(columns, rows, cond, names)
      case Err(e) => Err(e)
      case Ok(sel) =>
        if Projects(names) then Ok(sel.(header := KnownNames(columns, names.value))) else Ok(sel)
    }

    /** Writes the named columns of every matching row (every row without a
        condition); names that are not columns are ignored. A matching row too
        short for a written position stops the update with an error part-way,
        leaving the state StoppedAt describes. */
    method Update(updates: map<string, Value>, cond: Option<Row -> bool>) returns (r: Outcome)
      modifies this
      ensures columns == old(columns) && columnTypes == old(columnTypes)
      ensures r.Pass? <==> forall i :: 0 <= i < |old(rows)| && Matches(cond, old(rows)[i]) ==>
                                   TakesUpdate(old(rows)[i], columns, updates)
      ensures r.Pass? ==> rows == UpdatedRows(old(rows), columns, updates, cond)
      ensures r.Fail? ==> r.error == MalformedTable
                          && exists b :: StoppedAt(old(rows), rows, columns, updates, cond, b)
      ensures old(Valid()) ==> r == Pass && Valid()
    {
      ghost var before := rows;
      var i := 0;
      while i < |rows|
        invariant 0 <= i <= |rows| == |before|
        invariant columns == old(columns) && columnTypes == old(columnTypes)
        invariant forall j :: 0 <= j < i && Matches(cond, before[j]) ==> TakesUpdate(before[j], columns, updates)
        invariant forall j :: 0 <= j < i ==> rows[j] == UpdatedRows(before, columns, updates, cond)[j]
        invariant forall j :: i <= j < |rows| ==> rows[j] == before[j]
      {
        if Matches(cond, rows[i]) {
          if !TakesUpdate(rows[i], columns, updates) {
            assert StoppedAt(before, rows, columns, updates, cond, i);
            return Fail(MalformedTable);
          }
          rows := rows[i := UpdatedRow(rows[i], columns, updates)];
        }
        i := i + 1;
      }
      assert rows == UpdatedRows(before, columns, updates, cond);
      r := Pass;
    }

    /** Keeps only the rows the condition rejects, in their order. */
    method Delete(cond: Row -> bool)
      modifies this
      ensures columns == old(columns) && columnTypes == old(columnTypes)
      ensures rows == Filter(old(rows), Rejects(cond))
      ensures old(Valid()) ==> Valid()
    {
      if Valid() {
        FilterKeepsWidth(rows, Rejects(cond), |columns|);
      }
      rows := Filter(rows, Rejects(cond));
    }
  }
}
