/** A vector table: a fixed dimension and two index-aligned lists, the stored
    vectors and their metadata, searched exhaustively by similarity. */
module VectorTables {
  import opened Values
  import Ranking

  /** The persisted form of a vector table: the record written to
      `<name>.vec.db`, holding the dimension, the vectors and the metadata. */
  datatype VecRecord = VecRecord(dimension: int, vectors: seq<Vector>, metadata: seq<Metadata>)

  /** One search result: the stored entry's index, its score and its metadata. */
  datatype Hit = Hit(index: nat, score: real, meta: Metadata)

  /** What an insert stores as metadata: the metadata given, or an empty mapping
      when none (or an empty one) is given. */
  function MetadataOrEmpty(meta: Option<Metadata>): (m: Metadata)
    ensures meta.Some? ==> m == meta.value
    ensures meta.None? ==> m == map[]
  {
    match meta
    case Some(m) => m
    case None => map[]
  }

  /** The score of every stored vector against the query, by index. */
  function Scores(vectors: seq<Vector>, query: Vector, similarity: (Vector, Vector) -> real): (s: seq<real>)
    ensures |s| == |vectors|
    ensures forall i :: 0 <= i < |vectors| ==> s[i] == similarity(vectors[i], query)
  {
    seq(|vectors|, i requires 0 <= i < |vectors| => similarity(vectors[i], query))
  }

  /** The indices of a list of hits, in order. */
  function HitIndices(hits: seq<Hit>): (ix: seq<nat>)
    ensures |ix| == |hits|
  {
    seq(|hits|, i requires 0 <= i < |hits| => hits[i].index)
  }

  /** Every stored vector has the table's dimension. */
  ghost predicate VectorsOfDimension(rec: VecRecord) {
    forall i :: 0 <= i < |rec.vectors| ==> |rec.vectors[i]| == rec.dimension
  }

  /** What a search of a table holding `rec` may answer.
      An empty table answers no hits before the query is even looked at; a query
      of the wrong length is refused; stored vectors of the wrong length make the
      similarity computation fail; otherwise the hits are the best
      `SliceCount(n, topK)` entries, best first, each paired with its own score
      and metadata. The only other failure is an index past the end of a
      metadata list shorter than the vector list. */
  ghost predicate SearchResult(rec: VecRecord, query: Vector, topK: int,
                               similarity: (Vector, Vector) -> real, r: Result<seq<Hit>>)
  {
    var n := |rec.vectors|;
    if n == 0 then r == Ok([])
    else if |query| != rec.dimension then r == Err(DimensionMismatch)
    else if !VectorsOfDimension(rec) then r == Err(MalformedTable)
    else
      match r
      case Err(e) => e == MalformedTable && |rec.metadata| < n
      case Ok(hits) =>
        var scores := Scores(rec.vectors, query, similarity);
        && |hits| == Ranking.SliceCount(n, topK)
        && Ranking.IsTopRanking(scores, HitIndices(hits))
        && (forall i :: 0 <= i < |hits| ==>
              && hits[i].index < n && hits[i].index < |rec.metadata|
              && hits[i].score == scores[hits[i].index]
              && hits[i].meta == rec.metadata[hits[i].index])
  }

  class VectorTable {
    var dimension: int
    var vectors: seq<Vector>
    var metadata: seq<Metadata>

    /** The table invariant: metadata is index-aligned with the vectors and every
        vector has the table's dimension. The constructor and Insert keep it;
        FromRecord trusts the record and does not check it. */
    ghost predicate Valid()
      reads this
    {
      |vectors| == |metadata| && VectorsOfDimension(ToRecord())
    }

    /** The record `to_dict` produces: the dimension, the vectors and the metadata. */
    function ToRecord(): (rec: VecRecord)
      reads this
      ensures rec.dimension == dimension && rec.vectors == vectors && rec.metadata == metadata
    {
      VecRecord(dimension, vectors, metadata)
    }

    constructor (dimension: int)
      ensures this.dimension == dimension && vectors == [] && metadata == []
      ensures Valid()
    {
      this.dimension := dimension;
      vectors := [];
      metadata := [];
    }

    /** `from_dict`: rebuilds a table from its record verbatim, so that loading a
        saved table gives back its dimension, vectors and metadata. */
    constructor FromRecord(rec: VecRecord)
      ensures ToRecord() == rec
      ensures Valid() <==> |rec.vectors| == |rec.metadata| && VectorsOfDimension(rec)
    {
      dimension := rec.dimension;
      vectors := rec.vectors;
      metadata := rec.metadata;
    }

    /** Appends a vector and its metadata, or refuses a vector of the wrong
        length and changes nothing. */
    method Insert(vector: Vector, meta: Option<Metadata>) returns (r: Outcome)
      modifies this
      ensures dimension == old(dimension)
      ensures |vector| != dimension ==>
                r == Fail(DimensionMismatch) && vectors == old(vectors) && metadata == old(metadata)
      ensures |vector| == dimension ==>
                && r == Pass
                && vectors == old(vectors) + [vector]
                && metadata == old(metadata) + [MetadataOrEmpty(meta)]
      ensures old(Valid()) ==> Valid()
    {
      if |vector| != dimension {
        return Fail(DimensionMismatch);
      }
      vectors := vectors + [vector];
      metadata := metadata + [MetadataOrEmpty(meta)];
      r := Pass;
    }

    /** Ranks every stored entry by its similarity to the query and returns the
        best `topK` (as the slice `[:topK]` counts them), best first. */
    method Search(query: Vector, topK: int, similarity: (Vector, Vector) -> real)
      returns (r: Result<seq<Hit>>)
      ensures SearchResult(ToRecord(), query, topK, similarity, r)
      ensures Valid() && (vectors == [] || |query| == dimension) ==> r.Ok?
    {
      var n := |vectors|;
      if n == 0 {
        return Ok([]);
      }
      if |query| != dimension {
        return Err(DimensionMismatch);
      }
      if exists i :: 0 <= i < n && |vectors[i]| != dimension {
        return Err(MalformedTable);
      }
      var scores := Scores(vectors, query, similarity);
      var picked := Ranking.TopIndices(scores, Ranking.SliceCount(n, topK));
      var hits: seq<Hit> := [];
      var i := 0;
      while i < |picked|
        invariant 0 <= i <= |picked| && |hits| == i
        invariant forall j :: 0 <= j < i ==> picked[j] < |metadata|
        invariant forall j :: 0 <= j < i ==> hits[j] == Hit(picked[j], scores[picked[j]], metadata[picked[j]])
      {
        var index := picked[i];
        if index >= |metadata| {
          return Err(MalformedTable);
        }
        hits := hits + [Hit(index, scores[index], metadata[index])];
        i := i + 1;
      }
      assert HitIndices(hits) == picked;
      r := Ok(hits);
    }
  }
}
