/**
 * The vector store the service writes to and searches (vectorstore.py): a
 * collection of points upserted by identifier, searched through Qdrant. The
 * search itself (dot-product ranking, `limit`) happens inside the library and
 * is the opaque function `search`; what callers may expect of it is stated as
 * named assumptions below, never proved.
 */
module Vectorstore {
  import opened Wrappers
  import opened DataModel

  /** The library's search: stored points, query vector and limit to hits. */
  type SearchFn = (seq<DocumentChunk>, Vector, nat) -> seq<RetrievedDocumentChunk>

  /** Assumption: searching an empty collection returns no hits. */
  ghost predicate EmptyGivesNoHits(search: SearchFn) {
    forall v, limit :: search([], v, limit) == []
  }

  /** Assumption: never more hits than `limit`. */
  ghost predicate AtMostLimit(search: SearchFn) {
    forall points, v, limit :: |search(points, v, limit)| <= limit
  }

  /** `hit` carries the text, metadata and identifier of a stored point. */
  ghost predicate IsStored(points: seq<DocumentChunk>, hit: RetrievedDocumentChunk) {
    exists p :: p in points && p.id == hit.id && p.text == hit.text && p.metadata == hit.metadata
  }

  /** Assumption: every hit is one of the stored points. */
  ghost predicate HitsAreStored(search: SearchFn) {
    forall points, v, limit, i :: 0 <= i < |search(points, v, limit)| ==> IsStored(points, search(points, v, limit)[i])
  }

  /** No identifier occurs twice. */
  predicate DistinctIds(points: seq<DocumentChunk>) {
    forall i, j :: 0 <= i < j < |points| ==> points[i].id != points[j].id
  }

  /** Position of the point with identifier `id`. */
  function IndexOfId(points: seq<DocumentChunk>, id: ChunkId): (r: Option<nat>)
    ensures r.None? <==> forall p :: p in points ==> p.id != id
    ensures r.Some? ==> r.value < |points| && points[r.value].id == id
    ensures r.Some? ==> forall j :: 0 <= j < r.value ==> points[j].id != id
  {
    if points == [] then None
    else if points[0].id == id then Some(0)
    else match IndexOfId(points[1..], id)
      case None => assert points == [points[0]] + points[1..]; None
      case Some(k) => Some(k + 1)
  }

  /** Upserting one point: it replaces the point with the same identifier,
      or is added after all others. */
  function UpsertOne(points: seq<DocumentChunk>, d: DocumentChunk): seq<DocumentChunk> {
    match IndexOfId(points, d.id)
    case Some(k) => points[k := d]
    case None => points + [d]
  }

  /** Upserting a batch, point after point. */
  function Upsert(points: seq<DocumentChunk>, documents: seq<DocumentChunk>): seq<DocumentChunk>
    decreases |documents|
  {
    if documents == [] then points else Upsert(UpsertOne(points, documents[0]), documents[1..])
  }

  /** Upsert keeps identifiers unique. */
  lemma {:induction false} UpsertKeepsDistinct(points: seq<DocumentChunk>, documents: seq<DocumentChunk>)
    requires DistinctIds(points)
    ensures DistinctIds(Upsert(points, documents))
    decreases |documents|
  {
    if documents != [] {
      var d := documents[0];
      var next := UpsertOne(points, d);
      assert DistinctIds(next) by {
        match IndexOfId(points, d.id)
        case Some(k) =>
        case None =>
          forall i | 0 <= i < |points| ensures points[i].id != d.id {
            assert points[i] in points;
          }
      }
      UpsertKeepsDistinct(next, documents[1..]);
    }
  }

  /** Upserting the same point twice is the same as upserting it once. */
  lemma UpsertOneIdempotent(points: seq<DocumentChunk>, d: DocumentChunk)
    ensures UpsertOne(UpsertOne(points, d), d) == UpsertOne(points, d)
  {
    var once := UpsertOne(points, d);
    match IndexOfId(points, d.id)
    case Some(k) =>
      assert once[k] in once;
      assert IndexOfId(once, d.id) == Some(k);
      assert once[k := d] == once;
    case None =>
      assert once[|points|] in once;
      forall j | 0 <= j < |points| ensures once[j].id != d.id {
        assert once[j] == points[j] && points[j] in points;
      }
      assert IndexOfId(once, d.id) == Some(|points|);
      assert once[|points| := d] == once;
  }

  /** Points whose identifiers are new and pairwise different are simply
      added after the stored ones, in order. */
  lemma {:induction false} UpsertFresh(points: seq<DocumentChunk>, documents: seq<DocumentChunk>)
    requires DistinctIds(documents)
    requires forall p, d :: p in points && d in documents ==> p.id != d.id
    ensures Upsert(points, documents) == points + documents
    decreases |documents|
  {
    if documents != [] {
      var d := documents[0];
      assert UpsertOne(points, d) == points + [d];
      var rest := documents[1..];
      forall p, e | p in points + [d] && e in rest ensures p.id != e.id {
        var j :| 0 <= j < |rest| && rest[j] == e;
        assert documents[j + 1] == e;
        if p !in points {
          assert documents[0] == p;
        }
      }
      UpsertFresh(points + [d], rest);
      assert points + [d] + rest == points + documents;
    }
  }

  /** `QdrantVectorstore`: one collection of the store. */
  class QdrantVectorstore {
    var points: seq<DocumentChunk>
    const search: SearchFn

    ghost predicate Valid()
      reads this
    {
      DistinctIds(points)
    }

    /** A new, empty collection. */
    constructor (search: SearchFn)
      ensures Valid() && points == [] && this.search == search
    {
      points := [];
      this.search := search;
    }

    /** `add`: upserts the chunks by identifier. */
    method Add(documents: seq<DocumentChunk>)
      requires Valid()
      modifies this
      ensures Valid()
      ensures points == Upsert(old(points), documents)
    {
      UpsertKeepsDistinct(points, documents);
      points := Upsert(points, documents);
    }

    /** `search`: the library's hits for `embedding` with `limit`. */
    function Search(embedding: Vector, limit: nat): (hits: seq<RetrievedDocumentChunk>)
      reads this
      ensures EmptyGivesNoHits(search) && points == [] ==> hits == []
      ensures AtMostLimit(search) ==> |hits| <= limit
      ensures HitsAreStored(search) ==> forall i :: 0 <= i < |hits| ==> IsStored(points, hits[i])
    {
      search(points, embedding, limit)
    }
  }
}
