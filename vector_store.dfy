/**
 * The vector collection: a set of points, each with an id, an embedding
 * vector and a payload naming the user, the source and the chunk it came
 * from. Upserting a batch writes its points one after another, each
 * replacing any point with its id, so a collection keeps one point per id
 * and within one batch the later point wins; deleting by filter drops
 * every point the filter selects.
 */
module VectorStore {
  import opened Seqs

  /** An embedding vector, left uninterpreted. */
  type Vector = seq<real>

  datatype Payload = Payload(userId: string, sourceId: string, chunkIndex: nat, text: string, chunkLength: nat)

  datatype Point = Point(id: string, vector: Vector, payload: Payload)

  /** The two-field filter `user_id == u and source_id == s`. */
  predicate OfSource(p: Point, userId: string, sourceId: string) {
    p.payload.userId == userId && p.payload.sourceId == sourceId
  }

  /** One point per id: a point is determined by its id and stored once. */
  predicate OnePointPerId(points: seq<Point>) {
    (forall p, q :: p in points && q in points && p.id == q.id ==> p == q)
    && (forall p :: p in points ==> multiset(points)[p] <= 1)
  }

  /** The test that keeps a point whose id is not `id`. */
  function IdIsNot(id: string): Point -> bool {
    (p: Point) => p.id != id
  }

  /** The collection after writing point `q`: any point with its id is replaced. */
  function UpsertPoint(points: seq<Point>, q: Point): seq<Point> {
    Filter(points, IdIsNot(q.id)) + [q]
  }

  /** Writing `q` stores it once, drops every other point with its id, and keeps all points with other ids. */
  lemma UpsertPointSpec(points: seq<Point>, q: Point)
    ensures var r := UpsertPoint(points, q);
      q in r && multiset(r)[q] == 1
      && (forall p :: p in r && p.id == q.id ==> p == q)
      && (forall p: Point :: p.id != q.id ==> multiset(r)[p] == multiset(points)[p])
  {
    var kept := Filter(points, IdIsNot(q.id));
    assert multiset(kept)[q] == 0;
    assert multiset(kept + [q]) == multiset(kept) + multiset{q};
  }

  /** The collection after an upsert of `batch`, written point by point. */
  function AfterUpsert(points: seq<Point>, batch: seq<Point>): seq<Point> {
    if batch == [] then points
    else UpsertPoint(AfterUpsert(points, batch[..|batch| - 1]), batch[|batch| - 1])
  }

  /** An upsert keeps a collection at one point per id. */
  lemma {:induction false} UpsertKeepsOnePerId(points: seq<Point>, batch: seq<Point>)
    requires OnePointPerId(points)
    ensures OnePointPerId(AfterUpsert(points, batch))
  {
    if batch != [] {
      var prev := AfterUpsert(points, batch[..|batch| - 1]);
      UpsertKeepsOnePerId(points, batch[..|batch| - 1]);
      var q := batch[|batch| - 1];
      var r := UpsertPoint(prev, q);
      UpsertPointSpec(prev, q);
      forall p | p in r
        ensures multiset(r)[p] <= 1
      {
        if p.id != q.id { assert multiset(prev)[p] <= 1; }
      }
      forall p, p' | p in r && p' in r && p.id == p'.id
        ensures p == p'
      {
        if p.id != q.id {
          assert multiset(r)[p] == multiset(prev)[p] && multiset(r)[p'] == multiset(prev)[p'];
        }
      }
    }
  }

  /** Writing `q` keeps every stored point with another id. */
  lemma UpsertPointKeeps(points: seq<Point>, q: Point, p: Point)
    requires p in points && p.id != q.id
    ensures p in UpsertPoint(points, q)
  {
    UpsertPointSpec(points, q);
    assert multiset(points)[p] > 0;
  }

  /** An upsert of a non-empty batch is the upsert of all but its last point, then that point. */
  lemma AfterUpsertLast(points: seq<Point>, batch: seq<Point>)
    requires batch != []
    ensures AfterUpsert(points, batch) == UpsertPoint(AfterUpsert(points, batch[..|batch| - 1]), batch[|batch| - 1])
  {
  }

  /** The written point is stored afterwards. */
  lemma UpsertPointHas(points: seq<Point>, q: Point)
    ensures q in UpsertPoint(points, q)
  {
    assert UpsertPoint(points, q)[|UpsertPoint(points, q)| - 1] == q;
  }

  /** A stored batch point survives the batch's last point when their ids differ. */
  lemma LastWinsStep(points: seq<Point>, batch: seq<Point>, i: nat)
    requires i < |batch| - 1 && batch[i] in AfterUpsert(points, batch[..|batch| - 1])
    requires batch[|batch| - 1].id != batch[i].id
    ensures batch[i] in AfterUpsert(points, batch)
  {
    AfterUpsertLast(points, batch);
    UpsertPointKeeps(AfterUpsert(points, batch[..|batch| - 1]), batch[|batch| - 1], batch[i]);
  }

  /** The batch's last point is stored afterwards. */
  lemma LastWinsLast(points: seq<Point>, batch: seq<Point>)
    requires batch != []
    ensures batch[|batch| - 1] in AfterUpsert(points, batch)
  {
    AfterUpsertLast(points, batch);
    UpsertPointHas(AfterUpsert(points, batch[..|batch| - 1]), batch[|batch| - 1]);
  }

  /** Every point of the batch that no later point of the batch overrides is in the collection afterwards. */
  lemma {:induction false} UpsertLastWins(points: seq<Point>, batch: seq<Point>, i: nat)
    requires i < |batch| && forall j :: i < j < |batch| ==> batch[j].id != batch[i].id
    ensures batch[i] in AfterUpsert(points, batch)
  {
    var n := |batch| - 1;
    if i < n {
      var prefix := batch[..n];
      assert forall j :: i < j < |prefix| ==> prefix[j].id != prefix[i].id;
      UpsertLastWins(points, prefix, i);
      LastWinsStep(points, batch, i);
    } else {
      LastWinsLast(points, batch);
    }
  }

  /**
   * An upsert adds only batch points and leaves every point whose id the
   * batch does not carry exactly as often as before.
   */
  lemma {:induction false} UpsertKeepsOthers(points: seq<Point>, batch: seq<Point>)
    ensures forall p :: p in AfterUpsert(points, batch) ==> p in batch || p in points
    ensures forall p: Point :: (forall k :: 0 <= k < |batch| ==> batch[k].id != p.id) ==>
      multiset(AfterUpsert(points, batch))[p] == multiset(points)[p]
  {
    if batch != [] {
      var n := |batch| - 1;
      var prefix := batch[..n];
      UpsertKeepsOthers(points, prefix);
      var prev := AfterUpsert(points, prefix);
      var r := AfterUpsert(points, batch);
      UpsertPointSpec(prev, batch[n]);
      forall p | p in r
        ensures p in batch || p in points
      {
        if p.id != batch[n].id {
          assert multiset(prev)[p] > 0;
          if p in prefix { assert p in batch; }
        }
      }
      forall p: Point | forall k :: 0 <= k < |batch| ==> batch[k].id != p.id
        ensures multiset(r)[p] == multiset(points)[p]
      {
        assert batch[n].id != p.id;
        assert forall k :: 0 <= k < |prefix| ==> prefix[k] == batch[k];
      }
    }
  }

  /** The collection after deleting the points of one user's source. */
  function WithoutSource(points: seq<Point>, userId: string, sourceId: string): (r: seq<Point>)
    ensures forall p :: p in r ==> !OfSource(p, userId, sourceId)
    ensures forall p :: multiset(r)[p] == if OfSource(p, userId, sourceId) then 0 else multiset(points)[p]
  {
    Filter(points, (p: Point) => !OfSource(p, userId, sourceId))
  }

  /** Writing a point whose id is not stored only appends it. */
  lemma UpsertPointFresh(points: seq<Point>, q: Point)
    requires forall i :: 0 <= i < |points| ==> points[i].id != q.id
    ensures UpsertPoint(points, q) == points + [q]
  {
    FilterKeepsAll(points, IdIsNot(q.id));
  }

  /** Batch ids none of which is stored. */
  predicate FreshIds(points: seq<Point>, batch: seq<Point>) {
    forall i, k :: 0 <= i < |points| && 0 <= k < |batch| ==> points[i].id != batch[k].id
  }

  /** Batch ids that are pairwise distinct. */
  predicate DistinctIds(batch: seq<Point>) {
    forall j, k :: 0 <= j < k < |batch| ==> batch[j].id != batch[k].id
  }

  lemma UpsertFreshPrefix(points: seq<Point>, batch: seq<Point>)
    requires batch != [] && FreshIds(points, batch) && DistinctIds(batch)
    ensures FreshIds(points, batch[..|batch| - 1]) && DistinctIds(batch[..|batch| - 1])
  {
  }

  lemma UpsertFreshPrev(points: seq<Point>, batch: seq<Point>)
    requires batch != [] && FreshIds(points, batch) && DistinctIds(batch)
    ensures var n := |batch| - 1;
      forall i :: 0 <= i < |points + batch[..n]| ==> (points + batch[..n])[i].id != batch[n].id
  {
    var n := |batch| - 1;
    var prev := points + batch[..n];
    forall i | 0 <= i < |prev|
      ensures prev[i].id != batch[n].id
    {
      if i < |points| {
        assert prev[i] == points[i];
      } else {
        assert prev[i] == batch[i - |points|];
      }
    }
  }

  /** Appending the last point of a batch after the rest rebuilds `points + batch`. */
  lemma AppendLast(points: seq<Point>, batch: seq<Point>)
    requires batch != []
    ensures (points + batch[..|batch| - 1]) + [batch[|batch| - 1]] == points + batch
  {
    assert batch[..|batch| - 1] + [batch[|batch| - 1]] == batch;
  }

  /** With ids unused so far and distinct within the batch, an upsert only appends the batch. */
  lemma {:induction false} UpsertFresh(points: seq<Point>, batch: seq<Point>)
    requires FreshIds(points, batch) && DistinctIds(batch)
    ensures AfterUpsert(points, batch) == points + batch
  {
    if batch != [] {
      var n := |batch| - 1;
      UpsertFreshPrefix(points, batch);
      UpsertFresh(points, batch[..n]);
      UpsertFreshPrev(points, batch);
      UpsertPointFresh(points + batch[..n], batch[n]);
      AfterUpsertLast(points, batch);
      AppendLast(points, batch);
    }
  }

  /** The collection `OmniAgent`: whether it exists, and its points. */
  class Collection {
    var present: bool
    var points: seq<Point>

    constructor(present: bool, points: seq<Point>)
      ensures this.present == present && this.points == points
    {
      this.present := present;
      this.points := points;
    }

    /** Write a batch (the collection must exist; the caller checks). */
    method Upsert(batch: seq<Point>)
      modifies this
      ensures points == AfterUpsert(old(points), batch) && present == old(present)
    {
      points := AfterUpsert(points, batch);
    }

    /** Delete every point of one user's source. */
    method DeleteSource(userId: string, sourceId: string)
      modifies this
      ensures points == WithoutSource(old(points), userId, sourceId) && present == old(present)
    {
      points := WithoutSource(points, userId, sourceId);
    }
  }
}
