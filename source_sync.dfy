/**
 * The ingestion synchronizer between the vector collection and the
 * `user_sources` metadata table: `upsert_embedding`, `check_if_file_exists`,
 * `delete_user_file`, `get_user_all_sources` and `get_source_id_by_title`.
 *
 * The metadata store is `Option<Table>` in the specification functions and
 * a possibly-null `UserSourceDb` in the methods: absent means no database
 * engine is configured. Every point where a store call may raise is a
 * boolean input (`Faults`, `DeleteFaults`); a missing collection is the
 * collection's `present` flag, and writing to or deleting from a missing
 * collection raises. Fresh point ids (one `uuid4()` per chunk) are the
 * caller-supplied function `newId` of the chunk index.
 *
 * Each method is proved against a specification function (`Ingest`,
 * `DeleteFile`) from the old stores to the result and the new stores; the
 * lemmas state the saga's properties about those functions.
 */
module SourceSync {
  import opened Wrappers
  import opened Seqs
  import opened SourceSchema
  import opened UserSourceCrud
  import opened VectorStore

  /** The replay scroll of an already ingested source reads at most this many points. */
  const ReplayLimit: nat := 1000

  /** The six values of `supabase_status`. */
  datatype SupabaseStatus = Created | Updated | NotConfigured | Failed | RolledBack | NotAffected

  function SupabaseStatusLabel(s: SupabaseStatus): string {
    match s
    case Created => "created"
    case Updated => "updated"
    case NotConfigured => "not_configured"
    case Failed => "failed"
    case RolledBack => "rolled_back"
    case NotAffected => "not_affected"
  }

  /** Both stores, as one value. */
  datatype Stores = Stores(collectionExists: bool, points: seq<Point>, meta: Option<Table>)

  /** The arguments of `upsert_embedding`. */
  datatype Request = Request(
    userId: string,
    sourceId: string,
    sourceTitle: string,
    chunks: seq<string>,
    embeddings: seq<Vector>,
    sourceType: string)

  /** Which store calls of `upsert_embedding` raise. */
  datatype Faults = Faults(
    existsCheckRaises: bool,
    metadataRaises: bool,
    vectorWriteRaises: bool,
    rollbackRaises: bool)

  /** The dictionaries `upsert_embedding` returns, one variant per return statement. */
  datatype IngestResult =
    | AlreadyIngested(existingPoints: nat, supabase: SupabaseStatus)
    | ReplayMetadataFailed
    | LengthMismatch
    | MetadataFailed
    | Ingested(pointsUpserted: nat, supabase: SupabaseStatus, recordId: Option<nat>)
    | VectorWriteFailed(supabase: SupabaseStatus)

  function StatusOf(r: IngestResult): string {
    if r.AlreadyIngested? || r.Ingested? then "success" else "error"
  }

  /** The `message` key, when it is a fixed text (a raised error's text is not modelled). */
  function MessageOf(r: IngestResult): Option<string> {
    match r
    case AlreadyIngested(_, _) => Some("file already exists")
    case ReplayMetadataFailed => Some("file already exists but failed to update metadata")
    case LengthMismatch => Some("mismatch in the chunks and embeddings")
    case MetadataFailed => Some("Failed to upsert metadata to Supabase")
    case Ingested(_, _, _) => None
    case VectorWriteFailed(_) => None
  }

  /** The `supabase_status` key, when present. */
  function SupabaseStatusOf(r: IngestResult): Option<SupabaseStatus> {
    match r
    case AlreadyIngested(_, s) => Some(s)
    case ReplayMetadataFailed => Some(Failed)
    case LengthMismatch => None
    case MetadataFailed => Some(Failed)
    case Ingested(_, s, _) => Some(s)
    case VectorWriteFailed(s) => Some(s)
  }

  /** The `points_upserted` key, when present. */
  function PointsUpsertedOf(r: IngestResult): Option<nat> {
    match r
    case AlreadyIngested(n, _) => Some(n)
    case Ingested(n, _, _) => Some(n)
    case _ => None
  }

  /** The `file_replaced` key, when present: the existence flag, false on both paths that report it. */
  function FileReplacedOf(r: IngestResult): Option<bool> {
    if r.AlreadyIngested? || r.Ingested? then Some(false) else None
  }

  /** `check_if_file_exists`: a scroll of at most one point of this user's source. */
  function FileExists(st: Stores, userId: string, sourceId: string, raises: bool): (r: bool)
    ensures r <==> st.collectionExists && !raises
                   && exists i :: 0 <= i < |st.points| && OfSource(st.points[i], userId, sourceId)
  {
    if !st.collectionExists || raises then false
    else
      var p := (pt: Point) => OfSource(pt, userId, sourceId);
      FilterNonEmpty(st.points, p);
      |Scroll(st.points, p, 1)| > 0
  }

  predicate HasSourceId(p: Point, sourceId: string) {
    p.payload.sourceId == sourceId
  }

  /** The replay scroll: points with this `source_id`, whoever owns them, at most `ReplayLimit`. */
  function ReplayCount(points: seq<Point>, sourceId: string): (n: nat)
    ensures n <= ReplayLimit
    ensures n == Min(|Filter(points, (p: Point) => HasSourceId(p, sourceId))|, ReplayLimit)
  {
    |Scroll(points, (p: Point) => HasSourceId(p, sourceId), ReplayLimit)|
  }

  function Min(a: nat, b: nat): nat {
    if a <= b then a else b
  }

  /** What the metadata upsert did: skipped (no engine), wrote, or raised. */
  datatype MetaWrite = Skipped | Wrote(table: Table, row: UserSource, isNew: bool) | WriteRaised

  function MetaUpsert(meta: Option<Table>, req: Request, raises: bool, now: nat): MetaWrite {
    match meta
    case None => Skipped
    case Some(t) =>
      if raises then WriteRaised
      else
        match Upserted(t, req.userId, req.sourceId, req.sourceTitle, now, req.sourceType)
        case UpsertRaised => WriteRaised
        case UpsertDone(t', row, isNew) => Wrote(t', row, isNew)
  }

  /** Point i of the batch: chunk i, its embedding, and the payload naming it. */
  function PointFor(req: Request, newId: nat -> string, i: nat): Point
    requires i < |req.chunks| && i < |req.embeddings|
  {
    Point(newId(i), req.embeddings[i],
          Payload(req.userId, req.sourceId, i, req.chunks[i], |req.chunks[i]|))
  }

  /** The batch built by the `enumerate(zip(chunks, embeddings))` loop. */
  function PointsFor(req: Request, newId: nat -> string): (batch: seq<Point>)
    requires |req.chunks| == |req.embeddings|
    ensures |batch| == |req.chunks|
  {
    seq(|req.chunks|, i requires 0 <= i < |req.chunks| => PointFor(req, newId, i))
  }

  /** The result of `upsert_embedding` and the stores it leaves. */
  datatype IngestOutcome = IngestOutcome(result: IngestResult, stores: Stores)

  /** `upsert_embedding` at clock reading `now`. */
  function Ingest(st: Stores, req: Request, faults: Faults, newId: nat -> string, now: nat): IngestOutcome {
    if FileExists(st, req.userId, req.sourceId, faults.existsCheckRaises) then
      var n := ReplayCount(st.points, req.sourceId);
      match MetaUpsert(st.meta, req, faults.metadataRaises, now)
      case Skipped => IngestOutcome(AlreadyIngested(n, NotConfigured), st)
      case WriteRaised => IngestOutcome(ReplayMetadataFailed, st)
      case Wrote(t, _, _) => IngestOutcome(AlreadyIngested(n, Updated), st.(meta := Some(t)))
    else if |req.chunks| != |req.embeddings| then
      IngestOutcome(LengthMismatch, st)
    else
      match MetaUpsert(st.meta, req, faults.metadataRaises, now)
      case WriteRaised => IngestOutcome(MetadataFailed, st)
      case Skipped => NewPoints(st, req, faults, newId, None, false)
      case Wrote(t, row, isNew) => NewPoints(st.(meta := Some(t)), req, faults, newId, Some(row), isNew)
  }

  /**
   * The vector write of a new source, after the metadata step left `st`
   * and produced `row` (absent without an engine), new or not.
   */
  function NewPoints(st: Stores, req: Request, faults: Faults, newId: nat -> string,
                     row: Option<UserSource>, isNew: bool): IngestOutcome
    requires |req.chunks| == |req.embeddings|
  {
    var batch := PointsFor(req, newId);
    if st.collectionExists && !faults.vectorWriteRaises then
      var status := if st.meta.None? then NotConfigured else if isNew then Created else Updated;
      var recordId := if row.Some? then Some(row.value.id) else None;
      IngestOutcome(Ingested(|batch|, status, recordId), st.(points := AfterUpsert(st.points, batch)))
    else
      var rolledBack := st.meta.Some? && row.Some? && isNew;
      var meta :=
        if rolledBack && !faults.rollbackRaises
        then Some(Deleted(st.meta.value, req.userId, req.sourceId, req.sourceTitle).table)
        else st.meta;
      IngestOutcome(VectorWriteFailed(if st.meta.Some? && isNew then RolledBack else NotAffected),
                    st.(meta := meta))
  }

  /**
   * Replay: once points of this user's source exist, no point is written,
   * `file_replaced` is false and `points_upserted` counts the points with
   * this `source_id` of any user, at most 1000; only the metadata store
   * may change, by an upsert of the triple.
   */
  lemma ReplayWritesNoPoints(st: Stores, req: Request, faults: Faults, newId: nat -> string, now: nat)
    requires FileExists(st, req.userId, req.sourceId, faults.existsCheckRaises)
    ensures var o := Ingest(st, req, faults, newId, now);
      o.stores.points == st.points && o.stores.collectionExists == st.collectionExists
      && (o.result.AlreadyIngested? || o.result.ReplayMetadataFailed?)
      && (o.result.AlreadyIngested? ==>
            FileReplacedOf(o.result) == Some(false)
            && o.result.existingPoints == Min(|Filter(st.points, (p: Point) => HasSourceId(p, req.sourceId))|, 1000)
            && (st.meta.Some? ==>
                  o.result.supabase == Updated
                  && o.stores.meta == Some(Upserted(st.meta.value, req.userId, req.sourceId, req.sourceTitle, now, req.sourceType).table)))
  {
  }

  /**
   * The length check runs only on the new-source path, and a mismatch
   * there leaves both stores untouched.
   */
  lemma LengthMismatchTouchesNothing(st: Stores, req: Request, faults: Faults, newId: nat -> string, now: nat)
    requires |req.chunks| != |req.embeddings|
    ensures var o := Ingest(st, req, faults, newId, now);
      !FileExists(st, req.userId, req.sourceId, faults.existsCheckRaises) ==>
        o.result == LengthMismatch && StatusOf(o.result) == "error" && o.stores == st
  {
  }

  /** A raising metadata upsert on the new-source path leaves both stores untouched. */
  lemma MetadataFailureTouchesNothing(st: Stores, req: Request, faults: Faults, newId: nat -> string, now: nat)
    requires !FileExists(st, req.userId, req.sourceId, faults.existsCheckRaises)
    requires |req.chunks| == |req.embeddings|
    requires MetaUpsert(st.meta, req, faults.metadataRaises, now).WriteRaised?
    ensures var o := Ingest(st, req, faults, newId, now);
      o.result == MetadataFailed && SupabaseStatusOf(o.result) == Some(Failed)
      && StatusOf(o.result) == "error" && o.stores == st
  {
  }

  /** A success wrote exactly the batch built from the request. */
  lemma IngestedWritesBatch(st: Stores, req: Request, faults: Faults, newId: nat -> string, now: nat)
    requires Ingest(st, req, faults, newId, now).result.Ingested?
    ensures |req.chunks| == |req.embeddings|
    ensures var o := Ingest(st, req, faults, newId, now);
      o.stores.collectionExists && o.stores.points == AfterUpsert(st.points, PointsFor(req, newId))
      && o.result.pointsUpserted == |req.chunks|
  {
    var o := Ingest(st, req, faults, newId, now);
    assert !FileExists(st, req.userId, req.sourceId, faults.existsCheckRaises);
    assert |req.chunks| == |req.embeddings|;
    match MetaUpsert(st.meta, req, faults.metadataRaises, now)
    case WriteRaised =>
    case Skipped =>
      assert o == NewPoints(st, req, faults, newId, None, false);
    case Wrote(t, row, isNew) =>
      assert o == NewPoints(st.(meta := Some(t)), req, faults, newId, Some(row), isNew);
  }

  /**
   * On success, point i of the new batch carries chunk index i, chunk i as
   * text, its length, and the caller's user and source; with fresh ids
   * (`uuid4()`: distinct from each other and from every stored id) the
   * batch is appended as is, and `points_upserted` is the chunk count.
   */
  lemma SuccessAddsOnePointPerChunk(st: Stores, req: Request, faults: Faults, newId: nat -> string, now: nat)
    requires Ingest(st, req, faults, newId, now).result.Ingested?
    requires forall i, k :: 0 <= i < |req.chunks| && 0 <= k < |st.points| ==> st.points[k].id != newId(i)
    requires forall i, j :: 0 <= i < j < |req.chunks| ==> newId(i) != newId(j)
    ensures var o := Ingest(st, req, faults, newId, now);
      |req.chunks| == |req.embeddings|
      && o.result.pointsUpserted == |req.chunks|
      && |o.stores.points| == |st.points| + |req.chunks|
      && o.stores.points[..|st.points|] == st.points
      && forall i :: 0 <= i < |req.chunks| ==>
           var p := o.stores.points[|st.points| + i];
           p.id == newId(i) && p.vector == req.embeddings[i]
           && p.payload == Payload(req.userId, req.sourceId, i, req.chunks[i], |req.chunks[i]|)
  {
    IngestedWritesBatch(st, req, faults, newId, now);
    var batch := PointsFor(req, newId);
    assert forall i :: 0 <= i < |batch| ==> batch[i].id == newId(i);
    UpsertFresh(st.points, batch);
    var after := Ingest(st, req, faults, newId, now).stores.points;
    assert after == st.points + batch;
    assert after[..|st.points|] == st.points;
    forall i | 0 <= i < |req.chunks|
      ensures var p := after[|st.points| + i];
        p.id == newId(i) && p.vector == req.embeddings[i]
        && p.payload == Payload(req.userId, req.sourceId, i, req.chunks[i], |req.chunks[i]|)
    {
      assert after[|st.points| + i] == batch[i] == PointFor(req, newId, i);
    }
  }

  /**
   * Ingesting the same source twice: after a successful first call with
   * at least one chunk and fresh ids, a second call whose existence check
   * does not raise finds the points, writes none and reports
   * `file_replaced` false. Its `points_upserted` counts the points with
   * this `source_id` of any user, capped at 1000, so it equals the first
   * call's count when no stored point already carried that `source_id`
   * and there are at most 1000 chunks.
   */
  lemma IngestTwiceReplays(st: Stores, req: Request, faults: Faults, faults': Faults,
                           newId: nat -> string, newId': nat -> string, now: nat, now': nat)
    requires Ingest(st, req, faults, newId, now).result.Ingested? && |req.chunks| > 0
    requires forall i, k :: 0 <= i < |req.chunks| && 0 <= k < |st.points| ==> st.points[k].id != newId(i)
    requires forall i, j :: 0 <= i < j < |req.chunks| ==> newId(i) != newId(j)
    requires !faults'.existsCheckRaises
    ensures var o := Ingest(st, req, faults, newId, now);
      var o' := Ingest(o.stores, req, faults', newId', now');
      var before := |Filter(st.points, (p: Point) => HasSourceId(p, req.sourceId))|;
      o'.stores.points == o.stores.points
      && (o'.result.AlreadyIngested? || o'.result.ReplayMetadataFailed?)
      && (o'.result.AlreadyIngested? ==>
            FileReplacedOf(o'.result) == Some(false)
            && o'.result.existingPoints == Min(before + |req.chunks|, ReplayLimit)
            && (before == 0 && |req.chunks| <= ReplayLimit ==>
                  o'.result.existingPoints == o.result.pointsUpserted))
  {
    var o := Ingest(st, req, faults, newId, now);
    FreshBatchAppended(st, req, faults, newId, now);
    assert OfSource(o.stores.points[|st.points| + 0], req.userId, req.sourceId);
    assert FileExists(o.stores, req.userId, req.sourceId, faults'.existsCheckRaises);
    ReplayWritesNoPoints(o.stores, req, faults', newId', now');
    BatchSourceCount(st.points, req, newId);
  }

  /** A success with fresh, distinct ids leaves the collection present with the batch appended and counted. */
  lemma FreshBatchAppended(st: Stores, req: Request, faults: Faults, newId: nat -> string, now: nat)
    requires Ingest(st, req, faults, newId, now).result.Ingested?
    requires forall i, k :: 0 <= i < |req.chunks| && 0 <= k < |st.points| ==> st.points[k].id != newId(i)
    requires forall i, j :: 0 <= i < j < |req.chunks| ==> newId(i) != newId(j)
    ensures |req.chunks| == |req.embeddings|
    ensures var o := Ingest(st, req, faults, newId, now);
      o.stores.collectionExists && o.stores.points == st.points + PointsFor(req, newId)
      && o.result.pointsUpserted == |req.chunks|
  {
    IngestedWritesBatch(st, req, faults, newId, now);
    var batch := PointsFor(req, newId);
    assert forall i :: 0 <= i < |batch| ==> batch[i].id == newId(i);
    UpsertFresh(st.points, batch);
  }

  /** Every point of a request's batch carries its `source_id`. */
  lemma BatchSourceCount(points: seq<Point>, req: Request, newId: nat -> string)
    requires |req.chunks| == |req.embeddings|
    ensures |Filter(points + PointsFor(req, newId), (p: Point) => HasSourceId(p, req.sourceId))|
         == |Filter(points, (p: Point) => HasSourceId(p, req.sourceId))| + |req.chunks|
  {
    var has := (p: Point) => HasSourceId(p, req.sourceId);
    var batch := PointsFor(req, newId);
    FilterAppend(points, batch, has);
    assert forall i :: 0 <= i < |batch| ==> has(batch[i]);
    FilterKeepsAll(batch, has);
  }

  /** Every ingestion outcome keeps the collection at one point per id. */
  lemma IngestKeepsOnePointPerId(st: Stores, req: Request, faults: Faults, newId: nat -> string, now: nat)
    requires OnePointPerId(st.points)
    ensures OnePointPerId(Ingest(st, req, faults, newId, now).stores.points)
  {
    if Ingest(st, req, faults, newId, now).result.Ingested? {
      IngestedWritesBatch(st, req, faults, newId, now);
      UpsertKeepsOnePerId(st.points, PointsFor(req, newId));
    }
  }

  /**
   * After a failed vector write the metadata row is deleted only when an
   * engine is configured, this call created the row and the delete does
   * not raise; the status is `rolled_back` exactly when the row was created
   * here, whether or not that delete raised. A successful rollback gives
   * back the rows the table had before the call. No point is written.
   */
  lemma VectorFailureRollsBack(st: Stores, req: Request, faults: Faults, newId: nat -> string, now: nat)
    requires Ingest(st, req, faults, newId, now).result.VectorWriteFailed?
    ensures var o := Ingest(st, req, faults, newId, now);
      var w := MetaUpsert(st.meta, req, faults.metadataRaises, now);
      var created := w.Wrote? && w.isNew;
      o.stores.points == st.points
      && (o.result.supabase == RolledBack <==> created)
      && (o.result.supabase == NotAffected <==> !created)
      && (created && !faults.rollbackRaises ==> o.stores.meta.Some? && o.stores.meta.value.rows == st.meta.value.rows)
      && (created && faults.rollbackRaises ==> o.stores.meta == Some(w.table))
      && (!created ==> o.stores.meta == (if w.Wrote? then Some(w.table) else st.meta))
  {
    var w := MetaUpsert(st.meta, req, faults.metadataRaises, now);
    if w.Wrote? && w.isNew {
      RollbackRestores(st.meta.value, req.userId, req.sourceId, req.sourceTitle, now, req.sourceType);
    }
  }

  /** Without an engine every metadata step is skipped and ingestion reports `not_configured`. */
  lemma UnconfiguredSkipsMetadata(st: Stores, req: Request, faults: Faults, newId: nat -> string, now: nat)
    requires st.meta.None?
    ensures var o := Ingest(st, req, faults, newId, now);
      o.stores.meta.None?
      && (o.result.AlreadyIngested? || o.result.Ingested? ==> SupabaseStatusOf(o.result) == Some(NotConfigured))
      && (o.result.VectorWriteFailed? ==> o.result.supabase == NotAffected)
      && !o.result.ReplayMetadataFailed? && !o.result.MetadataFailed?
      && (o.result.Ingested? ==> o.result.recordId.None?)
  {
  }

  /** Which store calls of `delete_user_file` raise. */
  datatype DeleteFaults = DeleteFaults(lookupRaises: bool, vectorDeleteRaises: bool, metadataDeleteRaises: bool)

  /** The two-column filter of `get_source_id_by_title`. */
  predicate TitleMatch(row: UserSource, userId: string, title: string) {
    row.userId == userId && row.sourceTitle == title
  }

  /** `get_source_id_by_title`: the `source_id` of the first row with that user and title. */
  function SourceIdByTitle(meta: Option<Table>, userId: string, title: string, raises: bool): (r: Option<string>)
    ensures meta.None? || raises ==> r.None?
    ensures meta.Some? && !raises ==>
      (r.None? <==> forall j :: 0 <= j < |meta.value.rows| ==> !TitleMatch(meta.value.rows[j], userId, title))
    ensures meta.Some? && !raises && r.Some? ==>
      exists i :: 0 <= i < |meta.value.rows| && TitleMatch(meta.value.rows[i], userId, title)
        && (forall j :: 0 <= j < i ==> !TitleMatch(meta.value.rows[j], userId, title))
        && r.value == meta.value.rows[i].sourceId
  {
    match meta
    case None => None
    case Some(t) =>
      if raises then None
      else
        match FirstIndex(t.rows, (row: UserSource) => TitleMatch(row, userId, title))
        case None => None
        case Some(i) => Some(t.rows[i].sourceId)
  }

  /** `get_user_all_sources`: the `source_id` of each of the user's rows, in table order. */
  function UserAllSources(meta: Option<Table>, userId: string, raises: bool): (ids: seq<string>)
    ensures meta.None? || raises ==> ids == []
    ensures meta.Some? && !raises ==> |ids| == |GetUserSources(meta.value, userId)|
    ensures meta.Some? && !raises ==> forall i :: 0 <= i < |ids| ==>
      ids[i] == GetUserSources(meta.value, userId)[i].sourceId
  {
    match meta
    case None => []
    case Some(t) =>
      if raises then []
      else
        var rows := GetUserSources(t, userId);
        seq(|rows|, i requires 0 <= i < |rows| => rows[i].sourceId)
  }

  datatype DeleteResult = FileNotFound | DeleteFailed | FileDeleted(sourceId: string)

  function DeleteStatusOf(r: DeleteResult): string {
    if r.FileDeleted? then "success" else "error"
  }

  /** The fixed messages; a raised error's text is not modelled. */
  function DeleteMessageOf(r: DeleteResult, userId: string): Option<string> {
    match r
    case FileNotFound => Some("file not found")
    case DeleteFailed => None
    case FileDeleted(s) => Some("Deleted file " + s + " for user " + userId)
  }

  datatype DeleteOutcome = DeleteOutcome(result: DeleteResult, stores: Stores)

  /** `delete_user_file`. */
  function DeleteFile(st: Stores, userId: string, title: string, faults: DeleteFaults): DeleteOutcome {
    match SourceIdByTitle(st.meta, userId, title, faults.lookupRaises)
    case None => DeleteOutcome(FileNotFound, st)
    case Some(sourceId) =>
      if sourceId == "" then DeleteOutcome(FileNotFound, st)
      else if !st.collectionExists || faults.vectorDeleteRaises then DeleteOutcome(DeleteFailed, st)
      else
        var meta :=
          if st.meta.Some? && !faults.metadataDeleteRaises
          then Some(Deleted(st.meta.value, userId, sourceId, title).table)
          else st.meta;
        DeleteOutcome(FileDeleted(sourceId), Stores(st.collectionExists, WithoutSource(st.points, userId, sourceId), meta))
  }

  /**
   * `delete_user_file`: an unresolved (or empty) `source_id` is "file not
   * found" and touches nothing; a raising vector delete is an error that
   * touches nothing (the metadata delete is not attempted); otherwise every
   * point of the user's source goes, the rest stay, and the result is a
   * success whether or not the metadata delete raised.
   */
  lemma DeleteFileOutcomes(st: Stores, userId: string, title: string, faults: DeleteFaults)
    ensures var o := DeleteFile(st, userId, title, faults);
      var sid := SourceIdByTitle(st.meta, userId, title, faults.lookupRaises);
      (sid.None? || sid == Some("") ==> o.result == FileNotFound && o.stores == st
                                        && DeleteMessageOf(o.result, userId) == Some("file not found"))
      && (sid.Some? && sid.value != "" && (!st.collectionExists || faults.vectorDeleteRaises) ==>
            o.result == DeleteFailed && o.stores == st)
      && (sid.Some? && sid.value != "" && st.collectionExists && !faults.vectorDeleteRaises ==>
            o.result == FileDeleted(sid.value) && DeleteStatusOf(o.result) == "success"
            && DeleteMessageOf(o.result, userId) == Some("Deleted file " + sid.value + " for user " + userId)
            && o.stores.collectionExists
            && o.stores.points == WithoutSource(st.points, userId, sid.value)
            && (faults.metadataDeleteRaises ==> o.stores.meta == st.meta)
            && (!faults.metadataDeleteRaises ==>
                  st.meta.Some? && o.stores.meta == Some(Deleted(st.meta.value, userId, sid.value, title).table)))
      && (o.result.FileDeleted? ==>
            DeleteStatusOf(o.result) == "success"
            && (forall p :: p in o.stores.points ==> !OfSource(p, userId, o.result.sourceId))
            && (forall p :: !OfSource(p, userId, o.result.sourceId) ==>
                  multiset(o.stores.points)[p] == multiset(st.points)[p]))
  {
  }

  /**
   * The metadata delete removes the very row the title lookup resolved:
   * the first row of that user and title is also the first row of that
   * user, source and title.
   */
  lemma DeleteFileRemovesResolvedRow(st: Stores, userId: string, title: string, faults: DeleteFaults)
    requires st.meta.Some? && !faults.lookupRaises && !faults.metadataDeleteRaises
    requires DeleteFile(st, userId, title, faults).result.FileDeleted?
    ensures var t := st.meta.value;
      var sid := DeleteFile(st, userId, title, faults).result.sourceId;
      var found := GetUserSource(t, userId, sid, title);
      found.Some? && found.value.userId == userId && found.value.sourceTitle == title
      && DeleteFile(st, userId, title, faults).stores.meta == Some(Deleted(t, userId, sid, title).table)
      && Deleted(t, userId, sid, title).removed
      && exists i :: 0 <= i < |t.rows| && TitleMatch(t.rows[i], userId, title)
           && (forall j :: 0 <= j < i ==> !TitleMatch(t.rows[j], userId, title))
           && MatchIndex(t, userId, sid, title) == Some(i)
           && Deleted(t, userId, sid, title).table.rows == t.rows[..i] + t.rows[i + 1..]
  {
    var t := st.meta.value;
    var i := FirstIndex(t.rows, (row: UserSource) => TitleMatch(row, userId, title)).value;
    var sid := t.rows[i].sourceId;
    assert Keyed(t.rows[i], userId, sid, title);
    var m := MatchIndex(t, userId, sid, title);
    assert m.Some?;
    assert m.value == i;
  }

  /** Without an engine nothing resolves: `get_user_all_sources` is empty and a title never resolves. */
  lemma UnconfiguredQueries(userId: string, title: string, raises: bool, st: Stores, faults: DeleteFaults)
    requires st.meta.None?
    ensures UserAllSources(None, userId, raises) == []
    ensures SourceIdByTitle(None, userId, title, raises).None?
    ensures DeleteFile(st, userId, title, faults) == DeleteOutcome(FileNotFound, st)
  {
  }

  /** The session-level state: the collection and, when an engine is configured, the table. */
  function Snapshot(coll: Collection, db: UserSourceDb?): Stores
    reads coll, db
  {
    Stores(coll.present, coll.points, if db == null then None else Some(db.State()))
  }

  /** The point-building loop of `upsert_embedding`. */
  method BuildPoints(req: Request, newId: nat -> string) returns (points: seq<Point>)
    requires |req.chunks| == |req.embeddings|
    ensures points == PointsFor(req, newId)
  {
    points := [];
    for i := 0 to |req.chunks|
      invariant |points| == i
      invariant forall j :: 0 <= j < i ==> points[j] == PointFor(req, newId, j)
    {
      var point := Point(newId(i), req.embeddings[i],
                         Payload(req.userId, req.sourceId, i, req.chunks[i], |req.chunks[i]|));
      points := points + [point];
    }
  }

  /** `check_if_file_exists` against the live collection. */
  method CheckIfFileExists(coll: Collection, userId: string, sourceId: string, raises: bool) returns (found: bool)
    ensures found == FileExists(Stores(coll.present, coll.points, None), userId, sourceId, raises)
  {
    if !coll.present || raises {
      return false;
    }
    var results := Scroll(coll.points, (pt: Point) => OfSource(pt, userId, sourceId), 1);
    found := |results| > 0;
  }

  /** `upsert_embedding`: the dedup gate, then metadata first and vectors last, with compensation. */
  method UpsertEmbedding(coll: Collection, db: UserSourceDb?, req: Request, faults: Faults,
                         newId: nat -> string, now: nat)
    returns (result: IngestResult)
    modifies coll, db
    ensures var o := Ingest(old(Snapshot(coll, db)), req, faults, newId, now);
      result == o.result && Snapshot(coll, db) == o.stores
  {
    var fileExist := CheckIfFileExists(coll, req.userId, req.sourceId, faults.existsCheckRaises);
    if fileExist {
      var points := Scroll(coll.points, (p: Point) => HasSourceId(p, req.sourceId), ReplayLimit);
      if db != null {
        if faults.metadataRaises {
          return ReplayMetadataFailed;
        }
        var outcome := db.UpsertUserSource(req.userId, req.sourceId, req.sourceTitle, now, req.sourceType);
        if outcome.None? {
          return ReplayMetadataFailed;
        }
      }
      return AlreadyIngested(|points|, if db != null then Updated else NotConfigured);
    }

    if |req.chunks| != |req.embeddings| {
      return LengthMismatch;
    }

    var row: Option<UserSource> := None;
    var isNew := false;
    if db != null {
      if faults.metadataRaises {
        return MetadataFailed;
      }
      var outcome := db.UpsertUserSource(req.userId, req.sourceId, req.sourceTitle, now, req.sourceType);
      if outcome.None? {
        return MetadataFailed;
      }
      row := Some(outcome.value.0);
      isNew := outcome.value.1;
    }

    var points := BuildPoints(req, newId);
    if coll.present && !faults.vectorWriteRaises {
      coll.Upsert(points);
      return Ingested(|points|, if db == null then NotConfigured else if isNew then Created else Updated,
                      if row.Some? then Some(row.value.id) else None);
    }

    if db != null && row.Some? && isNew && !faults.rollbackRaises {
      var _ := db.DeleteUserSource(req.userId, req.sourceId, req.sourceTitle);
    }
    return VectorWriteFailed(if db != null && isNew then RolledBack else NotAffected);
  }

  /** `delete_user_file`: resolve the title, delete the points, then try the metadata row. */
  method DeleteUserFile(coll: Collection, db: UserSourceDb?, userId: string, title: string, faults: DeleteFaults)
    returns (result: DeleteResult)
    modifies coll, db
    ensures var o := DeleteFile(old(Snapshot(coll, db)), userId, title, faults);
      result == o.result && Snapshot(coll, db) == o.stores
  {
    var meta := if db == null then None else Some(db.State());
    var sourceId := SourceIdByTitle(meta, userId, title, faults.lookupRaises);
    if sourceId.None? || sourceId.value == "" {
      return FileNotFound;
    }
    if !coll.present || faults.vectorDeleteRaises {
      return DeleteFailed;
    }
    coll.DeleteSource(userId, sourceId.value);
    if db != null && !faults.metadataDeleteRaises {
      var _ := db.DeleteUserSource(userId, sourceId.value, title);
    }
    return FileDeleted(sourceId.value);
  }
}
