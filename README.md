# OmniAgent ingestion and account synchronizers in Dafny

This project models four sequential cores of the OmniAgent backend and
proves properties of them.

1. The **dual-store ingestion synchronizer** (`upsert_embedding`,
   `check_if_file_exists`, `delete_user_file`, `get_user_all_sources`,
   `get_source_id_by_title`). It keeps the Qdrant collection `OmniAgent`
   consistent with the `user_sources` metadata table. The steps are:
   - a dedup gate on `(user_id, source_id)`;
   - the metadata upsert first and the vector batch last;
   - a compensating delete of the metadata row when the vector write fails
     and this call created the row.
   The CRUD helpers over `user_sources` are modelled with it.
2. The **account synchronizer** of the gRPC `WhatsappServicer`
   (`SaveAccount`, `UpdateAccountStatus`, `GetAccount`) over the CRUD
   helpers of `whatshapp_accounts`.
3. The **word-window chunker** `chunk_text`, shared by the website and PDF
   pipelines. With it come the page assembly of `extract_pdf_text` and the
   guards and result shapes of `embed_websiteText` and `embed_pdf`.
4. The **crawler frontier**: `should_visit` and the breadth-first
   queue/visited/results loop of `crawl_website`.

Files and modules:

- `wrappers.dfy` (`Wrappers`): `Option`.
- `seqs.dfy` (`Seqs`): first match, filter and limited scroll.
- `text.dfy` (`Text`): Python's `str.split()`, `" ".join`, `str(n)`, ASCII
  `lower()` and `in`.
- `source_schema.dfy`, `account_schema.dfy`: the rows of both tables and
  their constraints.
- `vector_store.dfy`: the collection, a class over a sequence of points.
- `user_source_crud.dfy`, `account_crud.dfy`: the CRUD helpers.
  - Each write is a specification function from the old table to the new
    one.
  - A session class (`UserSourceDb`, `AccountStore`) performs the write in
    place, and its methods are proved against those functions.
- `source_sync.dfy` (`SourceSync`), `account_server.dfy` (`AccountServer`):
  the two synchronizers.
- `chunking.dfy`, `website_embed.dfy`, `pdf_embed.dfy`, `crawl.dfy`: the
  text and crawling cores.

Stores and failures are inputs. The vector store is a sequence of points
in a `Collection` object with a `present` flag. The metadata store is
`Option<Table>` in the specification functions and a possibly-null
`UserSourceDb` in the methods. An absent store means no database engine is
configured (`DATABASE_URL` unset). Every store call that may raise has a
boolean in `Faults` or `DeleteFaults`. Fresh `uuid4()` point ids come from
a caller-supplied function of the chunk index; where the number of stored
points is stated, those ids are required to be distinct and unused. `datetime.utcnow()` is a
clock reading `now: nat`.

Points where the code does less than its callers and its naming suggest;
the model follows the code in each case:

- Ingestion treats `(user_id, source_id)` as the identity of a source, but
  the metadata table declares no uniqueness constraint on that pair, and
  rows are keyed by the triple `(user_id, source_id, source_title)`.
  `SourceSchema.DuplicatePairAllowed` exhibits a valid table with two rows
  for one pair.
- `SaveAccount` and `GetAccount` take a phone number and are meant to find
  the account by it (the update branch then edits the row by phone
  number). The code passes the phone number to `get_whatshapp_account`,
  which filters the `user_id` column. See "## Findings".
- The replay path counts points by `source_id` alone, capped at 1000. The
  dedup gate matches both `user_id` and `source_id`. A second ingestion of
  the same source therefore reports the first call's `points_upserted`
  only when no other stored point carried that `source_id` and there were
  at most 1000 chunks (`SourceSync.IngestTwiceReplays`).
- On the replay path the metadata status is `updated` whenever an engine is
  configured, even when the upsert created a row.

`server.py` imports `update_whatshapp_account_by_phone` and
`update_whatshapp_account_status_by_jid`, which are not in
`WhatshappAccount_crud.py`. Their definitions are not part of this model.
They are given the behaviour their call sites imply:

- they update the row keyed by phone number or by jid;
- only non-empty arguments overwrite a column;
- they refresh `updated_at`;
- they report not found when no row matches;
- they raise on a uniqueness or enum violation.

## Model

| member | source | states |
|---|---|---|
| `SourceSchema.ParseSourceType` | backend/agent-core/db/supabase/models/model.py:22-25 | a `source_type` label is accepted exactly when it is "website" or "pdf" |
| `SourceSchema.SourceTypeRoundTrip` | backend/agent-core/db/supabase/models/model.py:22-25 | the two labels and the enum are in one-to-one correspondence |
| `SourceSchema.DuplicatePairAllowed` | backend/agent-core/db/supabase/models/model.py:19-21 | keys are unique, but a valid table may hold two rows with the same `(user_id, source_id)` |
| `UserSourceCrud.MatchIndex` | backend/agent-core/db/supabase/crud/userSource_crud.py:19-24 | position of the first row matching user, source and title; none exactly when no row matches all three |
| `UserSourceCrud.GetUserSource` | backend/agent-core/db/supabase/crud/userSource_crud.py:19-24 | `get_user_source` returns the first row matching all three columns, or none when no row matches |
| `UserSourceCrud.GetUserSources` | backend/agent-core/db/supabase/crud/userSource_crud.py:27-29 | `get_user_sources` returns exactly the rows whose `user_id` matches, each as often as in the table |
| `UserSourceCrud.SourceIdsOfTypeExact` | backend/agent-core/db/supabase/crud/userSource_crud.py:54-59 | the ids returned are exactly those of rows with that user and type |
| `UserSourceCrud.SourceIdsOfTypeAppend` | backend/agent-core/db/supabase/crud/userSource_crud.py:54-59 | the ids come in table order: a row added last contributes its id last |
| `UserSourceCrud.WritesPreserveValid` | backend/agent-core/db/supabase/crud/userSource_crud.py:6-16 | create, delete and upsert keep the auto-increment key unique |
| `UserSourceCrud.UpsertAbsent` | backend/agent-core/db/supabase/crud/userSource_crud.py:41-51 | upserting an absent triple appends one row with the given fields, a fresh key and both timestamps `now`, and reports `is_new`; a label outside the enum raises |
| `UserSourceCrud.UpsertPresent` | backend/agent-core/db/supabase/crud/userSource_crud.py:42-48 | upserting a present triple rewrites only that row's `updated_at`, adds no row and reports `is_new = false` |
| `UserSourceCrud.UpsertIdempotent` | backend/agent-core/db/supabase/crud/userSource_crud.py:41-51 | a second identical upsert reports `is_new = false` and adds no row |
| `UserSourceCrud.DeleteExact` | backend/agent-core/db/supabase/crud/userSource_crud.py:32-38 | deleting removes exactly the matched row and reports true; with no match it reports false and the table is unchanged |
| `UserSourceCrud.RollbackRestores` | backend/agent-core/db/supabase/crud/userSource_crud.py:32-38 | deleting the triple right after an upsert that created it gives back the earlier rows |
| `UserSourceCrud.UserSourceDb.CreateUserSource` | backend/agent-core/db/supabase/crud/userSource_crud.py:6-16 | the in-place insert leaves the table `Created` describes and returns the new row |
| `UserSourceCrud.UserSourceDb.DeleteUserSource` | backend/agent-core/db/supabase/crud/userSource_crud.py:32-38 | the in-place delete leaves the table `Deleted` describes |
| `UserSourceCrud.UserSourceDb.UpsertUserSource` | backend/agent-core/db/supabase/crud/userSource_crud.py:41-51 | the in-place upsert refreshes `updated_at` or inserts, as `Upserted` describes, and returns the row and `is_new` |
| `VectorStore.WithoutSource` | backend/agent-core/db/qdrant/qdrant_client.py:194-204 | deleting by `(user_id, source_id)` drops every point of that pair and keeps every other point |
| `VectorStore.UpsertPointSpec` | backend/agent-core/db/qdrant/qdrant_client.py:101-106 | writing a point stores it once, removes every other point with its id, and keeps every point with another id as often as before |
| `VectorStore.UpsertKeepsOnePerId` | backend/agent-core/db/qdrant/qdrant_client.py:101-106 | a collection with one point per id keeps one point per id after any upsert, repeated ids in the batch included |
| `VectorStore.UpsertLastWins` | backend/agent-core/db/qdrant/qdrant_client.py:101-106 | the last batch point with a given id is in the collection afterwards |
| `VectorStore.UpsertKeepsOthers` | backend/agent-core/db/qdrant/qdrant_client.py:101-106 | an upsert adds only batch points, and a point whose id the batch does not carry is kept exactly as often as before |
| `VectorStore.UpsertFresh` | backend/agent-core/db/qdrant/qdrant_client.py:101-106 | a batch of distinct ids, none of them stored, is appended as it is |
| `VectorStore.Collection.Upsert` | backend/agent-core/db/qdrant/qdrant_client.py:101-106 | the in-place batch write leaves `AfterUpsert` of the old points: each batch point replaces the point with its id |
| `VectorStore.Collection.DeleteSource` | backend/agent-core/db/qdrant/qdrant_client.py:194-204 | the filtered delete leaves `WithoutSource` of the old points |
| `SourceSync.FileExists` | backend/agent-core/db/qdrant/qdrant_client.py:159-181 | false when the collection is absent or a call raises; otherwise true exactly when some point matches both `user_id` and `source_id` |
| `SourceSync.CheckIfFileExists` | backend/agent-core/db/qdrant/qdrant_client.py:159-181 | the live check gives `FileExists` of the collection |
| `SourceSync.ReplayCount` | backend/agent-core/db/qdrant/qdrant_client.py:16-30 | the replay scroll counts the points with this `source_id` of any user, at most 1000 |
| `SourceSync.ReplayWritesNoPoints` | backend/agent-core/db/qdrant/qdrant_client.py:16-56 | once the gate finds points, no point is written, `file_replaced` is false and `points_upserted` is the capped `source_id` count; only the metadata upsert may change anything |
| `SourceSync.LengthMismatchTouchesNothing` | backend/agent-core/db/qdrant/qdrant_client.py:58-60 | on the new-source path a chunk/embedding length mismatch is an error that leaves both stores unchanged |
| `SourceSync.MetadataFailureTouchesNothing` | backend/agent-core/db/qdrant/qdrant_client.py:65-83 | a raising metadata upsert gives `status "error"`, `supabase_status "failed"`, and both stores unchanged |
| `SourceSync.IngestedWritesBatch` | backend/agent-core/db/qdrant/qdrant_client.py:101-119 | a success writes exactly the batch built from the request and reports one point per chunk |
| `SourceSync.SuccessAddsOnePointPerChunk` | backend/agent-core/db/qdrant/qdrant_client.py:85-119 | with fresh `uuid4()` ids (distinct from each other and from every stored id), a success appends one point per chunk: point i carries chunk index i, chunk i, its length, embedding i and the caller's user and source, and `points_upserted` is the chunk count |
| `SourceSync.IngestTwiceReplays` | backend/agent-core/db/qdrant/qdrant_client.py:15-56 | ingesting a source a second time after a successful first call (at least one chunk, fresh ids, a check that does not raise) writes no point and reports a replay with `file_replaced` false; its `points_upserted` is the count of points with that `source_id` before the first call plus the chunk count, capped at 1000, so it equals the first call's count only when that earlier count was 0 and there were at most 1000 chunks |
| `SourceSync.IngestKeepsOnePointPerId` | backend/agent-core/db/qdrant/qdrant_client.py:15-145 | every outcome of `upsert_embedding` keeps the collection at one point per id |
| `SourceSync.VectorFailureRollsBack` | backend/agent-core/db/qdrant/qdrant_client.py:121-138 | after a failed vector write the row is deleted only if this call created it; `rolled_back` is reported exactly then, even when the rollback raised; otherwise `not_affected` |
| `SourceSync.UnconfiguredSkipsMetadata` | backend/agent-core/db/qdrant/qdrant_client.py:32-117 | without an engine every metadata step is skipped and ingestion reports `not_configured` |
| `SourceSync.SourceIdByTitle` | backend/agent-core/db/qdrant/qdrant_client.py:239-255 | none without an engine or on error; otherwise none exactly when no row has that user and title, and else the `source_id` of the first row with that user and title |
| `SourceSync.UserAllSources` | backend/agent-core/db/qdrant/qdrant_client.py:227-236 | [] without an engine or on error; otherwise the `source_id` of each of the user's rows, in table order |
| `SourceSync.DeleteFileOutcomes` | backend/agent-core/db/qdrant/qdrant_client.py:184-224 | an unresolved title or empty `source_id` is "file not found" and touches nothing; a missing collection or raising vector delete is an error that touches nothing; otherwise the result is success with message "Deleted file <id> for user <user>", every point of the pair goes and the rest stay, and the metadata row is deleted, or the table kept as it was when that delete raised |
| `SourceSync.DeleteFileRemovesResolvedRow` | backend/agent-core/db/qdrant/qdrant_client.py:184-213 | the metadata delete removes the very row the title lookup resolved: the first row with that user and title is the first row of that user, source and title, and exactly that position is cut out |
| `SourceSync.UnconfiguredQueries` | backend/agent-core/db/qdrant/qdrant_client.py:227-255 | without an engine the source list is [], no title resolves, and `delete_user_file` reports "file not found" |
| `SourceSync.BuildPoints` | backend/agent-core/db/qdrant/qdrant_client.py:85-99 | the loop builds exactly one point per chunk, in order, with its payload |
| `SourceSync.UpsertEmbedding` | backend/agent-core/db/qdrant/qdrant_client.py:15-145 | the result and both stores after the call are those of the saga `Ingest` |
| `SourceSync.DeleteUserFile` | backend/agent-core/db/qdrant/qdrant_client.py:184-224 | the result and both stores after the call are those of `DeleteFile` |
| `AccountSchema.ParseStatus` | backend/agent-core/db/supabase/models/whatshappAccount.py:13 | a status label is accepted exactly when it is "active" or "inactive" |
| `AccountSchema.StatusRoundTrip` | backend/agent-core/db/supabase/models/whatshappAccount.py:13 | the two labels and the enum are in one-to-one correspondence |
| `AccountSchema.SharedUserIdAllowed` | backend/agent-core/db/supabase/models/whatshappAccount.py:10-12 | phone numbers and jids are unique but `user_id` is not: two accounts of one user form a valid table |
| `AccountCrud.IndexByUserId` | backend/agent-core/db/supabase/crud/WhatshappAccount_crud.py:24 | the first row whose `user_id` column matches; none exactly when no row matches |
| `AccountCrud.GetAccount` | backend/agent-core/db/supabase/crud/WhatshappAccount_crud.py:23-34 | success with the first row whose `user_id` column equals the argument, otherwise not found |
| `AccountCrud.CreateAppends` | backend/agent-core/db/supabase/crud/WhatshappAccount_crud.py:5-21 | create succeeds exactly when phone number and jid are unused, and then appends one active row with the given fields, leaving the others unchanged; otherwise it raises |
| `AccountCrud.CreateKeepsValid` | backend/agent-core/db/supabase/crud/WhatshappAccount_crud.py:5-21 | create keeps keys, phone numbers and jids unique |
| `AccountCrud.ReviseTouchesOne` | backend/agent-core/db/supabase/crud/WhatshappAccount_crud.py:42-55 | a committed edit changes only the resolved row |
| `AccountCrud.ReviseKeepsValid` | backend/agent-core/db/supabase/models/whatshappAccount.py:11-12 | a committed edit keeps phone numbers and jids unique |
| `AccountCrud.EditedKeepsKey` | backend/agent-core/db/supabase/crud/WhatshappAccount_crud.py:42-48 | an edit keeps the key and `created_at` and refreshes `updated_at` |
| `AccountCrud.UpdatesKeepValid` | backend/agent-core/db/supabase/crud/WhatshappAccount_crud.py:35-55 | all three update helpers keep the table constraints |
| `AccountCrud.UpdateExact` | backend/agent-core/db/supabase/crud/WhatshappAccount_crud.py:35-55 | the update touches only the first row of that `user_id`; it commits exactly when the status label is empty or in the enum and no other row holds the phone number or jid to be stored, and raises otherwise; a commit overwrites phone, jid and status only where the argument is non-empty and refreshes `updated_at` |
| `AccountCrud.UpdateMissing` | backend/agent-core/db/supabase/crud/WhatshappAccount_crud.py:35-41 | with no row of that `user_id` the update reports not found and changes nothing |
| `AccountCrud.IndexByPhone` | backend/agent-core/rpc/server.py:28-34 | the row the by-phone update resolves is the first with that phone number; none exactly when none has |
| `AccountCrud.UpdateStatusByJidExact` | backend/agent-core/rpc/server.py:72-74 | the by-jid status update touches only the first row of that jid; it commits exactly when the label is empty or in the enum and no other row shares that row's phone number or jid; a commit stores the parsed status (an empty label keeps it) and a fresh `updated_at` and keeps every other column and row |
| `AccountCrud.IndexByJid` | backend/agent-core/rpc/server.py:72-74 | the row the by-jid update resolves is the first with that jid; none exactly when none has |
| `AccountCrud.AccountStore.CreateAccount` | backend/agent-core/db/supabase/crud/WhatshappAccount_crud.py:5-21 | the in-place insert does what `Create` describes |
| `AccountCrud.AccountStore.UpdateAccount` | backend/agent-core/db/supabase/crud/WhatshappAccount_crud.py:35-55 | the in-place update does what `Update` describes |
| `AccountCrud.AccountStore.UpdateAccountByPhone` | backend/agent-core/rpc/server.py:28-34 | the in-place by-phone update does what `UpdateByPhone` describes |
| `AccountCrud.AccountStore.UpdateAccountStatusByJid` | backend/agent-core/rpc/server.py:72-74 | the in-place by-jid status update does what `UpdateStatusByJid` describes |
| `AccountServer.SaveOutcomes` | backend/agent-core/rpc/server.py:21-64 | a success replies active with the request's phone (and jid, when given). The update branch succeeds exactly when some row has the phone and no other row shares the phone or the jid to store; the first row with the phone then takes the request's user id and jid (when non-empty), active and a fresh `updated_at`, and every other row is kept. The create branch succeeds exactly when phone and jid are unused and appends one active account after the unchanged rows. A failure has empty fields and changes nothing |
| `AccountServer.UpdateStatusPrefersJid` | backend/agent-core/rpc/server.py:66-101 | the row is resolved by jid whenever jid is non-empty and by user id only otherwise; a missing row gives "Account not found" and changes nothing; no other row changes |
| `AccountServer.UpdateStatusSetsStatus` | backend/agent-core/rpc/server.py:66-101 | with no resolved row the reply is "Account not found" and nothing changes; a label outside the enum raises and changes nothing; on a valid table every other label succeeds; a success stores the parsed status (an empty label keeps the old one) with a fresh `updated_at`, keeps every other column and row, and replies "Status updated to <status>" with the stored row |
| `AccountServer.FailureRepliesEmpty` | backend/agent-core/rpc/server.py:60-124 | every failure reply has empty fields, and `found=false` for `GetAccount` |
| `AccountServer.GetFound` | backend/agent-core/rpc/server.py:104-124 | `GetAccount` finds a row exactly when some row's `user_id` equals the phone argument, and returns that row's fields |
| `AccountServer.SaveExistingPhoneFails` | backend/agent-core/rpc/server.py:25-58 | as written, re-saving a stored phone number under a real user id fails and changes nothing |
| `AccountServer.SaveByPhoneReactivates` | backend/agent-core/rpc/server.py:25-43 | looked up by phone, re-saving a stored phone number whose jid no other account holds succeeds: that row takes the request's jid (and user, when given) and becomes active, no other row changes, and no row is added |
| `AccountServer.GetByPhoneFound` | backend/agent-core/rpc/server.py:104-118 | looked up by phone, an account is found exactly when its phone number is stored |
| `AccountServer.WhatsappServicer.SaveAccount` | backend/agent-core/rpc/server.py:21-64 | the handler's reply and the table after it are those of `Save` |
| `AccountServer.WhatsappServicer.UpdateAccountStatus` | backend/agent-core/rpc/server.py:66-101 | the handler's reply and the table after it are those of `UpdateStatus` |
| `AccountServer.WhatsappServicer.GetAccountReply` | backend/agent-core/rpc/server.py:104-124 | the handler's reply is that of `Get` |
| `Text.WordsOfJoin` | backend/agent-core/knowledge_based/website/embedding/embed.py:6-10 | splitting a space-joined list of words gives the words back |
| `Chunking.ChunkAt` | backend/agent-core/knowledge_based/website/embedding/embed.py:5-14 | chunk k is the words from k·(chunk_size−overlap), at most chunk_size of them, joined by single spaces |
| `Chunking.ChunkRoundTrip` | backend/agent-core/knowledge_based/website/embedding/embed.py:9-12 | every chunk is non-empty and splits back into its window of at most chunk_size words |
| `Chunking.ChunksEmpty` | backend/agent-core/knowledge_based/website/embedding/embed.py:6-12 | a text yields no chunk exactly when it is all whitespace |
| `Chunking.ChunkCount` | backend/agent-core/knowledge_based/website/embedding/embed.py:9 | n words give ceil(n / (chunk_size−overlap)) chunks |
| `Chunking.ChunksCoverWords` | backend/agent-core/knowledge_based/website/embedding/embed.py:9-10 | every word of the text lies in some chunk |
| `Chunking.ChunksOverlap` | backend/agent-core/knowledge_based/website/embedding/embed.py:9-10 | when chunk k is full and chunk k+1 exists, they share `overlap` words |
| `Chunking.ChunkText` | backend/agent-core/knowledge_based/pdf/embedding/embedding.py:21-30 | `chunk_text`, identical in both pipelines, returns `Chunks` of the text's words |
| `Chunking.ChunkWords` | backend/agent-core/knowledge_based/website/embedding/embed.py:9-12 | the window loop appends exactly the joined windows, in order |
| `Chunking.EncodeChunks` | backend/agent-core/knowledge_based/website/embedding/embed.py:35-38 | one embedding per chunk, embedding i computed from chunk i |
| `WebsiteEmbed.EmbedWebsiteText` | backend/agent-core/knowledge_based/website/embedding/embed.py:17-52 | empty input is "No website data provided"; other input with no chunks is "No chunks created…"; it errs exactly on all-whitespace text; on success `total_chunks` == len(chunks) == len(embeddings) and embedding i is computed from chunk i |
| `PdfEmbed.ContributionShape` | backend/agent-core/knowledge_based/pdf/embedding/embedding.py:13-17 | a page adds nothing exactly when its text is none or empty; otherwise it adds its marker, then its text |
| `PdfEmbed.PageHeaderInjective` | backend/agent-core/knowledge_based/pdf/embedding/embedding.py:16 | the marker "\n--- Page k ---\n" determines k |
| `PdfEmbed.PdfTextIsConcat` | backend/agent-core/knowledge_based/pdf/embedding/embedding.py:11-19 | the output is the concatenation of the page contributions in page order |
| `PdfEmbed.NoTextNoOutput` | backend/agent-core/knowledge_based/pdf/embedding/embedding.py:13-15 | pages without text contribute nothing |
| `PdfEmbed.SkippedPagesKeepNumbering` | backend/agent-core/knowledge_based/pdf/embedding/embedding.py:13-17 | a page with text is marked with its 1-based position among all pages, skipped ones included |
| `PdfEmbed.ExtractPdfText` | backend/agent-core/knowledge_based/pdf/embedding/embedding.py:8-19 | the accumulator loop returns `PdfText` of the pages |
| `PdfEmbed.EmbedPdf` | backend/agent-core/knowledge_based/pdf/embedding/embedding.py:32-46 | always `status "success"`; the chunks are those of the extracted text; `total_chunks` == len(chunks) == len(embeddings), embedding i from chunk i |
| `PdfEmbed.EmptyPdfSucceeds` | backend/agent-core/knowledge_based/pdf/embedding/embedding.py:32-46 | a PDF whose pages have no text yields no chunks (`EmbedPdf` reports success regardless) |
| `Crawl.ShouldVisit` | backend/agent-core/knowledge_based/website/crawl/crawl.py:39-41 | false exactly when the lower-cased URL contains one of the seven blacklist words |
| `Crawl.ContainsAt` | backend/agent-core/knowledge_based/website/crawl/crawl.py:41 | the substring test holds exactly when the word occurs at some offset |
| `Crawl.CartPageSkipped` | backend/agent-core/knowledge_based/website/crawl/crawl.py:39-41 | an upper-case "CART" path is still rejected |
| `Crawl.CleanUrlDropsQueryAndFragment` | backend/agent-core/knowledge_based/website/crawl/crawl.py:91 | the queued URL is scheme://netloc + path; query and fragment are dropped |
| `Crawl.EnqueuedSound` | backend/agent-core/knowledge_based/website/crawl/crawl.py:83-98 | every enqueued link has depth+1, the start's netloc, was not visited at enqueue time, and passes `should_visit` |
| `Crawl.EnqueuedComplete` | backend/agent-core/knowledge_based/website/crawl/crawl.py:83-98 | every link that passes the three tests is enqueued |
| `Crawl.Step` | backend/agent-core/knowledge_based/website/crawl/crawl.py:53-101 | a round either drops the head, leaving visited and results unchanged, or visits one URL that was not yet visited |
| `Crawl.StepCases` | backend/agent-core/knowledge_based/website/crawl/crawl.py:54-101 | a visited, too deep or failing URL is dropped without a result; a loaded page is visited, recorded, and its admitted links queued behind the rest |
| `Crawl.CrawledPages` | backend/agent-core/knowledge_based/website/crawl/crawl.py:44-106 | at most `max_pages` results, no URL twice, each a loaded page within `max_depth`, in breadth-first order of depth, each the start URL or an admitted link |
| `Crawl.EnqueueLinks` | backend/agent-core/knowledge_based/website/crawl/crawl.py:83-98 | the link loop appends exactly the admitted links, in order |
| `Crawl.DefaultCrawlBounds` | backend/agent-core/knowledge_based/website/crawl/crawl.py:44 | with the defaults `max_pages=10` and `max_depth=2`, as the website routes call it, a crawl returns at most ten pages, each crawled at depth 0 to 2 |
| `Crawl.CrawlWebsite` | backend/agent-core/knowledge_based/website/crawl/crawl.py:44-106 | the loop returns the results of `Run` from the start entry |

## Findings

| source | as written | input that shows it | evidently intended | confidence | as-written member | corrected member |
|---|---|---|---|---|---|---|
| backend/agent-core/rpc/server.py:25 | `SaveAccount` tests for an existing account with `get_whatshapp_account(db, phone_number)`, which compares the phone number with the `user_id` column | table `[(user "u1", phone "555", jid "j1", inactive)]`, then `SaveAccount("u1", "555", "j1")`: the lookup misses, the create violates phone uniqueness, the reply is a failure | find the account by phone number, reassign it to the request's user and jid, and activate it | not executed | `AccountServer.SaveExistingPhoneFails` | `AccountServer.SaveByPhoneReactivates` |
| backend/agent-core/rpc/server.py:108 | `GetAccount` passes the phone number to the same `user_id` lookup | the same table, then `GetAccount("555")`: `found=false` although phone "555" is stored | find the account by phone number | not executed | `AccountServer.GetFound` | `AccountServer.GetByPhoneFound` |

The servicer class keeps the code's behaviour: it uses `Save` and `Get`, as
written. The corrected `SaveByPhone` and `GetByPhone` stand beside them with
their properties proved.

## Left out

- The Qdrant and SQLAlchemy clients, sessions and connection setup are
  replaced by abstract stores and failure inputs. Only the "engine may be
  None" fact is kept.
- `ensure_payload_indexes` creates indexes and swallows every error. It has
  no observable effect on the model.
- The replay scroll in `upsert_embedding` sits outside any `try`, so a
  raising scroll propagates to the caller. The model treats that scroll as
  not failing.
- Texts of raised errors (`str(e)`, `supabase_error`, `qdrant_error`) are
  not modelled; such replies carry no message.
- Result keys that only echo inputs or constants are not modelled:
  `user_id`, `collection`, `source_id` and `operation_id`.
- `SourceSync.MessageOf`: the vector-failure reply's message embeds the
  raised Qdrant error (`str(qdrant_error)`), which is not modelled, so it
  is `None` there. The `qdrant_status` and `qdrant_error` keys of that
  reply are left out too.
- `UserSourceCrud.GetSourceIdsByType` takes the enum member rather than a
  label. Comparing against a label outside the enum, which the database
  rejects, is not modelled.
- The embedding model (`SentenceTransformer.encode`) is the uninterpreted function
  `encode`. An exception inside it is not modelled: in `embed_websiteText`
  it would become an error reply, and in `embed_pdf` it would propagate.
- `PdfReader` is replaced by the given sequence of optional page texts.
- `Text.Lower` lower-cases ASCII letters only. Python's `str.lower`
  handles all of Unicode.
- `Crawl.ShouldVisit`: the lower-casing is ASCII only, because Unicode case
  mapping is not modelled.
- `urljoin` and `urlparse` are replaced by given components. An empty
  `href` is `None` in the link list.
- `clean_text`, BeautifulSoup and the title lookup are the oracle's `text`
  and `title`.
- In the crawler, `loads` stands for `driver.get` and the wait for `<body>`.
  A failure after `visited.add`, such as in parsing or the link loop, is not
  modelled. The driver's creation and `quit`, and the logging, are left out.
- The `sha256(url)[:6]` source ids, the FastAPI routers, the auth stack,
  `serve`/`stop`, and all gateway JavaScript are transport or foreign
  library code.
- The existence-check-then-write race is not modelled, and neither is any
  locking: each call is one sequential step.
- Timestamps are readings of an abstract clock `now`. Integer column widths
  (key overflow) are not modelled.
- The `users` table is a datatype only: the core has no operation on it.
- `userSource_crud.py` imports `UserSource` from `..models.userModel`, but
  the class is defined in `models/model.py`. The model uses the
  `model.py` definition.
- Row order: the queries behind `get_user_source`, `get_user_sources`,
  `get_source_id_by_title`, `get_user_all_sources` and
  `get_whatshapp_account` carry no `ORDER BY`. The model reads rows in
  insertion order, which the database does not promise. "First row" and
  "in table order" in the table above refer to that modelled order.
- `VectorStore.AfterUpsert`: a batch that repeats an id is applied in
  order, so the later point wins. Which copy Qdrant keeps in that case is
  not modelled; the ids `upsert_embedding` generates never repeat.
