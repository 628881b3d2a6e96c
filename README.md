# prodo-rag2 core, modelled in Dafny

This project models the core of prodo-rag2, a retrieval-augmented code
assistant service. It indexes a repository's files into a vector store and
answers questions by retrieving chunks and prompting a language model. The
modelled core is:

- **Embedding cache** (`service/embedding/cache.py`). `LRUCache` is a
  bounded `OrderedDict` that evicts the least recently used entry.
  `DiskCache` keeps one pickle per key. `EmbeddingCache` puts the memory
  tier in front of an optional disk tier and keys both by a digest of the
  text. Files: `lru_cache.dfy` and `embedding_cache.dfy`, which are classes
  with `modifies` frames.
- **Query cache** (`service/cache/query_cache.py`). `TTLCache` stores
  `(value, expires_at)` pairs. `get` deletes an expired entry lazily. `set`
  evicts the entries that expire soonest, with Python's stable `sorted`.
  File: `query_cache.dfy`. The eviction loop is a method proved against the
  function `Victims`.
- **Index worker** (`service/worker/worker.py`). `IndexWorker` has a FIFO
  job queue, a job-status dictionary and worker threads stopped by `None`
  sentinels. File: `worker.dfy`. The model is sequential: `Step` is one
  iteration of `_worker_loop`.
- **Retry decorator** (`service/utils/retry.py`). It makes up to `tries`
  calls, with delays growing geometrically between them. File: `retry.dfy`.
- **Indexing pipeline** (`piplines/rag_pipeline.py`):
  - the overlapping character chunker, `rag_chunking.dfy`;
  - metadata flattening and the merge-upsert into the namespace with its
    counts, `rag_merge.dfy`;
  - context assembly, the prompt template and the parse/fallback branch of
    `process_rag`, `rag_query.dfy`.

`ordered_dict.dfy` holds the shared model of an insertion-ordered Python
`dict`: a key order `seq` kept in step with a `map`. `wrappers.dfy` holds
`Option`.

Inputs from outside become parameters:
- clocks (`now`);
- `uuid4` job ids;
- the SHA-256 digest (an arbitrary key function);
- what `index_repo` returns or raises (`Outcome`);
- the success of best-effort database writes (`dbOk`) and how a disk write ends (`WriteOutcome`);
- the pickles a disk-cache directory already holds from earlier runs;
- what the wrapped function does on its n-th call (`attempt`);
- the embedder's output;
- the vector store's contents;
- the model's raw text and its decoded JSON object.

## Model

| member | source | states |
|---|---|---|
| OrderedDicts.Inserted | service/cache/query_cache.py:33 | assigning `d[k]` appends a new key at the end and leaves an existing key in its place; the key set gains `k` |
| OrderedDicts.Remove | service/cache/query_cache.py:18-27 | `pop(k, None)` drops exactly `k` from the keys, and changes nothing for a missing key; `del d[k]` (which raises on a missing key) is applied only to a key known to be present, where it does the same |
| OrderedDicts.Lookup | service/embedding/cache.py:20 | `OrderedDict.get(k)`: a value only for a present key, the stored one; `None` for an absent key |
| LruCache.MoveToEnd | service/embedding/cache.py:24 | `d[k] = v` followed by `move_to_end(k)` makes `k` the last (most recently used) key; the key set gains `k`. `move_to_end` alone needs `k` present, which both call sites ensure |
| LruCache.KeepNewest | service/embedding/cache.py:14-16 | what the eviction loop keeps: the last `min(len, max_size)` keys, a suffix of the order |
| LruCache.SetOrder | service/embedding/cache.py:27-31 | the key order after `set`: within `max_size`, only old keys and `k`, and `k` last when `max_size >= 1` |
| LruCache.SetStore | service/embedding/cache.py:27-31 | the mapping after `set`: the surviving keys of the old mapping and `k`; `k` holds the new value and every other survivor its old one |
| LruCache.MoveToEndKeepsOthers | service/embedding/cache.py:18-25 | a `get` hit moves only the key it touched; all other keys keep their relative order |
| LruCache.SetThenGet | service/embedding/cache.py:27-31 | after `set(k, v)` with `max_size >= 1`, `k` is the most recently used key and a lookup answers `v` |
| LruCache.SetBound | service/embedding/cache.py:27-31 | after any `set` the order and the mapping describe one dictionary of at most `max_size` entries |
| LruCache.SetKeepsOthers | service/embedding/cache.py:27-31 | `set` leaves `k` last, preceded by the newest `max_size - 1` other keys in their old order, each with its old value: eviction drops only the least recently used keys |
| LruCache.EvictionDone | service/embedding/cache.py:14-16 | when the eviction loop stops, it has kept exactly the newest `max_size` keys with their values |
| LruCache.LRUCache.constructor | service/embedding/cache.py:9-12 | a new cache is empty, with its bound |
| LruCache.LRUCache.EvictIfNeeded | service/embedding/cache.py:14-16 | pops from the least recently used end until within the bound; the result is the newest `max_size` keys |
| LruCache.LRUCache.Get | service/embedding/cache.py:18-25 | answers the stored value; a non-`None` hit moves the key to the end; a miss or a stored `None` changes nothing |
| LruCache.LRUCache.Set | service/embedding/cache.py:27-31 | stores the value, moves the key to the end, evicts to the bound, and keeps the cache invariant |
| EmbeddingCaches.TieredAnswer | service/embedding/cache.py:73-84 | the memory value if not `None`, else the disk value when there is a disk tier, else `None` |
| EmbeddingCaches.SetThenGetHits | service/embedding/cache.py:86-90 | after `set(text, e)` a `get(text)` answers `e` from the memory tier |
| EmbeddingCaches.OverflowFallsBackToDisk | service/embedding/cache.py:73-90 | with a full memory tier, `set` of a new key evicts exactly the oldest key, which the write-through disk tier still answers |
| EmbeddingCaches.OtherTextUntouched | service/embedding/cache.py:68-71 | with an injective digest, writing one text never changes another text's surviving memory entry |
| EmbeddingCaches.DiskCache.constructor | service/embedding/cache.py:35-38 | a new disk tier holds exactly the pickles already in the `path` directory, none when it does not exist; `makedirs` only creates the parent of `path` and removes nothing |
| EmbeddingCaches.DiskCache.Get | service/embedding/cache.py:43-51 | the stored value, or `None` for a key without a file |
| EmbeddingCaches.DiskCache.Set | service/embedding/cache.py:53-59 | a successful write stores the value; a failure is swallowed: at `open` it changes nothing, during `pickle.dump` it leaves the truncated file, which reads back as `None` |
| EmbeddingCaches.EmbeddingCache.constructor | service/embedding/cache.py:64-66 | an empty memory tier of the given size; a disk tier exactly when a disk path is given, holding the pickles already in that directory |
| EmbeddingCaches.EmbeddingCache.Get | service/embedding/cache.py:73-84 | answers `TieredAnswer`; a memory hit only reorders memory; a disk hit warms memory as `set` would; a miss changes nothing |
| EmbeddingCaches.EmbeddingCache.Set | service/embedding/cache.py:86-90 | writes the same key to memory and, when present, to disk, with the disk tier's three write outcomes |
| QueryCache.Answer | service/cache/query_cache.py:20-29 | answers a value exactly when the key is present and `now` has not passed its expiry |
| QueryCache.SortByExpiry | service/cache/query_cache.py:15 | the sort is a permutation of the keys |
| QueryCache.InsertStable | service/cache/query_cache.py:15 | an insertion step passes only keys that expire strictly sooner, so the inserted key leads the keys of its own expiry |
| QueryCache.SortStable | service/cache/query_cache.py:15 | the sort is stable like `sorted`: the keys of any one expiry keep their insertion order |
| QueryCache.SortSorted | service/cache/query_cache.py:15 | the sorted keys are in ascending expiry order and stay duplicate-free |
| QueryCache.InsertSorted | service/cache/query_cache.py:15 | one insertion step keeps the keys sorted by expiry |
| QueryCache.Victims | service/cache/query_cache.py:11-18 | the evicted keys are keys of the dictionary; none while it is within `max_items` |
| QueryCache.VictimsCount | service/cache/query_cache.py:16-18 | over the bound, exactly `len(store) - max_items` distinct keys are evicted |
| QueryCache.EvictBound | service/cache/query_cache.py:11-18 | after eviction the store has `max_items` entries if it was over the bound, and is unchanged otherwise |
| QueryCache.EvictSoonestFirst | service/cache/query_cache.py:15-18 | every evicted entry expires no later than every kept entry |
| QueryCache.SetKeepsNewEntry | service/cache/query_cache.py:31-34 | with a clock that has not gone back and `max_items >= 1`, `set` never evicts the entry it just wrote |
| QueryCache.ZeroTtlExpires | service/cache/query_cache.py:26 | with a time-to-live of 0, an entry written at `now` is never answered at a later time |
| QueryCache.EvictKeepsDict | service/cache/query_cache.py:16-18 | after eviction the order and the store still describe one dictionary within the bound |
| QueryCache.RemoveEach | service/cache/query_cache.py:17-18 | popping each victim removes exactly the victims from the key order |
| QueryCache.EvictionDone | service/cache/query_cache.py:16-18 | the eviction loop has popped exactly the victims when it stops |
| QueryCache.Evict | service/cache/query_cache.py:11-18 | the eviction loop removes exactly the victims from the store and from the key order |
| QueryCache.TTLCache.constructor | service/cache/query_cache.py:5-9 | a new cache is empty, with its time-to-live and bound |
| QueryCache.TTLCache.EvictIfNeeded | service/cache/query_cache.py:11-18 | the cache's dictionary loses exactly the victims and ends within the bound |
| QueryCache.TTLCache.Get | service/cache/query_cache.py:20-29 | answers `Answer`; an expired entry is deleted; otherwise nothing changes |
| QueryCache.TTLCache.Set | service/cache/query_cache.py:31-34 | writes `(value, now + ttl)` in dictionary order, then evicts the victims of the new store |
| IndexWorker.MetaOrEmpty | service/worker/worker.py:63 | `metadata or {}`: the given metadata, or the empty map when it is absent |
| IndexWorker.QueuedRecord | service/worker/worker.py:39 | the record `submit` stores: status `queued`, the repository, no result or error, and the creation time |
| IndexWorker.Finished | service/worker/worker.py:66-75 | a successful job is `completed` with its result; a failed one is `failed` with `str(e)`; the repository and creation time are kept |
| IndexWorker.Sentinels | service/worker/worker.py:34-35 | `stop` enqueues one sentinel per thread started |
| IndexWorker.SubmitKeepsInvariant | service/worker/worker.py:37-40 | enqueueing a fresh job keeps every queued job `queued` with its repository, and queued ids distinct |
| IndexWorker.TakeKeepsInvariant | service/worker/worker.py:53-57 | taking the head job keeps the invariant for the rest of the queue; a head sentinel leaves it as it is |
| IndexWorker.SentinelsKeepInvariant | service/worker/worker.py:31-35 | sentinels never break the queue invariant |
| IndexWorker.Worker.constructor | service/worker/worker.py:15-20 | an idle worker with an empty queue and status table |
| IndexWorker.Worker.Start | service/worker/worker.py:22-29 | starting a running worker does nothing; otherwise it is running with `num_workers` more threads |
| IndexWorker.Worker.Stop | service/worker/worker.py:31-35 | clears `running` and enqueues one sentinel per recorded thread |
| IndexWorker.Worker.Submit | service/worker/worker.py:37-46 | a `queued` record, the job enqueued last, and a best-effort `save_index_job`; returns the id |
| IndexWorker.Worker.GetStatus | service/worker/worker.py:48-49 | the job's record exactly when the id is known, else `None` |
| IndexWorker.Worker.TakeNext | service/worker/worker.py:53-57 | dequeues the head; a job becomes `running`; a sentinel changes no record |
| IndexWorker.Worker.Finish | service/worker/worker.py:66-79 | records the outcome and makes the best-effort result or error write |
| IndexWorker.Worker.Step | service/worker/worker.py:51-79 | one loop iteration: exit when stopped or on a sentinel, else run the head job with `metadata or {}`; each job's status only moves forward |
| Retry.Settle | service/utils/retry.py:13-22 | the wrapper returns the last call's value or re-raises its exception |
| Retry.DelayStep | service/utils/retry.py:20 | `_delay *= backoff` advances the delay by one power of `backoff` |
| Retry.Exhausted | service/utils/retry.py:23 | the `RuntimeError("Retries exhausted for <name>")` raised when the function never ran |
| Retry.Retry | service/utils/retry.py:4-23 | at most `tries` calls, none (and `RuntimeError`) when `tries <= 0`; all but the last call raised a retried exception; the last call decides; an early stop means success or an exception that is not retried; one sleep of `delay * backoff^n` between calls |
| RagChunking.NatToString | piplines/rag_pipeline.py:39 | decimal text of a position: never empty, one digit exactly below 10 |
| RagChunking.NatToStringInjective | piplines/rag_pipeline.py:39 | different positions have different decimal texts |
| RagChunking.ChunkId | piplines/rag_pipeline.py:39 | `f"{repo_id}:{filename}:{i}"`: the repository, the file name and two colons, then the decimal start position |
| RagChunking.ChunkIdInjective | piplines/rag_pipeline.py:39 | `repo_id:filename:i` determines `i` |
| RagChunking.MakeChunk | piplines/rag_pipeline.py:37-46 | a chunk at `i` holds `text[i:end]` with `end_char - start_char` its length, within the text |
| RagChunking.ChunksFrom | piplines/rag_pipeline.py:36-47 | the chunks the loop appends from position `i`: each a non-empty slice of the file starting at or after `i`, with the repository, path and metadata |
| RagChunking.FileChunks | piplines/rag_pipeline.py:33-47 | all chunks of one file, each a non-empty slice of it with the repository, path and metadata |
| RagChunking.AllChunks | piplines/rag_pipeline.py:22-47 | the chunks of every file, file after file, each non-empty and carrying the repository and metadata |
| RagChunking.ChunkCountFrom | piplines/rag_pipeline.py:35-47 | from position `i` the loop yields `ceil((n - i) / 1800)` chunks, none for an empty rest |
| RagChunking.ChunkAt | piplines/rag_pipeline.py:36-47 | chunk `j` from position `i` starts at `i + 1800 j` |
| RagChunking.ChunkIsWindow | piplines/rag_pipeline.py:36-47 | chunk `j` of a file is the window starting at `1800 j` |
| RagChunking.ChunkLayout | piplines/rag_pipeline.py:33-47 | `ceil(n/1800)` chunks; chunk `j` spans `[1800 j, min(1800 j + 2000, n))` and holds exactly that text |
| RagChunking.ChunkFields | piplines/rag_pipeline.py:38-46 | each chunk carries id `repo_id:filename:start`, the file path, the repository and the top-level metadata |
| RagChunking.ChunksOverlap | piplines/rag_pipeline.py:33-47 | consecutive chunks start 1800 apart, and each ends 200 characters past the next one's start (or at the text end) |
| RagChunking.LastChunkEnds | piplines/rag_pipeline.py:36-47 | the last chunk ends at the text's end |
| RagChunking.ChunksCover | piplines/rag_pipeline.py:36-47 | every character of the text lies in some chunk |
| RagChunking.ChunkIdsDistinct | piplines/rag_pipeline.py:39 | the chunks of one file have pairwise distinct ids |
| RagChunking.WindowEnd | piplines/rag_pipeline.py:37 | the end of `text[i:i+2000]` lies within the text and not before `i` |
| RagChunking.ChunkLoopStep | piplines/rag_pipeline.py:36-47 | one iteration of the chunking loop appends exactly the next chunk of the specification |
| RagChunking.ChunkFile | piplines/rag_pipeline.py:33-47 | the `while` loop produces exactly the file's chunks |
| RagChunking.ChunkFiles | piplines/rag_pipeline.py:22-47 | the `for f in files` loop produces the chunks of all files, file after file |
| RagMerge.Zeros | piplines/rag_pipeline.py:76 | `[0.0] * EMBEDDING_DIM`: `dim` zeros |
| RagMerge.OwnFields | piplines/rag_pipeline.py:59 | a chunk contributes exactly its fields other than `text` and `metadata` |
| RagMerge.FlattenMetadata | piplines/rag_pipeline.py:59 | flat metadata has the chunk's own fields and the top-level keys; top-level values override; `text` and `metadata` appear only when the top-level metadata has them |
| RagMerge.Vectors | piplines/rag_pipeline.py:56-60 | as many vectors as the shorter of chunks and embeddings; vector `j` pairs chunk `j`'s id, embedding `j` and its flat metadata |
| RagMerge.BuildVectors | piplines/rag_pipeline.py:56-60 | the `zip` loop builds exactly those vectors |
| RagMerge.MergedVectors | piplines/rag_pipeline.py:76 | one vector per dictionary key, in dictionary order |
| RagMerge.Put | piplines/rag_pipeline.py:74 | `existing_dict[vid] = ...`: the id is a key with the new value, and every other key keeps its value |
| RagMerge.PutExisting | piplines/rag_pipeline.py:67 | building `existing_dict` keeps earlier keys, and a key that no existing vector names keeps its entry |
| RagMerge.MergeNew | piplines/rag_pipeline.py:71-74 | the merge loop's writes keep every key, and a key that no new vector names keeps its entry |
| RagMerge.UpsertCount | piplines/rag_pipeline.py:70-73 | `upserts` counts vectors whose id is already a key when their turn comes, at most one per vector |
| RagMerge.Before | piplines/rag_pipeline.py:65-68 | `existing_dict` before the merge: a dictionary of exactly the existing ids, none with an embedding |
| RagMerge.Summary | piplines/rag_pipeline.py:85-92 | the returned summary: the repository and file count as given, `existing_before` the distinct existing ids, and never more upserts than chunks |
| RagMerge.PutDict | piplines/rag_pipeline.py:74 | writing a key keeps order and map in step, grows the dictionary only for a new id, and keeps the old keys in place |
| RagMerge.PutExistingDict | piplines/rag_pipeline.py:67 | `existing_dict` has exactly the existing ids, order and map in step |
| RagMerge.PutExistingNoEmb | piplines/rag_pipeline.py:65-67 | entries from the namespace carry no embedding |
| RagMerge.MergeNewDict | piplines/rag_pipeline.py:71-74 | after the merge the keys are the existing ids and the new ids, existing ones first in their old order |
| RagMerge.UpsertLaw | piplines/rag_pipeline.py:70-74 | merged size + `upserts` = size before + number of new vectors |
| RagMerge.NoUpserts | piplines/rag_pipeline.py:72-73 | new ids that occur once and are absent are never counted |
| RagMerge.MergeNewValue | piplines/rag_pipeline.py:74 | an id ends with the last new vector's embedding and metadata, or keeps its old entry when no new vector has it |
| RagMerge.MergeCounts | piplines/rag_pipeline.py:65-77 | `existing_before` is the number of distinct existing ids; merged ids are existing ∪ new; the count law holds |
| RagMerge.SummaryCounts | piplines/rag_pipeline.py:85-92 | the returned `existing_before`, `merged_total` and `upserts` satisfy those laws for `index_repo`'s own inputs |
| RagMerge.MergedEntry | piplines/rag_pipeline.py:74-76 | uploaded entry `j`: existing keys first in order; a new id with its last new embedding and metadata; an existing-only id with its old metadata and the zero vector |
| RagMerge.Upload | piplines/rag_pipeline.py:76-77 | the upload has `merged_total` vectors |
| RagMerge.UploadContents | piplines/rag_pipeline.py:65-77 | the same facts for the list `index_repo` uploads |
| RagMerge.MergeVectors | piplines/rag_pipeline.py:70-74 | the merge loop leaves exactly the specified dictionary and counts exactly the specified upserts |
| RagMerge.IndexRepo | piplines/rag_pipeline.py:16-92 | `index_repo` returns the specified summary and uploads the specified list |
| RagMerge.DisjointMerge | piplines/rag_pipeline.py:70-74 | distinct new ids absent from the namespace give `upserts = 0` and `merged_total = existing_before + len(vectors)` |
| RagMerge.SingleFile | piplines/rag_pipeline.py:23 | the chunks of a one-file list are that file's chunks |
| RagMerge.FreshRepo | piplines/rag_pipeline.py:65-92 | one file into an empty namespace: no upserts, nothing before, one vector per embedded chunk |
| RagMerge.SingleChunk | piplines/rag_pipeline.py:33-47 | a file of 1 to 1800 characters is one chunk with id `repo_id:filename:0` |
| RagMerge.ReplaceOnly | piplines/rag_pipeline.py:67-76 | one new vector with the one existing id: one upsert and one merged key |
| RagMerge.ReindexSingleChunk | piplines/rag_pipeline.py:16-92 | re-indexing an identical single-chunk file gives `upserts = 1` and `merged_total = existing_before = 1` |
| RagQuery.Context | piplines/rag_pipeline.py:102 | a context block's length is path, `::`, id, line break and text |
| RagQuery.Contexts | piplines/rag_pipeline.py:102 | one block per match, in query order |
| RagQuery.ParseContextRoundTrip | piplines/rag_pipeline.py:102 | a block whose path has no colon and whose id has no line break reads back as its path, id and text |
| RagQuery.Join | piplines/rag_pipeline.py:120 | `'\n---\n'.join(parts)`; `JoinLength` states its length and `JoinPart` where each part lies |
| RagQuery.JoinLength | piplines/rag_pipeline.py:120 | the joined context has all parts plus one `\n---\n` between each two |
| RagQuery.JoinPart | piplines/rag_pipeline.py:120 | every part appears whole in the join, at its offset |
| RagQuery.Fill | piplines/rag_pipeline.py:105-120 | a two-placeholder template fill: total length, the context right after the preamble text, the question after the middle text |
| RagQuery.AssemblePrompt | piplines/rag_pipeline.py:105-120 | `prompt_template.format(...)`: the context right after the preamble and the question after the `QUESTION:` line, at offsets fixed by the template |
| RagQuery.FillLayout | piplines/rag_pipeline.py:105-120 | the filled template is the fixed text with the context and the question each at its place |
| RagQuery.PromptLayout | piplines/rag_pipeline.py:105-120 | the prompt is preamble, context, `QUESTION:` line, question and response-format text, each at a fixed offset |
| RagQuery.FillHoldsPart | piplines/rag_pipeline.py:102-120 | each joined part lies at its offset after the preamble |
| RagQuery.PromptHoldsContext | piplines/rag_pipeline.py:102-120 | every retrieved match's context block appears whole in the prompt |
| RagQuery.Respond | piplines/rag_pipeline.py:127-148 | an absent or empty payload gives guidance = raw text, the one fallback suggestion and no insights; otherwise each field comes from the payload with `[]` or `''` defaults; the raw text is always returned |
| RagQuery.FallbackOnlyWithoutPayload | piplines/rag_pipeline.py:131-138 | a non-empty payload yields the fallback suggestion only when it contains exactly that list |
| RagQuery.AnswerFacts | piplines/rag_pipeline.py:127-148 | the answer keeps the raw text; its suggestions are the fallback note exactly when the payload is absent or empty or holds that very list |
| RagQuery.PromptHoldsEveryContext | piplines/rag_pipeline.py:102-120 | every retrieved block appears whole at its offset after the preamble, and the question follows the `QUESTION:` line |
| RagQuery.ProcessRag | piplines/rag_pipeline.py:102-148 | the prompt sent holds every retrieved block whole at its offset and the question after the `QUESTION:` line; the answer keeps the raw text, and its suggestions are the fallback note exactly when the payload is absent or empty or holds that very list |

## Left out

- Threads, locks and interleavings. The lock of `LRUCache` and `TTLCache` only serialises calls, and every model is sequential.
- IndexWorker.Worker.Step: a worker blocked in `q.get()` that later receives an item is not modelled. `Blocked` only reports an empty queue, and nothing about which thread runs which step is captured.
- The stop/start interplay: `threads` is never cleared in the source. The model keeps the count growing as the source does (`Stop` enqueues one sentinel per recorded thread), but states nothing about which threads are alive.
- Floating point: delays, the backoff factor, time stamps and embedding values are integers or reals. `Retry.Retry` treats `delay * backoff^n` exactly, without rounding. A JSON number in the model's payload is `JNum` with an integer; a payload with a fractional number is not represented (`RagQuery.Respond` only passes field values through, so nothing it states depends on them).
- `time.sleep`, `time.time`, `uuid4`, SHA-256 and the database calls are inputs or are left out. The worker's guarded writes `save_index_job`, `update_index_job_result` and `update_index_job_error` are recorded only in its `dbLog`, with their failure as `dbOk`.
- RagMerge.IndexRepo: `save_index_metadata` (rag_pipeline.py:82) is not guarded. A failed write makes `index_repo` raise after the upload has happened, and the worker then records the job as `failed`. The model covers only runs in which this write succeeds.
- RagQuery.ProcessRag: `save_query_log` (rag_pipeline.py:141) is not guarded either. A failed write makes `process_rag` raise after the model call; the model covers only runs in which it succeeds.
- IndexWorker.Worker.GetStatus: the source returns the live record dictionary, so a caller that mutates it changes the worker's table. The model returns the record as a value, so this aliasing is not captured.
- EmbeddingCaches.DiskCache.constructor: `os.makedirs(os.path.dirname(path), exist_ok=True)` creates only the parent of `path`. For a path without a directory part, `os.makedirs('')` raises `FileNotFoundError`, so `DiskCache(path)` and `EmbeddingCache(..., disk_path)` raise. The model's constructors always succeed, so they do not capture this error. When `path` itself does not exist, it is never created: every `set` then fails at `open`. That is the `OpenFailed` outcome on every call, and the disk tier stays empty, so `OverflowFallsBackToDisk`'s write-through premise does not hold for such a path.
- EmbeddingCaches.EmbeddingCache.constructor: raises whenever `DiskCache(disk_path)` does (see the previous line); the model does not capture this.
- The disk tier's file I/O and pickling. A file truncated by a failed dump is modelled as a stored `None`. Other corrupt or unreadable pickles, such as ones another process wrote, are not; `DiskCache.Get` answers the stored value.
- Negative cache bounds: `max_size` and `max_items` are `nat`.
- `str()` coercion of non-string file contents and metadata values: contents and metadata values are strings.
- The Python dict shapes of chunks and summaries are datatypes, and `emb.tolist()` is the identity.
- Vector store: `query_vectors` with `top_k=10000` is the `existing` input. A namespace with more vectors than the query returns is not modelled. `upsert_vectors` is the returned list. `delete_namespace` and `reset_repo` are not part of this model.
- `get_embeddings` is the `embeddings` input, and the prompt's own embedding and retrieval (`top_k=6`) give the `results` input of `RagQuery.ProcessRag`.
- `generate_from_gemini` and `json.loads`: the raw text and the decoded object are inputs. Because decoding starts at the first `{`, the decoded payload is an object or absent.
- The HTTP layer, `main.py`, logging and environment configuration (`EMBEDDING_DIM` is the `dim` parameter) are not part of this model.
