# DuplicateService core in Dafny

DuplicateService is a web service for near-duplicate detection of news articles.
Each request carries an article's text, language, domain and id. The service
computes a MinHash signature of the text, stores the key `article_id|domain` in
the MinHash LSH index of the request's language, and queries that index for
similar keys. It then answers `unique`, `similarity` (similar text from another
domain), `duplicate` (similar text from the same domain) or `duplicate_keys`
(a `ValueError`, typically a key that is already indexed).

The index is wrapped in a time-to-live layer, `MinHashLSHTTL`. At startup the
English index is loaded from a snapshot store. When no snapshot exists, it is
rebuilt from the article corpus by a batched bulk load.

The model is functional. Python exceptions are the `PyError` values of a
`Result`. A call that mutates and may then raise returns the shard it leaves
behind together with the exception (`LshTtl.Step`), because Python keeps
mutations made before a raise. Time is an explicit integer `now` in seconds.
The foreign collaborators are parameters bundled in `Signatures.Env`:
- the nltk tokenizer;
- the stop-word corpus;
- the MinHash hashing;
- the LSH band-bucket "candidate" relation.

Modules, in dependency order:
- `Results` (results.dfy): `Option`, `Result`, and the Python exception kinds.
- `Text` (text.dfy): the Python substring test, `str.split('|')` with its
  inverse `'|'.join`, field access `split('|')[n]`, and the composite key
  `f"{article_id}|{domain}"`, including the f-string of `None`.
- `MinHashLsh` (minhash_lsh.dfy): the library index, abstracted to entries of a
  key and a fixed-length signature. Insert raises on a duplicate key or a
  wrong-length signature; remove raises on a missing key; query raises on a
  wrong-length signature and otherwise returns the stored keys whose signatures
  are candidates of the query.
- `LshTtl` (minhash_lsh_ttl.dfy): `MinHashLSHTTL` with every method.
- `Signatures` (signatures.dfy): the stop-word filter of
  `preprocess_and_tokenize` and `minhash_signature`.
- `Classify` (classify.dfy): `get_status_from_candidates` and `run_lsh_check`.
- `Recovery` (recovery.dfy): `process_batch`, `process_batches`,
  `fast_recovery` and the decision logic of `get_lsh_from_redis`.
- `Detection` (detection.dfy): end-to-end lemmas joining recovery and live
  classification.
- `Server` (server.dfy): the startup shard map, `/is_duplicate` and the health
  check.

`Recovery` and `Server` model recovery and startup as written. Next to them,
`FastRecovery`, `GetLshFromRedisCorrected` and `LifespanCorrected` tag the
recovery records with the recovery language (see "## Findings").

Behaviour of the code a reader may not expect, which the model follows:
- There is no check that an article id or domain is free of `|`.
  `duplicate_keys` arises only from a `ValueError`. That is an insert of a key
  that is already stored, a signature of the wrong length, a body that is not
  JSON (the JSON decode error is a `ValueError`), or a text holding a lone
  surrogate such as the JSON escape `\ud800`, whose `token.encode('utf-8')`
  raises `UnicodeEncodeError`, a `ValueError` (this last case is not modelled,
  see "## Left out").
- The expiry sweep inside `query` is commented out, and so is the background
  cleanup task. Expired keys are therefore still returned as candidates.
- The own-key filter is a substring test on the whole key, not an equality with
  the key's id field. A different article whose key contains this id is
  discarded too (`Classify.SubstringFilterHidesOtherArticle`).
- A missing snapshot and an empty stored blob both start recovery. So does a
  decoder that raises `TypeError`, because it is caught by the same handler. A
  read error or any other decoding error gives no shard. An exception raised
  during recovery itself is swallowed by the function's `finally: return`, which
  also gives no shard.
- A batch size of 0 makes `range` raise `ValueError`; a negative one gives no
  batches.

## Model

| member | source | states |
|---|---|---|
| Text.ContainsIff | utils.py:275 | the substring test `article_id in pair` holds exactly when the id occurs at some position of the key |
| Text.Split | utils.py:278 | `split('\|')` yields at least one piece, no piece holds a separator, and there is exactly one piece iff the string has no separator |
| Text.JoinSplit | utils.py:278 | joining the pieces of a split with `\|` gives the original string back |
| Text.SplitJoin | utils.py:278 | splitting a join of separator-free pieces gives the pieces back |
| Text.Field | utils.py:278 | `split('\|')[n]` raises IndexError exactly when there are at most n pieces, and otherwise returns a separator-free piece |
| Text.FormatKey | utils.py:296 | the key `f"{article_id}\|{article_domain}"` contains a separator and starts with the id's text (`None` for a missing id) |
| Text.KeyDomainField | utils.py:278 | for separator-free id and domain, field 1 of the key is the domain |
| Text.KeyContainsId | utils.py:275 | the key of a present id contains that id, so the own-key filter always discards it |
| MinHashLsh.Empty | minhash_lsh_ttl.py:20 | a new library index stores no key and has the requested signature length |
| MinHashLsh.Insert | minhash_lsh_ttl.py:26 | the library insert fails with ValueError exactly on a wrong-length signature or a stored key; otherwise it adds exactly that entry and keeps the keys distinct |
| MinHashLsh.Remove | minhash_lsh_ttl.py:38 | the library remove fails with ValueError exactly on a key that is not stored; otherwise it drops exactly that key's entry |
| MinHashLsh.Query | minhash_lsh_ttl.py:32 | the library query raises ValueError exactly on a wrong-length signature; otherwise it returns every stored key whose signature is a candidate, and only such keys |
| MinHashLsh.MatchingAppend | minhash_lsh_ttl.py:32 | the candidates of a list of entries followed by more entries are the candidates of each part, in order |
| MinHashLsh.WithoutDistinct | minhash_lsh_ttl.py:38 | dropping keys from an index with distinct keys keeps them distinct |
| MinHashLsh.WithoutTwice | minhash_lsh_ttl.py:46-47 | removing two key sets one after the other is removing their union |
| LshTtl.New | minhash_lsh_ttl.py:12-22 | a new shard has an empty index, no expiries, the given TTL (86400 by default) and satisfies the consistency invariant |
| LshTtl.Insert | minhash_lsh_ttl.py:24-28 | the insert succeeds iff the library insert does; on failure the shard is unchanged and ValueError is raised; on success the index holds exactly the old entries plus the key with its signature, the key expires at now + ttl, the other expiries are kept, and consistency is preserved |
| LshTtl.Query | minhash_lsh_ttl.py:30-32 | the query is answered from the index: ValueError exactly on a wrong-length signature, otherwise every stored candidate key and only such keys |
| LshTtl.QueryIgnoresExpiry | minhash_lsh_ttl.py:30-32 | replacing the expiry map never changes a query's answer, so expired keys are still returned |
| LshTtl.Remove | minhash_lsh_ttl.py:34-40 | remove raises ValueError and changes nothing for a key that is not stored; otherwise the key leaves the index and the expiry map, and every other entry and expiry stays |
| LshTtl.ExpiredMonotone | minhash_lsh_ttl.py:45 | a key counted as expired at some time is still counted as expired at every later time |
| LshTtl.InsertedKeyLifetime | minhash_lsh_ttl.py:28 | a key inserted at now is swept by a cleanup at time t exactly when t is past now + ttl |
| LshTtl.Evict | minhash_lsh_ttl.py:46-47 | evicting a key set removes exactly those keys from the index and the expiry map, keeps every other entry and expiry, and preserves consistency |
| LshTtl.CleanupExpiredKeys | minhash_lsh_ttl.py:42-48 | the sweep succeeds iff every expired key is still stored, and then drops exactly the expired keys; keys expiring at or after now and untracked keys are never removed; a failing removal raises ValueError and the shard is the original with some subset of the expired keys evicted |
| LshTtl.EvictOneMore | minhash_lsh_ttl.py:46-47 | removing one more stored key from an evicted shard gives the shard with that key evicted too |
| LshTtl.CleanupIdempotent | minhash_lsh_ttl.py:42-47 | a second sweep at the same time finds no expired key left |
| LshTtl.ConsistentCleanupSucceeds | minhash_lsh_ttl.py:45-47 | when every tracked key is stored, the sweep never raises |
| LshTtl.ExpiryRoundTrip | minhash_lsh_ttl.py:50-55 | importing an exported expiry map leaves the shard unchanged |
| LshTtl.ImportExportRoundTrip | minhash_lsh_ttl.py:50-55 | exporting an imported expiry map gives that map back |
| Signatures.DropStopWords | utils.py:63 | the filtered tokens are an order-preserving subsequence with no stop word, and each other token occurs as often as in the input |
| Signatures.AllLanguagesCoverEach | utils.py:62 | the stop words used when no language is given include the stop words of every single language |
| Signatures.MoreStopWordsKeepLess | utils.py:62-63 | filtering with a larger stop-word set keeps no more occurrences of any token |
| Signatures.PreprocessAndTokenize | utils.py:58-64 | a missing text raises AttributeError and an unknown language OSError; otherwise the result is a subsequence of the tokens with the language's stop words removed and every other token kept |
| Signatures.OnlyStopWordsSignEmpty | utils.py:68-73 | a text whose tokens are all stop words of its language gets the signature of the empty token list |
| Classify.DropOwnKeys | utils.py:275 | the filter keeps exactly the candidates that do not contain the article id, in their order |
| Classify.DropOwnKeysAppend | utils.py:275 | filtering a concatenation is filtering each part |
| Classify.AnyDomainMatch | utils.py:277-278 | the `any` over field 1 is true only when some pair's domain field matches, and false only when every pair has a separator and none matches; the only failure is IndexError from a separator-free pair |
| Classify.GetStatusFromCandidates | utils.py:274-281 | with a present id: unique iff every candidate contains the id; duplicate when a remaining candidate has the request's domain (even alongside cross-domain ones), and only then; similarity iff candidates remain and none has the domain; a failure is IndexError from a separator-free remaining key; a missing id raises TypeError iff there is a candidate |
| Classify.EmptyIdIsUnique | utils.py:275-280 | with the empty id every candidate is filtered out and the status is unique |
| Classify.SubstringFilterHidesOtherArticle | utils.py:275 | article "x" never sees the key of article "x" followed by anything, even from its own domain |
| Classify.DuplicateOutranksSimilarity | utils.py:277-278 | a same-domain candidate gives duplicate even after a cross-domain candidate |
| Classify.RunLshCheck | utils.py:285-298 | without a shard the status is None and nothing is touched; a signing error passes through with the shard untouched; an insert failure (stored key or wrong length) raises ValueError with the shard untouched; otherwise the shard is exactly the one the TTL insert returns (the key stored with its signature, expiring at now + ttl), the query runs on that shard and cannot raise, the status is the classification of the candidates it returns, never duplicate_keys, and consistency is preserved |
| Classify.OwnEntryNeverCounts | utils.py:295-298 | after a successful insert, the status is the classification of the candidates the index held before the insert |
| Classify.ClassifyByRemaining | utils.py:275-281 | with a present id the status depends only on the candidates that survive the filter |
| Recovery.BatchesFrom | utils.py:194-198 | the slices are non-empty, at most batch_size long, all but the last exactly batch_size, consecutively numbered, and cover the documents once, in order |
| Recovery.Batches | utils.py:194-198 | the partition numbers its batches from 1 and its slices flatten back to the documents |
| Recovery.ProcessBatch | utils.py:178-188 | the batch result succeeds iff every document signs, and then holds each document's key and signature in order |
| Recovery.ProcessBatchAppend | utils.py:178-188 | signing two document lists one after the other is signing their concatenation, with the first exception winning |
| Recovery.SignBatchesFlatten | utils.py:200-213 | signing batch by batch and concatenating in batch order equals signing all documents |
| Recovery.BulkInsert | utils.py:208-213 | the insertion session completes iff the entries are fresh (right length, distinct keys, none stored), and then stores them all; a failure is ValueError; no foreign entry appears and no stored entry is lost |
| Recovery.BulkInsertStopsAtFirstClash | utils.py:208-213 | when the insertion session raises, it stopped at the first clashing entry: the entries before it are fresh and all stored, and adding that entry makes the prefix not fresh |
| Recovery.FreshStep | utils.py:211-213 | the entries are fresh iff the first can be inserted and the rest are fresh for the resulting index |
| Recovery.ProcessBatches | utils.py:191-213 | the expiry map and TTL never change; batch size 0 raises ValueError and a negative size changes nothing; otherwise it completes iff every document signs and the entries are fresh, and then the index holds its old keys plus exactly the documents' keys, each with the document's signature |
| Recovery.EntriesOfDocs | utils.py:178-188 | the signed entries carry exactly the documents' keys, each with its document's signature |
| Recovery.FastRecovery | utils.py:216-227 | with records tagged by the recovery language, recovery gives a shard exactly when every record signs and the entries are fresh (128 values, distinct keys); that shard has the default TTL, no expiries, is consistent, and holds exactly one entry per record, with its key and signature |
| Recovery.FastRecoveryAsWritten | utils.py:216-227 | as written (records without a language), recovery gives a shard exactly when every record signs and the entries are fresh; that shard has the default TTL, no expiries, and holds exactly one entry per record, with its key and signature |
| Recovery.GetLshFromRedis | utils.py:231-249 | a missing or empty key gives no shard; a read error gives no shard; a stored non-empty blob gives its decoded shard, recovery as written when decoding raises TypeError, and no shard on any other decoding error; a missing or empty blob gives the result of recovery as written |
| Recovery.GetLshFromRedisCorrected | utils.py:231-249 | the same decision, falling back on the recovery with records tagged by the recovery language |
| Detection.RecoveredKeysAreDocKeys | utils.py:208-213 | every entry of a recovered shard is the key and signature of a fetched document |
| Detection.RecoveredDocumentIsDetected | utils.py:216-227 | after corrected recovery, a live request with a recovered document's text and domain under a new id is classified duplicate |
| Detection.AsWrittenRecoveryMissesRepublish | utils.py:181 | as written, a text whose only token is another language's stop word is recovered as the empty-token signature, and its republish is unique; with the corrected records it is duplicate |
| Server.Lookup | server.py:67 | the shard of a present language that is in the map is its entry there; an absent language or one not in the map gives None |
| Server.IsDuplicate | server.py:61-75 | a non-JSON body gives duplicate_keys and a non-object body gives 500; otherwise the fields go to the check unchanged (domain as article_domain), a status is returned as is, a ValueError gives duplicate_keys, any other exception gives 500, a missing shard gives status None with nothing changed, and only the request language's shard can change |
| Server.OtherLanguageIsNotReady | server.py:23-26 | right after startup, a request in any language but English gets status None and changes nothing |
| Server.ClassifiedRequestIsIndexed | server.py:66-70 | a classified request leaves its key in its language's shard, expiring at now + ttl |
| Server.ResubmissionIsDuplicateKeys | server.py:71-72 | resending a request that was classified is answered duplicate_keys, at any later time |
| Server.ColdStartDetectsRecovered | server.py:23-26 | after a start without a snapshot and with the corrected recovery, a request with a recovered document's text and domain under a new id is answered duplicate |
| Server.ColdStartRepublish | utils.py:245 | after a start without a snapshot, the republish of a document whose only token is another language's stop word is answered unique as written and duplicate with the corrected recovery |
| Server.HealthCheckIsInert | server.py:78-80 | a health check leaves the shard map as it was, so every later request is answered as without it |

## Left out

- Redis, Elasticsearch and RabbitMQ I/O is network plumbing. The snapshot read is the `RedisRead` parameter, the decoder (`pickle.loads`) is a function parameter, and the corpus fetch (`get_texts_from_es`) is the list of fetched documents. `save_lsh_to_redis` and the other store functions are not part of this model.
- Pickle serialisation is opaque library behaviour. Only the expiry-map export and import round trip is modelled, with timestamps as integer seconds.
- The process pool and its `workers` parameter are left out; the documents are signed batch by batch in order.
- Recovery.ProcessBatches: inserts the batches in batch-number order. The source collects the batch results in completion order and inserts them in that order. On success the stored entries are the same either way. When a duplicate key across batches raises ValueError, the partial index that remains depends on that order, which the model does not capture.
- datasketch MinHash hashing, the band and row choice from the float `threshold`, and the threshold itself are foreign code. Signatures are abstract `seq<int>` of the index's length, and the candidate relation is a parameter.
- MinHashLsh.Query: returns the candidates in insertion order. The library returns them from a set, in an unspecified order. The order matters only for which of `duplicate` and `IndexError` wins when a key lacks a separator.
- LshTtl.CleanupExpiredKeys: leaves the dictionary's iteration order open, so on failure the contract bounds the partial result rather than fixing it. The log line is omitted.
- Signatures.MinhashSignature: fails only on a missing text or an unknown language, not on the encoding of a token. Dafny strings hold Unicode scalar values only, so a lone surrogate (which a JSON `\ud800` escape yields in Python) cannot be represented. In the source, `token.encode('utf-8')` (utils.py:72) raises `UnicodeEncodeError`, a `ValueError`, on such a token, and the request is answered `duplicate_keys`.
- nltk `word_tokenize`, lower-casing, punctuation stripping and the stop-word corpora are foreign. The tokenizer is an uninterpreted function and the corpus is a map from language to word set.
- Request fields that are JSON but not strings (numbers, lists) are not modelled. A field is a string or absent.
- The wall clock, metrics counters, logging, timing, and the FastAPI and uvicorn machinery are left out.
- The `await` of the non-coroutine results of `run_lsh_check` (server.py:68) and `save_lsh_to_redis` (server.py:35) is async-runtime behaviour. The handler is modelled as returning the check's status directly. As written, awaiting a plain string or `None` raises `TypeError`. The handler would then answer 500 after the insert has already happened.
- The test and export scripts under Tests/ only drive live services and duplicate code from utils.py.

## Findings

| source | as written | input that shows it | evidently intended | confidence | as-written member | corrected member |
|---|---|---|---|---|---|---|
| utils.py:155-159, utils.py:181 | recovery records have no `language` key, so `process_batch` signs every recovered text with `stopwords.words(None)`, the stop words of all languages at once, while live English requests use only the English list | a recovered English article whose text has a token that is a stop word of another language only (e.g. a tokenizer output `["und"]` with "und" a German stop word and not an English one), and a candidate relation that tells the signature of `[]` from that of `["und"]`; a republish of the same text from the same domain under a new id is answered `unique` | recovered documents are signed with the recovery language (the corpus query fetches English articles), so a republish is answered `duplicate` | not executed | Detection.AsWrittenRecoveryMissesRepublish (over Recovery.FastRecoveryAsWritten, Recovery.GetLshFromRedis and Server.Lifespan, at the endpoint Server.ColdStartRepublish) | Recovery.FastRecovery, Recovery.GetLshFromRedisCorrected and Server.LifespanCorrected, with Detection.RecoveredDocumentIsDetected and Server.ColdStartDetectsRecovered |
