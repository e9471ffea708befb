/** The cold-start recovery pipeline: `process_batches` (partition the documents,
    sign them, bulk-insert their keys straight into the inner LSH index),
    `fast_recovery`, and the snapshot-or-recover decision of `get_lsh_from_redis`. */
module Recovery {
  import opened Results
  import opened Text
  import opened MinHashLsh
  import opened LshTtl
  import opened Signatures

  /** Signature length of a recovered index (`MinHashLSHTTL(threshold=0.9, num_perm=128)`). */
  const RECOVERY_NUM_PERM: nat := 128
  /** `batch_size` used by `fast_recovery`. */
  const RECOVERY_BATCH_SIZE: int := 1000
  /** The corpus query of recovery fetches English news only. */
  const RECOVERY_LANGUAGE: string := "english"

  /** One document fetched from the corpus: id, site and text. The fetch at
      utils.py:151-152 skips hits with an empty text; nothing here relies on that. */
  datatype Fetched = Fetched(articleId: Option<string>, domain: Option<string>, text: string)

  /** The record `process_batch` reads: `language` is the `doc.get('language')` it signs with. */
  datatype Doc = Doc(articleId: Option<string>, domain: Option<string>, text: string, language: Option<string>)

  /** A slice of the documents and its 1-based number. */
  datatype Batch = Batch(number: nat, docs: seq<Doc>)

  /** The documents of the batches, in batch order. */
  function Flatten(batches: seq<Batch>): seq<Doc>
  {
    if batches == [] then [] else batches[0].docs + Flatten(batches[1..])
  }

  /** Consecutive slices of `size` documents (the last may be shorter), numbered from `number`. */
  function BatchesFrom(docs: seq<Doc>, size: nat, number: nat): (r: seq<Batch>)
    requires size > 0
    ensures Flatten(r) == docs
    ensures forall k :: 0 <= k < |r| ==> r[k].number == number + k
    ensures forall k :: 0 <= k < |r| ==> 0 < |r[k].docs| <= size
    ensures forall k :: 0 <= k < |r| - 1 ==> |r[k].docs| == size
    decreases |docs|
  {
    if docs == [] then []
    else if |docs| <= size then [Batch(number, docs)]
    else
      var rest := BatchesFrom(docs[size..], size, number + 1);
      var r := [Batch(number, docs[..size])] + rest;
      assert r[1..] == rest;
      assert docs == docs[..size] + docs[size..];
      r
  }

  /** `range(0, len(documents), batch_size)` with `documents[i:i + batch_size]` and
      number `i // batch_size + 1`: the documents cut into consecutive slices of
      `size` (only the last may be shorter, none is empty), numbered 1, 2, ...,
      that together give back every document once, in order. */
  function Batches(docs: seq<Doc>, size: nat): (r: seq<Batch>)
    requires size > 0
    ensures Flatten(r) == docs
    ensures forall k :: 0 <= k < |r| ==> r[k].number == k + 1
    ensures forall k :: 0 <= k < |r| ==> 0 < |r[k].docs| <= size
    ensures forall k :: 0 <= k < |r| - 1 ==> |r[k].docs| == size
  {
    BatchesFrom(docs, size, 1)
  }

  /** The key `f"{article_id}|{article_domain}"` of a document. */
  function DocKey(d: Doc): string
  {
    FormatKey(d.articleId, d.domain)
  }

  /** `minhash_signature(doc['text'], doc.get('language'))`. */
  function DocSignature(d: Doc, env: Env): Result<Signature>
  {
    MinhashSignature(Some(d.text), d.language, env)
  }

  /** Two signing results combined in order: the first exception wins. */
  function Both(x: Result<seq<Entry>>, y: Result<seq<Entry>>): Result<seq<Entry>>
  {
    if x.Failure? then x else if y.Failure? then y else Success(x.value + y.value)
  }

  lemma BothAssoc(x: Result<seq<Entry>>, y: Result<seq<Entry>>, z: Result<seq<Entry>>)
    ensures Both(x, Both(y, z)) == Both(Both(x, y), z)
  {
    if x.Success? && y.Success? && z.Success? {
      assert x.value + (y.value + z.value) == (x.value + y.value) + z.value;
    }
  }

  /** The one-entry result of signing a single document. */
  function SignDoc(d: Doc, env: Env): Result<seq<Entry>>
  {
    match DocSignature(d, env)
    case Failure(e) => Failure(e)
    case Success(sig) => Success([Entry(DocKey(d), sig)])
  }

  /** `process_batch(documents)`: the key and signature of every document, in
      order; a signing exception of any document is raised. */
  function ProcessBatch(docs: seq<Doc>, env: Env): (r: Result<seq<Entry>>)
    ensures r.Success? <==> forall d :: d in docs ==> DocSignature(d, env).Success?
    ensures r.Success? ==> |r.value| == |docs|
    ensures r.Success? ==> forall i :: 0 <= i < |docs| ==>
              r.value[i] == Entry(DocKey(docs[i]), DocSignature(docs[i], env).value)
  {
    if docs == [] then Success([])
    else
      var rest := ProcessBatch(docs[1..], env);
      assert docs == [docs[0]] + docs[1..];
      assert forall i :: 1 <= i < |docs| ==> docs[i] == docs[1..][i - 1];
      Both(SignDoc(docs[0], env), rest)
  }

  /** Every batch signed, results concatenated in batch order; the first failing batch raises. */
  function SignBatches(batches: seq<Batch>, env: Env): Result<seq<Entry>>
  {
    if batches == [] then Success([])
    else Both(ProcessBatch(batches[0].docs, env), SignBatches(batches[1..], env))
  }

  /** Signing batch by batch is signing the documents they cover. */
  lemma {:induction false} SignBatchesFlatten(batches: seq<Batch>, env: Env)
    ensures SignBatches(batches, env) == ProcessBatch(Flatten(batches), env)
  {
    if batches != [] {
      SignBatchesFlatten(batches[1..], env);
      ProcessBatchAppend(batches[0].docs, Flatten(batches[1..]), env);
    }
  }

  /** Signing two document lists one after the other is signing their concatenation. */
  lemma {:induction false} ProcessBatchAppend(a: seq<Doc>, b: seq<Doc>, env: Env)
    ensures ProcessBatch(a + b, env) == Both(ProcessBatch(a, env), ProcessBatch(b, env))
  {
    if a == [] {
      assert a + b == b;
      var y := ProcessBatch(b, env);
      if y.Success? {
        assert [] + y.value == y.value;
      }
    } else {
      var ab := a + b;
      assert ab[1..] == a[1..] + b;
      assert ab[0] == a[0];
      calc {
        ProcessBatch(ab, env);
        Both(SignDoc(a[0], env), ProcessBatch(a[1..] + b, env));
        { ProcessBatchAppend(a[1..], b, env); }
        Both(SignDoc(a[0], env), Both(ProcessBatch(a[1..], env), ProcessBatch(b, env)));
        { BothAssoc(SignDoc(a[0], env), ProcessBatch(a[1..], env), ProcessBatch(b, env)); }
        Both(Both(SignDoc(a[0], env), ProcessBatch(a[1..], env)), ProcessBatch(b, env));
        Both(ProcessBatch(a, env), ProcessBatch(b, env));
      }
    }
  }

  /** The entries can all be inserted: right signature length, distinct keys, none stored yet. */
  ghost predicate Fresh(ix: Index, items: seq<Entry>)
  {
    DistinctKeys(items) && forall e :: e in items ==> e.key !in Keys(ix) && |e.sig| == ix.numPerm
  }

  /** The index after a bulk insertion and the exception that stopped it, if any. */
  datatype Loaded = Loaded(index: Index, raised: Option<PyError>)

  /** `session.insert(key, minhash)` for every entry in order, inside one
      insertion session: it completes exactly when the entries are fresh, and then
      stores every one of them in addition to what was there; a duplicate or a
      wrong-length signature raises `ValueError`, keeping the earlier inserts. */
  function BulkInsert(ix: Index, items: seq<Entry>): (r: Loaded)
    decreases |items|
    ensures r.raised.None? <==> Fresh(ix, items)
    ensures r.raised.Some? ==> r.raised == Some(ValueError)
    ensures r.raised.None? ==> Keys(r.index) == Keys(ix) + KeysOf(items)
    ensures r.raised.None? ==> forall e :: e in items ==> e in r.index.entries
    ensures forall e :: e in ix.entries ==> e in r.index.entries
    ensures forall e :: e in r.index.entries ==> e in ix.entries || e in items
    ensures r.index.numPerm == ix.numPerm
    ensures Valid(ix) ==> Valid(r.index)
  {
    if items == [] then Loaded(ix, None)
    else
      assert items == [items[0]] + items[1..];
      match MinHashLsh.Insert(ix, items[0].key, items[0].sig)
      case Failure(e) =>
        assert !Fresh(ix, items) by { assert items[0] in items; }
        Loaded(ix, Some(e))
      case Success(next) =>
        var r := BulkInsert(next, items[1..]);
        FreshStep(ix, next, items);
        r
  }

  /** The entries are fresh for an index exactly when the first one can be inserted
      and the rest are fresh for the index holding it. */
  lemma FreshStep(ix: Index, next: Index, items: seq<Entry>)
    requires items != []
    requires MinHashLsh.Insert(ix, items[0].key, items[0].sig) == Success(next)
    ensures Fresh(ix, items) <==> Fresh(next, items[1..])
  {
    assert items == [items[0]] + items[1..];
    if Fresh(ix, items) {
      DistinctUncons(items);
    }
    if Fresh(next, items[1..]) {
      DistinctCons(items[0], items[1..]);
    }
  }

  /** The `n`-th entry is the first that clashes: the ones before it are fresh for
      `ix` and all stored in `stored`, and adding it makes the prefix not fresh. */
  ghost predicate ClashAt(ix: Index, items: seq<Entry>, n: int, stored: Index)
  {
    0 <= n < |items| && Fresh(ix, items[..n]) && !Fresh(ix, items[..n + 1]) &&
    forall e :: e in items[..n] ==> e in stored.entries
  }

  /** When a bulk insertion raises, it stopped at the first entry that clashes: the
      entries before it are fresh and all stored, and adding that entry makes the
      prefix not fresh. */
  lemma {:induction false} BulkInsertStopsAtFirstClash(ix: Index, items: seq<Entry>)
    decreases |items|
    ensures BulkInsert(ix, items).raised.Some? ==> exists n :: ClashAt(ix, items, n, BulkInsert(ix, items).index)
  {
    if items != [] {
      var ins := MinHashLsh.Insert(ix, items[0].key, items[0].sig);
      if ins.Failure? {
        assert items[..0] == [];
        assert !Fresh(ix, items[..1]) by { assert items[0] in items[..1]; }
        assert ClashAt(ix, items, 0, BulkInsert(ix, items).index);
      } else {
        var next := ins.value;
        var r := BulkInsert(next, items[1..]);
        assert BulkInsert(ix, items) == r;
        if r.raised.Some? {
          BulkInsertStopsAtFirstClash(next, items[1..]);
          var m :| ClashAt(next, items[1..], m, r.index);
          assert Entry(items[0].key, items[0].sig) in next.entries;
          ClashStep(ix, next, items, m, r.index);
        }
      }
    }
  }

  /** A clash found after a successful first insert is a clash one entry later in
      the whole list. */
  lemma ClashStep(ix: Index, next: Index, items: seq<Entry>, m: int, stored: Index)
    requires items != []
    requires MinHashLsh.Insert(ix, items[0].key, items[0].sig) == Success(next)
    requires ClashAt(next, items[1..], m, stored)
    requires items[0] in stored.entries
    ensures ClashAt(ix, items, m + 1, stored)
  {
    assert items[..m + 1][1..] == items[1..][..m];
    assert items[..m + 2][1..] == items[1..][..m + 1];
    FreshStep(ix, next, items[..m + 1]);
    FreshStep(ix, next, items[..m + 2]);
    assert items[..m + 1] == [items[0]] + items[1..][..m];
  }

  /** The keys of a list of documents. */
  function DocKeys(docs: seq<Doc>): set<string>
  {
    set d | d in docs :: DocKey(d)
  }

  /** `process_batches(lsh_with_ttl, documents, workers, batch_size)`. A zero batch
      size raises `ValueError` from `range`; a negative one makes no batches. Otherwise
      the documents are signed batch by batch, and each document's key goes straight
      into the inner LSH index. The expiry map and the TTL are never modified, on any
      path. When it completes, the index holds its old keys and exactly the documents'
      keys besides, each with the document's signature. */
  function ProcessBatches(s: Shard, docs: seq<Doc>, batchSize: int, env: Env): (r: Step)
    ensures r.shard.expirations == s.expirations && r.shard.ttl == s.ttl
    ensures r.shard.lsh.numPerm == s.lsh.numPerm
    ensures batchSize == 0 ==> r == Step(s, Some(ValueError))
    ensures batchSize < 0 ==> r == Step(s, None)
    ensures forall e :: e in s.lsh.entries ==> e in r.shard.lsh.entries
    ensures batchSize > 0 ==>
              (r.raised.None? <==> ProcessBatch(docs, env).Success? && Fresh(s.lsh, ProcessBatch(docs, env).value))
    ensures batchSize > 0 && r.raised.None? ==> Keys(r.shard.lsh) == Keys(s.lsh) + DocKeys(docs)
    ensures batchSize > 0 && r.raised.None? ==>
              forall d :: d in docs ==> Entry(DocKey(d), DocSignature(d, env).value) in r.shard.lsh.entries
    ensures batchSize > 0 && r.raised.None? ==>
              forall d :: d in docs ==> |DocSignature(d, env).value| == s.lsh.numPerm
    ensures forall e :: e in r.shard.lsh.entries ==>
              (e in s.lsh.entries || exists d :: d in docs && IsDocEntry(e, d, env))
    ensures Consistent(s) ==> Consistent(r.shard)
  {
    if batchSize == 0 then Step(s, Some(ValueError))
    else if batchSize < 0 then Step(s, None)
    else
      var batches := Batches(docs, batchSize);
      SignBatchesFlatten(batches, env);
      match SignBatches(batches, env)
      case Failure(e) => Step(s, Some(e))
      case Success(items) =>
        var loaded := BulkInsert(s.lsh, items);
        EntriesOfDocs(docs, items, env);
        Step(s.(lsh := loaded.index), loaded.raised)
  }

  /** `e` is the entry recovery makes for document `d`. */
  predicate IsDocEntry(e: Entry, d: Doc, env: Env)
  {
    DocSignature(d, env).Success? && e == Entry(DocKey(d), DocSignature(d, env).value)
  }

  /** The signed entries are exactly the documents' keys with their signatures. */
  lemma EntriesOfDocs(docs: seq<Doc>, items: seq<Entry>, env: Env)
    requires ProcessBatch(docs, env) == Success(items)
    ensures KeysOf(items) == DocKeys(docs)
    ensures forall d :: d in docs ==> Entry(DocKey(d), DocSignature(d, env).value) in items
    ensures forall e :: e in items ==> exists d :: d in docs && IsDocEntry(e, d, env)
  {
    forall d | d in docs ensures Entry(DocKey(d), DocSignature(d, env).value) in items {
      var i :| 0 <= i < |docs| && docs[i] == d;
      assert items[i] == Entry(DocKey(d), DocSignature(d, env).value);
    }
    forall e | e in items ensures exists d :: d in docs && IsDocEntry(e, d, env) {
      var i :| 0 <= i < |items| && items[i] == e;
      assert docs[i] in docs;
    }
  }

  /** The record recovery hands to `process_batch`, tagged with the recovery language. */
  function RecordForRecovery(f: Fetched): (d: Doc)
    ensures d.language == Some(RECOVERY_LANGUAGE)
    ensures d.articleId == f.articleId && d.domain == f.domain && d.text == f.text
  {
    Doc(f.articleId, f.domain, f.text, Some(RECOVERY_LANGUAGE))
  }

  /** The record as `get_texts_from_es` builds it: it has no `language` entry, so
      `doc.get('language')` is `None`. */
  function RecordAsWritten(f: Fetched): (d: Doc)
    ensures d.language == None
    ensures d.articleId == f.articleId && d.domain == f.domain && d.text == f.text
  {
    Doc(f.articleId, f.domain, f.text, None)
  }

  /** The records handed to `process_batches`, one per fetched document, in order:
      as `get_texts_from_es` builds them, or tagged with the recovery language. */
  function Records(fetched: seq<Fetched>, asWritten: bool): (docs: seq<Doc>)
    ensures |docs| == |fetched|
    ensures forall i :: 0 <= i < |fetched| ==>
              docs[i] == if asWritten then RecordAsWritten(fetched[i]) else RecordForRecovery(fetched[i])
  {
    seq(|fetched|, i requires 0 <= i < |fetched| =>
      if asWritten then RecordAsWritten(fetched[i]) else RecordForRecovery(fetched[i]))
  }

  /** `fast_recovery()` over the fetched documents, with the records tagged by the
      recovery language: a fresh shard (128 permutations, default TTL) bulk-loaded
      by `process_batches`. It yields a shard exactly when every record signs and
      the signed entries are fresh (128 values each, distinct keys), and that shard
      then holds every record's entry and nothing else; an exception from the bulk
      load yields no shard. */
  function FastRecovery(fetched: seq<Fetched>, env: Env): (r: Option<Shard>)
    ensures var docs := Records(fetched, false);
            r.Some? <==> ProcessBatch(docs, env).Success? && Fresh(Empty(RECOVERY_NUM_PERM), ProcessBatch(docs, env).value)
    ensures r.Some? ==> r.value.expirations == map[] && r.value.ttl == DEFAULT_TTL
    ensures r.Some? ==> r.value.lsh.numPerm == RECOVERY_NUM_PERM && Consistent(r.value)
    ensures r.Some? ==> Keys(r.value.lsh) == DocKeys(Records(fetched, false))
    ensures r.Some? ==> forall d :: d in Records(fetched, false) ==>
              Entry(DocKey(d), DocSignature(d, env).value) in r.value.lsh.entries
    ensures r.Some? ==> forall e :: e in r.value.lsh.entries ==>
              exists d :: d in Records(fetched, false) && IsDocEntry(e, d, env)
  {
    var step := ProcessBatches(New(RECOVERY_NUM_PERM), Records(fetched, false), RECOVERY_BATCH_SIZE, env);
    if step.raised.Some? then None else Some(step.shard)
  }

  /** `fast_recovery()` exactly as written, signing every record with the stop words
      of all languages together; otherwise the same bulk load, with the same
      success condition and contents. */
  function FastRecoveryAsWritten(fetched: seq<Fetched>, env: Env): (r: Option<Shard>)
    ensures var docs := Records(fetched, true);
            r.Some? <==> ProcessBatch(docs, env).Success? && Fresh(Empty(RECOVERY_NUM_PERM), ProcessBatch(docs, env).value)
    ensures r.Some? ==> r.value.expirations == map[] && r.value.ttl == DEFAULT_TTL
    ensures r.Some? ==> r.value.lsh.numPerm == RECOVERY_NUM_PERM && Consistent(r.value)
    ensures r.Some? ==> Keys(r.value.lsh) == DocKeys(Records(fetched, true))
    ensures r.Some? ==> forall d :: d in Records(fetched, true) ==>
              Entry(DocKey(d), DocSignature(d, env).value) in r.value.lsh.entries
    ensures r.Some? ==> forall e :: e in r.value.lsh.entries ==>
              exists d :: d in Records(fetched, true) && IsDocEntry(e, d, env)
  {
    var step := ProcessBatches(New(RECOVERY_NUM_PERM), Records(fetched, true), RECOVERY_BATCH_SIZE, env);
    if step.raised.Some? then None else Some(step.shard)
  }

  /** Recovered entries carry no expiry, so no cleanup ever evicts them. */
  lemma RecoveredEntriesNeverExpire(fetched: seq<Fetched>, env: Env, now: int)
    requires FastRecovery(fetched, env).Some?
    ensures Expired(FastRecovery(fetched, env).value, now) == {}
  {
  }

  /** What the snapshot store answered for the shard's key. */
  datatype RedisRead = ReadFailed | NotFound | Stored(blob: seq<bv8>)

  /** The decision of `get_lsh_from_redis`, with `recovered` the outcome of the
      recovery it falls back on. */
  function LoadOrRecover(lshKey: Option<string>, read: RedisRead, unpickle: seq<bv8> -> Result<Shard>,
                         recovered: Option<Shard>): Option<Shard>
  {
    if lshKey.None? || lshKey.value == "" then None
    else
      match read
      case ReadFailed => None
      case NotFound => recovered
      case Stored(blob) =>
        if blob == [] then recovered
        else
          match unpickle(blob)
          case Success(s) => Some(s)
          case Failure(TypeError) => recovered
          case Failure(_) => None
  }

  /** `get_lsh_from_redis(lsh_key)` as written: a missing or empty key gives no
      shard; a read error gives no shard; a stored non-empty blob is decoded and
      recovery does not run, unless decoding raises `TypeError`, which is handled
      like a missing blob; any other decoding exception gives no shard; a missing or
      empty blob runs `fast_recovery` as written, whose shard is returned (none
      when it raised). */
  function GetLshFromRedis(lshKey: Option<string>, read: RedisRead, unpickle: seq<bv8> -> Result<Shard>,
                           fetched: seq<Fetched>, env: Env): (r: Option<Shard>)
    ensures lshKey.None? || lshKey == Some("") ==> r.None?
    ensures lshKey.Some? && lshKey.value != "" && read.ReadFailed? ==> r.None?
    ensures lshKey.Some? && lshKey.value != "" && read.Stored? && read.blob != [] ==>
              (unpickle(read.blob).Success? ==> r == Some(unpickle(read.blob).value)) &&
              (unpickle(read.blob) == Failure(TypeError) ==> r == FastRecoveryAsWritten(fetched, env)) &&
              (unpickle(read.blob).Failure? && unpickle(read.blob).error != TypeError ==> r.None?)
    ensures lshKey.Some? && lshKey.value != "" && (read.NotFound? || read == Stored([])) ==>
              r == FastRecoveryAsWritten(fetched, env)
    ensures r.Some? && (read.NotFound? || read == Stored([])) ==> r.value.expirations == map[]
  {
    LoadOrRecover(lshKey, read, unpickle, FastRecoveryAsWritten(fetched, env))
  }

  /** `get_lsh_from_redis(lsh_key)` with the recovery records tagged by the recovery
      language: the same decision, falling back on the corrected recovery. */
  function GetLshFromRedisCorrected(lshKey: Option<string>, read: RedisRead, unpickle: seq<bv8> -> Result<Shard>,
                                    fetched: seq<Fetched>, env: Env): (r: Option<Shard>)
    ensures lshKey.None? || lshKey == Some("") ==> r.None?
    ensures lshKey.Some? && lshKey.value != "" && read.ReadFailed? ==> r.None?
    ensures lshKey.Some? && lshKey.value != "" && read.Stored? && read.blob != [] ==>
              (unpickle(read.blob).Success? ==> r == Some(unpickle(read.blob).value)) &&
              (unpickle(read.blob) == Failure(TypeError) ==> r == FastRecovery(fetched, env)) &&
              (unpickle(read.blob).Failure? && unpickle(read.blob).error != TypeError ==> r.None?)
    ensures lshKey.Some? && lshKey.value != "" && (read.NotFound? || read == Stored([])) ==>
              r == FastRecovery(fetched, env)
    ensures r.Some? && (read.NotFound? || read == Stored([])) ==> r.value.expirations == map[]
  {
    LoadOrRecover(lshKey, read, unpickle, FastRecovery(fetched, env))
  }
}
