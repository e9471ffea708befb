/** End-to-end consequences of recovery for live classification: a document
    recovered from the corpus is found again by a republish of its text from the
    same domain, and the records as `get_texts_from_es` builds them break this. */
module Detection {
  import opened Results
  import opened Text
  import opened MinHashLsh
  import opened LshTtl
  import opened Signatures
  import opened Classify
  import opened Recovery

  /** Every signature is a candidate of itself, as with LSH banding, where each band matches itself. */
  ghost predicate Reflexive(candidate: CandidateRel)
  {
    forall x :: candidate(x, x)
  }

  /** Every key of a recovered shard is the composite key of a fetched document. */
  lemma RecoveredKeysAreDocKeys(fetched: seq<Fetched>, env: Env, e: Entry)
    requires FastRecovery(fetched, env).Some?
    requires e in FastRecovery(fetched, env).value.lsh.entries
    ensures exists d :: d in Records(fetched, false) && IsDocEntry(e, d, env)
  {
  }

  /** After recovery, a live request carrying the text of a recovered document, from
      that document's domain and under a new article id, is classified `duplicate`. */
  lemma {:induction false} RecoveredDocumentIsDetected(fetched: seq<Fetched>, i: nat, articleId: string, now: int, env: Env)
    requires FastRecovery(fetched, env).Some?
    requires i < |fetched| && fetched[i].domain.Some?
    requires SEP !in Show(fetched[i].articleId) && SEP !in fetched[i].domain.value
    requires Reflexive(env.candidate)
    requires FormatKey(Some(articleId), fetched[i].domain) !in Keys(FastRecovery(fetched, env).value.lsh)
    requires !Contains(FormatKey(fetched[i].articleId, fetched[i].domain), articleId)
    ensures RunLshCheck(Some(fetched[i].text), Some(RECOVERY_LANGUAGE), fetched[i].domain, Some(articleId),
                        FastRecovery(fetched, env), now, env).status == Success(Some(Duplicate))
  {
    var s := FastRecovery(fetched, env).value;
    var docs := Records(fetched, false);
    var d := docs[i];
    assert d in docs;
    var sig := DocSignature(d, env).value;
    assert Entry(DocKey(d), sig) in s.lsh.entries;
    assert |sig| == s.lsh.numPerm;
    assert MinhashSignature(Some(fetched[i].text), Some(RECOVERY_LANGUAGE), env) == DocSignature(d, env);
    OwnEntryNeverCounts(Some(fetched[i].text), Some(RECOVERY_LANGUAGE), d.domain, articleId, s, now, env);
    var candidates := LshTtl.Query(s, sig, env.candidate).value;
    assert env.candidate(sig, sig);
    assert DocKey(d) in candidates;
    KeyDomainField(d.articleId, d.domain);
    assert DomainMatches(DocKey(d), d.domain);
    forall p | p in candidates ensures SEP in p {
      var e :| e in s.lsh.entries && e.key == p && env.candidate(sig, e.sig);
      RecoveredKeysAreDocKeys(fetched, env, e);
    }
  }

  /** Finding, code as written: the recovery records carry no language, so recovery
      drops the stop words of every language. A text whose only token is a stop word
      of some other language but not of English is then signed differently by
      recovery and by a live English request, and the republish is classified
      `unique`, while the records tagged with the recovery language give `duplicate`. */
  lemma AsWrittenRecoveryMissesRepublish(f: Fetched, articleId: string, word: string, now: int, env: Env)
    requires f.domain.Some? && SEP !in Show(f.articleId) && SEP !in f.domain.value
    requires env.tokenize(f.text) == [word]
    requires RECOVERY_LANGUAGE in env.stopWords && word !in env.stopWords[RECOVERY_LANGUAGE]
    requires exists l :: l in env.stopWords && word in env.stopWords[l]
    requires |env.minhash([])| == RECOVERY_NUM_PERM && |env.minhash([word])| == RECOVERY_NUM_PERM
    requires Reflexive(env.candidate) && !env.candidate(env.minhash([word]), env.minhash([]))
    requires FormatKey(Some(articleId), f.domain) != FormatKey(f.articleId, f.domain)
    requires !Contains(FormatKey(f.articleId, f.domain), articleId)
    ensures FastRecoveryAsWritten([f], env).Some? && FastRecovery([f], env).Some?
    ensures RunLshCheck(Some(f.text), Some(RECOVERY_LANGUAGE), f.domain, Some(articleId),
                        FastRecoveryAsWritten([f], env), now, env).status == Success(Some(Unique))
    ensures RunLshCheck(Some(f.text), Some(RECOVERY_LANGUAGE), f.domain, Some(articleId),
                        FastRecovery([f], env), now, env).status == Success(Some(Duplicate))
  {
    var key := FormatKey(f.articleId, f.domain);
    var live := env.minhash([word]);
    LiveSignature(f, word, env);
    AsWrittenShard(f, word, env);
    CorrectedShard(f, word, env);
    var stale := FastRecoveryAsWritten([f], env).value;
    NothingMatches(stale, live, env.minhash([]), env.candidate);
    OwnEntryNeverCounts(Some(f.text), Some(RECOVERY_LANGUAGE), f.domain, articleId, stale, now, env);
    RecoveredDocumentIsDetected([f], 0, articleId, now, env);
  }

  /** A query matching none of the stored signatures returns nothing. */
  lemma NothingMatches(s: Shard, q: Signature, stored: Signature, candidate: CandidateRel)
    requires |q| == s.lsh.numPerm
    requires forall e :: e in s.lsh.entries ==> e.sig == stored
    requires !candidate(q, stored)
    ensures LshTtl.Query(s, q, candidate) == Success([])
  {
    NoMatchingEntries(s.lsh.entries, q, stored, candidate);
  }

  lemma {:induction false} NoMatchingEntries(entries: seq<Entry>, q: Signature, stored: Signature, candidate: CandidateRel)
    requires forall e :: e in entries ==> e.sig == stored
    requires !candidate(q, stored)
    ensures Matching(entries, q, candidate) == []
  {
    if entries != [] {
      assert entries[0] in entries;
      NoMatchingEntries(entries[1..], q, stored, candidate);
    }
  }

  /** A live English request signs the single token, which is no English stop word. */
  lemma LiveSignature(f: Fetched, word: string, env: Env)
    requires env.tokenize(f.text) == [word]
    requires RECOVERY_LANGUAGE in env.stopWords && word !in env.stopWords[RECOVERY_LANGUAGE]
    ensures MinhashSignature(Some(f.text), Some(RECOVERY_LANGUAGE), env) == Success(env.minhash([word]))
  {
    assert DropStopWords([word], env.stopWords[RECOVERY_LANGUAGE]) == [word];
  }

  /** As written, recovery signs the text with no tokens left and stores that one entry. */
  lemma AsWrittenShard(f: Fetched, word: string, env: Env)
    requires env.tokenize(f.text) == [word]
    requires exists l :: l in env.stopWords && word in env.stopWords[l]
    requires |env.minhash([])| == RECOVERY_NUM_PERM
    ensures FastRecoveryAsWritten([f], env).Some?
    ensures Keys(FastRecoveryAsWritten([f], env).value.lsh) == {FormatKey(f.articleId, f.domain)}
    ensures forall e :: e in FastRecoveryAsWritten([f], env).value.lsh.entries ==> e.sig == env.minhash([])
  {
    var all := StopWords(env.stopWords, None).value;
    assert word in all;
    assert DropStopWords([word], all) == [];
    var wrong := RecordAsWritten(f);
    assert DocSignature(wrong, env) == Success(env.minhash([]));
    SingleDocLoads(wrong, env);
    assert Records([f], true) == [wrong];
  }

  /** Tagged with the recovery language, recovery stores the live signature. */
  lemma CorrectedShard(f: Fetched, word: string, env: Env)
    requires env.tokenize(f.text) == [word]
    requires RECOVERY_LANGUAGE in env.stopWords && word !in env.stopWords[RECOVERY_LANGUAGE]
    requires |env.minhash([word])| == RECOVERY_NUM_PERM
    ensures FastRecovery([f], env).Some?
    ensures Keys(FastRecovery([f], env).value.lsh) == {FormatKey(f.articleId, f.domain)}
  {
    LiveSignature(f, word, env);
    var right := RecordForRecovery(f);
    assert DocSignature(right, env) == Success(env.minhash([word]));
    SingleDocLoads(right, env);
    assert Records([f], false) == [right];
  }

  /** A single document with a signature of the recovery length is bulk-loaded. */
  lemma SingleDocLoads(d: Doc, env: Env)
    requires DocSignature(d, env).Success? && |DocSignature(d, env).value| == RECOVERY_NUM_PERM
    ensures ProcessBatch([d], env) == Success([Entry(DocKey(d), DocSignature(d, env).value)])
    ensures ProcessBatches(New(RECOVERY_NUM_PERM), [d], RECOVERY_BATCH_SIZE, env).raised.None?
  {
    var items := [Entry(DocKey(d), DocSignature(d, env).value)];
    assert ProcessBatch([d], env).value == items;
    assert Fresh(New(RECOVERY_NUM_PERM).lsh, items);
  }
}
