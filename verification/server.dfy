/** The HTTP layer: the shard map built at startup, the `/is_duplicate` endpoint
    that maps the classifier's outcome and exceptions to responses, and the
    health check. */
module Server {
  import opened Results
  import opened Text
  import opened MinHashLsh
  import opened LshTtl
  import opened Signatures
  import opened Classify
  import opened Recovery
  import opened Detection

  /** The only language with a shard. */
  const SUPPORTED_LANGUAGE: string := "english"
  /** Snapshot-store key of the English shard. */
  const ENGLISH_LSH_KEY: string := "english:lsh_index"
  /** Body of the health check. */
  const HEALTH_MESSAGE: string := "I'm OK"

  /** `lsh_cache_dict`: language to shard, `None` when loading and recovery gave nothing. */
  type Shards = map<string, Option<Shard>>

  /** The parsed request body: not JSON at all, JSON that is not an object, or the
      four fields, each a string or absent. */
  datatype Body =
    | Unparseable
    | NotAnObject
    | Fields(content: Option<string>, language: Option<string>, domain: Option<string>, articleId: Option<string>)

  /** `{"status": ...}` with a status or `null`, or an HTTP 500. */
  datatype Response = Json(status: Option<Status>) | InternalServerError

  /** The response and the shard map after the request. */
  datatype Served = Served(shards: Shards, response: Response)

  /** `lifespan` at startup: the map holds the English shard only, loaded from the
      snapshot store or recovered. */
  function Lifespan(read: RedisRead, unpickle: seq<bv8> -> Result<Shard>, fetched: seq<Fetched>, env: Env): (m: Shards)
    ensures m.Keys == {SUPPORTED_LANGUAGE}
    ensures m[SUPPORTED_LANGUAGE] == GetLshFromRedis(Some(ENGLISH_LSH_KEY), read, unpickle, fetched, env)
  {
    map[SUPPORTED_LANGUAGE := GetLshFromRedis(Some(ENGLISH_LSH_KEY), read, unpickle, fetched, env)]
  }

  /** `lifespan` with the recovery records tagged by the recovery language. */
  function LifespanCorrected(read: RedisRead, unpickle: seq<bv8> -> Result<Shard>, fetched: seq<Fetched>, env: Env): (m: Shards)
    ensures m.Keys == {SUPPORTED_LANGUAGE}
    ensures m[SUPPORTED_LANGUAGE] == GetLshFromRedisCorrected(Some(ENGLISH_LSH_KEY), read, unpickle, fetched, env)
  {
    map[SUPPORTED_LANGUAGE := GetLshFromRedisCorrected(Some(ENGLISH_LSH_KEY), read, unpickle, fetched, env)]
  }

  /** `lsh_cache_dict.get(language)`: the language's entry when there is one, `None` otherwise. */
  function Lookup(shards: Shards, language: Option<string>): (r: Option<Shard>)
    ensures language.Some? && language.value in shards ==> r == shards[language.value]
    ensures language.None? || language.value !in shards ==> r.None?
  {
    if language.Some? && language.value in shards then shards[language.value] else None
  }

  /** `is_duplicate(request)` at time `now`. A body that is not JSON raises a
      `ValueError` inside the handler and is answered `duplicate_keys`; a JSON value
      that is not an object is a 500. Otherwise the fields go to `run_lsh_check`
      unchanged (`domain` as the article domain): a `ValueError` from it is answered
      `duplicate_keys`, any other exception is a 500, and a status is returned as is.
      Only the shard of the request's language can change. */
  function IsDuplicate(body: Body, shards: Shards, now: int, env: Env): (r: Served)
    ensures r.shards.Keys == shards.Keys
    ensures body.Unparseable? ==> r == Served(shards, Json(Some(DuplicateKeys)))
    ensures body.NotAnObject? ==> r == Served(shards, InternalServerError)
    ensures body.Fields? ==>
              var checked := RunLshCheck(body.content, body.language, body.domain, body.articleId,
                                         Lookup(shards, body.language), now, env);
              (checked.status.Success? ==> r.response == Json(checked.status.value)) &&
              (checked.status == Failure(ValueError) ==> r.response == Json(Some(DuplicateKeys))) &&
              (checked.status.Failure? && checked.status.error != ValueError ==> r.response == InternalServerError) &&
              (Lookup(shards, body.language).Some? ==> r.shards[body.language.value] == checked.cache)
    ensures body.Fields? && Lookup(shards, body.language).None? ==> r == Served(shards, Json(None))
    ensures forall l :: l in shards && (body.Fields? ==> body.language != Some(l)) ==> r.shards[l] == shards[l]
  {
    match body
    case Unparseable => Served(shards, Json(Some(DuplicateKeys)))
    case NotAnObject => Served(shards, InternalServerError)
    case Fields(content, language, domain, articleId) =>
      var cache := Lookup(shards, language);
      var checked := RunLshCheck(content, language, domain, articleId, cache, now, env);
      var after := if cache.Some? then shards[language.value := checked.cache] else shards;
      match checked.status
      case Success(status) => Served(after, Json(status))
      case Failure(ValueError) => Served(after, Json(Some(DuplicateKeys)))
      case Failure(_) => Served(after, InternalServerError)
  }

  /** Right after startup, a request in any language but English finds no shard:
      the status is `null` and nothing changes. */
  lemma OtherLanguageIsNotReady(read: RedisRead, unpickle: seq<bv8> -> Result<Shard>, fetched: seq<Fetched>,
                                env: Env, content: Option<string>, language: Option<string>,
                                domain: Option<string>, articleId: Option<string>, now: int)
    requires language != Some(SUPPORTED_LANGUAGE)
    ensures var shards := Lifespan(read, unpickle, fetched, env);
            IsDuplicate(Fields(content, language, domain, articleId), shards, now, env) == Served(shards, Json(None))
  {
  }

  /** A classified request stores its key `f"{article_id}|{domain}"`, expiring at
      `now` plus the shard's TTL, in the shard of its language. */
  lemma ClassifiedRequestIsIndexed(content: Option<string>, language: Option<string>, domain: Option<string>,
                                   articleId: Option<string>, shards: Shards, now: int, env: Env)
    requires Lookup(shards, language).Some?
    requires IsDuplicate(Fields(content, language, domain, articleId), shards, now, env).response.Json?
    requires IsDuplicate(Fields(content, language, domain, articleId), shards, now, env).response.status
             != Some(DuplicateKeys)
    ensures var r := IsDuplicate(Fields(content, language, domain, articleId), shards, now, env);
            var s := r.shards[language.value].value;
            FormatKey(articleId, domain) in Keys(s.lsh) &&
            s.expirations[FormatKey(articleId, domain)] == now + Lookup(shards, language).value.ttl
  {
  }

  /** Sending the same request again after it was classified is answered
      `duplicate_keys`: its key is already in the index, so the insert raises. */
  lemma ResubmissionIsDuplicateKeys(body: Body, shards: Shards, now: int, later: int, env: Env)
    requires body.Fields? && Lookup(shards, body.language).Some?
    requires IsDuplicate(body, shards, now, env).response.Json?
    requires IsDuplicate(body, shards, now, env).response.status != Some(DuplicateKeys)
    ensures var first := IsDuplicate(body, shards, now, env);
            IsDuplicate(body, first.shards, later, env).response == Json(Some(DuplicateKeys))
  {
    var first := IsDuplicate(body, shards, now, env);
    ClassifiedRequestIsIndexed(body.content, body.language, body.domain, body.articleId, shards, now, env);
    assert Lookup(first.shards, body.language) == first.shards[body.language.value];
  }

  /** `health_endpoint()`: the constant liveness message; the shard map is not touched. */
  function HealthCheck(shards: Shards): (r: (Shards, string))
    ensures r.0 == shards && r.1 == HEALTH_MESSAGE
  {
    (shards, HEALTH_MESSAGE)
  }

  /** A health check between requests changes no later answer. */
  lemma HealthCheckIsInert(shards: Shards, body: Body, now: int, env: Env)
    ensures IsDuplicate(body, HealthCheck(shards).0, now, env) == IsDuplicate(body, shards, now, env)
  {
  }

  /** After a cold start (no snapshot), a request from a recovered document's domain
      carrying its text under a new article id is answered `duplicate` when the
      recovery records are tagged with the recovery language. */
  lemma ColdStartDetectsRecovered(unpickle: seq<bv8> -> Result<Shard>, fetched: seq<Fetched>, i: nat,
                                  articleId: string, now: int, env: Env)
    requires FastRecovery(fetched, env).Some?
    requires i < |fetched| && fetched[i].domain.Some?
    requires SEP !in Show(fetched[i].articleId) && SEP !in fetched[i].domain.value
    requires Reflexive(env.candidate)
    requires FormatKey(Some(articleId), fetched[i].domain) !in Keys(FastRecovery(fetched, env).value.lsh)
    requires !Contains(FormatKey(fetched[i].articleId, fetched[i].domain), articleId)
    ensures IsDuplicate(Fields(Some(fetched[i].text), Some(SUPPORTED_LANGUAGE), fetched[i].domain, Some(articleId)),
                        LifespanCorrected(NotFound, unpickle, fetched, env), now, env).response == Json(Some(Duplicate))
  {
    RecoveredDocumentIsDetected(fetched, i, articleId, now, env);
  }

  /** The finding at the service boundary: after a cold start as written, the
      republish of a document whose only token is another language's stop word is
      answered `unique`; with the corrected records it is answered `duplicate`. */
  lemma ColdStartRepublish(unpickle: seq<bv8> -> Result<Shard>, f: Fetched, articleId: string, word: string,
                           now: int, env: Env)
    requires f.domain.Some? && SEP !in Show(f.articleId) && SEP !in f.domain.value
    requires env.tokenize(f.text) == [word]
    requires RECOVERY_LANGUAGE in env.stopWords && word !in env.stopWords[RECOVERY_LANGUAGE]
    requires exists l :: l in env.stopWords && word in env.stopWords[l]
    requires |env.minhash([])| == RECOVERY_NUM_PERM && |env.minhash([word])| == RECOVERY_NUM_PERM
    requires Reflexive(env.candidate) && !env.candidate(env.minhash([word]), env.minhash([]))
    requires FormatKey(Some(articleId), f.domain) != FormatKey(f.articleId, f.domain)
    requires !Contains(FormatKey(f.articleId, f.domain), articleId)
    ensures var body := Fields(Some(f.text), Some(SUPPORTED_LANGUAGE), f.domain, Some(articleId));
            IsDuplicate(body, Lifespan(NotFound, unpickle, [f], env), now, env).response == Json(Some(Unique)) &&
            IsDuplicate(body, LifespanCorrected(NotFound, unpickle, [f], env), now, env).response == Json(Some(Duplicate))
  {
    AsWrittenRecoveryMissesRepublish(f, articleId, word, now, env);
  }
}
