/** The near-duplicate classifier: `get_status_from_candidates` and the request
    step `run_lsh_check` that inserts the document and classifies the candidates
    the index returns for it. */
module Classify {
  import opened Results
  import opened Text
  import opened MinHashLsh
  import opened LshTtl
  import opened Signatures

  /** The statuses a request can be answered with; on the wire they are the strings
      "duplicate", "similarity", "unique" and "duplicate_keys". */
  datatype Status = Duplicate | Similarity | Unique | DuplicateKeys

  /** `[pair for pair in candidates if article_id not in pair]`: drops every
      candidate key that has the article id anywhere inside it. */
  function DropOwnKeys(candidates: seq<string>, articleId: string): (r: seq<string>)
    ensures forall p :: p in r <==> p in candidates && !Contains(p, articleId)
    ensures IsSubsequence(r, candidates)
  {
    if candidates == [] then []
    else
      var rest := DropOwnKeys(candidates[1..], articleId);
      assert candidates == [candidates[0]] + candidates[1..];
      if Contains(candidates[0], articleId) then rest
      else
        var r := [candidates[0]] + rest;
        assert r[1..] == rest;
        r
  }

  /** The filter distributes over concatenation of candidate lists. */
  lemma {:induction false} DropOwnKeysAppend(a: seq<string>, b: seq<string>, articleId: string)
    ensures DropOwnKeys(a + b, articleId) == DropOwnKeys(a, articleId) + DropOwnKeys(b, articleId)
  {
    if a == [] {
      assert a + b == b;
    } else {
      assert (a + b)[1..] == a[1..] + b;
      DropOwnKeysAppend(a[1..], b, articleId);
    }
  }

  /** `pair.split('|')[1] == article_domain`; a `None` domain equals no string. */
  predicate DomainMatches(pair: string, domain: Option<string>)
  {
    domain.Some? && Field(pair, 1) == Success(domain.value)
  }

  /** `any(pair.split('|')[1] == article_domain for pair in pairs)`, evaluated left
      to right: the first pair without a separator raises `IndexError` unless an
      earlier pair already matched. */
  function AnyDomainMatch(pairs: seq<string>, domain: Option<string>): (r: Result<bool>)
    ensures (forall p :: p in pairs ==> SEP in p) ==> r == Success(exists p :: p in pairs && DomainMatches(p, domain))
    ensures r == Success(true) ==> exists p :: p in pairs && DomainMatches(p, domain)
    ensures r == Success(false) ==> forall p :: p in pairs ==> SEP in p && !DomainMatches(p, domain)
    ensures r.Failure? ==> r.error == IndexError && exists p :: p in pairs && SEP !in p
  {
    if pairs == [] then Success(false)
    else
      assert pairs == [pairs[0]] + pairs[1..];
      assert pairs[0] in pairs;
      assert forall p :: p in pairs[1..] ==> p in pairs;
      match Field(pairs[0], 1)
      case Failure(e) =>
        assert SEP !in pairs[0];
        Failure(e)
      case Success(d) =>
        if domain.Some? && d == domain.value then
          assert DomainMatches(pairs[0], domain);
          Success(true)
        else
          assert !DomainMatches(pairs[0], domain);
          AnyDomainMatch(pairs[1..], domain)
  }

  /** `get_status_from_candidates(article_domain, candidate_pairs, article_id)`.
      With a present article id: `unique` exactly when every candidate contains the
      id; `duplicate` when a remaining candidate has the request's domain as its
      second field (even if cross-domain candidates remain too); `similarity`
      exactly when candidates remain and none of them has that domain. A missing
      article id raises `TypeError` as soon as there is a candidate to test. */
  function GetStatusFromCandidates(domain: Option<string>, candidates: seq<string>, articleId: Option<string>): (r: Result<Status>)
    ensures articleId.None? ==> (r.Failure? <==> candidates != [])
    ensures articleId.None? && r.Failure? ==> r.error == TypeError
    ensures articleId.None? && r.Success? ==> r.value == Unique
    ensures articleId.Some? ==>
              (r == Success(Unique) <==> forall p :: p in candidates ==> Contains(p, articleId.value))
    ensures articleId.Some? &&
            (forall p :: p in candidates && !Contains(p, articleId.value) ==> SEP in p) &&
            (exists p :: p in candidates && !Contains(p, articleId.value) && DomainMatches(p, domain))
            ==> r == Success(Duplicate)
    ensures r == Success(Duplicate) ==>
              articleId.Some? && exists p :: p in candidates && !Contains(p, articleId.value) && DomainMatches(p, domain)
    ensures articleId.Some? ==>
              (r == Success(Similarity) <==>
                 (exists p :: p in candidates && !Contains(p, articleId.value)) &&
                 (forall p :: p in candidates && !Contains(p, articleId.value) ==> SEP in p && !DomainMatches(p, domain)))
    ensures articleId.Some? && r.Failure? ==>
              r.error == IndexError && exists p :: p in candidates && !Contains(p, articleId.value) && SEP !in p
    ensures r.Success? ==> r.value != DuplicateKeys
  {
    match articleId
    case None =>
      if candidates == [] then Success(Unique) else Failure(TypeError)
    case Some(a) =>
      var remaining := DropOwnKeys(candidates, a);
      if remaining != [] then
        assert remaining[0] in remaining;
        match AnyDomainMatch(remaining, domain)
        case Failure(e) => Failure(e)
        case Success(found) => if found then Success(Duplicate) else Success(Similarity)
      else
        assert forall p :: p in candidates ==> Contains(p, a);
        Success(Unique)
  }

  /** With the empty article id every candidate is discarded, so the answer is `unique`. */
  lemma EmptyIdIsUnique(domain: Option<string>, candidates: seq<string>)
    ensures GetStatusFromCandidates(domain, candidates, Some("")) == Success(Unique)
  {
    forall p | p in candidates ensures Contains(p, "") {
      assert "" <= p;
    }
  }

  /** The substring filter also discards a different article whose id merely
      starts with this one: article "1" does not see article "12" even when both
      come from the same domain. */
  lemma SubstringFilterHidesOtherArticle(articleId: string, suffix: string, domain: string)
    ensures GetStatusFromCandidates(Some(domain), [FormatKey(Some(articleId + suffix), Some(domain))], Some(articleId))
            == Success(Unique)
  {
    var key := FormatKey(Some(articleId + suffix), Some(domain));
    assert key == articleId + (suffix + [SEP] + domain);
    PrefixContained(articleId, suffix + [SEP] + domain);
  }

  /** A candidate of the request's own domain wins over a cross-domain one listed before it. */
  lemma DuplicateOutranksSimilarity(articleId: string, other: string, otherDomain: string,
                                    same: string, domain: string)
    requires SEP !in other && SEP !in otherDomain && SEP !in same && SEP !in domain
    requires !Contains(FormatKey(Some(other), Some(otherDomain)), articleId)
    requires !Contains(FormatKey(Some(same), Some(domain)), articleId)
    ensures GetStatusFromCandidates(Some(domain),
              [FormatKey(Some(other), Some(otherDomain)), FormatKey(Some(same), Some(domain))],
              Some(articleId)) == Success(Duplicate)
  {
    var k2 := FormatKey(Some(same), Some(domain));
    KeyDomainField(Some(same), Some(domain));
    assert DomainMatches(k2, Some(domain));
  }

  /** The outcome of `run_lsh_check` together with the shard it leaves behind. */
  datatype Checked = Checked(cache: Option<Shard>, status: Result<Option<Status>>)

  /** A status or an exception of the classifier, as `run_lsh_check` returns it. */
  function Lift(r: Result<Status>): Result<Option<Status>>
  {
    match r
    case Success(st) => Success(Some(st))
    case Failure(e) => Failure(e)
  }

  /** `run_lsh_check(...)` at time `now`. Without a shard the status is `None` and
      nothing is touched. Otherwise the signature is computed (its exceptions pass
      through, shard untouched), the key `f"{article_id}|{article_domain}"` is
      inserted (a `ValueError` from the insert leaves the shard untouched), and then
      the index is queried and the candidates classified, with the inserted key and
      its expiry kept even when the query or the classification raises. The query
      cannot raise here: the insert has already checked the signature length. */
  function RunLshCheck(content: Option<string>, language: Option<string>, domain: Option<string>,
                       articleId: Option<string>, cache: Option<Shard>, now: int, env: Env): (r: Checked)
    ensures cache.None? ==> r == Checked(None, Success(None))
    ensures cache.Some? ==> r.cache.Some?
    ensures cache.Some? && MinhashSignature(content, language, env).Failure? ==>
              r.cache == cache && r.status == Failure(MinhashSignature(content, language, env).error)
    ensures cache.Some? && MinhashSignature(content, language, env).Success? ==>
              var sig := MinhashSignature(content, language, env).value;
              var key := FormatKey(articleId, domain);
              (key in Keys(cache.value.lsh) || |sig| != cache.value.lsh.numPerm ==>
                 r.cache == cache && r.status == Failure(ValueError)) &&
              (key !in Keys(cache.value.lsh) && |sig| == cache.value.lsh.numPerm ==>
                 Keys(r.cache.value.lsh) == Keys(cache.value.lsh) + {key} &&
                 Entry(key, sig) in r.cache.value.lsh.entries &&
                 key in r.cache.value.expirations && r.cache.value.expirations[key] == now + cache.value.ttl &&
                 r.cache == Some(LshTtl.Insert(cache.value, key, sig, now).shard) &&
                 r.status == Lift(GetStatusFromCandidates(domain, LshTtl.Query(r.cache.value, sig, env.candidate).value, articleId)) &&
                 r.status != Failure(ValueError))
    ensures r.status.Success? && cache.Some? ==> r.status.value.Some? && r.status.value.value != DuplicateKeys
    ensures cache.Some? && Consistent(cache.value) ==> Consistent(r.cache.value)
  {
    match cache
    case None => Checked(None, Success(None))
    case Some(s) =>
      match MinhashSignature(content, language, env)
      case Failure(e) => Checked(cache, Failure(e))
      case Success(sig) =>
        var ins := LshTtl.Insert(s, FormatKey(articleId, domain), sig, now);
        if ins.raised.Some? then Checked(cache, Failure(ins.raised.value))
        else
          match LshTtl.Query(ins.shard, sig, env.candidate)
          case Failure(e) => Checked(Some(ins.shard), Failure(e))
          case Success(candidates) => Checked(Some(ins.shard), Lift(GetStatusFromCandidates(domain, candidates, articleId)))
  }

  /** The document's own just-inserted entry never affects its status: after a
      successful insert, the status is the classification of the candidates the
      index held before the insert. */
  lemma {:induction false} OwnEntryNeverCounts(content: Option<string>, language: Option<string>, domain: Option<string>,
                                               articleId: string, s: Shard, now: int, env: Env)
    requires MinhashSignature(content, language, env).Success?
    requires FormatKey(Some(articleId), domain) !in Keys(s.lsh)
    requires |MinhashSignature(content, language, env).value| == s.lsh.numPerm
    ensures RunLshCheck(content, language, domain, Some(articleId), Some(s), now, env).status ==
            Lift(GetStatusFromCandidates(domain, LshTtl.Query(s, MinhashSignature(content, language, env).value, env.candidate).value, Some(articleId)))
  {
    var sig := MinhashSignature(content, language, env).value;
    var key := FormatKey(Some(articleId), domain);
    var ins := LshTtl.Insert(s, key, sig, now);
    assert ins.shard.lsh.entries == s.lsh.entries + [Entry(key, sig)];
    MatchingAppend(s.lsh.entries, [Entry(key, sig)], sig, env.candidate);
    var before := Matching(s.lsh.entries, sig, env.candidate);
    var own := Matching([Entry(key, sig)], sig, env.candidate);
    KeyContainsId(articleId, domain);
    DropOwnKeysAppend(before, own, articleId);
    assert DropOwnKeys(own, articleId) == [] by {
      assert own == [] || own == [key];
    }
    assert DropOwnKeys(before + own, articleId) == DropOwnKeys(before, articleId);
    ClassifyByRemaining(domain, before + own, before, articleId);
  }

  /** The status with a present article id depends only on the candidates that survive the filter. */
  lemma ClassifyByRemaining(domain: Option<string>, c1: seq<string>, c2: seq<string>, articleId: string)
    requires DropOwnKeys(c1, articleId) == DropOwnKeys(c2, articleId)
    ensures GetStatusFromCandidates(domain, c1, Some(articleId)) == GetStatusFromCandidates(domain, c2, Some(articleId))
  {
  }
}
