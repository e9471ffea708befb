/** `MinHashLSHTTL`: an LSH index together with a map from key to expiry time.
    Time is an integer count of seconds passed in explicitly as `now`. */
module LshTtl {
  import opened Results
  import opened MinHashLsh

  /** Default time-to-live of an entry, in seconds (24 hours). */
  const DEFAULT_TTL: int := 86400

  datatype Shard = Shard(lsh: Index, ttl: int, expirations: map<Key, int>)

  /** The shard after a call that may raise; Python keeps any mutation made
      before the exception, so the shard is returned either way. */
  datatype Step = Step(shard: Shard, raised: Option<PyError>)

  /** Every tracked key is stored in the index, and the index keys are distinct. */
  ghost predicate Consistent(s: Shard)
  {
    Valid(s.lsh) && s.expirations.Keys <= Keys(s.lsh)
  }

  /** `MinHashLSHTTL(threshold, num_perm, ttl)`: an empty index and no expiries. */
  function New(numPerm: nat, ttl: int := DEFAULT_TTL): (s: Shard)
    ensures Keys(s.lsh) == {} && s.expirations == map[] && s.ttl == ttl
    ensures s.lsh.numPerm == numPerm && Consistent(s)
  {
    Shard(Empty(numPerm), ttl, map[])
  }

  /** `insert(key, minhash)` at time `now`: the library insert runs first; when it
      raises, the expiry map is untouched. Otherwise the key expires at `now + ttl`
      and every other expiry is kept. */
  function Insert(s: Shard, key: Key, sig: Signature, now: int): (r: Step)
    ensures r.raised.None? <==> |sig| == s.lsh.numPerm && key !in Keys(s.lsh)
    ensures r.raised.Some? ==> r.raised == Some(ValueError) && r == Step(s, r.raised)
    ensures r.raised.None? ==> Keys(r.shard.lsh) == Keys(s.lsh) + {key}
    ensures r.raised.None? ==> forall e :: e in r.shard.lsh.entries <==> e in s.lsh.entries || e == Entry(key, sig)
    ensures r.raised.None? ==> key in r.shard.expirations && r.shard.expirations[key] == now + s.ttl
    ensures r.raised.None? ==> r.shard.expirations.Keys == s.expirations.Keys + {key}
    ensures forall k :: k in s.expirations && k != key ==> r.shard.expirations[k] == s.expirations[k]
    ensures r.shard.ttl == s.ttl && r.shard.lsh.numPerm == s.lsh.numPerm
    ensures Consistent(s) ==> Consistent(r.shard)
  {
    match MinHashLsh.Insert(s.lsh, key, sig)
    case Failure(e) => Step(s, Some(e))
    case Success(ix) => Step(Shard(ix, s.ttl, s.expirations[key := now + s.ttl]), None)
  }

  /** `query(minhash)`: answered by the index alone; the expiry map plays no part,
      so an entry past its expiry is still returned until it is removed. A query
      signature of the wrong length raises `ValueError`. */
  function Query(s: Shard, q: Signature, candidate: CandidateRel): (r: Result<seq<Key>>)
    ensures r.Failure? <==> |q| != s.lsh.numPerm
    ensures r.Failure? ==> r.error == ValueError
    ensures r.Success? ==> forall e :: e in s.lsh.entries && candidate(q, e.sig) ==> e.key in r.value
    ensures r.Success? ==> forall k :: k in r.value ==> exists e :: e in s.lsh.entries && e.key == k && candidate(q, e.sig)
  {
    MinHashLsh.Query(s.lsh, q, candidate)
  }

  /** Two shards with the same index answer every query alike, whatever their expiries. */
  lemma QueryIgnoresExpiry(s: Shard, expirations: map<Key, int>, q: Signature, candidate: CandidateRel)
    ensures Query(s.(expirations := expirations), q, candidate) == Query(s, q, candidate)
  {
  }

  /** `remove(key)`: the library remove raises `ValueError` for a key it does not
      store, leaving everything as it was; otherwise the key leaves the index and
      the expiry map, and all other keys and expiries stay. */
  function Remove(s: Shard, key: Key): (r: Step)
    ensures r.raised.None? <==> key in Keys(s.lsh)
    ensures r.raised.Some? ==> r.raised == Some(ValueError) && r == Step(s, r.raised)
    ensures r.raised.None? ==> Keys(r.shard.lsh) == Keys(s.lsh) - {key}
    ensures r.raised.None? ==> r.shard.expirations.Keys == s.expirations.Keys - {key}
    ensures r.raised.None? ==> forall e :: e in r.shard.lsh.entries <==> e in s.lsh.entries && e.key != key
    ensures forall k :: k in r.shard.expirations ==> k in s.expirations && r.shard.expirations[k] == s.expirations[k]
    ensures r.shard.ttl == s.ttl && r.shard.lsh.numPerm == s.lsh.numPerm
    ensures Consistent(s) ==> Consistent(r.shard)
  {
    match MinHashLsh.Remove(s.lsh, key)
    case Failure(e) => Step(s, Some(e))
    case Success(ix) => Step(Shard(ix, s.ttl, s.expirations - {key}), None)
  }

  /** The tracked keys whose expiry is strictly before `now`. */
  function Expired(s: Shard, now: int): (ks: set<Key>)
    ensures forall k :: k in ks <==> k in s.expirations && s.expirations[k] < now
  {
    set k | k in s.expirations && s.expirations[k] < now
  }

  /** The shard with exactly the keys in `ks` dropped from both the index and the expiry map. */
  function Evict(s: Shard, ks: set<Key>): (r: Shard)
    ensures Keys(r.lsh) == Keys(s.lsh) - ks
    ensures forall e :: e in r.lsh.entries <==> e in s.lsh.entries && e.key !in ks
    ensures r.expirations.Keys == s.expirations.Keys - ks
    ensures forall k :: k in r.expirations ==> r.expirations[k] == s.expirations[k]
    ensures r.ttl == s.ttl && r.lsh.numPerm == s.lsh.numPerm
    ensures Consistent(s) ==> Consistent(r)
  {
    WithoutDistinct(s.lsh.entries, ks);
    Shard(Index(s.lsh.numPerm, Without(s.lsh.entries, ks)), s.ttl, s.expirations - ks)
  }

  /** `cleanup_expired_keys()` at time `now`: removes the expired keys one at a time
      (in the dictionary's order, which the model leaves open). It succeeds exactly
      when every expired key is still in the index, and then drops exactly those
      keys; a key whose expiry is at or after `now`, and a key that is not tracked
      at all, is never removed. A failing removal raises `ValueError` and stops the
      sweep with the earlier removals kept. */
  method CleanupExpiredKeys(s: Shard, now: int) returns (r: Step)
    ensures r.raised.None? <==> Expired(s, now) <= Keys(s.lsh)
    ensures r.raised.Some? ==> r.raised == Some(ValueError)
    ensures r.raised.None? ==> r.shard == Evict(s, Expired(s, now))
    ensures exists done :: done <= Expired(s, now) && r.shard == Evict(s, done)
    ensures forall e :: e in s.lsh.entries && e.key !in Expired(s, now) ==> e in r.shard.lsh.entries
    ensures forall e :: e in r.shard.lsh.entries ==> e in s.lsh.entries
    ensures forall k :: k in s.expirations && s.expirations[k] >= now ==>
              k in r.shard.expirations && r.shard.expirations[k] == s.expirations[k]
    ensures Consistent(s) ==> Consistent(r.shard)
  {
    var expired := Expired(s, now);
    var pending := expired;
    var cur := s;
    EvictNothing(s);
    assert expired - pending == {};
    while pending != {}
      invariant pending <= expired
      invariant cur == Evict(s, expired - pending)
      invariant expired - pending <= Keys(s.lsh)
      decreases pending
    {
      var k :| k in pending;
      var st := Remove(cur, k);
      if st.raised.Some? {
        assert k !in Keys(s.lsh);
        assert st.shard == Evict(s, expired - pending);
        return st;
      }
      EvictOneMore(s, expired - pending, k);
      assert (expired - pending) + {k} == expired - (pending - {k});
      pending := pending - {k};
      cur := st.shard;
    }
    assert expired - pending == expired;
    r := Step(cur, None);
    assert r.shard == Evict(s, expired);
  }

  /** An entry that has expired stays expired: the expired set only grows with time. */
  lemma ExpiredMonotone(s: Shard, now: int, later: int)
    requires now <= later
    ensures Expired(s, now) <= Expired(s, later)
  {
  }

  /** A key inserted at `now` is swept by a cleanup at time `t` exactly when `t` is
      past its lifetime `now + ttl`. */
  lemma InsertedKeyLifetime(s: Shard, key: Key, sig: Signature, now: int, t: int)
    requires Insert(s, key, sig, now).raised.None?
    ensures key in Expired(Insert(s, key, sig, now).shard, t) <==> now + s.ttl < t
  {
  }

  /** Evicting no keys changes nothing. */
  lemma EvictNothing(s: Shard)
    ensures Evict(s, {}) == s
  {
    WithoutNothing(s.lsh.entries);
    assert s.expirations - {} == s.expirations;
  }

  /** Removing one more stored key from an evicted shard evicts that key too. */
  lemma EvictOneMore(s: Shard, done: set<Key>, k: Key)
    requires k in Keys(s.lsh) && k !in done
    ensures Remove(Evict(s, done), k) == Step(Evict(s, done + {k}), None)
  {
    WithoutTwice(s.lsh.entries, done, {k});
    assert (s.expirations - done) - {k} == s.expirations - (done + {k});
  }

  /** A second sweep at the same time finds nothing left to remove. */
  lemma CleanupIdempotent(s: Shard, now: int)
    ensures Expired(Evict(s, Expired(s, now)), now) == {}
  {
  }

  /** Under the consistency invariant the sweep never raises. */
  lemma ConsistentCleanupSucceeds(s: Shard, now: int)
    requires Consistent(s)
    ensures Expired(s, now) <= Keys(s.lsh)
  {
  }

  /** `get_expiration_times()`: the expiry map, as timestamps. */
  function GetExpirationTimes(s: Shard): (m: map<Key, int>)
    ensures m.Keys == s.expirations.Keys
    ensures forall k :: k in m ==> m[k] == s.expirations[k]
  {
    s.expirations
  }

  /** `set_expiration_times(m)`: replaces the expiry map and leaves the index alone. */
  function SetExpirationTimes(s: Shard, m: map<Key, int>): (r: Shard)
    ensures r.lsh == s.lsh && r.ttl == s.ttl
    ensures r.expirations.Keys == m.Keys
    ensures forall k :: k in m ==> r.expirations[k] == m[k]
  {
    s.(expirations := m)
  }

  /** Exporting the expiries and importing them back changes nothing. */
  lemma ExpiryRoundTrip(s: Shard)
    ensures SetExpirationTimes(s, GetExpirationTimes(s)) == s
  {
  }

  /** Importing an expiry map and exporting it again gives that map back. */
  lemma ImportExportRoundTrip(s: Shard, m: map<Key, int>)
    ensures GetExpirationTimes(SetExpirationTimes(s, m)) == m
  {
  }
}
