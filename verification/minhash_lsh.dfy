/** The datasketch `MinHashLSH` index, abstracted. A signature is a
    fixed-length sequence of hash values; the banded bucket structure is
    replaced by a candidate relation on signatures given by the caller, so a
    query returns every stored key whose signature is a candidate of the
    query signature. Entries are kept in insertion order. */
module MinHashLsh {
  import opened Results

  type Key = string
  type Signature = seq<int>

  /** Whether two signatures share at least one band bucket. */
  type CandidateRel = (Signature, Signature) -> bool

  datatype Entry = Entry(key: Key, sig: Signature)

  /** `numPerm` is the signature length the index was built for. */
  datatype Index = Index(numPerm: nat, entries: seq<Entry>)

  /** The keys stored in a list of entries. */
  function KeysOf(entries: seq<Entry>): set<Key>
  {
    set e | e in entries :: e.key
  }

  function Keys(ix: Index): set<Key>
  {
    KeysOf(ix.entries)
  }

  /** No key occurs twice in a list of entries. */
  ghost predicate DistinctKeys(entries: seq<Entry>)
  {
    forall i, j :: 0 <= i < j < |entries| ==> entries[i].key != entries[j].key
  }

  /** No key is stored twice; the library keeps this by refusing duplicate inserts. */
  ghost predicate Valid(ix: Index)
  {
    DistinctKeys(ix.entries)
  }

  /** A list with distinct keys is its head followed by a distinct list without the head's key. */
  lemma DistinctUncons(entries: seq<Entry>)
    requires entries != [] && DistinctKeys(entries)
    ensures DistinctKeys(entries[1..]) && entries[0].key !in KeysOf(entries[1..])
  {
    var tail := entries[1..];
    forall i, j | 0 <= i < j < |tail| ensures tail[i].key != tail[j].key {
      assert tail[i] == entries[i + 1] && tail[j] == entries[j + 1];
    }
  }

  /** Putting an entry with a fresh key in front keeps the keys distinct. */
  lemma DistinctCons(e: Entry, tail: seq<Entry>)
    requires DistinctKeys(tail) && e.key !in KeysOf(tail)
    ensures DistinctKeys([e] + tail)
  {
    var r := [e] + tail;
    forall i, j | 0 <= i < j < |r| ensures r[i].key != r[j].key {
      assert r[j] == tail[j - 1];
      if i == 0 {
        assert r[j] in tail;
      } else {
        assert r[i] == tail[i - 1];
      }
    }
  }

  /** `MinHashLSH(num_perm=numPerm)`: an index with no entries. */
  function Empty(numPerm: nat): (ix: Index)
    ensures ix.numPerm == numPerm && Keys(ix) == {} && Valid(ix)
  {
    Index(numPerm, [])
  }

  /** The entries whose key is not in `ks`, in their original order. */
  function Without(entries: seq<Entry>, ks: set<Key>): (r: seq<Entry>)
    ensures forall e :: e in r <==> e in entries && e.key !in ks
    ensures |r| <= |entries|
  {
    if entries == [] then []
    else if entries[0].key in ks then Without(entries[1..], ks)
    else [entries[0]] + Without(entries[1..], ks)
  }

  /** Removing no keys changes nothing. */
  lemma {:induction false} WithoutNothing(entries: seq<Entry>)
    ensures Without(entries, {}) == entries
  {
    if entries != [] {
      WithoutNothing(entries[1..]);
      assert entries == [entries[0]] + entries[1..];
    }
  }

  /** Removing two key sets one after the other removes their union. */
  lemma {:induction false} WithoutTwice(entries: seq<Entry>, a: set<Key>, b: set<Key>)
    ensures Without(Without(entries, a), b) == Without(entries, a + b)
  {
    if entries != [] {
      WithoutTwice(entries[1..], a, b);
      if entries[0].key !in a {
        assert Without(entries, a) == [entries[0]] + Without(entries[1..], a);
        assert Without(entries, a)[1..] == Without(entries[1..], a);
      }
    }
  }

  /** Filtering keeps the keys apart. */
  lemma {:induction false} WithoutDistinct(entries: seq<Entry>, ks: set<Key>)
    ensures DistinctKeys(entries) ==> DistinctKeys(Without(entries, ks))
  {
    if entries != [] && DistinctKeys(entries) {
      DistinctUncons(entries);
      WithoutDistinct(entries[1..], ks);
      var w := Without(entries[1..], ks);
      if entries[0].key !in ks {
        assert entries[0].key !in KeysOf(w);
        DistinctCons(entries[0], w);
      }
    }
  }

  /** `lsh.insert(key, minhash)`: raises `ValueError` when the signature has the
      wrong length or the key is already stored; otherwise adds the entry. */
  function Insert(ix: Index, key: Key, sig: Signature): (r: Result<Index>)
    ensures r.Failure? <==> |sig| != ix.numPerm || key in Keys(ix)
    ensures r.Failure? ==> r.error == ValueError
    ensures r.Success? ==> r.value.numPerm == ix.numPerm
    ensures r.Success? ==> Keys(r.value) == Keys(ix) + {key}
    ensures r.Success? ==> forall e :: e in r.value.entries <==> e in ix.entries || e == Entry(key, sig)
    ensures r.Success? && Valid(ix) ==> Valid(r.value)
  {
    if |sig| != ix.numPerm then Failure(ValueError)
    else if key in Keys(ix) then Failure(ValueError)
    else
      var es := ix.entries + [Entry(key, sig)];
      assert forall e :: e in es <==> e in ix.entries || e == Entry(key, sig);
      assert forall i :: 0 <= i < |ix.entries| ==> ix.entries[i] in ix.entries;
      Success(Index(ix.numPerm, es))
  }

  /** `lsh.remove(key)`: raises `ValueError` when the key is not stored;
      otherwise drops its entry and nothing else. */
  function Remove(ix: Index, key: Key): (r: Result<Index>)
    ensures r.Failure? <==> key !in Keys(ix)
    ensures r.Failure? ==> r.error == ValueError
    ensures r.Success? ==> r.value.numPerm == ix.numPerm
    ensures r.Success? ==> Keys(r.value) == Keys(ix) - {key}
    ensures r.Success? ==> forall e :: e in r.value.entries <==> e in ix.entries && e.key != key
    ensures r.Success? && Valid(ix) ==> Valid(r.value)
  {
    if key !in Keys(ix) then Failure(ValueError)
    else
      var es := Without(ix.entries, {key});
      WithoutDistinct(ix.entries, {key});
      Success(Index(ix.numPerm, es))
  }

  /** The keys of the entries whose signature is a candidate of `q`, in entry order. */
  function Matching(entries: seq<Entry>, q: Signature, candidate: CandidateRel): (r: seq<Key>)
    ensures forall i :: 0 <= i < |entries| && candidate(q, entries[i].sig) ==> entries[i].key in r
    ensures forall k :: k in r ==> exists e :: e in entries && e.key == k && candidate(q, e.sig)
    ensures |r| <= |entries|
  {
    if entries == [] then []
    else
      var rest := Matching(entries[1..], q, candidate);
      assert forall i :: 1 <= i < |entries| ==> entries[i] == entries[1..][i - 1];
      if candidate(q, entries[0].sig) then [entries[0].key] + rest else rest
  }

  /** The candidate keys of a list of entries followed by more entries. */
  lemma {:induction false} MatchingAppend(a: seq<Entry>, b: seq<Entry>, q: Signature, candidate: CandidateRel)
    ensures Matching(a + b, q, candidate) == Matching(a, q, candidate) + Matching(b, q, candidate)
  {
    if a != [] {
      assert (a + b)[1..] == a[1..] + b;
      MatchingAppend(a[1..], b, q, candidate);
    } else {
      assert a + b == b;
    }
  }

  /** `lsh.query(minhash)`: raises `ValueError` when the query signature has the
      wrong length, like insert; otherwise the keys stored with a candidate signature. */
  function Query(ix: Index, q: Signature, candidate: CandidateRel): (r: Result<seq<Key>>)
    ensures r.Failure? <==> |q| != ix.numPerm
    ensures r.Failure? ==> r.error == ValueError
    ensures r.Success? ==> forall e :: e in ix.entries && candidate(q, e.sig) ==> e.key in r.value
    ensures r.Success? ==> forall k :: k in r.value ==> exists e :: e in ix.entries && e.key == k && candidate(q, e.sig)
  {
    if |q| != ix.numPerm then Failure(ValueError) else Success(Matching(ix.entries, q, candidate))
  }
}
