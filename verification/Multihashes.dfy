/** Tries of multihashes, or of peers: values that are stored under their hash. SHA-256 is an injective map to bit
    strings of one length. */
module Multihashes {
  import opened Keys
  import opened Sequences
  import opened Tries
  import opened Allocation

  /** Hashing is injective and yields identifiers of one length. */
  ghost predicate Hashing<V(!new)>(hash: V -> Key, unhash: Key -> V, bits: nat) {
    forall v :: |hash(v)| == bits && unhash(hash(v)) == v
  }

  /** The trie holds each value under its hash. */
  ghost predicate Stored<V(!new)>(t: Trie<V>, hash: V -> Key, unhash: Key -> V, bits: nat) {
    && WF(t, []) && Hashing(hash, unhash, bits)
    && forall k :: k in Content(t) ==> hash(Content(t)[k]) == k
  }

  lemma StoredIsDistinct<V(!new)>(t: Trie<V>, hash: V -> Key, unhash: Key -> V, bits: nat, k: Key)
    requires Stored(t, hash, unhash, bits) && |k| == bits
    ensures Distinct(t) && Fits(t, k)
  {
    assert forall p :: p in Content(t) ==> |hash(Content(t)[p])| == bits;
  }

  lemma AddValue<V(!new)>(t: Trie<V>, h: V, hash: V -> Key, unhash: Key -> V, bits: nat)
    requires Stored(t, hash, unhash, bits)
    ensures Stored(Add(t, hash(h), h), hash, unhash, bits)
    ensures Content(Add(t, hash(h), h)).Keys == Content(t).Keys + {hash(h)}
  {
    StoredIsDistinct(t, hash, unhash, bits, hash(h));
    AddSpec(t, hash(h), h);
  }

  /** Adding values; one that is already there stays as it is. */
  method AddValues<V(!new)>(t: Trie<V>, hs: seq<V>, hash: V -> Key, ghost unhash: Key -> V, ghost bits: nat)
    returns (r: Trie<V>)
    requires Stored(t, hash, unhash, bits)
    ensures Stored(r, hash, unhash, bits) && Content(r).Keys == Content(t).Keys + set h | h in hs :: hash(h)
  {
    r := t;
    for i := 0 to |hs|
      invariant Stored(r, hash, unhash, bits) && Content(r).Keys == Content(t).Keys + set h | h in hs[..i] :: hash(h)
    {
      AddValue(r, hs[i], hash, unhash, bits);
      r := Add(r, hash(hs[i]), hs[i]);
      assert hs[..i + 1] == hs[..i] + [hs[i]];
    }
    assert hs[..|hs|] == hs;
  }

  /** The values whose keys lie under `p`, each of them once. */
  ghost predicate Batch<V(!new)>(hs: seq<V>, p: Key, keys: set<Key>, hash: V -> Key) {
    NoRepeats(hs) && forall h :: h in hs <==> hash(h) in keys && p <= hash(h)
  }
}
