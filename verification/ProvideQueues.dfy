/** The provide queue: keys waiting to be provided, grouped under the prefixes of a prefix queue. */
module ProvideQueues {
  import opened Keys
  import opened Sequences
  import opened Tries
  import opened TrieOps
  import opened PrefixQueues
  import opened Allocation
  import opened Multihashes

  // ---------------------------------------------------------------- keys and prefixes

  ghost function Outside(m: set<Key>, p: Key): set<Key> {
    set k | k in m && !(p <= k)
  }

  /** Every key has a queued prefix. */
  ghost predicate Queued(q: seq<Key>, m: set<Key>) {
    forall k :: k in m ==> Holds(q, k)
  }

  /** Every queued prefix has a key. */
  ghost predicate Used(q: seq<Key>, m: set<Key>) {
    forall p :: p in q ==> HasKey(m, p)
  }

  ghost predicate Linked(q: seq<Key>, m: set<Key>) {
    Queued(q, m) && Used(q, m)
  }

  /** The queued prefixes that no key is left for. */
  ghost function Orphans(q: seq<Key>, m: set<Key>): set<Key> {
    set p | p in q && !HasKey(m, p)
  }

  /** Dropping keys and then exactly the orphaned prefixes keeps keys and prefixes linked. */
  lemma PurgeKeepsLinked(q: seq<Key>, m: set<Key>, m': set<Key>)
    requires Linked(q, m) && m' <= m
    ensures Linked(Without(q, Orphans(q, m')), m')
  {
    WithoutMembers(q, Orphans(q, m'));
    forall k | k in m' ensures Holds(Without(q, Orphans(q, m')), k) {
      var p :| p in q && p <= k;
      assert HasKey(m', p);
    }
  }

  /** Pushing a prefix together with keys under it keeps keys and prefixes linked. */
  lemma PushKeepsLinked(q: seq<Key>, m: set<Key>, p: Key, added: set<Key>)
    requires Linked(q, m) && added != {} && forall k :: k in added ==> p <= k
    ensures Linked(Pushed(q, p), m + added)
  {
    PushedMembers(q, p);
    forall k | k in m + added ensures Holds(Pushed(q, p), k) { PushedCoverage(q, p, k); }
    forall s | s in Pushed(q, p) ensures HasKey(m + added, s) {
      if s == p {
        var k :| k in added;
        assert k in m + added;
      } else {
        var k :| k in m && s <= k;
        assert k in m + added;
      }
    }
  }

  /** Values that match the prefix they are pushed with keep keys and prefixes linked. */
  lemma ValuesKeepLinked<V>(q: seq<Key>, m: set<Key>, p: Key, hs: seq<V>, hash: V -> Key)
    requires hs != []
    ensures Linked(q, m) && (forall h :: h in hs ==> p <= hash(h)) ==>
      Linked(Pushed(q, p), m + set h | h in hs :: hash(h))
  {
    if Linked(q, m) && forall h :: h in hs ==> p <= hash(h) {
      var added := set h | h in hs :: hash(h);
      assert hash(hs[0]) in added;
      PushKeepsLinked(q, m, p, added);
    }
  }

  /** A key belongs to at most one queued prefix. */
  lemma OnePrefixPerKey<D>(t: Trie<D>, k: Key, a: Key, b: Key)
    requires WF(t, []) && a in Content(t) && b in Content(t) && a <= k && b <= k
    ensures a == b
  {
    PrefixesOfOneKey(a, b, k);
    if a != b { KeysDoNotOverlap(t, [], a, b); }
  }

  lemma NoOrphans(q: seq<Key>, m: set<Key>)
    requires Used(q, m)
    ensures Without(q, Orphans(q, m)) == q
  {
    WithoutNone(q, Orphans(q, m));
  }

  lemma {:induction false} WithoutFirst(q: seq<Key>)
    requires q != [] && NoRepeats(q)
    ensures Without(q, {q[0]}) == q[1..]
  {
    forall k | k in q[1..] ensures k !in {q[0]} {
      var i :| 0 <= i < |q[1..]| && q[1..][i] == k;
      assert q[i + 1] == k;
    }
    WithoutNone(q[1..], {q[0]});
  }

  /** A prefix that does not overlap `prefix` keeps its keys when those under `prefix` are taken. */
  lemma UnrelatedKeepsKeys(q: seq<Key>, m: set<Key>, prefix: Key, p: Key)
    requires Used(q, m) && p in q && !Comparable(p, prefix)
    ensures HasKey(Outside(m, prefix), p)
  {
    var k :| k in m && p <= k;
    if prefix <= k { PrefixesOfOneKey(p, prefix, k); }
    assert k in Outside(m, prefix);
  }

  lemma ExtensionIsOrphan(m: set<Key>, prefix: Key, p: Key)
    requires prefix <= p
    ensures !HasKey(Outside(m, prefix), p)
  {
  }

  /** Taking all keys under the first prefix orphans that prefix only. */
  lemma PurgeFirst(q: seq<Key>, t: Trie<()>, m: set<Key>)
    requires q != [] && Indexed(q, t) && Used(q, m)
    ensures Without(q, Orphans(q, Outside(m, q[0]))) == q[1..]
  {
    ExtensionIsOrphan(m, q[0], q[0]);
    forall p | p in q && p != q[0] ensures HasKey(Outside(m, q[0]), p) {
      KeysDoNotOverlap(t, [], p, q[0]);
      UnrelatedKeepsKeys(q, m, q[0], p);
    }
    assert Orphans(q, Outside(m, q[0])) == {q[0]};
    WithoutFirst(q);
  }

  lemma LinkedAfterFirst(q: seq<Key>, t: Trie<()>, m: set<Key>)
    requires q != [] && Indexed(q, t) && Linked(q, m)
    ensures HasKey(m, q[0]) && Linked(q[1..], Outside(m, q[0]))
  {
    PurgeFirst(q, t, m);
    PurgeKeepsLinked(q, m, Outside(m, q[0]));
    assert HasKey(m, q[0]);
  }

  /** Taking all keys under `prefix` orphans exactly its extensions, if any are queued. */
  lemma OrphansAreExtensions(q: seq<Key>, t: Trie<()>, m: set<Key>, prefix: Key)
    requires Indexed(q, t) && Used(q, m) && Extensions(q, prefix) != {}
    ensures Orphans(q, Outside(m, prefix)) == Extensions(q, prefix)
  {
    MergeFits(q, t, prefix);
    forall p | p in q ensures HasKey(Outside(m, prefix), p) <==> p !in Extensions(q, prefix) {
      if prefix <= p { ExtensionIsOrphan(m, prefix, p); } else { UnrelatedKeepsKeys(q, m, prefix, p); }
    }
  }

  /** If no extension of `prefix` is queued, only the queued prefix of `prefix` can be orphaned. */
  lemma OrphanIsShorter(q: seq<Key>, t: Trie<()>, m: set<Key>, prefix: Key, shorter: Key)
    requires Indexed(q, t) && Used(q, m) && Extensions(q, prefix) == {} && shorter in q && shorter <= prefix
    ensures Extensions(q, shorter) == {shorter}
    ensures Orphans(q, Outside(m, prefix)) == if HasKey(Outside(m, prefix), shorter) then {} else {shorter}
  {
    forall p | p in q && p != shorter ensures !(shorter <= p) && HasKey(Outside(m, prefix), p) {
      KeysDoNotOverlap(t, [], p, shorter);
      assert p !in Extensions(q, prefix);
      if p <= prefix { PrefixesOfOneKey(p, shorter, prefix); }
      UnrelatedKeepsKeys(q, m, prefix, p);
    }
  }

  lemma KeyHasShorterPrefix(q: seq<Key>, m: set<Key>, prefix: Key)
    requires Queued(q, m) && HasKey(m, prefix) && Extensions(q, prefix) == {}
    ensures Holds(q, prefix)
  {
    var k :| k in m && prefix <= k;
    var p :| p in q && p <= k;
    PrefixesOfOneKey(p, prefix, k);
    assert p !in Extensions(q, prefix);
  }

  /** Removing keys orphans exactly the prefixes of removed keys that have no key left. */
  lemma OrphansOfKeys(q: seq<Key>, t: Trie<()>, m: set<Key>, rest: set<Key>, hit: seq<Key>)
    requires Indexed(q, t) && Used(q, m) && rest <= m
    requires forall p :: p in hit ==> p in q
    requires forall k :: k in m - rest ==> Holds(hit, k)
    ensures forall p :: p in Orphans(q, rest) <==> p in hit && !HasKey(rest, p)
  {
    forall p | p in Orphans(q, rest) ensures p in hit {
      var k :| k in m && p <= k;
      assert k in m - rest && Holds(hit, k);
      var p' :| p' in hit && p' <= k;
      OnePrefixPerKey(t, k, p, p');
    }
  }

  /** Of the prefixes of removed keys, exactly those without keys left have to go. */
  lemma RemovedPrefixes<V(!new)>(q: seq<Key>, t: Trie<()>, m: set<Key>, rest: set<Key>, hit: seq<Key>, hs: seq<V>,
                                 hash: V -> Key)
    requires Indexed(q, t) && Linked(q, m) && rest == m - set h | h in hs :: hash(h)
    requires forall p :: p in hit ==> p in Content(t)
    requires forall h :: h in hs && HasPrefixOf(t, hash(h)) ==> Holds(hit, hash(h))
    ensures forall p :: p in Orphans(q, rest) <==> p in hit && !HasKey(rest, p)
    ensures Linked(Without(q, Orphans(q, rest)), rest)
  {
    forall k | k in m - rest ensures Holds(hit, k) {
      var h :| h in hs && hash(h) == k;
      assert Holds(q, k);
    }
    OrphansOfKeys(q, t, m, rest, hit);
    PurgeKeepsLinked(q, m, rest);
  }

  // ---------------------------------------------------------------- the key trie

  /** The values under `prefix`, each of them once. */
  method ValuesUnder<V(!new)>(t: Trie<V>, prefix: Key, ghost hash: V -> Key, ghost unhash: Key -> V, ghost bits: nat)
    returns (hs: seq<V>, found: bool)
    requires Stored(t, hash, unhash, bits)
    ensures found <==> HasKey(Content(t).Keys, prefix)
    ensures Batch(hs, prefix, Content(t).Keys, hash)
  {
    var sub;
    sub, found := FindSubtrie(t, prefix);
    if !found {
      assert forall k :: k in Content(t) ==> !(prefix <= k);
      return [], false;
    }
    hs := AllValues(sub, [], 0);
    StoredIsDistinct(t, hash, unhash, bits, hash(unhash([])));
    BatchOf(sub, prefix);
    forall h | hash(h) in Content(t) && prefix <= hash(h) ensures Carries(sub, h) {
      assert Content(sub)[hash(h)] == unhash(hash(h));
    }
  }

  /** Takes out the values under `prefix`: each of them once, and nothing else. */
  method TakeUnder<V(!new)>(t: Trie<V>, prefix: Key, ghost hash: V -> Key, ghost unhash: Key -> V, ghost bits: nat)
    returns (hs: seq<V>, r: Trie<V>, found: bool)
    requires Stored(t, hash, unhash, bits)
    ensures Stored(r, hash, unhash, bits) && Content(r).Keys == Outside(Content(t).Keys, prefix)
    ensures found <==> HasKey(Content(t).Keys, prefix)
    ensures Batch(hs, prefix, Content(t).Keys, hash)
  {
    hs, found := ValuesUnder(t, prefix, hash, unhash, bits);
    if !found {
      assert forall k :: k in Content(t) ==> !(prefix <= k);
      return hs, t, false;
    }
    PruneSpec(t, prefix);
    r := PruneSubtrie(t, prefix);
  }

  /** Adds the queued prefix of a key to a list of prefixes, unless it is there already. */
  method NotePrefix(q: Trie<()>, k: Key, matching: seq<Key>) returns (r: seq<Key>)
    requires WF(q, []) && NoRepeats(matching) && forall p :: p in matching ==> p in Content(q)
    ensures NoRepeats(r) && forall p :: p in r ==> p in Content(q)
    ensures HasPrefixOf(q, k) ==> Holds(r, k)
    ensures forall x :: Holds(matching, x) ==> Holds(r, x)
  {
    FindPrefix(q, k);
    var (p, found) := FindPrefixOfKey(q, k, 0);
    r := if found && p !in matching then matching + [p] else matching;
    assert found ==> p in r;
    assert forall y :: y in matching ==> y in r;
  }

  lemma RemoveValue<V(!new)>(t: Trie<V>, h: V, hash: V -> Key, unhash: Key -> V, bits: nat)
    requires Stored(t, hash, unhash, bits)
    ensures Stored(Remove(t, hash(h), 0), hash, unhash, bits)
    ensures Content(Remove(t, hash(h), 0)).Keys == Content(t).Keys - {hash(h)}
  {
    RemoveSpec(t, hash(h), []);
  }

  lemma HashesMore<V(!new)>(hs: seq<V>, i: nat, hash: V -> Key)
    requires i < |hs|
    ensures hs[..i + 1] == hs[..i] + [hs[i]]
    ensures (set h | h in hs[..i + 1] :: hash(h)) == (set h | h in hs[..i] :: hash(h)) + {hash(hs[i])}
  {
    assert hs[..i + 1] == hs[..i] + [hs[i]];
  }

  /** Takes single values out of the trie and collects the queued prefixes they belong to. */
  method TakeValues<V(!new)>(t: Trie<V>, hs: seq<V>, q: Trie<()>, hash: V -> Key, ghost unhash: Key -> V,
                             ghost bits: nat)
    returns (r: Trie<V>, matching: seq<Key>)
    requires Stored(t, hash, unhash, bits) && WF(q, [])
    ensures Stored(r, hash, unhash, bits) && Content(r).Keys == Content(t).Keys - set h | h in hs :: hash(h)
    ensures NoRepeats(matching) && forall p :: p in matching ==> p in Content(q)
    ensures forall h :: h in hs && HasPrefixOf(q, hash(h)) ==> Holds(matching, hash(h))
  {
    r, matching := t, [];
    for i := 0 to |hs|
      invariant Stored(r, hash, unhash, bits) && Content(r).Keys == Content(t).Keys - set h | h in hs[..i] :: hash(h)
      invariant NoRepeats(matching) && forall p :: p in matching ==> p in Content(q)
      invariant forall h :: h in hs[..i] && HasPrefixOf(q, hash(h)) ==> Holds(matching, hash(h))
    {
      RemoveValue(r, hs[i], hash, unhash, bits);
      r := Remove(r, hash(hs[i]), 0);
      HashesMore(hs, i, hash);
      matching := NotePrefix(q, hash(hs[i]), matching);
    }
    assert hs[..|hs|] == hs;
  }

  /** The prefixes of a list that no key is left for. */
  method WithoutKeys<V>(t: Trie<V>, ps: seq<Key>) returns (empty: seq<Key>)
    requires WF(t, []) && NoRepeats(ps)
    ensures NoRepeats(empty) && forall p :: p in empty <==> p in ps && !HasKey(Content(t).Keys, p)
  {
    empty := [];
    for i := 0 to |ps|
      invariant NoRepeats(empty) && forall p :: p in empty <==> p in ps[..i] && !HasKey(Content(t).Keys, p)
    {
      var _, left := FindSubtrie(t, ps[i]);
      assert left <==> HasKey(Content(t).Keys, ps[i]);
      assert ps[..i + 1] == ps[..i] + [ps[i]];
      assert ps[i] !in ps[..i];
      if !left { empty := empty + [ps[i]]; }
    }
    assert ps[..|ps|] == ps;
  }

  // ---------------------------------------------------------------- the queue

  class ProvideQueue<V(==, !new)> {
    const hash: V -> Key
    ghost const unhash: Key -> V
    ghost const bits: nat
    const queue: PrefixQueue
    var keys: Trie<V>

    ghost function Waiting(): set<Key>
      reads this
    {
      Content(keys).Keys
    }

    /** What holds whatever keys are enqueued under whatever prefixes. */
    ghost predicate Sound()
      reads this, queue
    {
      queue.Valid() && Stored(keys, hash, unhash, bits)
    }

    /** What holds as long as keys match the prefixes they are enqueued under. */
    ghost predicate Valid()
      reads this, queue
    {
      && queue.Valid() && Stored(keys, hash, unhash, bits)
      && Linked(queue.queue, Waiting())
    }

    constructor (hash: V -> Key, ghost unhash: Key -> V, ghost bits: nat)
      requires Hashing(hash, unhash, bits)
      ensures Valid() && fresh(queue) && queue.queue == [] && Waiting() == {}
      ensures this.hash == hash && this.unhash == unhash && this.bits == bits
    {
      this.hash, this.unhash, this.bits := hash, unhash, bits;
      queue := new PrefixQueue();
      keys := Empty;
    }

    method Enqueue(prefix: Key, hs: seq<V>)
      requires Sound()
      modifies this, queue
      ensures Sound() && (old(Valid()) && (forall h :: h in hs ==> prefix <= hash(h)) ==> Valid())
      ensures Waiting() == old(Waiting()) + set h | h in hs :: hash(h)
      ensures queue.queue == if hs == [] then old(queue.queue) else Pushed(old(queue.queue), prefix)
    {
      if hs == [] { return; }
      ValuesKeepLinked(queue.queue, Waiting(), prefix, hs, hash);
      queue.Push(prefix);
      keys := AddValues(keys, hs, hash, unhash, bits);
    }

    /** Pops the first prefix with exactly the keys under it. */
    method Dequeue() returns (prefix: Key, hs: seq<V>, ok: bool)
      requires Valid()
      modifies this, queue
      ensures Valid() && ok == (old(queue.queue) != [])
      ensures ok ==> prefix == old(queue.queue)[0] && queue.queue == old(queue.queue)[1..]
      ensures ok ==> Waiting() == Outside(old(Waiting()), prefix) && HasKey(old(Waiting()), prefix)
      ensures ok ==> Batch(hs, prefix, old(Waiting()), hash)
      ensures !ok ==> hs == [] && Waiting() == old(Waiting()) && queue.queue == []
    {
      ghost var q, m := queue.queue, Waiting();
      if q != [] {
        LinkedAfterFirst(q, queue.prefixes, m);
      }
      prefix, ok := queue.Pop();
      if !ok { return prefix, [], false; }
      var found;
      hs, found := TakeKeys(prefix);
    }

    /** Takes the keys under `prefix` and leaves the prefixes alone. */
    method TakeKeys(prefix: Key) returns (hs: seq<V>, found: bool)
      requires Stored(keys, hash, unhash, bits)
      modifies this`keys
      ensures Stored(keys, hash, unhash, bits) && Waiting() == Outside(old(Waiting()), prefix)
      ensures Batch(hs, prefix, old(Waiting()), hash) && (found <==> HasKey(old(Waiting()), prefix))
    {
      hs, keys, found := TakeUnder(keys, prefix, hash, unhash, bits);
    }

    /** Takes the keys under `prefix` out of the queue, and every prefix no key is left for. */
    method DequeueMatching(prefix: Key) returns (hs: seq<V>)
      requires Valid()
      modifies this, queue
      ensures Valid()
      ensures Waiting() == Outside(old(Waiting()), prefix)
      ensures Batch(hs, prefix, old(Waiting()), hash)
      ensures queue.queue == Without(old(queue.queue), Orphans(old(queue.queue), Waiting()))
    {
      ghost var q, m, t := queue.queue, Waiting(), queue.prefixes;
      var found;
      hs, found := TakeKeys(prefix);
      if !found {
        assert Outside(m, prefix) == m;
        NoOrphans(q, m);
        return;
      }
      PurgeKeepsLinked(q, m, Outside(m, prefix));
      if Extensions(q, prefix) != {} {
        OrphansAreExtensions(q, t, m, prefix);
      } else {
        KeyHasShorterPrefix(q, m, prefix);
        WithoutNone(q, {});
      }
      var removed := queue.RemovePrefix(prefix);
      if !removed { RemoveShorter(prefix, m); }
    }

    /** Drops the queued prefix of `prefix` if no key is left for it. */
    method RemoveShorter(prefix: Key, ghost m: set<Key>)
      requires queue.Valid() && WF(keys, []) && Used(queue.queue, m) && Waiting() == Outside(m, prefix)
      requires Extensions(queue.queue, prefix) == {} && Holds(queue.queue, prefix)
      modifies queue
      ensures queue.Valid()
      ensures queue.queue == Without(old(queue.queue), Orphans(old(queue.queue), Outside(m, prefix)))
    {
      FindPrefix(queue.prefixes, prefix);
      var (shorter, ok) := FindPrefixOfKey(queue.prefixes, prefix, 0);
      assert HasPrefixOf(queue.prefixes, prefix);
      OrphanIsShorter(queue.queue, queue.prefixes, m, prefix, shorter);
      WithoutNone(queue.queue, {});
      var _, left := FindSubtrie(keys, shorter);
      assert left <==> HasKey(Waiting(), shorter);
      if !left {
        var _ := queue.RemovePrefix(shorter);
      }
    }

    /** Removes single keys, and every prefix no key is left for. */
    method RemoveAll(hs: seq<V>)
      requires Valid()
      modifies this, queue
      ensures Valid()
      ensures Waiting() == old(Waiting()) - set h | h in hs :: hash(h)
      ensures queue.queue == Without(old(queue.queue), Orphans(old(queue.queue), Waiting()))
    {
      ghost var q, m, t := queue.queue, Waiting(), queue.prefixes;
      var matching;
      keys, matching := TakeValues(keys, hs, queue.prefixes, hash, unhash, bits);
      RemovedPrefixes(q, t, m, Waiting(), matching, hs, hash);
      var empty := WithoutKeys(keys, matching);
      if empty != [] {
        var _ := queue.RemovePrefixes(empty, Orphans(q, Waiting()));
      } else {
        WithoutNone(q, Orphans(q, Waiting()));
      }
    }

    method IsEmpty() returns (empty: bool)
      requires Valid()
      ensures empty <==> Waiting() == {}
      ensures empty <==> queue.queue == []
    {
      KeysUnderPath(keys, []);
      if queue.queue != [] { assert HasKey(Waiting(), queue.queue[0]); }
      if Waiting() != {} { ghost var k :| k in Waiting(); assert Holds(queue.queue, k); }
      empty := keys.Empty?;
    }

    method Clear() returns (size: nat)
      requires Valid()
      modifies this, queue
      ensures Valid() && Waiting() == {} && queue.queue == [] && size == |old(Waiting())|
    {
      SizeIsCount(keys, []);
      size := Size(keys);
      var _ := queue.Clear();
      keys := Empty;
    }
  }
}
