/** Splitting the peers of a keyspace area into regions, and assigning keys to the regions. */
module Regions {
  import opened Keys
  import opened Tries
  import opened TrieOps
  import opened Allocation
  import opened Multihashes

  datatype Region<D> = Region(prefix: Key, peers: Trie<D>)

  /** Splits a subtrie as long as both halves are large enough. */
  function MinimalRegions<D>(t: Trie<D>, path: Key, size: nat, order: Key): seq<Region<D>>
    decreases t
  {
    if t.Empty? then []
    else if t.Node? && Size(t.left) >= size && Size(t.right) >= size then
      var b := Bit(order, |path|);
      MinimalRegions(Branch(t, b), path + [b], size, order) + MinimalRegions(Branch(t, !b), path + [!b], size, order)
    else [Region(path, t)]
  }

  // ---------------------------------------------------------------- the regions of a subtrie

  /** A region is the part of the subtrie under its prefix; it has enough peers if the subtrie has, and it cannot
      be split into two regions with enough peers. */
  ghost predicate Fair<D>(r: Region<D>, t: Trie<D>, path: Key, size: nat) {
    && path <= r.prefix && WF(r.peers, r.prefix) && !r.peers.Empty? && Content(r.peers) == Under(Content(t), r.prefix)
    && (Size(t) >= size ==> Size(r.peers) >= size)
    && (r.peers.Node? ==> Size(r.peers.left) < size || Size(r.peers.right) < size)
  }

  ghost predicate Splits<D>(t: Trie<D>, size: nat) {
    t.Node? && Size(t.left) >= size && Size(t.right) >= size
  }

  lemma FairInBranch<D>(t: Trie<D>, path: Key, b: bool, r: Region<D>, size: nat)
    requires Splits(t, size) && WF(t, path) && Fair(r, Branch(t, b), path + [b], size)
    ensures Fair(r, t, path, size)
  {
    BranchKeys(t, path, b);
    assert path <= path + [b];
    forall k | k in Content(t) && r.prefix <= k ensures k in Content(Branch(t, b)) {
      assert path + [b] <= k;
    }
    assert Under(Content(t), r.prefix) == Under(Content(Branch(t, b)), r.prefix);
  }

  lemma {:induction false} RegionsAreFair<D>(t: Trie<D>, path: Key, size: nat, order: Key)
    requires WF(t, path)
    ensures forall r :: r in MinimalRegions(t, path, size, order) ==> Fair(r, t, path, size)
    decreases t
  {
    if Splits(t, size) {
      forall b: bool
        ensures forall r :: r in MinimalRegions(Branch(t, b), path + [b], size, order) ==> Fair(r, t, path, size)
      {
        RegionsAreFair(Branch(t, b), path + [b], size, order);
        forall r | r in MinimalRegions(Branch(t, b), path + [b], size, order) ensures Fair(r, t, path, size) {
          FairInBranch(t, path, b, r, size);
        }
      }
    } else {
      KeysUnderPath(t, path);
      assert Under(Content(t), path) == Content(t);
    }
  }

  ghost predicate InOrder<D>(rs: seq<Region<D>>, order: Key) {
    forall i, j :: 0 <= i < j < |rs| ==> Before(order, rs[i].prefix, rs[j].prefix)
  }

  ghost predicate AllUnder<D>(rs: seq<Region<D>>, p: Key) {
    forall i :: 0 <= i < |rs| ==> p <= rs[i].prefix
  }

  lemma JoinInOrder<D>(near: seq<Region<D>>, far: seq<Region<D>>, path: Key, order: Key, b: bool)
    requires InOrder(near, order) && InOrder(far, order) && b == Bit(order, |path|)
    requires AllUnder(near, path + [b]) && AllUnder(far, path + [!b])
    ensures InOrder(near + far, order) && AllUnder(near + far, path)
  {
    assert path <= path + [b] && path <= path + [!b];
    forall i, j | 0 <= i < |near| && 0 <= j < |far| ensures Before(order, near[i].prefix, far[j].prefix) {
      BeforeAtFork(order, path, near[i].prefix, far[j].prefix, b);
    }
  }

  /** The regions are listed in the order of the schedule, so they do not overlap. */
  lemma {:induction false} RegionsAreInOrder<D>(t: Trie<D>, path: Key, size: nat, order: Key)
    ensures InOrder(MinimalRegions(t, path, size, order), order) && AllUnder(MinimalRegions(t, path, size, order), path)
    decreases t
  {
    if Splits(t, size) {
      var b := Bit(order, |path|);
      RegionsAreInOrder(Branch(t, b), path + [b], size, order);
      RegionsAreInOrder(Branch(t, !b), path + [!b], size, order);
      JoinInOrder(MinimalRegions(Branch(t, b), path + [b], size, order),
                  MinimalRegions(Branch(t, !b), path + [!b], size, order), path, order, b);
    }
  }

  ghost predicate HasRegion<D>(rs: seq<Region<D>>, f: Key) {
    exists i :: 0 <= i < |rs| && rs[i].prefix <= f
  }

  lemma RegionOfEither<D>(a: seq<Region<D>>, b: seq<Region<D>>, f: Key)
    ensures HasRegion(a + b, f) <==> HasRegion(a, f) || HasRegion(b, f)
  {
    if HasRegion(a, f) { var i :| 0 <= i < |a| && a[i].prefix <= f; assert (a + b)[i].prefix <= f; }
    if HasRegion(b, f) { var i :| 0 <= i < |b| && b[i].prefix <= f; assert (a + b)[|a| + i].prefix <= f; }
  }

  /** Every identifier of `n` bits under the path lies in a region. */
  lemma {:induction false} RegionsCover<D>(t: Trie<D>, path: Key, size: nat, order: Key, n: nat, f: Key)
    requires WF(t, path) && !t.Empty? && Uniform(t, n) && size > 0 && |f| == n && path <= f
    ensures HasRegion(MinimalRegions(t, path, size, order), f)
    decreases t
  {
    if Splits(t, size) {
      KeysUnderPath(t, path);
      var k := NonEmptyHasKey(t, path);
      var c, b := f[|path|], Bit(order, |path|);
      StepPath(path, c, f);
      BranchKeys(t, path, c);
      SizeIsCount(Branch(t, c), path + [c]);
      RegionsCover(Branch(t, c), path + [c], size, order, n, f);
      RegionOfEither(MinimalRegions(Branch(t, b), path + [b], size, order),
                     MinimalRegions(Branch(t, !b), path + [!b], size, order), f);
    } else {
      assert MinimalRegions(t, path, size, order)[0].prefix <= f;
    }
  }

  // ---------------------------------------------------------------- the common prefix

  /** `prefix` is the longest prefix that all keys of the list share. */
  ghost predicate Longest(prefix: Key, ks: seq<Key>) {
    && (forall k :: k in ks ==> prefix <= k)
    && (ks != [] && |prefix| < |ks[0]| ==> exists k :: k in ks && CommonPrefixLength(ks[0], k) == |prefix|)
  }

  method CommonPrefix(ks: seq<Key>) returns (prefix: Key)
    requires ks != []
    ensures Longest(prefix, ks)
  {
    var minCpl := |ks[0]|;
    for i := 0 to |ks|
      invariant minCpl <= |ks[0]|
      invariant forall j :: 0 <= j < i ==> CommonPrefixLength(ks[0], ks[j]) >= minCpl
      invariant minCpl < |ks[0]| ==> exists k :: k in ks && CommonPrefixLength(ks[0], k) == minCpl
    {
      var cpl := CommonPrefixLength(ks[0], ks[i]);
      if cpl < minCpl { minCpl := cpl; assert ks[i] in ks; }
    }
    prefix := ks[0][..minCpl];
    forall k | k in ks ensures prefix <= k {
      var j :| 0 <= j < |ks| && ks[j] == k;
      var c := CommonPrefixLength(ks[0], k);
      assert prefix == ks[0][..c][..minCpl] == k[..c][..minCpl] == k[..minCpl];
    }
  }

  /** The subtrie at the common prefix of all keys holds all keys. */
  method Descend<D>(t: Trie<D>, prefix: Key) returns (sub: Trie<D>)
    requires WF(t, []) && !t.Empty? && forall k :: k in Content(t) ==> prefix <= k
    ensures WF(sub, prefix) && !sub.Empty? && Content(sub) == Content(t)
  {
    sub := t;
    assert prefix[..0] == [];
    for i := 0 to |prefix|
      invariant WF(sub, prefix[..i]) && !sub.Empty? && Content(sub) == Content(t)
    {
      if sub.Leaf? {
        assert sub.key in Content(sub);
        break;
      }
      DescendOne(sub, prefix, i);
      sub := Branch(sub, prefix[i]);
    }
    assert prefix[..|prefix|] == prefix;
    if sub.Leaf? { assert sub.key in Content(sub); }
  }

  lemma DescendOne<D>(t: Trie<D>, prefix: Key, i: nat)
    requires i < |prefix| && t.Node? && WF(t, prefix[..i]) && forall k :: k in Content(t) ==> prefix <= k
    ensures var x := Branch(t, prefix[i]); WF(x, prefix[..i + 1]) && !x.Empty? && Content(x) == Content(t)
  {
    var b := prefix[i];
    assert prefix[..i + 1] == prefix[..i] + [b];
    BranchKeys(t, prefix[..i], b);
    forall k | k in Content(t) ensures prefix[..i + 1] <= k { assert k[..i + 1] == prefix[..i + 1]; }
    assert Content(Branch(t, b)) == Content(t);
    KeysUnderPath(t, prefix[..i]);
    KeysUnderPath(Branch(t, b), prefix[..i + 1]);
  }

  function Hashed<V>(vs: seq<V>, hash: V -> Key): (ks: seq<Key>)
    ensures |ks| == |vs| && forall i :: 0 <= i < |vs| ==> ks[i] == hash(vs[i])
  {
    seq(|vs|, i requires 0 <= i < |vs| => hash(vs[i]))
  }

  /** What the regions of a list of peers promise. */
  ghost predicate Partition<V>(rs: seq<Region<V>>, prefix: Key, t: Trie<V>, size: nat, order: Key, bits: nat) {
    && (forall r :: r in rs ==> Fair(r, t, prefix, size))
    && InOrder(rs, order)
    && (size > 0 ==> forall f :: |f| == bits && prefix <= f ==> HasRegion(rs, f))
  }

  /** The regions of a list of peers under their longest common prefix: sorted around `order`, hence not
      overlapping, each with exactly the peers under its prefix, and together covering the common prefix. */
  method RegionsFromPeers<V(!new)>(peers: seq<V>, size: nat, order: Key, hash: V -> Key, ghost unhash: Key -> V,
                                   ghost bits: nat)
    returns (rs: seq<Region<V>>, prefix: Key, ghost t: Trie<V>)
    requires Hashing(hash, unhash, bits)
    ensures peers == [] ==> rs == [] && prefix == []
    ensures peers != [] ==> Longest(prefix, Hashed(peers, hash)) && Partition(rs, prefix, t, size, order, bits)
    ensures Stored(t, hash, unhash, bits) && Content(t).Keys == set p | p in peers :: hash(p)
  {
    var all := AddValues(Empty, peers, hash, unhash, bits);
    t := all;
    if peers == [] { return [], [], t; }
    prefix := CommonPrefix(Hashed(peers, hash));
    PeersUnder(all, peers, hash, prefix);
    var sub := Descend(all, prefix);
    rs := MinimalRegions(sub, prefix, size, order);
    PartitionOf(sub, all, prefix, size, order, hash, unhash, bits);
  }

  lemma PeersUnder<V(!new)>(t: Trie<V>, peers: seq<V>, hash: V -> Key, prefix: Key)
    requires peers != [] && Longest(prefix, Hashed(peers, hash)) && Content(t).Keys == set p | p in peers :: hash(p)
    ensures !t.Empty? && forall k :: k in Content(t) ==> prefix <= k
  {
    var ks := Hashed(peers, hash);
    forall k | k in Content(t) ensures prefix <= k {
      var p :| p in peers && hash(p) == k;
      var i :| 0 <= i < |peers| && peers[i] == p;
      assert ks[i] in ks;
    }
    assert hash(peers[0]) in Content(t);
  }

  lemma PartitionOf<V(!new)>(sub: Trie<V>, t: Trie<V>, prefix: Key, size: nat, order: Key,
                             hash: V -> Key, unhash: Key -> V, bits: nat)
    requires Stored(t, hash, unhash, bits) && WF(sub, prefix) && !sub.Empty? && Content(sub) == Content(t)
    ensures Partition(MinimalRegions(sub, prefix, size, order), prefix, t, size, order, bits)
  {
    RegionsAreFair(sub, prefix, size, order);
    RegionsAreInOrder(sub, prefix, size, order);
    SizeIsCount(sub, prefix);
    SizeIsCount(t, []);
    forall k | k in Content(sub) ensures |k| == bits { assert |hash(Content(t)[k])| == bits; }
    if size > 0 {
      forall f | |f| == bits && prefix <= f ensures HasRegion(MinimalRegions(sub, prefix, size, order), f) {
        RegionsCover(sub, prefix, size, order, bits, f);
      }
    }
  }

  // ---------------------------------------------------------------- keys

  /** Sorted regions do not overlap: an identifier lies in at most one of them. */
  lemma OneRegion<D>(rs: seq<Region<D>>, order: Key, f: Key, i: nat, j: nat)
    requires InOrder(rs, order) && i < |rs| && j < |rs| && rs[i].prefix <= f && rs[j].prefix <= f
    ensures i == j
  {
    PrefixesOfOneKey(rs[i].prefix, rs[j].prefix, f);
    BeforeIrreflexive(order, rs[i].prefix, rs[j].prefix);
    BeforeIrreflexive(order, rs[j].prefix, rs[i].prefix);
  }

  /** The prefix of the first region of a list that an identifier lies in. */
  function AssignedPrefix<D>(rs: seq<Region<D>>, f: Key): Option<Key> {
    if rs == [] then None else if rs[0].prefix <= f then Some(rs[0].prefix) else AssignedPrefix(rs[1..], f)
  }

  lemma {:induction false} AssignedIsFirst<D>(rs: seq<Region<D>>, f: Key)
    ensures AssignedPrefix(rs, f).Some? <==> HasRegion(rs, f)
    ensures AssignedPrefix(rs, f).Some? ==>
      exists i :: 0 <= i < |rs| && rs[i].prefix == AssignedPrefix(rs, f).value <= f
  {
    if rs == [] {
    } else {
      AssignedIsFirst(rs[1..], f);
      if rs[0].prefix <= f {
        assert rs[0].prefix <= f;
      } else if HasRegion(rs[1..], f) {
        var i :| 0 <= i < |rs[1..]| && rs[1..][i].prefix == AssignedPrefix(rs[1..], f).value;
        assert rs[i + 1].prefix == AssignedPrefix(rs, f).value;
      }
      if HasRegion(rs, f) && !(rs[0].prefix <= f) {
        var i :| 0 <= i < |rs| && rs[i].prefix <= f;
        assert rs[1..][i - 1].prefix <= f;
      }
    }
  }

  /** In a sorted list an identifier is assigned to a region exactly if it lies in it. */
  lemma AssignedInOrder<D>(rs: seq<Region<D>>, order: Key, f: Key, i: nat)
    requires InOrder(rs, order) && i < |rs|
    ensures AssignedPrefix(rs, f) == Some(rs[i].prefix) <==> rs[i].prefix <= f
  {
    AssignedIsFirst(rs, f);
    if rs[i].prefix <= f {
      var j :| 0 <= j < |rs| && rs[j].prefix == AssignedPrefix(rs, f).value;
      OneRegion(rs, order, f, i, j);
    }
  }

  method FindRegion<D>(rs: seq<Region<D>>, f: Key) returns (i: nat)
    ensures i <= |rs| && AssignedPrefix(rs, f) == if i < |rs| then Some(rs[i].prefix) else None
  {
    i := 0;
    assert rs[0..] == rs;
    while i < |rs| && !(rs[i].prefix <= f)
      invariant i <= |rs| && AssignedPrefix(rs, f) == AssignedPrefix(rs[i..], f)
    {
      assert rs[i..][1..] == rs[i + 1..];
      i := i + 1;
    }
  }

  /** The values of `vs` by the prefix of the first region they lie in. */
  ghost predicate Assigned<D, V(!new)>(lists: map<Key, seq<V>>, rs: seq<Region<D>>, vs: seq<V>, hash: V -> Key) {
    forall p, v :: (p in lists && v in lists[p]) <==> (v in vs && AssignedPrefix(rs, hash(v)) == Some(p))
  }

  method GroupByRegion<D, V(!new)>(rs: seq<Region<D>>, vs: seq<V>, hash: V -> Key) returns (lists: map<Key, seq<V>>)
    ensures Assigned(lists, rs, vs, hash)
  {
    lists := map[];
    for n := 0 to |vs|
      invariant Assigned(lists, rs, vs[..n], hash)
    {
      var i := FindRegion(rs, hash(vs[n]));
      assert vs[..n + 1] == vs[..n] + [vs[n]];
      if i < |rs| {
        var p := rs[i].prefix;
        lists := lists[p := (if p in lists then lists[p] else []) + [vs[n]]];
      }
    }
    assert vs[..|vs|] == vs;
  }

  /** The trie holds exactly the values that satisfy a condition on their identifiers. */
  ghost predicate HoldsExactly<V>(t: Trie<V>, vs: seq<V>, hash: V -> Key, takes: Key -> bool) {
    forall k :: k in Content(t) <==> takes(k) && exists v :: v in vs && hash(v) == k
  }

  /** Every key goes to the first region it lies in, and to the regions with the same prefix; keys outside all
      regions go nowhere. */
  method AssignKeysToRegions<D, V(!new)>(rs: seq<Region<D>>, vs: seq<V>, hash: V -> Key, ghost unhash: Key -> V,
                                         ghost bits: nat)
    returns (keys: seq<Trie<V>>)
    requires Hashing(hash, unhash, bits)
    ensures |keys| == |rs| && forall i :: 0 <= i < |rs| ==> Stored(keys[i], hash, unhash, bits)
    ensures forall i :: 0 <= i < |rs| ==>
      HoldsExactly(keys[i], vs, hash, k => AssignedPrefix(rs, k) == Some(rs[i].prefix))
  {
    var lists := GroupByRegion(rs, vs, hash);
    keys := [];
    for i := 0 to |rs|
      invariant |keys| == i && forall j :: 0 <= j < i ==> Stored(keys[j], hash, unhash, bits)
      invariant forall j :: 0 <= j < i ==>
        HoldsExactly(keys[j], vs, hash, k => AssignedPrefix(rs, k) == Some(rs[j].prefix))
    {
      var values := if rs[i].prefix in lists then lists[rs[i].prefix] else [];
      var t := AddValues(Empty, values, hash, unhash, bits);
      keys := keys + [t];
    }
  }

  /** Regions in schedule order each get exactly the keys under their prefix. */
  lemma SortedRegionsGetTheirKeys<D, V>(rs: seq<Region<D>>, order: Key, i: nat, t: Trie<V>, vs: seq<V>, hash: V -> Key)
    requires InOrder(rs, order) && i < |rs|
    requires HoldsExactly(t, vs, hash, k => AssignedPrefix(rs, k) == Some(rs[i].prefix))
    ensures HoldsExactly(t, vs, hash, k => rs[i].prefix <= k)
  {
    forall k: Key ensures AssignedPrefix(rs, k) == Some(rs[i].prefix) <==> rs[i].prefix <= k {
      AssignedInOrder(rs, order, k, i);
    }
  }
}
