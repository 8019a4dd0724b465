/** Serving a region: its keys are stored in a trie that starts at the root, its peers in the subtrie that starts at
    the region's prefix, and both are walked in step. */
module RegionAllocations {
  import opened Keys
  import opened Sequences
  import opened Tries
  import opened TrieOps
  import opened Allocation
  import opened Regions

  ghost predicate InRegion<V>(items: Trie<V>, prefix: Key, n: nat) {
    WF(items, []) && Uniform(items, n) && forall i :: i in Content(items) ==> prefix <= i
  }

  /** The walk gives every item to its `k` closest peers of the region. */
  ghost predicate Accurate<P(!new), V(!new)>(items: Trie<V>, peers: Trie<P>, prefix: Key, k: nat) {
    forall p, v :: Due(items, Relative(peers, |prefix|), k, p, v) == Due(items, peers, k, p, v)
  }

  /** The two tries start at the same place, or nobody or everybody of the region is to be served. */
  predicate Aligned<P>(peers: Trie<P>, prefix: Key, k: nat) {
    prefix == [] || k == 0 || Size(peers) <= k
  }

  lemma AlignedIsAccurate<P(!new), V(!new)>(items: Trie<V>, peers: Trie<P>, prefix: Key, k: nat)
    requires WF(items, []) && WF(peers, prefix) && Aligned(peers, prefix, k)
    ensures Accurate(items, peers, prefix, k)
  {
    var rel := Relative(peers, |prefix|);
    RelativeToRoot(peers);
    RelativeIsAlike(peers, |prefix|, 0);
    RelativeIsWF(peers, prefix, |prefix|);
    forall p, v ensures Due(items, rel, k, p, v) == Due(items, peers, k, p, v) {
      if k == 0 {
        DueToNone(items, rel, k, p, v);
        DueToNone(items, peers, k, p, v);
      } else if Size(peers) <= k {
        EverybodyIsServed(items, rel, [], k, p, v);
        EverybodyIsServed(items, peers, prefix, k, p, v);
      }
    }
  }

  lemma EverybodyIsServed<P, V>(items: Trie<V>, peers: Trie<P>, path: Key, k: nat, p: P, v: V)
    requires WF(items, []) && WF(peers, path) && Size(peers) <= k
    ensures Due(items, peers, k, p, v) == multiset(AllValues(peers, [], 0))[p] * |Holders(Content(items), v)|
  {
    FewDestinations(items, peers, path, k, p, v);
    PairsCount(Holders(Content(items), v), Holders(Content(peers), p));
    ValueCount(peers, path, 0, p);
  }

  // ---------------------------------------------------------------- distances in a region

  lemma {:induction false} SharedBitsCancel(prefix: Key, a: Key, b: Key)
    requires |a| == |b|
    ensures Distance(prefix + a, prefix + b) == Distance(a, b)
  {
    if prefix == [] {
      assert prefix + a == a && prefix + b == b;
    } else {
      SharedBitsCancel(prefix[1..], a, b);
      assert (prefix + a)[1..] == prefix[1..] + a && (prefix + b)[1..] == prefix[1..] + b;
    }
  }

  lemma DistancesDiffer(x: Key, a: Key, b: Key)
    requires |x| == |a| == |b| && a != b
    ensures Distance(x, a) != Distance(x, b)
  {
    var c := CommonPrefixLength(a, b);
    assert a[..|a|] == a && b[..|b|] == b;
    CloserAtFork(x, a, b, c);
    CloserAtFork(x, b, a, c);
  }

  ghost function Prefixed(prefix: Key, s: set<Key>): set<Key> {
    set d | d in s :: prefix + d
  }

  lemma {:induction false} PrefixedCount(prefix: Key, s: set<Key>)
    ensures |Prefixed(prefix, s)| == |s|
  {
    if s == {} {
      assert Prefixed(prefix, s) == {};
    } else {
      var x :| x in s;
      PrefixedCount(prefix, s - {x});
      forall y | y in s && prefix + y == prefix + x ensures y == x {
        assert (prefix + y)[|prefix|..] == y && (prefix + x)[|prefix|..] == x;
      }
      assert Prefixed(prefix, s) == Prefixed(prefix, s - {x}) + {prefix + x};
    }
  }

  /** What the region's keys share plays no part in who is closest. */
  lemma RankInRegion<P>(peers: Trie<P>, prefix: Key, n: nat, x: Key, s: Key)
    requires WF(peers, prefix) && Uniform(peers, n) && |prefix| + |x| == n && |s| == |x|
    ensures |Closer(peers, prefix + x, prefix + s)| == |Closer(Relative(peers, |prefix|), x, s)|
  {
    var all, own := Closer(peers, prefix + x, prefix + s), Closer(Relative(peers, |prefix|), x, s);
    forall e ensures e in own <==> prefix + e in all { CloserInRegion(peers, prefix, n, x, s, e); }
    KeysUnderPath(peers, prefix);
    SamePrefixed(prefix, all, own);
    PrefixedCount(prefix, own);
  }

  lemma SamePrefixed(prefix: Key, all: set<Key>, own: set<Key>)
    requires (forall d :: d in all ==> prefix <= d) && forall e :: e in own <==> prefix + e in all
    ensures all == Prefixed(prefix, own)
  {
    forall d | d in all ensures d in Prefixed(prefix, own) { assert prefix + d[|prefix|..] == d; }
  }

  lemma CloserInRegion<P>(peers: Trie<P>, prefix: Key, n: nat, x: Key, s: Key, e: Key)
    requires WF(peers, prefix) && Uniform(peers, n) && |prefix| + |x| == n && |s| == |x|
    ensures e in Closer(Relative(peers, |prefix|), x, s) <==> prefix + e in Closer(peers, prefix + x, prefix + s)
  {
    RelativeKeys(peers, prefix, |prefix|, e);
    assert prefix[..|prefix|] == prefix;
    if prefix + e in Content(peers) {
      DistanceInRegion(prefix, x, s);
      DistanceInRegion(prefix, x, e);
    }
  }

  lemma DistanceInRegion(prefix: Key, x: Key, s: Key)
    requires |s| == |x|
    ensures DistanceTo(prefix + x, prefix + s) == DistanceTo(x, s)
  {
    assert (prefix + x)[..|prefix + s|] == prefix + x && x[..|s|] == x;
    SharedBitsCancel(prefix, x, s);
  }

  // ---------------------------------------------------------------- an item the walk misplaces

  lemma {:induction false} Farthest(s: set<Key>, x: Key) returns (far: Key)
    requires s != {} && forall d :: d in s ==> |d| == |x|
    ensures far in s && forall d :: d in s && d != far ==> Distance(x, d) < Distance(x, far)
    decreases s
  {
    far :| far in s;
    if s != {far} {
      var other := Farthest(s - {far}, x);
      DistancesDiffer(x, far, other);
      if Distance(x, far) < Distance(x, other) { far := other; }
    }
  }

  /** With more than `k` peers, some peer is not among the `k` closest to `x`. */
  lemma SomeoneIsLeftOut<P>(peers: Trie<P>, x: Key, k: nat) returns (s: Key)
    requires WF(peers, []) && Uniform(peers, |x|) && Size(peers) > k
    ensures s in Content(peers) && |Closer(peers, x, s)| >= k
  {
    SizeIsCount(peers, []);
    s := Farthest(Content(peers).Keys, x);
    assert x[..|x|] == x;
    assert Closer(peers, x, s) == Content(peers).Keys - {s};
  }

  /** What the walk takes for `s`, and for what it takes for `s`, and so on: each time the prefix pushes bits out. */
  ghost function Drifted(prefix: Key, s: Key, j: nat): (x: Key)
    ensures |x| == |s|
  {
    if j == 0 then s else (prefix + Drifted(prefix, s, j - 1))[..|s|]
  }

  /** In the end only the prefix is left. */
  lemma {:induction false} DriftsToPrefix(prefix: Key, s: Key, s': Key, j: nat, i: nat)
    requires prefix != [] && |s| == |s'| && i < |s| && i < j
    ensures Drifted(prefix, s, j)[i] == Drifted(prefix, s', j)[i]
  {
    if |prefix| <= i { DriftsToPrefix(prefix, s, s', j - 1, i - |prefix|); }
  }

  /** Between an `x` that has `s` among its `k` closest and one that has not, there is a step that loses it. */
  lemma {:induction false} LosingStep<P>(peers: Trie<P>, prefix: Key, s: Key, k: nat, j: nat) returns (i: nat)
    requires |Closer(peers, s, s)| < k <= |Closer(peers, Drifted(prefix, s, j), s)|
    ensures |Closer(peers, Drifted(prefix, s, i), s)| < k <= |Closer(peers, Drifted(prefix, s, i + 1), s)|
  {
    if |Closer(peers, Drifted(prefix, s, j - 1), s)| < k {
      i := j - 1;
    } else {
      i := LosingStep(peers, prefix, s, k, j - 1);
    }
  }

  /** The walk sees the item `prefix + x` as the first bits of it. */
  lemma SeenAs<P>(peers: Trie<P>, prefix: Key, s: Key, j: nat)
    ensures Closer(peers, prefix + Drifted(prefix, s, j), s) == Closer(peers, Drifted(prefix, s, j + 1), s)
  {
    var item, seen := prefix + Drifted(prefix, s, j), Drifted(prefix, s, j + 1);
    assert seen[..|s|] == seen == item[..|s|];
  }

  /** Unless the tries are aligned, some item of the region misses a peer that is among its `k` closest. */
  lemma MisplacedItem<P>(peers: Trie<P>, prefix: Key, k: nat, n: nat) returns (i: Key, s: Key)
    requires WF(peers, prefix) && Uniform(peers, n) && !Aligned(peers, prefix, k)
    ensures |i| == n && prefix <= i && prefix + s in Content(peers)
    ensures |Closer(peers, i, prefix + s)| < k <= |Closer(Relative(peers, |prefix|), i, s)|
  {
    var rel := Relative(peers, |prefix|);
    RelativeSpec(peers, prefix, n);
    RelativeIsAlike(peers, |prefix|, 0);
    var any := NonEmptyHasKey(rel, []);
    s := SomeoneIsLeftOut(rel, Drifted(prefix, any, |any|), k);
    forall b | 0 <= b < |s| ensures Drifted(prefix, any, |s|)[b] == Drifted(prefix, s, |s|)[b] {
      DriftsToPrefix(prefix, any, s, |s|, b);
    }
    assert Drifted(prefix, any, |s|) == Drifted(prefix, s, |s|);
    NobodyIsCloserThanItself(rel, s);
    var j := LosingStep(rel, prefix, s, k, |s|);
    i := prefix + Drifted(prefix, s, j);
    SeenAs(rel, prefix, s, j);
    RankInRegion(peers, prefix, n, Drifted(prefix, s, j), s);
    RelativeKeys(peers, prefix, |prefix|, s);
    assert prefix[..|prefix|] == prefix;
  }

  lemma NobodyIsCloserThanItself<P>(peers: Trie<P>, s: Key)
    ensures Closer(peers, s, s) == {}
  {
    DistanceToSelf(s);
    assert s[..|s|] == s;
  }

  lemma RelativeIsDistinct<P>(peers: Trie<P>, prefix: Key)
    requires WF(peers, prefix) && Distinct(peers)
    ensures Distinct(Relative(peers, |prefix|))
  {
    var rel := Relative(peers, |prefix|);
    assert prefix[..|prefix|] == prefix;
    forall a, b | a in Content(rel) && b in Content(rel) && Content(rel)[a] == Content(rel)[b] ensures a == b {
      RelativeKeys(peers, prefix, |prefix|, a);
      RelativeKeys(peers, prefix, |prefix|, b);
      assert (prefix + a)[|prefix|..] == a && (prefix + b)[|prefix|..] == b;
    }
  }

  /** Every set of items of the region goes to its `k` closest peers there if and only if the tries are aligned. */
  lemma RegionAllocationIff<P(!new), V(!new)>(peers: Trie<P>, prefix: Key, k: nat, n: nat, v: V)
    requires WF(peers, prefix) && Uniform(peers, n) && Distinct(peers)
    ensures (forall items: Trie<V> :: InRegion(items, prefix, n) ==> Accurate(items, peers, prefix, k)) <==>
            Aligned(peers, prefix, k)
  {
    if Aligned(peers, prefix, k) {
      forall items: Trie<V> | InRegion(items, prefix, n) ensures Accurate(items, peers, prefix, k) {
        AlignedIsAccurate(items, peers, prefix, k);
      }
    } else {
      var i, s := MisplacedItem(peers, prefix, k, n);
      var items := Leaf(i, v);
      assert InRegion(items, prefix, n);
      NotAccurate(items, peers, prefix, k, i, s);
    }
  }

  lemma NotAccurate<P(!new), V(!new)>(items: Trie<V>, peers: Trie<P>, prefix: Key, k: nat, i: Key, s: Key)
    requires items.Leaf? && items.key == i && WF(peers, prefix) && Distinct(peers) && prefix + s in Content(peers)
    requires |Closer(peers, i, prefix + s)| < k <= |Closer(Relative(peers, |prefix|), i, s)|
    ensures !Accurate(items, peers, prefix, k)
  {
    var rel, p, v := Relative(peers, |prefix|), Content(peers)[prefix + s], items.data;
    RelativeKeys(peers, prefix, |prefix|, s);
    assert prefix[..|prefix|] == prefix;
    RelativeIsDistinct(peers, prefix);
    DueOnce(items, peers, k, i, prefix + s);
    DueOnce(items, rel, k, i, s);
    assert Due(items, rel, k, p, v) != Due(items, peers, k, p, v);
  }

  // ---------------------------------------------------------------- the closest of all peers

  /** The closest peers of an item of a region are in the region. */
  lemma ClosestAreInside<P>(t: Trie<P>, peers: Trie<P>, prefix: Key, n: nat, i: Key, d: Key)
    requires Uniform(t, n) && Content(peers) == Under(Content(t), prefix) && |i| == n && prefix <= i && d in Content(t)
    ensures d in Content(peers) ==> Closer(t, i, d) == Closer(peers, i, d)
    ensures d !in Content(peers) ==> Content(peers).Keys <= Closer(t, i, d)
  {
    if d in Content(peers) {
      forall e | e in Content(t) && e !in Content(peers)
        ensures e !in Closer(t, i, d)
      {
        OutsideIsFarther(prefix, i, d, e);
      }
    } else {
      forall e | e in Content(peers) ensures e in Closer(t, i, d) { OutsideIsFarther(prefix, i, e, d); }
    }
  }

  lemma OutsideIsFarther(prefix: Key, i: Key, inside: Key, outside: Key)
    requires |i| == |inside| == |outside| && prefix <= i && prefix <= inside && !(prefix <= outside)
    ensures DistanceTo(i, inside) < DistanceTo(i, outside)
  {
    var c := CommonPrefixLength(prefix, outside);
    assert prefix[..|prefix|] == prefix;
    assert inside[..c] == inside[..|prefix|][..c] == prefix[..c] == outside[..c];
    assert inside[c] == prefix[c] == i[c];
    assert i[..|inside|] == i;
    CloserAtFork(i, inside, outside, c);
  }

  lemma OnlyInsiders<P>(t: Trie<P>, peers: Trie<P>, prefix: Key, k: nat, n: nat, i: Key, d: Key)
    requires Uniform(t, n) && Content(peers) == Under(Content(t), prefix) && |i| == n && prefix <= i && d in Content(t)
    requires WF(peers, prefix) && Size(peers) >= k
    ensures Rank(t)(i, d) < k <==> d in Content(peers) && Rank(peers)(i, d) < k
  {
    ClosestAreInside(t, peers, prefix, n, i, d);
    SizeIsCount(peers, prefix);
    if d !in Content(peers) { SubsetCount(Content(peers).Keys, Closer(t, i, d)); }
  }

  lemma SameAmong(a: set<Key>, b: set<Key>, b': set<Key>, rank: (Key, Key) -> nat, rank': (Key, Key) -> nat, k: nat)
    requires b' <= b && forall x :: x in Pairs(a, b) ==> (rank(x.0, x.1) < k <==> x.1 in b' && rank'(x.0, x.1) < k)
    ensures Among(a, b, rank, k) == Among(a, b', rank', k)
  {
    forall x ensures x in Among(a, b, rank, k) <==> x in Among(a, b', rank', k) {
      assert x in Pairs(a, b') <==> x in Pairs(a, b) && x.1 in b';
    }
  }

  lemma RegionIsEnough<P, V>(items: Trie<V>, t: Trie<P>, peers: Trie<P>, prefix: Key, k: nat, n: nat, p: P, v: V)
    requires InRegion(items, prefix, n) && WF(peers, prefix) && Uniform(t, n)
    requires Content(peers) == Under(Content(t), prefix) && Size(peers) >= k
    ensures Due(items, t, k, p, v) == Due(items, peers, k, p, v)
  {
    var a, b, b' := Holders(Content(items), v), Holders(Content(t), p), Holders(Content(peers), p);
    forall x | x in Pairs(a, b) ensures Rank(t)(x.0, x.1) < k <==> x.1 in b' && Rank(peers)(x.0, x.1) < k {
      OnlyInsiders(t, peers, prefix, k, n, x.0, x.1);
    }
    SameAmong(a, b, b', Rank(t), Rank(peers), k);
  }

  /** The walk gives every item to its `k` closest of all peers. */
  ghost predicate ServesClosest<P(!new), V(!new)>(items: Trie<V>, r: Region<P>, t: Trie<P>, k: nat) {
    forall p, v :: Due(items, Relative(r.peers, |r.prefix|), k, p, v) == Due(items, t, k, p, v)
  }

  lemma AccurateServesClosest<P(!new), V(!new)>(items: Trie<V>, r: Region<P>, t: Trie<P>, path: Key, k: nat, n: nat)
    requires Fair(r, t, path, k) && Uniform(t, n) && Size(t) >= k && InRegion(items, r.prefix, n)
    ensures ServesClosest(items, r, t, k) <==> Accurate(items, r.peers, r.prefix, k)
  {
    forall p, v ensures Due(items, t, k, p, v) == Due(items, r.peers, k, p, v) {
      RegionIsEnough(items, t, r.peers, r.prefix, k, n, p, v);
    }
  }

  /** A region cut out of at least `k` peers serves every item at its `k` closest of all peers if and only if it is
      the whole keyspace or has exactly `k` peers, or no copy is wanted. */
  lemma ServesClosestIff<P(!new), V(!new)>(r: Region<P>, t: Trie<P>, path: Key, k: nat, n: nat, v: V)
    requires Fair(r, t, path, k) && Uniform(t, n) && Distinct(t) && Size(t) >= k
    ensures (forall items: Trie<V> :: InRegion(items, r.prefix, n) ==> ServesClosest(items, r, t, k)) <==>
            r.prefix == [] || k == 0 || Size(r.peers) == k
  {
    forall items: Trie<V> | InRegion(items, r.prefix, n)
      ensures ServesClosest(items, r, t, k) <==> Accurate(items, r.peers, r.prefix, k)
    {
      AccurateServesClosest(items, r, t, path, k, n);
    }
    RegionAllocationIff(r.peers, r.prefix, k, n, v);
  }

  /** The peers 100 and 101 of the region 1. */
  function TwoPeers<P>(p: P, q: P): Trie<P> {
    Node(Node(Leaf([true, false, false], p), Leaf([true, false, true], q)), Empty)
  }

  lemma TwoPeersSpec<P>(p: P, q: P)
    ensures WF(TwoPeers(p, q), [true])
    ensures Content(TwoPeers(p, q)) == map[[true, false, false] := p, [true, false, true] := q]
  {
    var x, y := [true, false, false], [true, false, true];
    assert [true] + [false] == [true, false];
    assert [true, false] + [false] == x && [true, false] + [true] == y;
    SiblingLeaves(x, y, p, q, [true, false]);
    OneSided(Node(Leaf(x, p), Leaf(y, q)), [true]);
  }

  lemma SiblingLeaves<P>(x: Key, y: Key, p: P, q: P, path: Key)
    requires path + [false] <= x && path + [true] <= y
    ensures WF(Node(Leaf(x, p), Leaf(y, q)), path) && Content(Node(Leaf(x, p), Leaf(y, q))) == map[x := p, y := q]
  {
    assert x[|path|] != y[|path|];
  }

  lemma OneSided<P>(t: Trie<P>, path: Key)
    requires WF(t, path + [false]) && !t.Empty?
    ensures WF(Node(t, Empty), path) && Content(Node(t, Empty)) == Content(t)
  {
  }

  lemma ThreePeersSpec<P>(a: P, p: P, q: P)
    ensures var t := Node(Leaf([false, false, false], a), TwoPeers(p, q));
      && WF(t, []) && Uniform(t, 3)
      && MinimalRegions(t, [], 1, []) == [Region([false], t.left), Region([true], t.right)]
      && Fair(Region([true], t.right), t, [], 1)
  {
    var t := Node(Leaf([false, false, false], a), TwoPeers(p, q));
    TwoPeersSpec(p, q);
    assert [] + [false] == [false] && [] + [true] == [true];
    assert WF(t, []);
    BranchKeys(t, [], false);
    assert Size(TwoPeers(p, q).left) == 2;
    CutInTwo(t, 1);
    RegionsAreFair(t, [], 1, []);
    assert Region([true], t.right) in MinimalRegions(t, [], 1, []);
  }

  /** Two halves that cannot be cut further. */
  lemma CutInTwo<P>(t: Trie<P>, size: nat)
    requires Splits(t, size) && size > 0 && !Splits(t.left, size) && !Splits(t.right, size)
    ensures MinimalRegions(t, [], size, []) == [Region([false], t.left), Region([true], t.right)]
  {
    assert [] + [false] == [false] && [] + [true] == [true];
    assert MinimalRegions(t.left, [false], size, []) == [Region([false], t.left)];
    assert MinimalRegions(t.right, [true], size, []) == [Region([true], t.right)];
  }

  lemma SecondBitDecides<P>(p: P, q: P)
    ensures [false, false] in Closer(Relative(TwoPeers(p, q), 1), [true, false, true], [false, true])
  {
    TwoPeersSpec(p, q);
    RelativeKeys(TwoPeers(p, q), [true], 1, [false, false]);
    assert [true][..1] + [false, false] == [true, false, false];
    assert [true, false, true][..2] == [true, false];
    assert [false, false][..1] == [false, true][..1];
    DistancesOfTwo();
  }

  lemma DistancesOfTwo()
    ensures Distance([true, false], [false, false]) < Distance([true, false], [false, true])
  {
    assert [false, false][..1] == [false] == [false, true][..1];
    CloserAtFork([true, false], [false, false], [false, true], 1);
  }

  /** Three peers, 000, 100 and 101, and one copy wanted: they are cut into the regions 0 and 1, and the key 101
      misses the peer it lies on, because its second bit is matched with the third bit of the peers. */
  lemma KeyMissesItsPeer<P(!new), V(!new)>(a: P, p: P, q: P, v: V)
    requires p != q
    ensures var t := Node(Leaf([false, false, false], a), TwoPeers(p, q));
      var r, items := Region([true], t.right), Leaf([true, false, true], v);
      && WF(t, []) && MinimalRegions(t, [], 1, []) == [Region([false], t.left), r] && Fair(r, t, [], 1)
      && InRegion(items, [true], 3) && !ServesClosest(items, r, t, 1)
  {
    var peers, key := TwoPeers(p, q), [true, false, true];
    var t := Node(Leaf([false, false, false], a), peers);
    ThreePeersSpec(a, p, q);
    TwoPeersSpec(p, q);
    SecondBitDecides(p, q);
    NobodyIsCloserThanItself(peers, key);
    assert [true] + [false, true] == key;
    NotAccurate(Leaf(key, v), peers, [true], 1, key, [false, true]);
    AccurateServesClosest(Leaf(key, v), Region([true], peers), t, [], 1, 3);
  }

  /** Serves one region that was cut out of all known peers `t`. */
  method ProvideRegion<P(==, !new), V(!new)>(r: Region<P>, items: Trie<V>, k: nat, ghost t: Trie<P>, ghost path: Key,
                                             ghost n: nat)
    returns (a: Batches<P, V>)
    requires Fair(r, t, path, k) && Uniform(t, n) && InRegion(items, r.prefix, n)
    ensures forall p, v :: Given(a, p, v) == Due(items, Relative(r.peers, |r.prefix|), k, p, v)
    ensures Aligned(r.peers, r.prefix, k) && Size(t) >= k ==> forall p, v :: Given(a, p, v) == Due(items, t, k, p, v)
  {
    a := AllocateToKClosest(items, r.peers, k, r.prefix, n);
    if Aligned(r.peers, r.prefix, k) && Size(t) >= k {
      AlignedIsAccurate(items, r.peers, r.prefix, k);
      forall p, v ensures Given(a, p, v) == Due(items, t, k, p, v) {
        RegionIsEnough(items, t, r.peers, r.prefix, k, n, p, v);
      }
    }
  }
}
