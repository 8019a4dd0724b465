/** Distributing items to their k closest destinations by walking two tries, without computing a distance. */
module Allocation {
  import opened Keys
  import opened Sequences
  import opened Tries
  import opened TrieOps

  /** Batches of items per destination; batches are shared, not merged. */
  type Batches<P, V> = map<P, seq<seq<V>>>

  // ---------------------------------------------------------------- reference definition

  /** All keys have `n` bits. */
  ghost predicate Uniform<D>(t: Trie<D>, n: nat) {
    forall k :: k in Content(t) ==> |k| == n
  }

  /** All keys have at least `n` bits. */
  ghost predicate AtLeast<D>(t: Trie<D>, n: nat) {
    forall k :: k in Content(t) ==> |k| >= n
  }

  /** Different keys carry different data, as a hash and its preimage do. */
  ghost predicate Distinct<D>(t: Trie<D>) {
    forall a, b :: a in Content(t) && b in Content(t) && Content(t)[a] == Content(t)[b] ==> a == b
  }

  ghost predicate Carries<D>(t: Trie<D>, v: D) {
    exists k :: k in Content(t) && Content(t)[k] == v
  }

  /** The XOR distance between a destination and as many bits of an item. */
  ghost function DistanceTo(item: Key, dest: Key): nat
    requires |dest| <= |item|
  {
    Distance(item[..|dest|], dest)
  }

  /** The destinations strictly closer to `item` than `dest` is. */
  ghost function Closer<D>(dests: Trie<D>, item: Key, dest: Key): set<Key> {
    set d | d in Content(dests) && |d| == |dest| <= |item| && DistanceTo(item, d) < DistanceTo(item, dest)
  }

  /** How often `v` was given to `p`. */
  ghost function Given<P, V>(r: Batches<P, V>, p: P, v: V): nat {
    if p in r then Count(r[p], v) else 0
  }

  ghost function Count<V>(bs: seq<seq<V>>, v: V): nat {
    if bs == [] then 0 else Count(bs[..|bs| - 1], v) + multiset(bs[|bs| - 1])[v]
  }

  // ---------------------------------------------------------------- distances along a trie of destinations

  lemma CloserIsSmaller<D>(dests: Trie<D>, path: Key, item: Key, dest: Key)
    requires WF(dests, path) && dest in Content(dests)
    ensures |Closer(dests, item, dest)| < Size(dests)
  {
    SizeIsCount(dests, path);
    assert Closer(dests, item, dest) <= Content(dests).Keys - {dest};
    SubsetCount(Closer(dests, item, dest), Content(dests).Keys - {dest});
  }

  /** Destinations that agree with the item on the next bit are closer than those that do not. */
  lemma NearBranchIsCloser(path: Key, item: Key, b: bool, near: Key, far: Key)
    requires path + [b] <= near && path + [!b] <= far
    requires |near| == |far| <= |item| && item[|path|] == b
    ensures DistanceTo(item, near) < DistanceTo(item, far)
  {
    BeforeAtFork([], path, near, far, b);
    StepPath(path, b, near);
    StepPath(path, !b, far);
    CloserAtFork(item[..|near|], near, far, |path|);
  }

  /** For a destination on the item's side only that side counts. */
  lemma CloserOnNearSide<D>(dests: Trie<D>, path: Key, item: Key, dest: Key, n: nat, near: Trie<D>)
    requires dests.Node? && WF(dests, path) && Uniform(dests, n) && |item| >= n && |path| < n
    requires near == Branch(dests, item[|path|]) && dest in Content(near)
    ensures Closer(dests, item, dest) == Closer(near, item, dest)
  {
    var b := item[|path|];
    BranchKeys(dests, path, b);
    BranchKeys(dests, path, !b);
    forall d | d in Content(dests) ensures d in Closer(dests, item, dest) <==> d in Closer(near, item, dest) {
      if d !in Content(near) { NearBranchIsCloser(path, item, b, dest, d); }
    }
  }

  lemma FarSideSets<D>(dests: Trie<D>, path: Key, item: Key, dest: Key, n: nat, near: Trie<D>, far: Trie<D>)
    requires dests.Node? && WF(dests, path) && Uniform(dests, n) && |item| >= n && |path| < n
    requires near == Branch(dests, item[|path|]) && far == Branch(dests, !item[|path|]) && dest in Content(far)
    ensures Closer(dests, item, dest) == Content(near).Keys + Closer(far, item, dest)
    ensures Content(near).Keys !! Closer(far, item, dest)
  {
    forall d ensures d in Closer(dests, item, dest) <==> d in Content(near).Keys + Closer(far, item, dest) {
      if d in Content(near) {
        NearComesFirst(dests, path, item, dest, n, d);
      } else {
        OnFarSide(dests, path, item, dest, n, d);
      }
    }
    SidesAreApart(dests, path, item, dest);
  }

  lemma SidesAreApart<D>(dests: Trie<D>, path: Key, item: Key, dest: Key)
    requires dests.Node? && WF(dests, path) && |path| < |item|
    ensures Content(Branch(dests, item[|path|])).Keys !! Closer(Branch(dests, !item[|path|]), item, dest)
  {
    BranchKeys(dests, path, item[|path|]);
  }

  lemma OnFarSide<D>(dests: Trie<D>, path: Key, item: Key, dest: Key, n: nat, d: Key)
    requires dests.Node? && WF(dests, path) && Uniform(dests, n) && |item| >= n && |path| < n
    requires d !in Content(Branch(dests, item[|path|]))
    ensures d in Closer(dests, item, dest) <==> d in Closer(Branch(dests, !item[|path|]), item, dest)
  {
    BranchKeys(dests, path, item[|path|]);
  }

  lemma NearComesFirst<D>(dests: Trie<D>, path: Key, item: Key, dest: Key, n: nat, d: Key)
    requires dests.Node? && WF(dests, path) && Uniform(dests, n) && |item| >= n && |path| < n
    requires d in Content(Branch(dests, item[|path|])) && dest in Content(Branch(dests, !item[|path|]))
    ensures d in Closer(dests, item, dest)
  {
    BranchKeys(dests, path, item[|path|]);
    BranchKeys(dests, path, !item[|path|]);
    NearBranchIsCloser(path, item, item[|path|], d, dest);
  }

  /** For a destination on the other side, all of the item's side comes first. */
  lemma CloserOnFarSide<D>(dests: Trie<D>, path: Key, item: Key, dest: Key, n: nat, near: Trie<D>, far: Trie<D>)
    requires dests.Node? && WF(dests, path) && Uniform(dests, n) && |item| >= n && |path| < n
    requires near == Branch(dests, item[|path|]) && far == Branch(dests, !item[|path|]) && dest in Content(far)
    ensures |Closer(dests, item, dest)| == Size(near) + |Closer(far, item, dest)|
  {
    FarSideSets(dests, path, item, dest, n, near, far);
    SizeIsCount(near, path + [item[|path|]]);
  }

  // ---------------------------------------------------------------- what an allocation owes

  /** The keys that carry `v`. */
  ghost function Holders<D>(m: map<Key, D>, v: D): set<Key> {
    set k | k in m && m[k] == v
  }

  ghost function Pairs(a: set<Key>, b: set<Key>): set<(Key, Key)> {
    set i, d | i in a && d in b :: (i, d)
  }

  /** The items with value `v` and destinations with value `p` that are due to each other: fewer than `k`
      destinations are strictly closer to the item. */
  ghost function Owed<P, V>(items: Trie<V>, dests: Trie<P>, k: nat, p: P, v: V): set<(Key, Key)> {
    Among(Holders(Content(items), v), Holders(Content(dests), p), Rank(dests), k)
  }

  ghost function Among(a: set<Key>, b: set<Key>, rank: (Key, Key) -> nat, k: nat): set<(Key, Key)> {
    set x | x in Pairs(a, b) && rank(x.0, x.1) < k
  }

  /** How many destinations are strictly closer to an item than a destination is. */
  ghost function Rank<P>(dests: Trie<P>): (Key, Key) -> nat {
    (item, dest) => |Closer(dests, item, dest)|
  }

  /** How often `p` is to receive `v`. */
  ghost function Due<P, V>(items: Trie<V>, dests: Trie<P>, k: nat, p: P, v: V): nat {
    |Owed(items, dests, k, p, v)|
  }

  ghost function DueToAll<P, V>(items: Trie<V>, dests: Trie<P>, p: P, v: V): nat {
    |Pairs(Holders(Content(items), v), Holders(Content(dests), p))|
  }

  lemma {:induction false} PairsCount(a: set<Key>, b: set<Key>)
    ensures |Pairs(a, b)| == |b| * |a|
  {
    if a == {} {
      assert Pairs(a, b) == {};
    } else {
      var x :| x in a;
      var rest := a - {x};
      PairsCount(rest, b);
      RowCount(x, b);
      assert a == rest + {x};
      PairsUnion(rest, {x}, b);
      UnionCount(Pairs(rest, b), Pairs({x}, b));
      OneMore(|b|, |rest|, |a|, true);
    }
  }

  lemma PairsUnion(a: set<Key>, a': set<Key>, b: set<Key>)
    ensures Pairs(a + a', b) == Pairs(a, b) + Pairs(a', b)
    ensures a !! a' ==> Pairs(a, b) !! Pairs(a', b)
  {
  }

  lemma SplitCount<T>(c: set<T>, a: set<T>, b: set<T>)
    requires c == a + b && a !! b
    ensures |c| == |a| + |b|
  {
  }

  lemma UnionCount<T>(a: set<T>, b: set<T>)
    requires a !! b
    ensures |a + b| == |a| + |b|
  {
  }

  lemma {:induction false} RowCount(x: Key, b: set<Key>)
    ensures |Pairs({x}, b)| == |b|
  {
    if b == {} {
      assert Pairs({x}, b) == {};
    } else {
      var y :| y in b;
      RowCount(x, b - {y});
      assert Pairs({x}, b) == Pairs({x}, b - {y}) + {(x, y)};
    }
  }

  lemma DueToNone<P, V>(items: Trie<V>, dests: Trie<P>, k: nat, p: P, v: V)
    requires k == 0 || Holders(Content(items), v) == {} || Holders(Content(dests), p) == {}
    ensures Due(items, dests, k, p, v) == 0
  {
    assert Owed(items, dests, k, p, v) == {};
  }

  /** Where values are distinct, an item is due to a destination once or not at all. */
  lemma DueOnce<P, V>(items: Trie<V>, dests: Trie<P>, k: nat, i: Key, d: Key)
    requires Distinct(items) && Distinct(dests) && i in Content(items) && d in Content(dests)
    ensures Due(items, dests, k, Content(dests)[d], Content(items)[i]) == if |Closer(dests, i, d)| < k then 1 else 0
  {
    var p, v := Content(dests)[d], Content(items)[i];
    assert Holders(Content(items), v) == {i} && Holders(Content(dests), p) == {d};
    assert (i, d) in Pairs({i}, {d});
    assert Owed(items, dests, k, p, v) == if |Closer(dests, i, d)| < k then {(i, d)} else {};
  }

  /** At most `k` destinations: every one of them is among the `k` closest. */
  lemma FewDestinations<P, V>(items: Trie<V>, dests: Trie<P>, path: Key, k: nat, p: P, v: V)
    requires WF(dests, path) && Size(dests) <= k
    ensures Due(items, dests, k, p, v) == DueToAll(items, dests, p, v)
  {
    var all := Pairs(Holders(Content(items), v), Holders(Content(dests), p));
    forall x | x in all ensures |Closer(dests, x.0, x.1)| < k { CloserIsSmaller(dests, path, x.0, x.1); }
    assert Owed(items, dests, k, p, v) == all;
  }

  /** The items of a walk step: they all have bit `b` at the depth of the destinations. */
  ghost predicate OnSide<V>(items: Trie<V>, depth: nat, b: bool, n: nat) {
    forall i :: i in Content(items) ==> |i| >= n > depth && i[depth] == b
  }

  ghost predicate Forked<P>(dests: Trie<P>, path: Key, b: bool, n: nat, near: Trie<P>, far: Trie<P>) {
    dests.Node? && WF(dests, path) && Uniform(dests, n) && near == Branch(dests, b) && far == Branch(dests, !b)
  }

  lemma ForkInherits<P>(dests: Trie<P>, path: Key, b: bool, n: nat, near: Trie<P>, far: Trie<P>)
    requires Forked(dests, path, b, n, near, far)
    ensures WF(near, path + [b]) && WF(far, path + [!b]) && Uniform(near, n) && Uniform(far, n)
  {
    BranchKeys(dests, path, b);
    BranchKeys(dests, path, !b);
  }

  /** The holders of a value on the two sides of a node. */
  lemma BranchHolders<P>(t: Trie<P>, path: Key, b: bool, p: P)
    requires t.Node? && WF(t, path)
    ensures Holders(Content(t), p) == Holders(Content(Branch(t, b)), p) + Holders(Content(Branch(t, !b)), p)
    ensures Holders(Content(Branch(t, b)), p) !! Holders(Content(Branch(t, !b)), p)
  {
    BranchKeys(t, path, b);
    BranchKeys(t, path, !b);
    HoldersUnion(Content(t), Content(Branch(t, b)), Content(Branch(t, !b)), p);
  }

  /** Between the given items and destinations, one rank is the other plus a constant. */
  ghost predicate Shifted(items: set<Key>, dests: set<Key>, rank: (Key, Key) -> nat, shift: nat,
                          base: (Key, Key) -> nat) {
    forall x :: x in Pairs(items, dests) ==> rank(x.0, x.1) == shift + base(x.0, x.1)
  }

  /** A destination on the items' side is as far down the order as on that side alone. */
  lemma RankOnNearSide<P, V>(items: Trie<V>, dests: Trie<P>, path: Key, b: bool, n: nat, near: Trie<P>, far: Trie<P>,
                             p: P, v: V)
    requires Forked(dests, path, b, n, near, far) && OnSide(items, |path|, b, n)
    ensures Shifted(Holders(Content(items), v), Holders(Content(near), p), Rank(dests), 0, Rank(near))
  {
    forall x | x in Pairs(Holders(Content(items), v), Holders(Content(near), p))
      ensures Rank(dests)(x.0, x.1) == Rank(near)(x.0, x.1)
    {
      CloserOnNearSide(dests, path, x.0, x.1, n, near);
    }
  }

  /** A destination on the other side comes after everyone on the items' side. */
  lemma RankOnFarSide<P, V>(items: Trie<V>, dests: Trie<P>, path: Key, b: bool, n: nat, near: Trie<P>, far: Trie<P>,
                            p: P, v: V)
    requires Forked(dests, path, b, n, near, far) && OnSide(items, |path|, b, n)
    ensures Shifted(Holders(Content(items), v), Holders(Content(far), p), Rank(dests), Size(near), Rank(far))
  {
    forall x | x in Pairs(Holders(Content(items), v), Holders(Content(far), p))
      ensures Rank(dests)(x.0, x.1) == Size(near) + Rank(far)(x.0, x.1)
    {
      CloserOnFarSide(dests, path, x.0, x.1, n, near, far);
    }
  }

  lemma AmongSplits(vs: set<Key>, ns: set<Key>, fs: set<Key>, rank: (Key, Key) -> nat, near: (Key, Key) -> nat,
                    far: (Key, Key) -> nat, size: nat, k: nat)
    requires ns !! fs && Shifted(vs, ns, rank, 0, near) && Shifted(vs, fs, rank, size, far)
    ensures |Among(vs, ns + fs, rank, k)| ==
      |Among(vs, ns, near, k)| + if size < k then |Among(vs, fs, far, k - size)| else 0
  {
    var rest := if size < k then Among(vs, fs, far, k - size) else {};
    assert Pairs(vs, ns + fs) == Pairs(vs, ns) + Pairs(vs, fs);
    assert Among(vs, ns + fs, rank, k) == Among(vs, ns, near, k) + rest;
    SplitCount(Among(vs, ns + fs, rank, k), Among(vs, ns, near, k), rest);
  }

  /** The pairs due are those due on the items' side, and those due on the other side for what it leaves over. */
  lemma DueSplits<P, V>(items: Trie<V>, dests: Trie<P>, path: Key, b: bool, n: nat, near: Trie<P>, far: Trie<P>,
                        k: nat, p: P, v: V)
    requires Forked(dests, path, b, n, near, far) && OnSide(items, |path|, b, n)
    ensures Due(items, dests, k, p, v) ==
            Due(items, near, k, p, v) + if Size(near) < k then Due(items, far, k - Size(near), p, v) else 0
  {
    BranchHolders(dests, path, b, p);
    RankOnNearSide(items, dests, path, b, n, near, far, p, v);
    RankOnFarSide(items, dests, path, b, n, near, far, p, v);
    AmongSplits(Holders(Content(items), v), Holders(Content(near), p), Holders(Content(far), p),
                Rank(dests), Rank(near), Rank(far), Size(near), k);
  }

  /** The whole step: `k` covers the near side, and the rest of `k` is for the far side; or it does not. */
  lemma DueAtNode<P, V>(items: Trie<V>, dests: Trie<P>, path: Key, b: bool, n: nat, near: Trie<P>, far: Trie<P>,
                        k: nat, p: P, v: V)
    requires Forked(dests, path, b, n, near, far) && OnSide(items, |path|, b, n)
    ensures Size(near) <= k ==>
      Due(items, dests, k, p, v) ==
        DueToAll(items, near, p, v) + (if Size(near) < k then Due(items, far, k - Size(near), p, v) else 0)
    ensures Size(near) > k ==> Due(items, dests, k, p, v) == Due(items, near, k, p, v)
  {
    ForkInherits(dests, path, b, n, near, far);
    DueSplits(items, dests, path, b, n, near, far, k, p, v);
    if Size(near) <= k { FewDestinations(items, near, path + [b], k, p, v); }
  }

  // ---------------------------------------------------------------- batches

  /** The values of a trie as one batch: each value once. */
  lemma BatchOf<D>(t: Trie<D>, path: Key)
    requires WF(t, path) && Distinct(t)
    ensures NoRepeats(AllValues(t, [], 0))
    ensures forall v :: v in AllValues(t, [], 0) <==> Carries(t, v)
  {
    DepthIsIrrelevant(t, 0, |path|);
    AllValuesMatch(t, [], path);
    AllKeysSorted(t, [], path);
    var ks, vs := AllKeys(t, [], |path|), AllValues(t, [], |path|);
    forall i, j | 0 <= i < j < |vs| ensures vs[i] != vs[j] {
      BeforeIrreflexive([], ks[i], ks[j]);
    }
    forall v | Carries(t, v) ensures v in vs {
      var k :| k in Content(t) && Content(t)[k] == v;
      var i :| 0 <= i < |ks| && ks[i] == k;
      assert vs[i] == v;
    }
    forall v | v in vs ensures Carries(t, v) {
      var i :| 0 <= i < |vs| && vs[i] == v;
      assert ks[i] in Content(t);
    }
  }

  function Append<P(==), V>(r: Batches<P, V>, d: P, batch: seq<V>): Batches<P, V> {
    r[d := (if d in r then r[d] else []) + [batch]]
  }

  lemma AppendGives<P, V>(r: Batches<P, V>, d: P, batch: seq<V>, p: P, v: V)
    ensures Given(Append(r, d, batch), p, v) == Given(r, p, v) + if p == d then multiset(batch)[v] else 0
  {
    var bs := if d in r then r[d] else [];
    var cs := bs + [batch];
    assert cs[..|cs| - 1] == bs && cs[|cs| - 1] == batch;
    assert Count(cs, v) == Count(bs, v) + multiset(batch)[v];
    assert Append(r, d, batch)[d] == cs;
    assert p != d ==> (p in r <==> p in Append(r, d, batch));
  }

  lemma {:induction false} ValueCount<D>(t: Trie<D>, path: Key, depth: nat, v: D)
    requires WF(t, path)
    ensures multiset(AllValues(t, [], depth))[v] == |Holders(Content(t), v)|
  {
    if t.Leaf? {
      assert Holders(Content(t), v) == if t.data == v then {t.key} else {};
    } else if t.Node? {
      BranchKeys(t, path, false);
      BranchKeys(t, path, true);
      ValueCount(t.left, path + [false], depth + 1, v);
      ValueCount(t.right, path + [true], depth + 1, v);
      BranchHolders(t, path, false, v);
    }
  }

  /** `r'` is `r` with `batch` handed once to each of `dests`. */
  ghost predicate Shared<P(!new), V(!new)>(r': Batches<P, V>, r: Batches<P, V>, dests: seq<P>, batch: seq<V>) {
    forall p, v :: Given(r', p, v) == Given(r, p, v) + multiset(dests)[p] * multiset(batch)[v]
  }

  lemma ShareOne<P(!new), V(!new)>(r': Batches<P, V>, r: Batches<P, V>, dests: seq<P>, batch: seq<V>, d: P)
    requires Shared(r', r, dests, batch)
    ensures Shared(Append(r', d, batch), r, dests + [d], batch)
  {
    forall p, v
      ensures Given(Append(r', d, batch), p, v) == Given(r, p, v) + multiset(dests + [d])[p] * multiset(batch)[v]
    {
      AppendGives(r', d, batch, p, v);
      OneMore(multiset(batch)[v], multiset(dests)[p], multiset(dests + [d])[p], p == d);
    }
  }

  /** Handing one batch to every destination of a list. */
  method ShareBatch<P(==, !new), V(!new)>(dests: seq<P>, batch: seq<V>, r: Batches<P, V>) returns (r': Batches<P, V>)
    ensures Shared(r', r, dests, batch)
  {
    r' := r;
    for j := 0 to |dests|
      invariant Shared(r', r, dests[..j], batch)
    {
      ShareOne(r', r, dests[..j], batch, dests[j]);
      assert dests[..j + 1] == dests[..j] + [dests[j]];
      r' := Append(r', dests[j], batch);
    }
    assert dests[..|dests|] == dests;
  }

  lemma OneMore(b: nat, c: nat, c': nat, more: bool)
    requires c' == if more then c + 1 else c
    ensures b * c' == b * c + (if more then b else 0) && c' * b == c * b + if more then b else 0
  {
  }

  /** A subtrie on its own: its keys without their first `cut` bits. */
  ghost function Relative<D>(t: Trie<D>, cut: nat): Trie<D> {
    match t
    case Empty => Empty
    case Leaf(k, d) => Leaf(if cut <= |k| then k[cut..] else [], d)
    case Node(l, r) => Node(Relative(l, cut), Relative(r, cut))
  }

  lemma {:induction false} RelativeIsAlike<D>(t: Trie<D>, cut: nat, depth: nat)
    ensures Size(Relative(t, cut)) == Size(t) && AllValues(Relative(t, cut), [], depth) == AllValues(t, [], depth)
  {
    if !t.Node? {
    } else {
      RelativeIsAlike(t.left, cut, depth + 1);
      RelativeIsAlike(t.right, cut, depth + 1);
    }
  }

  lemma CutKey(path: Key, k: Key, cut: nat)
    requires path <= k && cut <= |path|
    ensures path[cut..] <= k[cut..] && path[..cut] + k[cut..] == k
  {
    assert k[..|path|] == path;
  }

  lemma {:induction false} RelativeIsWF<D>(t: Trie<D>, path: Key, cut: nat)
    requires WF(t, path) && cut <= |path|
    ensures WF(Relative(t, cut), path[cut..])
  {
    if t.Leaf? {
      CutKey(path, t.key, cut);
    } else if t.Node? {
      RelativeIsWF(t.left, path + [false], cut);
      RelativeIsWF(t.right, path + [true], cut);
      assert (path + [false])[cut..] == path[cut..] + [false] && (path + [true])[cut..] == path[cut..] + [true];
    }
  }

  /** The keys of a subtrie on its own are the same keys without what they share. */
  lemma {:induction false} RelativeKeys<D>(t: Trie<D>, path: Key, cut: nat, d: Key)
    requires WF(t, path) && cut <= |path|
    ensures d in Content(Relative(t, cut)) <==> path[..cut] + d in Content(t)
    ensures d in Content(Relative(t, cut)) ==> Content(Relative(t, cut))[d] == Content(t)[path[..cut] + d]
  {
    if t.Leaf? {
      CutKey(path, t.key, cut);
      assert (path[..cut] + d)[cut..] == d;
    } else if t.Node? {
      RelativeKeys(t.left, path + [false], cut, d);
      RelativeKeys(t.right, path + [true], cut, d);
      assert (path + [false])[..cut] == path[..cut] == (path + [true])[..cut];
      RelativeIsWF(t, path, cut);
      BranchKeys(t, path, false);
      BranchKeys(Relative(t, cut), path[cut..], false);
    }
  }

  lemma RelativeSpec<D>(t: Trie<D>, path: Key, n: nat)
    requires WF(t, path) && Uniform(t, n) && !t.Empty?
    ensures |path| <= n && WF(Relative(t, |path|), []) && Uniform(Relative(t, |path|), n - |path|)
  {
    KeysUnderPath(t, path);
    var k := NonEmptyHasKey(t, path);
    RelativeIsWF(t, path, |path|);
    forall d | d in Content(Relative(t, |path|)) ensures |d| == n - |path| { RelativeKeys(t, path, |path|, d); }
  }

  /** Handing all items of a trie to all destinations of a trie. */
  method ShareAll<P(==, !new), V(!new)>(items: Trie<V>, dests: Trie<P>, r: Batches<P, V>, ghost pi: Key, ghost pd: Key,
                                        ghost cut: nat) returns (r': Batches<P, V>)
    requires WF(items, pi) && WF(Relative(dests, cut), pd)
    ensures forall p, v :: Given(r', p, v) == Given(r, p, v) + DueToAll(items, Relative(dests, cut), p, v)
  {
    r' := ShareBatch(AllValues(dests, [], 0), AllValues(items, [], 0), r);
    ghost var rel := Relative(dests, cut);
    RelativeIsAlike(dests, cut, 0);
    forall p, v ensures Given(r', p, v) == Given(r, p, v) + DueToAll(items, rel, p, v) {
      ValueCount(items, pi, 0, v);
      ValueCount(rel, pd, 0, p);
      PairsCount(Holders(Content(items), v), Holders(Content(rel), p));
    }
  }

  // ---------------------------------------------------------------- the walk

  /** The items that follow bit `b` at `depth`; a leaf higher up stands for itself. */
  function MatchingItems<V>(items: Trie<V>, depth: nat, b: bool): Trie<V> {
    match items
    case Empty => Empty
    case Leaf(k, _) => if depth < |k| && k[depth] == b then items else Empty
    case Node(_, _) => Branch(items, b)
  }

  lemma MatchingSpec<V>(items: Trie<V>, path: Key, b: bool, n: nat)
    requires WF(items, path) && AtLeast(items, n) && |path| < n
    ensures var m := MatchingItems(items, |path|, b);
      && WF(m, path + [b]) && AtLeast(m, n) && OnSide(m, |path|, b, n)
      && forall i :: i in Content(m) <==> i in Content(items) && i[|path|] == b
    ensures var m := MatchingItems(items, |path|, b);
      forall i :: i in Content(m) ==> Content(m)[i] == Content(items)[i]
  {
    KeysUnderPath(items, path);
    forall i | i in Content(items) ensures path + [b] <= i <==> i[|path|] == b { StepPath(path, b, i); }
    if items.Leaf? {
      assert items.key in Content(items);
    } else if items.Node? {
      BranchKeys(items, path, b);
    }
  }

  /** The two sides of the items are due separately. */
  lemma DueBySides<P, V>(items: Trie<V>, dests: Trie<P>, path: Key, k: nat, n: nat, p: P, v: V)
    requires WF(items, path) && AtLeast(items, n) && |path| < n
    ensures Due(items, dests, k, p, v) ==
            Due(MatchingItems(items, |path|, false), dests, k, p, v) +
              Due(MatchingItems(items, |path|, true), dests, k, p, v)
  {
    MatchingSpec(items, path, false, n);
    MatchingSpec(items, path, true, n);
    DueByHolders(items, MatchingItems(items, |path|, false), MatchingItems(items, |path|, true), dests, k, p, v);
  }

  lemma DueByHolders<P, V>(items: Trie<V>, l: Trie<V>, r: Trie<V>, dests: Trie<P>, k: nat, p: P, v: V)
    requires forall i :: i in Content(items) <==> i in Content(l) || i in Content(r)
    requires forall i :: i in Content(l) ==> i !in Content(r) && Content(l)[i] == Content(items)[i]
    requires forall i :: i in Content(r) ==> Content(r)[i] == Content(items)[i]
    ensures Due(items, dests, k, p, v) == Due(l, dests, k, p, v) + Due(r, dests, k, p, v)
  {
    HoldersUnion(Content(items), Content(l), Content(r), v);
    AmongUnion(Holders(Content(l), v), Holders(Content(r), v), Holders(Content(dests), p), Rank(dests), k);
  }

  lemma HoldersUnion<V>(m: map<Key, V>, l: map<Key, V>, r: map<Key, V>, v: V)
    requires forall i :: i in m <==> i in l || i in r
    requires forall i :: i in l ==> i !in r && l[i] == m[i]
    requires forall i :: i in r ==> r[i] == m[i]
    ensures Holders(m, v) == Holders(l, v) + Holders(r, v) && Holders(l, v) !! Holders(r, v)
  {
  }

  lemma AmongUnion(a: set<Key>, a': set<Key>, b: set<Key>, rank: (Key, Key) -> nat, k: nat)
    requires a !! a'
    ensures |Among(a + a', b, rank, k)| == |Among(a, b, rank, k)| + |Among(a', b, rank, k)|
  {
    PairsUnion(a, a', b);
    assert Among(a + a', b, rank, k) == Among(a, b, rank, k) + Among(a', b, rank, k);
    UnionCount(Among(a, b, rank, k), Among(a', b, rank, k));
  }

  /** The items that go on with bit `b`. Only the shape of the destinations counts, so they are served as if their
      keys began where the walk did. */
  method AllocateSide<P(==, !new), V(!new)>(items: Trie<V>, dests: Trie<P>, k: nat, depth: nat, b: bool,
                                            r: Batches<P, V>, ghost pi: Key, ghost pd: Key, ghost n: nat,
                                            ghost cut: nat) returns (r': Batches<P, V>)
    requires dests.Node? && k > 0 && |pi| == |pd| == depth < n
    requires WF(items, pi) && AtLeast(items, n) && WF(Relative(dests, cut), pd) && Uniform(Relative(dests, cut), n)
    ensures forall p, v ::
      Given(r', p, v) == Given(r, p, v) + Due(MatchingItems(items, depth, b), Relative(dests, cut), k, p, v)
    decreases dests, 0
  {
    var same, other := Branch(dests, b), Branch(dests, !b);
    var m := MatchingItems(items, depth, b);
    MatchingSpec(items, pi, b, n);
    ghost var rel := Relative(dests, cut);
    if m.Empty? {
      forall p, v ensures Due(m, rel, k, p, v) == 0 { DueToNone(m, rel, k, p, v); }
      return r;
    }
    ghost var near, far := Relative(same, cut), Relative(other, cut);
    RelativeIsAlike(same, cut, 0);
    ForkInherits(rel, pd, b, n, near, far);
    forall p, v ensures
      Due(m, rel, k, p, v) ==
        if Size(near) > k then Due(m, near, k, p, v)
        else DueToAll(m, near, p, v) + (if Size(near) < k then Due(m, far, k - Size(near), p, v) else 0)
    {
      DueAtNode(m, rel, pd, b, n, near, far, k, p, v);
    }
    if Size(same) <= k {
      r' := ShareAll(m, same, r, pi + [b], pd + [b], cut);
      if Size(same) == k { return; }
      r' := AllocateRest(m, other, k - Size(same), depth, !b, r', pi + [b], pd, n, cut);
    } else {
      r' := AllocateAt(m, same, k, depth + 1, r, pi + [b], pd + [b], n, cut);
    }
  }

  /** What the near side leaves over goes to the far side: to all of it, or to the closest in it. */
  method AllocateRest<P(==, !new), V(!new)>(items: Trie<V>, dests: Trie<P>, k: nat, depth: nat, b: bool,
                                            r: Batches<P, V>, ghost pi: Key, ghost pd: Key, ghost n: nat,
                                            ghost cut: nat) returns (r': Batches<P, V>)
    requires |pd| == depth && |pi| == depth + 1
    requires WF(items, pi) && AtLeast(items, n) && WF(Relative(dests, cut), pd + [b])
    requires Uniform(Relative(dests, cut), n)
    ensures forall p, v :: Given(r', p, v) == Given(r, p, v) + Due(items, Relative(dests, cut), k, p, v)
    decreases dests, 2
  {
    ghost var rel := Relative(dests, cut);
    RelativeIsAlike(dests, cut, 0);
    if Size(dests) <= k {
      forall p, v ensures Due(items, rel, k, p, v) == DueToAll(items, rel, p, v) {
        FewDestinations(items, rel, pd + [b], k, p, v);
      }
      r' := ShareAll(items, dests, r, pi, pd + [b], cut);
    } else {
      r' := AllocateAt(items, dests, k, depth + 1, r, pi, pd + [b], n, cut);
    }
  }

  /** Both tries are walked in step; `pi` and `pd` are the paths of their roots, which may differ. */
  method AllocateAt<P(==, !new), V(!new)>(items: Trie<V>, dests: Trie<P>, k: nat, depth: nat, r: Batches<P, V>,
                              ghost pi: Key, ghost pd: Key, ghost n: nat, ghost cut: nat) returns (r': Batches<P, V>)
    requires |pi| == |pd| == depth
    requires WF(items, pi) && AtLeast(items, n) && WF(Relative(dests, cut), pd) && Uniform(Relative(dests, cut), n)
    ensures forall p, v :: Given(r', p, v) == Given(r, p, v) + Due(items, Relative(dests, cut), k, p, v)
    decreases dests, 1
  {
    ghost var rel := Relative(dests, cut);
    if k == 0 || dests.Empty? {
      forall p, v ensures Due(items, rel, k, p, v) == 0 { DueToNone(items, rel, k, p, v); }
      return r;
    }
    if dests.Leaf? {
      forall p, v ensures Due(items, rel, k, p, v) == DueToAll(items, rel, p, v) {
        FewDestinations(items, rel, pd, k, p, v);
      }
      r' := ShareAll(items, dests, r, pi, pd, cut);
      return;
    }
    KeysUnderPath(rel, pd);
    ghost var d := NonEmptyHasKey(rel, pd);
    assert depth < |d| == n;
    forall p, v ensures
      Due(items, rel, k, p, v) ==
        Due(MatchingItems(items, depth, false), rel, k, p, v) + Due(MatchingItems(items, depth, true), rel, k, p, v)
    {
      DueBySides(items, rel, pi, k, n, p, v);
    }
    r' := AllocateSide(items, dests, k, depth, false, r, pi, pd, n, cut);
    r' := AllocateSide(items, dests, k, depth, true, r', pi, pd, n, cut);
  }

  lemma {:induction false} RelativeToRoot<D>(t: Trie<D>)
    ensures Relative(t, 0) == t
  {
    if !t.Node? {
    } else {
      RelativeToRoot(t.left);
      RelativeToRoot(t.right);
    }
  }

  /** Every pair of an item and a destination is served once if fewer than `k` destinations are strictly closer to
      the item, and not at all otherwise; nothing else is handed out. This is so for destinations that start at the
      root. Destinations cut out of a larger trie below `path` are served as if their keys began there. */
  method AllocateToKClosest<P(==, !new), V(!new)>(items: Trie<V>, dests: Trie<P>, k: nat, ghost path: Key, ghost n: nat)
    returns (r: Batches<P, V>)
    requires WF(items, []) && Uniform(items, n) && WF(dests, path) && Uniform(dests, n)
    ensures forall p, v :: Given(r, p, v) == Due(items, Relative(dests, |path|), k, p, v)
    ensures path == [] ==> forall p, v :: Given(r, p, v) == Due(items, dests, k, p, v)
    ensures path == [] && Distinct(items) && Distinct(dests) ==>
      forall i, d :: i in Content(items) && d in Content(dests) ==>
      Given(r, Content(dests)[d], Content(items)[i]) == if |Closer(dests, i, d)| < k then 1 else 0
  {
    r := map[];
    ghost var rel := Relative(dests, |path|);
    if !dests.Empty? && !items.Empty? && k != 0 {
      RelativeSpec(dests, path, n);
      r := AllocateAt(items, dests, k, 0, r, [], [], n - |path|, |path|);
    } else {
      forall p, v ensures Due(items, rel, k, p, v) == 0 { DueToNone(items, rel, k, p, v); }
    }
    RelativeToRoot(dests);
    if Distinct(items) && Distinct(dests) {
      forall i, d | i in Content(items) && d in Content(dests)
        ensures Due(items, dests, k, Content(dests)[d], Content(items)[i]) == if |Closer(dests, i, d)| < k then 1 else 0
      {
        DueOnce(items, dests, k, i, d);
      }
    }
  }
}
