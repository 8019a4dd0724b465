/** Queries and pruning on prefix tries (the first part of the keyspace trie algebra). */
module TrieOps {
  import opened Keys
  import opened Sequences
  import opened Tries

  /** The entries of `m` under prefix `k`, and those outside it. */
  ghost function Under<D>(m: map<Key, D>, k: Key): map<Key, D> {
    map p | p in m && k <= p :: m[p]
  }

  ghost function NotUnder<D>(m: map<Key, D>, k: Key): map<Key, D> {
    map p | p in m && !(k <= p) :: m[p]
  }

  // ---------------------------------------------------------------- ordered traversal

  /** All keys of `t`, first the branch that agrees with `order`. */
  function AllKeys<D>(t: Trie<D>, order: Key, depth: nat): seq<Key> {
    match t
    case Empty => []
    case Leaf(k, _) => [k]
    case Node(l, r) =>
      AllKeys(Branch(t, Bit(order, depth)), order, depth + 1) + AllKeys(Branch(t, !Bit(order, depth)), order, depth + 1)
  }

  function AllValues<D>(t: Trie<D>, order: Key, depth: nat): seq<D> {
    match t
    case Empty => []
    case Leaf(_, d) => [d]
    case Node(l, r) =>
      AllValues(Branch(t, Bit(order, depth)), order, depth + 1) +
        AllValues(Branch(t, !Bit(order, depth)), order, depth + 1)
  }

  /** The traversal visits exactly the stored keys, each once, sorted around `order`. */
  lemma {:induction false} AllKeysSorted<D>(t: Trie<D>, order: Key, path: Key)
    requires WF(t, path)
    ensures forall k :: k in AllKeys(t, order, |path|) <==> k in Content(t)
    ensures Sorted(order, AllKeys(t, order, |path|))
  {
    if !t.Node? {
    } else {
      var b := Bit(order, |path|);
      BranchKeys(t, path, b);
      BranchKeys(t, path, !b);
      var near, far := AllKeys(Branch(t, b), order, |path| + 1), AllKeys(Branch(t, !b), order, |path| + 1);
      AllKeysSorted(Branch(t, b), order, path + [b]);
      AllKeysSorted(Branch(t, !b), order, path + [!b]);
      assert forall k :: k in near ==> path + [b] <= k;
      assert forall k :: k in far ==> path + [!b] <= k;
      SortedAtFork(order, path, near, far);
    }
  }

  /** Keys that go on with the bit of `order` come before those that do not. */
  lemma SortedAtFork(order: Key, path: Key, near: seq<Key>, far: seq<Key>)
    requires Sorted(order, near) && Sorted(order, far)
    requires forall k :: k in near ==> path + [Bit(order, |path|)] <= k
    requires forall k :: k in far ==> path + [!Bit(order, |path|)] <= k
    ensures Sorted(order, near + far)
  {
    forall i, j | 0 <= i < |near| && 0 <= j < |far| ensures Before(order, near[i], far[j]) {
      assert near[i] in near && far[j] in far;
      BeforeAtFork(order, path, near[i], far[j], Bit(order, |path|));
    }
    SortedJoin(order, near, far);
  }

  lemma {:induction false} AllKeysCount<D>(t: Trie<D>, order: Key, depth: nat)
    ensures |AllKeys(t, order, depth)| == Size(t)
  {
    if !t.Node? {
    } else {
      AllKeysCount(t.left, order, depth + 1);
      AllKeysCount(t.right, order, depth + 1);
    }
  }

  lemma SortedJoin(order: Key, near: seq<Key>, far: seq<Key>)
    requires Sorted(order, near) && Sorted(order, far)
    requires forall i, j :: 0 <= i < |near| && 0 <= j < |far| ==> Before(order, near[i], far[j])
    ensures Sorted(order, near + far)
  {
    var ks := near + far;
    forall i, j | 0 <= i < j < |ks| ensures Before(order, ks[i], ks[j]) {
      if j >= |near| && i < |near| { assert ks[i] == near[i] && ks[j] == far[j - |near|]; }
    }
  }

  /** A sorted list of keys has no repetition. */
  lemma SortedIsDistinct(order: Key, ks: seq<Key>, i: nat, j: nat)
    requires Sorted(order, ks) && i < |ks| && j < |ks| && ks[i] == ks[j]
    ensures i == j
  {
    BeforeIrreflexive(order, ks[i], ks[j]);
  }

  lemma {:induction false} AllValuesCount<D>(t: Trie<D>, order: Key, depth: nat)
    ensures |AllValues(t, order, depth)| == |AllKeys(t, order, depth)|
  {
    if !t.Node? {
    } else {
      AllValuesCount(t.left, order, depth + 1);
      AllValuesCount(t.right, order, depth + 1);
    }
  }

  lemma {:induction false} AllValuesAt<D>(t: Trie<D>, order: Key, path: Key, i: nat)
    requires WF(t, path) && i < |AllKeys(t, order, |path|)| == |AllValues(t, order, |path|)|
    ensures AllKeys(t, order, |path|)[i] in Content(t)
    ensures AllValues(t, order, |path|)[i] == Content(t)[AllKeys(t, order, |path|)[i]]
  {
    if !t.Node? {
    } else {
      var b := Bit(order, |path|);
      var near, far := Branch(t, b), Branch(t, !b);
      AllValuesCount(near, order, |path| + 1);
      AllValuesCount(far, order, |path| + 1);
      var n := |AllKeys(near, order, |path| + 1)|;
      if i < n {
        BranchKeys(t, path, b);
        AllValuesAt(near, order, path + [b], i);
      } else {
        BranchKeys(t, path, !b);
        AllValuesAt(far, order, path + [!b], i - n);
      }
    }
  }

  /** The traversal of the values lists the value of every key at the position of the key. */
  lemma AllValuesMatch<D>(t: Trie<D>, order: Key, path: Key)
    requires WF(t, path)
    ensures |AllValues(t, order, |path|)| == |AllKeys(t, order, |path|)|
    ensures forall i :: 0 <= i < |AllKeys(t, order, |path|)| ==>
      AllKeys(t, order, |path|)[i] in Content(t) &&
        AllValues(t, order, |path|)[i] == Content(t)[AllKeys(t, order, |path|)[i]]
  {
    AllValuesCount(t, order, |path|);
    forall i | 0 <= i < |AllKeys(t, order, |path|)|
      ensures AllKeys(t, order, |path|)[i] in Content(t)
      ensures AllValues(t, order, |path|)[i] == Content(t)[AllKeys(t, order, |path|)[i]]
    {
      AllValuesAt(t, order, path, i);
    }
  }

  /** Whatever the order and the depth it starts from, a traversal visits every stored key exactly once. */
  lemma {:induction false} AllKeysMembers<D>(t: Trie<D>, order: Key, depth: nat, path: Key)
    requires WF(t, path)
    ensures forall k :: k in AllKeys(t, order, depth) <==> k in Content(t)
    ensures NoRepeats(AllKeys(t, order, depth))
  {
    if !t.Node? {
    } else {
      var b := Bit(order, depth);
      BranchKeys(t, path, b);
      BranchKeys(t, path, !b);
      AllKeysMembers(Branch(t, b), order, depth + 1, path + [b]);
      AllKeysMembers(Branch(t, !b), order, depth + 1, path + [!b]);
      var near, far := AllKeys(Branch(t, b), order, depth + 1), AllKeys(Branch(t, !b), order, depth + 1);
      JoinedMembers(near, far);
    }
  }

  /** With an all-zero order a traversal does not depend on the depth it starts from. */
  lemma {:induction false} DepthIsIrrelevant<D>(t: Trie<D>, d: nat, e: nat)
    ensures AllKeys(t, [], d) == AllKeys(t, [], e)
    ensures AllValues(t, [], d) == AllValues(t, [], e)
  {
    if !t.Node? {
    } else {
      DepthIsIrrelevant(t.left, d + 1, e + 1);
      DepthIsIrrelevant(t.right, d + 1, e + 1);
    }
  }

  // ---------------------------------------------------------------- prefix queries

  /** The key of the leaf that `k` leads to, and whether that key is a prefix of `k`. */
  function FindPrefixOfKey<D>(t: Trie<D>, k: Key, depth: nat): (Key, bool) {
    match t
    case Empty => ([], false)
    case Leaf(p, _) => (p, CommonPrefixLength(p, k) == |p|)
    case Node(l, r) => if depth >= |k| then ([], false) else FindPrefixOfKey(Branch(t, k[depth]), k, depth + 1)
  }

  /** The key of the leaf that the way along `k` ends at, if it ends at a leaf. */
  function LeafTowards<D>(t: Trie<D>, k: Key, depth: nat): Option<Key> {
    match t
    case Empty => None
    case Leaf(p, _) => Some(p)
    case Node(_, _) => if depth >= |k| then None else LeafTowards(Branch(t, k[depth]), k, depth + 1)
  }

  /** A miss yields the empty key, as documented, exactly if the way along `k` does not end at a leaf; otherwise
      it yields the key of that leaf, which is not empty. */
  lemma {:induction false} MissYieldsEmptyKeyIff<D>(t: Trie<D>, k: Key, depth: nat)
    requires !FindPrefixOfKey(t, k, depth).1
    ensures FindPrefixOfKey(t, k, depth).0 == [] <==> LeafTowards(t, k, depth).None?
    ensures LeafTowards(t, k, depth).Some? ==> FindPrefixOfKey(t, k, depth).0 == LeafTowards(t, k, depth).value
  {
    if t.Node? && depth < |k| { MissYieldsEmptyKeyIff(Branch(t, k[depth]), k, depth + 1); }
  }

  /** A miss that does not yield the empty key. */
  lemma MissYieldsOtherKey()
    ensures FindPrefixOfKey(Leaf([true], ()), [false], 0) == ([true], false)
  {
    CommonPrefixLengthIs([true], [false], 0);
  }

  /** A stored prefix of `k` is found exactly if there is one, and it is the only one. */
  lemma {:induction false} FindPrefixOfKeySpec<D>(t: Trie<D>, k: Key, path: Key)
    requires WF(t, path) && path <= k
    ensures var (p, found) := FindPrefixOfKey(t, k, |path|);
      && (found <==> HasPrefixOf(t, k))
      && (found ==> p in Content(t) && p <= k && forall q :: q in Content(t) && q <= k ==> q == p)
  {
    KeysUnderPath(t, path);
    if t.Leaf? {
      var n := CommonPrefixLength(t.key, k);
      assert n == |t.key| ==> t.key == k[..n];
      if t.key <= k { CommonPrefixLengthIs(t.key, k, |t.key|); }
      assert t.key in Content(t);
    } else if t.Node? && |path| < |k| {
      var b := k[|path|];
      StepPath(path, b, k);
      BranchKeys(t, path, b);
      FindPrefixOfKeySpec(Branch(t, b), k, path + [b]);
      forall q | q in Content(t) && q <= k ensures q in Content(Branch(t, b)) {
        StepPath(path, b, q);
      }
    }
  }

  lemma FindPrefix<D>(t: Trie<D>, k: Key)
    requires WF(t, [])
    ensures var (p, found) := FindPrefixOfKey(t, k, 0);
      && (found <==> HasPrefixOf(t, k))
      && (found ==> p in Content(t) && p <= k && forall q :: q in Content(t) && q <= k ==> q == p)
  {
    FindPrefixOfKeySpec(t, k, []);
  }

  /** Below a node only the branch that `k` follows can hold keys under `k`. */
  lemma UnderBranch<D>(t: Trie<D>, path: Key, k: Key, b: bool, x: Trie<D>, y: Trie<D>)
    requires t.Node? && WF(t, path) && path <= k && |path| < |k|
    requires b == k[|path|] && x == Branch(t, b) && y == Branch(t, !b)
    ensures WF(x, path + [b]) && path + [b] <= k
    ensures forall p :: p in Content(y) ==> !(k <= p)
    ensures Under(Content(x), k) == Under(Content(t), k)
  {
    StepPath(path, b, k);
    JoinSpec(b, x, y, path);
    KeysUnderPath(y, path + [!b]);
    forall p | p in Content(y) ensures !(k <= p) {
      StepPath(path, !b, p);
    }
    UnderUnion(Content(x), Content(y), k);
  }

  lemma UnderUnion<D>(m: map<Key, D>, n: map<Key, D>, k: Key)
    requires forall p :: p in n ==> !(k <= p)
    ensures Under(m + n, k) == Under(m, k)
    ensures NotUnder(m + n, k) == NotUnder(m, k) + n
  {
  }

  lemma UnderOwnPath<D>(t: Trie<D>, path: Key)
    requires WF(t, path)
    ensures Under(Content(t), path) == Content(t)
    ensures t.Empty? <==> !HasExtensionOf(t, path)
  {
    KeysUnderPath(t, path);
    if !t.Empty? { var k := NonEmptyHasKey(t, path); }
  }

  lemma UnderLeaf<D>(t: Trie<D>, k: Key)
    requires t.Leaf?
    ensures CommonPrefixLength(t.key, k) == |k| <==> k <= t.key
    ensures Under(Content(t), k) == if k <= t.key then Content(t) else map[]
  {
    if k <= t.key {
      CommonPrefixLengthIs(t.key, k, |k|);
    } else {
      assert k[..|k|] == k;
    }
  }

  lemma UnderIsExtension<D>(t: Trie<D>, s: Trie<D>, k: Key)
    requires Under(Content(s), k) == Under(Content(t), k)
    ensures HasExtensionOf(t, k) <==> HasExtensionOf(s, k)
  {
    assert forall p :: p in Content(t) && k <= p <==> p in Under(Content(t), k);
    assert forall p :: p in Content(s) && k <= p <==> p in Under(Content(s), k);
  }

  /** The subtrie of everything under `k`, if there is anything. */
  method FindSubtrie<D>(t: Trie<D>, k: Key) returns (sub: Trie<D>, found: bool)
    requires WF(t, [])
    ensures found <==> HasExtensionOf(t, k)
    ensures found ==> WF(sub, k) && !sub.Empty? && Content(sub) == Under(Content(t), k)
  {
    sub, found := t, false;
    if t.Empty? { return; }
    var i := 0;
    assert k[..0] == [];
    while i < |k|
      invariant 0 <= i <= |k| && WF(sub, k[..i])
      invariant Under(Content(sub), k) == Under(Content(t), k)
    {
      UnderIsExtension(t, sub, k);
      if sub.Empty? { return t, false; }
      if sub.Leaf? {
        UnderLeaf(sub, k);
        assert sub.key in Content(sub);
        return sub, CommonPrefixLength(sub.key, k) == |k|;
      }
      UnderBranch(sub, k[..i], k, k[i], Branch(sub, k[i]), Branch(sub, !k[i]));
      assert k[..i + 1] == k[..i] + [k[i]];
      sub := Branch(sub, k[i]);
      i := i + 1;
    }
    assert k[..i] == k;
    UnderIsExtension(t, sub, k);
    UnderOwnPath(sub, k);
    found := !sub.Empty?;
  }

  // ---------------------------------------------------------------- pruning

  datatype Pruned<D> = Pruned(trie: Trie<D>, emptied: bool)

  /** Removing everything under `k`; a node is dropped once both its branches are empty, but a chain that
      leads to a single remaining leaf is kept. */
  function PruneAt<D>(t: Trie<D>, k: Key, depth: nat): Pruned<D> {
    match t
    case Empty => Pruned(t, false)
    case Leaf(p, _) => if k <= p then Pruned(Empty, true) else Pruned(t, false)
    case Node(l, r) =>
      if depth >= |k| then Pruned(Empty, true)
      else
        var x := PruneAt(Branch(t, k[depth]), k, depth + 1);
        if x.emptied && Branch(t, !k[depth]).Empty? then Pruned(Empty, true)
        else Pruned(Join(k[depth], x.trie, Branch(t, !k[depth])), false)
  }

  function PruneSubtrie<D>(t: Trie<D>, k: Key): Trie<D> {
    PruneAt(t, k, 0).trie
  }

  lemma {:induction false} PruneAtSpec<D>(t: Trie<D>, k: Key, path: Key)
    requires WF(t, path) && path <= k
    ensures WF(PruneAt(t, k, |path|).trie, path)
    ensures Content(PruneAt(t, k, |path|).trie) == NotUnder(Content(t), k)
    ensures PruneAt(t, k, |path|).emptied <==> !t.Empty? && PruneAt(t, k, |path|).trie.Empty?
  {
    if t.Node? && |path| < |k| {
      var b := k[|path|];
      PruneAtSpec(Branch(t, b), k, path + [b]);
      PruneBranch(t, k, path, PruneAt(Branch(t, b), k, |path| + 1).trie);
    } else {
      KeysUnderPath(t, path);
    }
  }

  /** Pruning the branch towards `k` prunes the node: the other branch has nothing under `k`. */
  lemma PruneBranch<D>(t: Trie<D>, k: Key, path: Key, pruned: Trie<D>)
    requires WF(t, path) && t.Node? && path <= k && |path| < |k|
    requires WF(pruned, path + [k[|path|]]) && Content(pruned) == NotUnder(Content(Branch(t, k[|path|])), k)
    ensures var y := Branch(t, !k[|path|]);
      if pruned.Empty? && y.Empty? then NotUnder(Content(t), k) == map[]
      else WF(Join(k[|path|], pruned, y), path) && Content(Join(k[|path|], pruned, y)) == NotUnder(Content(t), k)
  {
    var b := k[|path|];
    var x, y := Branch(t, b), Branch(t, !b);
    UnderBranch(t, path, k, b, x, y);
    JoinSpec(b, x, y, path);
    UnderUnion(Content(x), Content(y), k);
    if !(pruned.Empty? && y.Empty?) { JoinSpec(b, pruned, y, path); }
  }

  /** Pruning purges exactly the keys that start with `k`. */
  lemma PruneSpec<D>(t: Trie<D>, k: Key)
    requires WF(t, [])
    ensures WF(PruneSubtrie(t, k), [])
    ensures Content(PruneSubtrie(t, k)) == NotUnder(Content(t), k)
  {
    PruneAtSpec(t, k, []);
  }

  /** Replacing everything under `k` by `k` itself, which the source does wherever it merges regions. */
  lemma ReplaceSpec<D>(t: Trie<D>, k: Key, d: D)
    requires WF(t, []) && !HasPrefixOf(t, k)
    ensures WF(Add(PruneSubtrie(t, k), k, d), [])
    ensures Content(Add(PruneSubtrie(t, k), k, d)) == NotUnder(Content(t), k)[k := d]
    ensures PruneSubtrie(t, k).Empty? <==> Add(PruneSubtrie(t, k), k, d).Leaf?
  {
    PruneSpec(t, k);
    var p := PruneSubtrie(t, k);
    AddSpec(p, k, d);
    KeysUnderPath(p, []);
    if p.Leaf? { AddToLeaf(p, k, d, []); }
  }

  /** Such a replacement adds exactly the keyspace of `k` to what the trie covers. */
  lemma ReplaceCoverage<D>(t: Trie<D>, r: Trie<D>, k: Key, d: D, f: Key)
    requires Content(r) == NotUnder(Content(t), k)[k := d]
    ensures HasPrefixOf(r, f) <==> HasPrefixOf(t, f) || k <= f
  {
    assert k in Content(r);
    forall p | p in Content(t) && p <= f ensures HasPrefixOf(r, f) {
      if !(k <= p) { assert p in Content(r); }
    }
  }
}
