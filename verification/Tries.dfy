/** Binary tries of bit-string keys, as used throughout the sweeping provider.

    A trie is a value here: where the source overwrites `*t`, the owner of the trie reassigns it.
    A leaf need not sit at its minimal depth: pruning leaves uncollapsed chains behind. */
module Tries {
  import opened Keys

  datatype Trie<D> = Empty | Leaf(key: Key, data: D) | Node(left: Trie<D>, right: Trie<D>)

  datatype Option<T> = None | Some(value: T)

  datatype Entry<D> = Entry(key: Key, data: D)

  function Branch<D>(t: Trie<D>, b: bool): Trie<D>
    requires t.Node?
  {
    if b then t.right else t.left
  }

  /** An inner node whose branch on bit `b` is `x` and whose other branch is `y`. */
  function Join<D>(b: bool, x: Trie<D>, y: Trie<D>): Trie<D> {
    if b then Node(y, x) else Node(x, y)
  }

  /** The key/value pairs stored in `t`. */
  function Content<D>(t: Trie<D>): map<Key, D> {
    match t
    case Empty => map[]
    case Leaf(k, d) => map[k := d]
    case Node(l, r) => Content(l) + Content(r)
  }

  /** The trie invariant for a trie rooted at `path`: every key extends the path to its leaf and no inner
      node is without a key below it. Keys of one trie then never overlap. */
  ghost predicate WF<D>(t: Trie<D>, path: Key) {
    match t
    case Empty => true
    case Leaf(k, _) => path <= k
    case Node(l, r) => WF(l, path + [false]) && WF(r, path + [true]) && !(l.Empty? && r.Empty?)
  }

  ghost predicate HasPrefixOf<D>(t: Trie<D>, k: Key) {
    exists p :: p in Content(t) && p <= k
  }

  ghost predicate HasExtensionOf<D>(t: Trie<D>, k: Key) {
    exists p :: p in Content(t) && k <= p
  }

  // ---------------------------------------------------------------- structure

  lemma {:induction false} KeysUnderPath<D>(t: Trie<D>, path: Key)
    requires WF(t, path)
    ensures forall k :: k in Content(t) ==> path <= k
    ensures t.Node? ==> forall k :: k in Content(t) ==> |path| < |k|
    ensures t.Empty? <==> Content(t) == map[]
  {
    if !t.Node? {
    } else {
      KeysUnderPath(t.left, path + [false]);
      KeysUnderPath(t.right, path + [true]);
      var k :| k in Content(if t.left.Empty? then t.right else t.left);
      assert k in Content(t);
      assert path <= path + [false] && path <= path + [true];
    }
    if t.Leaf? { assert t.key in Content(t); }
  }

  lemma BranchKeys<D>(t: Trie<D>, path: Key, b: bool)
    requires t.Node? && WF(t, path)
    ensures WF(Branch(t, b), path + [b])
    ensures forall k :: k in Content(Branch(t, b)) <==> k in Content(t) && path + [b] <= k
    ensures forall k :: k in Content(Branch(t, b)) ==> Content(t)[k] == Content(Branch(t, b))[k]
    ensures Content(Branch(t, b)).Keys !! Content(Branch(t, !b)).Keys
    ensures forall k :: k in Content(t) <==> k in Content(Branch(t, b)) || k in Content(Branch(t, !b))
  {
    KeysUnderPath(t.left, path + [false]);
    KeysUnderPath(t.right, path + [true]);
    forall k | k in Content(t)
      ensures path + [b] <= k <==> k !in Content(Branch(t, !b))
      ensures path + [b] <= k <==> k in Content(Branch(t, b))
    {
      StepPath(path, b, k);
      StepPath(path, !b, k);
    }
  }

  lemma StepPath(path: Key, b: bool, k: Key)
    ensures path + [b] <= k <==> path <= k && |path| < |k| && k[|path|] == b
    ensures path + [b] <= k ==> !(path + [!b] <= k)
  {
    if path + [b] <= k {
      assert k[..|path|] == (path + [b])[..|path|] == path;
      assert k[|path|] == (path + [b])[|path|];
    }
    if path <= k && |path| < |k| && k[|path|] == b {
      assert k[..|path| + 1] == k[..|path|] + [k[|path|]];
    }
  }

  /** Joining two tries rooted at the two children of `path`. */
  lemma JoinSpec<D>(b: bool, x: Trie<D>, y: Trie<D>, path: Key)
    requires WF(x, path + [b]) && WF(y, path + [!b]) && !(x.Empty? && y.Empty?)
    ensures WF(Join(b, x, y), path)
    ensures Content(Join(b, x, y)) == Content(x) + Content(y)
    ensures Content(x).Keys !! Content(y).Keys
  {
    BranchKeys(Join(b, x, y), path, b);
  }

  lemma NonEmptyHasKey<D>(t: Trie<D>, path: Key) returns (k: Key)
    requires WF(t, path) && !t.Empty?
    ensures k in Content(t) && path <= k
  {
    KeysUnderPath(t, path);
    k :| k in Content(t);
  }

  /** Keys stored in one trie never overlap. */
  lemma {:induction false} KeysDoNotOverlap<D>(t: Trie<D>, path: Key, a: Key, b: Key)
    requires WF(t, path) && a in Content(t) && b in Content(t) && a != b
    ensures !Comparable(a, b)
  {
    BranchKeys(t, path, false);
    BranchKeys(t, path, true);
    if a in Content(t.left) && b in Content(t.left) {
      KeysDoNotOverlap(t.left, path + [false], a, b);
    } else if a in Content(t.right) && b in Content(t.right) {
      KeysDoNotOverlap(t.right, path + [true], a, b);
    } else if a in Content(t.left) {
      BeforeAtFork([], path, a, b, false);
    } else {
      BeforeAtFork([], path, a, b, true);
    }
  }

  function Size<D>(t: Trie<D>): nat {
    match t
    case Empty => 0
    case Leaf(_, _) => 1
    case Node(l, r) => Size(l) + Size(r)
  }

  lemma {:induction false} SizeIsCount<D>(t: Trie<D>, path: Key)
    requires WF(t, path)
    ensures Size(t) == |Content(t)| == |Content(t).Keys|
  {
    if !t.Node? {
    } else {
      BranchKeys(t, path, false);
      SizeIsCount(t.left, path + [false]);
      SizeIsCount(t.right, path + [true]);
      assert Content(t).Keys == Content(t.left).Keys + Content(t.right).Keys;
    }
  }

  // ---------------------------------------------------------------- library operations

  lemma UnionUpdate<D>(m: map<Key, D>, n: map<Key, D>, k: Key, d: D)
    requires k !in n
    ensures m[k := d] + n == (m + n)[k := d]
  {
  }

  lemma UnionRemove<D>(m: map<Key, D>, n: map<Key, D>, k: Key)
    requires k !in n
    ensures (m - {k}) + n == (m + n) - {k}
  {
  }

  /** Adding at `depth`: an existing key keeps its value, a leaf is pushed down until the two keys part.
      The source indexes past the end of a key, and panics, where this gives up; `AddSpec` rules that out. */
  function AddAt<D>(t: Trie<D>, k: Key, d: D, depth: nat): Trie<D>
    decreases |k| - depth
  {
    match t
    case Empty => Leaf(k, d)
    case Leaf(k0, d0) =>
      if k0 == k || depth >= |k| || depth >= |k0| then t
      else if k0[depth] == k[depth] then Join(k[depth], AddAt(t, k, d, depth + 1), Empty)
      else Join(k[depth], Leaf(k, d), t)
    case Node(l, r) =>
      if depth >= |k| then t
      else Join(k[depth], AddAt(Branch(t, k[depth]), k, d, depth + 1), Branch(t, !k[depth]))
  }

  function Add<D>(t: Trie<D>, k: Key, d: D): Trie<D> {
    AddAt(t, k, d, 0)
  }

  /** No key of `t` other than `k` itself overlaps `k`. */
  ghost predicate Fits<D>(t: Trie<D>, k: Key) {
    forall p :: p in Content(t) ==> p == k || !Comparable(p, k)
  }

  lemma FitsBelow<D>(t: Trie<D>, k: Key, path: Key)
    requires t.Node? && WF(t, path) && path <= k && Fits(t, k)
    ensures |path| < |k| && path + [k[|path|]] <= k
    ensures Fits(Branch(t, k[|path|]), k)
    ensures k !in Content(Branch(t, !k[|path|]))
  {
    KeysUnderPath(t, path);
    var p := NonEmptyHasKey(t, path);
    assert p in Content(t);
    StepPath(path, k[|path|], k);
    BranchKeys(t, path, k[|path|]);
  }

  lemma {:induction false} AddAtSpec<D>(t: Trie<D>, k: Key, d: D, path: Key)
    requires WF(t, path) && path <= k && Fits(t, k)
    ensures WF(AddAt(t, k, d, |path|), path) && !AddAt(t, k, d, |path|).Empty?
    ensures k in Content(t) ==> AddAt(t, k, d, |path|) == t
    ensures k !in Content(t) ==> Content(AddAt(t, k, d, |path|)) == Content(t)[k := d]
    decreases |k| - |path|
  {
    if t.Leaf? && t.key != k {
      AddToLeaf(t, k, d, path);
    } else if t.Node? {
      FitsBelow(t, k, path);
      var b := k[|path|];
      var x, y := Branch(t, b), Branch(t, !b);
      AddAtSpec(x, k, d, path + [b]);
      JoinSpec(b, AddAt(x, k, d, |path| + 1), y, path);
      JoinSpec(b, x, y, path);
      UnionUpdate(Content(x), Content(y), k, d);
    }
  }

  lemma {:induction false} AddToLeaf<D>(t: Trie<D>, k: Key, d: D, path: Key)
    requires t.Leaf? && path <= t.key && path <= k && !Comparable(t.key, k)
    ensures WF(AddAt(t, k, d, |path|), path) && AddAt(t, k, d, |path|).Node?
    ensures Content(AddAt(t, k, d, |path|)) == Content(t)[k := d]
    decreases |k| - |path|
  {
    var n := |path|;
    UnrelatedIsLonger(t.key, k, path);
    if k[n] == t.key[n] {
      AddToLeaf(t, k, d, path + [k[n]]);
      ChainLink(k[n], AddAt(t, k, d, n + 1), path);
    } else {
      PartHere(t, k, d, path);
    }
  }

  lemma ChainLink<D>(b: bool, t: Trie<D>, path: Key)
    requires WF(t, path + [b]) && !t.Empty?
    ensures WF(Join(b, t, Empty), path) && Content(Join(b, t, Empty)) == Content(t)
  {
    JoinSpec(b, t, Empty, path);
  }

  /** The leaf and the new key part right below the path. */
  lemma PartHere<D>(t: Trie<D>, k: Key, d: D, path: Key)
    requires t.Leaf? && |path| < |k| && |path| < |t.key| && path + [k[|path|]] <= k && path + [t.key[|path|]] <= t.key
    requires k[|path|] != t.key[|path|]
    ensures WF(Join(k[|path|], Leaf(k, d), t), path)
    ensures Content(Join(k[|path|], Leaf(k, d), t)) == Content(t)[k := d]
  {
    JoinSpec(k[|path|], Leaf(k, d), t, path);
  }

  /** Two unrelated keys under a path both go on below it. */
  lemma UnrelatedIsLonger(a: Key, b: Key, path: Key)
    requires path <= a && path <= b && !Comparable(a, b)
    ensures |path| < |a| && |path| < |b| && path + [a[|path|]] <= a && path + [b[|path|]] <= b
  {
    assert a[..|path|] == path == b[..|path|] && a[..|a|] == a && b[..|b|] == b;
    StepPath(path, a[|path|], a);
    StepPath(path, b[|path|], b);
  }

  lemma AddSpec<D>(t: Trie<D>, k: Key, d: D)
    requires WF(t, []) && Fits(t, k)
    ensures WF(Add(t, k, d), []) && !Add(t, k, d).Empty?
    ensures k in Content(t) ==> Add(t, k, d) == t
    ensures k !in Content(t) ==> Content(Add(t, k, d)) == Content(t)[k := d]
  {
    AddAtSpec(t, k, d, []);
  }

  /** Removing a key; a node left with one leaf child takes that leaf's place. */
  function Remove<D>(t: Trie<D>, k: Key, depth: nat): Trie<D> {
    match t
    case Empty => Empty
    case Leaf(k0, _) => if k0 == k then Empty else t
    case Node(l, r) =>
      if depth >= |k| then t
      else Shrink(Join(k[depth], Remove(Branch(t, k[depth]), k, depth + 1), Branch(t, !k[depth])))
  }

  function Shrink<D>(t: Trie<D>): Trie<D>
    requires t.Node?
  {
    if t.left.Empty? && !t.right.Node? then t.right
    else if t.right.Empty? && t.left.Leaf? then t.left
    else t
  }

  lemma {:induction false} RemoveSpec<D>(t: Trie<D>, k: Key, path: Key)
    requires WF(t, path) && (path <= k || t.Empty?)
    ensures WF(Remove(t, k, |path|), path)
    ensures Content(Remove(t, k, |path|)) == Content(t) - {k}
  {
    KeysUnderPath(t, path);
    if t.Node? && |path| < |k| {
      StepPath(path, k[|path|], k);
      BranchKeys(t, path, k[|path|]);
      RemoveSpec(Branch(t, k[|path|]), k, path + [k[|path|]]);
      RemoveNode(t, k, path);
    }
  }

  lemma RemoveNode<D>(t: Trie<D>, k: Key, path: Key)
    requires t.Node? && WF(t, path) && |path| < |k| && path + [k[|path|]] <= k
    requires var x' := Remove(Branch(t, k[|path|]), k, |path| + 1);
      WF(x', path + [k[|path|]]) && Content(x') == Content(Branch(t, k[|path|])) - {k}
    ensures WF(Remove(t, k, |path|), path)
    ensures Content(Remove(t, k, |path|)) == Content(t) - {k}
  {
    var b := k[|path|];
    var x, y := Branch(t, b), Branch(t, !b);
    BranchKeys(t, path, b);
    JoinSpec(b, x, y, path);
    UnionRemove(Content(x), Content(y), k);
    ShrinkSpec(b, Remove(x, k, |path| + 1), y, path);
  }

  lemma ShrinkSpec<D>(b: bool, x: Trie<D>, y: Trie<D>, path: Key)
    requires WF(x, path + [b]) && WF(y, path + [!b])
    ensures WF(Shrink(Join(b, x, y)), path)
    ensures Content(Shrink(Join(b, x, y))) == Content(x) + Content(y)
  {
    assert path <= path + [b] && path <= path + [!b];
    if !(x.Empty? && y.Empty?) { JoinSpec(b, x, y, path); }
  }
}
