/** The keyspace covered by a trie of prefixes: coalescing it to its minimal form and subtracting it. */
module Coverage {
  import opened Keys
  import opened Tries
  import opened NextLeaf

  /** Every identifier of `n` bits that starts with `p` has a prefix in `t`. */
  ghost predicate FullyCovered<D>(t: Trie<D>, p: Key, n: nat) {
    forall f :: |f| == n && p <= f ==> HasPrefixOf(t, f)
  }

  /** An identifier of `n` bits under `p`, extended with zeros. */
  function Pad(p: Key, n: nat): (f: Key)
    requires |p| <= n
    ensures |f| == n && p <= f
  {
    p + seq(n - |p|, _ => false)
  }

  /** A prefix not under `k` contains an identifier outside `k`. */
  lemma EscapesKey(p: Key, k: Key, n: nat) returns (f: Key)
    requires |p| <= n && |k| <= n && !(k <= p)
    ensures |f| == n && p <= f && !(k <= f)
  {
    f := Pad(p, n);
    if k <= f {
      PrefixesOfOneKey(p, k, f);
      StepPath(p, k[|p|], k);
      f := Pad(p + [!k[|p|]], n);
      StepPath(p, !k[|p|], f);
      assert f[..|p|] == p;
    }
  }

  lemma LeafCoverage<D>(t: Trie<D>, p: Key, n: nat)
    requires t.Leaf? && |t.key| <= n && |p| <= n
    ensures FullyCovered(t, p, n) <==> t.key <= p
  {
    assert t.key in Content(t);
    if !(t.key <= p) { var f := EscapesKey(p, t.key, n); assert !HasPrefixOf(t, f); }
  }

  /** Below a node, coverage of a prefix is coverage by the branch it lies in. */
  lemma BranchCoverage<D>(t: Trie<D>, path: Key, b: bool, p: Key, n: nat)
    requires t.Node? && WF(t, path) && path + [b] <= p
    ensures HasPrefixOf(t, p) <==> HasPrefixOf(Branch(t, b), p)
    ensures FullyCovered(t, p, n) <==> FullyCovered(Branch(t, b), p, n)
  {
    BranchKeys(t, path, b);
    KeysUnderPath(t, path);
    forall f | path + [b] <= f ensures HasPrefixOf(t, f) <==> HasPrefixOf(Branch(t, b), f) {
      StepPath(path, b, f);
      forall k | k in Content(t) && k <= f ensures k in Content(Branch(t, b)) { StepPath(path, b, k); }
    }
  }

  lemma NodeCoverage<D>(t: Trie<D>, path: Key, n: nat)
    requires t.Node? && WF(t, path) && Short(t, n)
    ensures |path| < n
    ensures FullyCovered(t, path, n) <==>
            FullyCovered(t.left, path + [false], n) && FullyCovered(t.right, path + [true], n)
  {
    KeysUnderPath(t, path);
    var k := NonEmptyHasKey(t, path);
    BranchCoverage(t, path, false, path + [false], n);
    BranchCoverage(t, path, true, path + [true], n);
    assert path <= path + [false] && path <= path + [true];
    forall f | |f| == n && path <= f ensures path + [false] <= f || path + [true] <= f {
      StepPath(path, f[|path|], f);
    }
  }

  // ---------------------------------------------------------------- coalescing

  /** Merging sibling keys into their parent, bottom up. `zero` is the data of a merged key. */
  function CoalesceTrie<D>(t: Trie<D>, zero: D): Trie<D> {
    if !t.Node? then t
    else
      var l, r := CoalesceTrie(t.left, zero), CoalesceTrie(t.right, zero);
      if l.Leaf? && r.Leaf? && |l.key| > 0 && |l.key| == |r.key| && CommonPrefixLength(l.key, r.key) == |l.key| - 1
      then Leaf(l.key[..|l.key| - 1], zero)
      else Node(l, r)
  }

  /** A branch pair is merged exactly if each branch has become the leaf of its own path. */
  lemma MergeAtNode<D>(l: Trie<D>, r: Trie<D>, path: Key)
    requires l.Leaf? && r.Leaf? && path + [false] <= l.key && path + [true] <= r.key
    ensures |l.key| == |r.key| && CommonPrefixLength(l.key, r.key) == |l.key| - 1 <==>
            l.key == path + [false] && r.key == path + [true]
    ensures l.key[..|path|] == path
  {
    BeforeAtFork([], path, l.key, r.key, false);
  }

  /** A subtrie collapses to the single leaf of its own path exactly if it covers that path. */
  lemma {:induction false} CoalesceShape<D>(t: Trie<D>, zero: D, path: Key, n: nat)
    requires WF(t, path) && Short(t, n) && |path| <= n
    ensures WF(CoalesceTrie(t, zero), path) && Short(CoalesceTrie(t, zero), n)
    ensures CoalesceTrie(t, zero).Empty? <==> t.Empty?
    ensures FullyCovered(t, path, n) <==> CoalesceTrie(t, zero).Leaf? && CoalesceTrie(t, zero).key == path
  {
    if t.Empty? {
      assert !HasPrefixOf(t, Pad(path, n));
    } else if t.Leaf? {
      LeafCoverage(t, path, n);
    } else {
      NodeCoverage(t, path, n);
      BranchKeys(t, path, false);
      BranchKeys(t, path, true);
      CoalesceShape(t.left, zero, path + [false], n);
      CoalesceShape(t.right, zero, path + [true], n);
      var l, r := CoalesceTrie(t.left, zero), CoalesceTrie(t.right, zero);
      if l.Leaf? && r.Leaf? {
        MergeAtNode(l, r, path);
        assert (path + [false])[..|path|] == path;
      }
    }
  }

  /** The central law: after coalescing, a prefix is covered by a single stored prefix exactly if it was
      covered by the stored prefixes jointly. */
  lemma {:induction false} CoalesceSpec<D>(t: Trie<D>, zero: D, path: Key, p: Key, n: nat)
    requires WF(t, path) && Short(t, n) && path <= p && |p| <= n
    ensures HasPrefixOf(CoalesceTrie(t, zero), p) <==> FullyCovered(t, p, n)
  {
    var c := CoalesceTrie(t, zero);
    CoalesceShape(t, zero, path, n);
    if FullyCovered(t, path, n) {
      assert c.key in Content(c);
    } else if t.Empty? {
      assert !HasPrefixOf(t, Pad(p, n));
    } else if t.Leaf? {
      LeafCoverage(t, p, n);
      assert t.key in Content(t);
    } else {
      NodeCoverage(t, path, n);
      assert c.Node? by { CoalescedNode(t, zero, path, n); }
      if p == path {
        KeysUnderPath(c, path);
      } else {
        var b := p[|path|];
        StepPath(path, b, p);
        BranchKeys(t, path, b);
        CoalesceSpec(Branch(t, b), zero, path + [b], p, n);
        BranchCoverage(t, path, b, p, n);
        BranchCoverage(c, path, b, p, n);
      }
    }
  }

  lemma CoalescedNode<D>(t: Trie<D>, zero: D, path: Key, n: nat)
    requires t.Node? && WF(t, path) && Short(t, n) && |path| <= n && !FullyCovered(t, path, n)
    ensures CoalesceTrie(t, zero) == Node(CoalesceTrie(t.left, zero), CoalesceTrie(t.right, zero))
  {
    CoalesceShape(t, zero, path, n);
    NodeCoverage(t, path, n);
    BranchKeys(t, path, false);
    BranchKeys(t, path, true);
    CoalesceShape(t.left, zero, path + [false], n);
    CoalesceShape(t.right, zero, path + [true], n);
    var l, r := CoalesceTrie(t.left, zero), CoalesceTrie(t.right, zero);
    if l.Leaf? && r.Leaf? { MergeAtNode(l, r, path); }
  }

  /** Coalescing keeps the covered keyspace, identifier by identifier. */
  lemma CoalesceKeepsCoverage<D>(t: Trie<D>, zero: D, f: Key, n: nat)
    requires WF(t, []) && Short(t, n) && |f| == n
    ensures HasPrefixOf(CoalesceTrie(t, zero), f) <==> HasPrefixOf(t, f)
  {
    CoalesceSpec(t, zero, [], f, n);
    assert forall g :: |g| == n && f <= g ==> g == f;
    assert f <= f;
  }

  // ---------------------------------------------------------------- minimality

  /** `S` covers exactly the identifiers of `n` bits that `t` covers. */
  ghost predicate SameCoverage<D>(t: Trie<D>, S: set<Key>, n: nat) {
    && (forall s :: s in S ==> |s| <= n)
    && (forall f :: |f| == n ==> (HasPrefixOf(t, f) <==> exists s :: s in S && s <= f))
  }

  /** Every coalesced key holds at least one prefix of any other cover. */
  lemma Representative<D>(t: Trie<D>, zero: D, S: set<Key>, k: Key, f: Key, n: nat) returns (s: Key)
    requires WF(t, []) && Short(t, n) && SameCoverage(t, S, n)
    requires k in Content(CoalesceTrie(t, zero)) && k <= f && |f| == n
    ensures s in S && k <= s && s <= f
  {
    var c := CoalesceTrie(t, zero);
    CoalesceShape(t, zero, [], n);
    assert HasPrefixOf(c, f);
    CoalesceKeepsCoverage(t, zero, f, n);
    s :| s in S && s <= f;
    PrefixesOfOneKey(s, k, f);
    assert FullyCovered(t, s, n);
    CoalesceSpec(t, zero, [], s, n);
    var k' :| k' in Content(c) && k' <= s;
    if k' != k { PrefixesOfOneKey(k', k, f); KeysDoNotOverlap(c, [], k', k); }
  }

  ghost function Beneath(S: set<Key>, k: Key): set<Key> {
    set s | s in S && k <= s
  }

  ghost predicate Represented(ks: set<Key>, S: set<Key>) {
    && (forall a, b :: a in ks && b in ks && a != b ==> !Comparable(a, b))
    && (forall k :: k in ks ==> Beneath(S, k) != {})
  }

  /** Pairwise unrelated keys, each with a member of `S` below it, are at most as many as `S`. */
  lemma {:induction false} CountByRepresentatives(ks: set<Key>, S: set<Key>)
    requires Represented(ks, S)
    ensures |ks| <= |S|
    ensures |ks| == |S| ==> forall s :: s in S ==> exists k :: k in ks && Beneath(S, k) == {s}
  {
    if ks != {} {
      var k :| k in ks;
      var u := Beneath(S, k);
      var ks', S' := ks - {k}, S - u;
      forall a | a in ks' ensures Beneath(S', a) == Beneath(S, a) {
        forall s | s in S && a <= s ensures s !in u {
          if k <= s { PrefixesOfOneKey(a, k, s); }
        }
      }
      CountByRepresentatives(ks', S');
      assert |S'| == |S| - |u|;
      if |ks| == |S| {
        assert |u| == 1;
        var s0 :| s0 in u;
        SingletonIs(u, s0);
        forall s | s in S ensures exists k :: k in ks && Beneath(S, k) == {s} {
          if s in S' {
            var a :| a in ks' && Beneath(S', a) == {s};
            assert Beneath(S, a) == {s};
          } else {
            assert Beneath(S, k) == {s};
          }
        }
      }
    } else {
      assert |S| == 0 ==> S == {};
    }
  }

  lemma SingletonIs(u: set<Key>, s: Key)
    requires |u| == 1 && s in u
    ensures u == {s}
  {
    assert |u - {s}| == 0;
  }

  /** If `s` is the only member of the cover under a coalesced key, it is that key. */
  lemma LoneRepresentative<D>(t: Trie<D>, zero: D, S: set<Key>, k: Key, s: Key, n: nat)
    requires WF(t, []) && Short(t, n) && SameCoverage(t, S, n)
    requires k in Content(CoalesceTrie(t, zero)) && Beneath(S, k) == {s}
    ensures s == k
  {
    CoalesceShape(t, zero, [], n);
    assert s in Beneath(S, k);
    if !(s <= k) {
      var f := EscapesKey(k, s, n);
      var s' := Representative(t, zero, S, k, f, n);
      OnlyMember(S, k, s, s');
    }
  }

  lemma OnlyMember(S: set<Key>, k: Key, s: Key, x: Key)
    requires Beneath(S, k) == {s} && x in S && k <= x
    ensures x == s
  {
    assert x in Beneath(S, k);
  }

  lemma CoalescedIsRepresented<D>(t: Trie<D>, zero: D, S: set<Key>, n: nat)
    requires WF(t, []) && Short(t, n) && SameCoverage(t, S, n)
    ensures Represented(Content(CoalesceTrie(t, zero)).Keys, S)
  {
    var c := CoalesceTrie(t, zero);
    CoalesceShape(t, zero, [], n);
    forall a, b | a in Content(c) && b in Content(c) && a != b ensures !Comparable(a, b) {
      KeysDoNotOverlap(c, [], a, b);
    }
    forall k | k in Content(c) ensures Beneath(S, k) != {} {
      var s := Representative(t, zero, S, k, Pad(k, n), n);
      assert s in Beneath(S, k);
    }
  }

  /** The coalesced trie is the one smallest set of prefixes with its coverage. */
  lemma CoalesceIsUniqueMinimum<D>(t: Trie<D>, zero: D, S: set<Key>, n: nat)
    requires WF(t, []) && Short(t, n) && SameCoverage(t, S, n)
    ensures |Content(CoalesceTrie(t, zero)).Keys| <= |S|
    ensures |Content(CoalesceTrie(t, zero)).Keys| == |S| ==> Content(CoalesceTrie(t, zero)).Keys == S
  {
    var ks := Content(CoalesceTrie(t, zero)).Keys;
    CoalescedIsRepresented(t, zero, S, n);
    CountByRepresentatives(ks, S);
    if |ks| == |S| {
      forall s | s in S ensures s in ks { MemberIsCoalesced(t, zero, S, s, n); }
      SameSize(ks, S);
    }
  }

  lemma MemberIsCoalesced<D>(t: Trie<D>, zero: D, S: set<Key>, s: Key, n: nat)
    requires WF(t, []) && Short(t, n) && SameCoverage(t, S, n) && s in S
    requires exists k :: k in Content(CoalesceTrie(t, zero)).Keys && Beneath(S, k) == {s}
    ensures s in Content(CoalesceTrie(t, zero)).Keys
  {
    var k :| k in Content(CoalesceTrie(t, zero)).Keys && Beneath(S, k) == {s};
    LoneRepresentative(t, zero, S, k, s, n);
  }

  lemma SameSize(a: set<Key>, b: set<Key>)
    requires b <= a && |a| == |b|
    ensures a == b
  {
    assert |a - b| == |a| - |b|;
  }

  // ---------------------------------------------------------------- subtraction

  /** Adding all entries of `t` to `res`, in the order of a traversal. */
  function AddTrie<D>(res: Trie<D>, t: Trie<D>): Trie<D>
    decreases t
  {
    match t
    case Empty => res
    case Leaf(k, d) => Add(res, k, d)
    case Node(l, r) => AddTrie(AddTrie(res, l), r)
  }

  /** Adding to `res` the entries of `t0` that no prefix in `t1` covers. */
  function SubtractAt<D, E>(t0: Trie<D>, t1: Trie<E>, res: Trie<D>, depth: nat): Trie<D>
    decreases t0, t1
  {
    if t0.Empty? then res
    else if t1.Empty? then AddTrie(res, t0)
    else if t0.Leaf? && t1.Leaf? then (if t1.key <= t0.key then res else Add(res, t0.key, t0.data))
    else if t0.Leaf? then
      if |t0.key| <= depth then Add(res, t0.key, t0.data)
      else SubtractAt(t0, Branch(t1, t0.key[depth]), res, depth + 1)
    else if t1.Leaf? then
      if |t1.key| <= depth then res
      else SubtractAt(Branch(t0, t1.key[depth]), t1, AddTrie(res, Branch(t0, !t1.key[depth])), depth + 1)
    else SubtractAt(t0.right, t1.right, SubtractAt(t0.left, t1.left, res, depth + 1), depth + 1)
  }

  function SubtractTrie<D, E>(t0: Trie<D>, t1: Trie<E>): Trie<D> {
    SubtractAt(t0, t1, Empty, 0)
  }

  ghost predicate Apart<D>(m: map<Key, D>, n: map<Key, D>) {
    forall a, b :: a in m && b in n ==> !Comparable(a, b)
  }

  ghost function Kept<D, E>(m: map<Key, D>, t: Trie<E>): map<Key, D> {
    map k | k in m && !HasPrefixOf(t, k) :: m[k]
  }

  lemma AddFresh<D>(res: Trie<D>, k: Key, d: D)
    requires WF(res, []) && Apart(Content(res), map[k := d])
    ensures WF(Add(res, k, d), []) && Content(Add(res, k, d)) == Content(res) + map[k := d]
  {
    assert k in map[k := d];
    AddSpec(res, k, d);
  }

  lemma SiblingsApart<D>(t: Trie<D>, path: Key)
    requires t.Node? && WF(t, path)
    ensures Apart(Content(t.left), Content(t.right))
  {
    KeysUnderPath(t.left, path + [false]);
    KeysUnderPath(t.right, path + [true]);
    forall a, b | a in Content(t.left) && b in Content(t.right) ensures !Comparable(a, b) {
      BeforeAtFork([], path, a, b, false);
    }
  }

  lemma ApartCommutes<D>(m: map<Key, D>, n: map<Key, D>)
    requires Apart(m, n)
    ensures Apart(n, m) && m + n == n + m
  {
    assert forall a {:trigger a in m} :: a in m ==> Comparable(a, a);
  }

  lemma UnionAssociates<D>(m: map<Key, D>, n: map<Key, D>, o: map<Key, D>)
    ensures (m + n) + o == m + (n + o)
  {
  }

  lemma ApartUnion<D>(m: map<Key, D>, n: map<Key, D>, o: map<Key, D>)
    requires Apart(m, n + o) && Apart(n, o)
    ensures Apart(m, n) && Apart(m, o) && Apart(m + n, o)
    ensures (m + n) + o == m + (n + o)
  {
    assert forall k :: k in n ==> k in n + o;
    assert forall k :: k in o ==> k in n + o;
  }

  /** The two branches of a node are apart from each other and from whatever the node is apart from. */
  lemma BranchesApart<D>(t: Trie<D>, path: Key, m: map<Key, D>, b: bool)
    requires t.Node? && WF(t, path) && Apart(m, Content(t))
    ensures Apart(m, Content(Branch(t, b)))
    ensures Apart(m + Content(Branch(t, b)), Content(Branch(t, !b)))
    ensures Content(Branch(t, b)) + Content(Branch(t, !b)) == Content(t)
    ensures (m + Content(Branch(t, b))) + Content(Branch(t, !b)) == m + Content(t)
  {
    SiblingsApart(t, path);
    ApartCommutes(Content(t.left), Content(t.right));
    ApartUnion(m, Content(Branch(t, b)), Content(Branch(t, !b)));
  }

  lemma {:induction false} AddTrieSpec<D>(res: Trie<D>, t: Trie<D>, path: Key)
    requires WF(res, []) && WF(t, path) && Apart(Content(res), Content(t))
    ensures WF(AddTrie(res, t), []) && Content(AddTrie(res, t)) == Content(res) + Content(t)
    decreases t
  {
    if t.Leaf? {
      AddFresh(res, t.key, t.data);
    } else if t.Node? {
      BranchesApart(t, path, Content(res), false);
      AddTrieSpec(res, t.left, path + [false]);
      AddTrieSpec(AddTrie(res, t.left), t.right, path + [true]);
    }
  }

  lemma KeptUnion<D, E>(m: map<Key, D>, n: map<Key, D>, t: Trie<E>)
    ensures Kept(m + n, t) == Kept(m, t) + Kept(n, t)
  {
  }

  lemma KeptAll<D, E>(m: map<Key, D>, t: Trie<E>)
    requires forall k :: k in m ==> !HasPrefixOf(t, k)
    ensures Kept(m, t) == m
  {
  }

  lemma KeptNone<D, E>(m: map<Key, D>, t: Trie<E>)
    requires forall k :: k in m ==> HasPrefixOf(t, k)
    ensures Kept(m, t) == map[]
  {
  }

  lemma KeptApart<D, E>(m: map<Key, D>, l: map<Key, D>, r: map<Key, D>, t: Trie<E>)
    requires Apart(m + l, r)
    ensures Apart(m + Kept(l, t), r)
  {
    assert forall k :: k in m + Kept(l, t) ==> k in m + l;
  }

  /** Below a node of `t1` only the branch a key lies in can cover it. */
  lemma KeptBranch<D, E>(m: map<Key, D>, t1: Trie<E>, path: Key, b: bool)
    requires t1.Node? && WF(t1, path) && forall k :: k in m ==> path + [b] <= k
    ensures Kept(m, t1) == Kept(m, Branch(t1, b))
  {
    forall k | k in m ensures HasPrefixOf(t1, k) <==> HasPrefixOf(Branch(t1, b), k) {
      BranchCoverage(t1, path, b, k, 0);
    }
  }

  /** Subtraction keeps exactly the entries of `t0` without a prefix in `t1`. */
  lemma {:induction false} SubtractAtSpec<D, E>(t0: Trie<D>, t1: Trie<E>, res: Trie<D>, path: Key)
    requires WF(t0, path) && WF(t1, path) && WF(res, []) && Apart(Content(res), Content(t0))
    ensures WF(SubtractAt(t0, t1, res, |path|), [])
    ensures Content(SubtractAt(t0, t1, res, |path|)) == Content(res) + Kept(Content(t0), t1)
    decreases t0, t1
  {
    if t0.Empty? {
    } else if t1.Empty? {
      AddTrieSpec(res, t0, path);
      KeptAll(Content(t0), t1);
    } else if t0.Leaf? {
      SubtractFromLeaf(t0, t1, res, path);
    } else if t1.Leaf? {
      SubtractLeaf(t0, t1, res, path);
    } else {
      SubtractNodes(t0, t1, res, path);
    }
  }

  lemma {:induction false} SubtractFromLeaf<D, E>(t0: Trie<D>, t1: Trie<E>, res: Trie<D>, path: Key)
    requires t0.Leaf? && !t1.Empty?
    requires WF(t0, path) && WF(t1, path) && WF(res, []) && Apart(Content(res), Content(t0))
    ensures WF(SubtractAt(t0, t1, res, |path|), [])
    ensures Content(SubtractAt(t0, t1, res, |path|)) == Content(res) + Kept(Content(t0), t1)
    decreases t0, t1, 0
  {
    var m := Content(t0);
    AddFresh(res, t0.key, t0.data);
    if t1.Leaf? {
      assert t1.key in Content(t1);
      if t1.key <= t0.key { KeptNone(m, t1); } else { KeptAll(m, t1); }
    } else if |t0.key| <= |path| {
      KeysUnderPath(t1, path);
      KeptAll(m, t1);
    } else {
      var b := t0.key[|path|];
      StepPath(path, b, t0.key);
      BranchKeys(t1, path, b);
      KeptBranch(m, t1, path, b);
      SubtractAtSpec(t0, Branch(t1, b), res, path + [b]);
    }
  }

  lemma {:induction false} SubtractLeaf<D, E>(t0: Trie<D>, t1: Trie<E>, res: Trie<D>, path: Key)
    requires t0.Node? && t1.Leaf?
    requires WF(t0, path) && WF(t1, path) && WF(res, []) && Apart(Content(res), Content(t0))
    ensures WF(SubtractAt(t0, t1, res, |path|), [])
    ensures Content(SubtractAt(t0, t1, res, |path|)) == Content(res) + Kept(Content(t0), t1)
    decreases t0, t1, 0
  {
    if |t1.key| <= |path| {
      LeafCoversAll(t0, t1, path);
    } else {
      var b := t1.key[|path|];
      var x, y := Branch(t0, b), Branch(t0, !b);
      LeafMissesSibling(t0, t1, path, b, x, y);
      AddSibling(t0, res, path, b);
      SubtractAtSpec(x, t1, AddTrie(res, y), path + [b]);
      UnionAssociates(Content(res), Content(y), Kept(Content(x), t1));
    }
  }

  /** Adding one branch of a node leaves the result apart from the other branch. */
  lemma AddSibling<D>(t: Trie<D>, res: Trie<D>, path: Key, b: bool)
    requires t.Node? && WF(t, path) && WF(res, []) && Apart(Content(res), Content(t))
    ensures var r := AddTrie(res, Branch(t, !b));
      WF(r, []) && Content(r) == Content(res) + Content(Branch(t, !b)) && Apart(Content(r), Content(Branch(t, b)))
  {
    BranchesApart(t, path, Content(res), !b);
    AddTrieSpec(res, Branch(t, !b), path + [!b]);
  }

  lemma LeafCoversAll<D, E>(t0: Trie<D>, t1: Trie<E>, path: Key)
    requires t1.Leaf? && WF(t0, path) && WF(t1, path) && |t1.key| <= |path|
    ensures Kept(Content(t0), t1) == map[]
  {
    assert t1.key in Content(t1) && t1.key == path;
    KeysUnderPath(t0, path);
    KeptNone(Content(t0), t1);
  }

  /** A leaf of `t1` covers nothing in the branch it does not lie in. */
  lemma LeafMissesSibling<D, E>(t0: Trie<D>, t1: Trie<E>, path: Key, b: bool, x: Trie<D>, y: Trie<D>)
    requires t0.Node? && t1.Leaf? && WF(t0, path) && WF(t1, path)
    requires |path| < |t1.key| && b == t1.key[|path|] && x == Branch(t0, b) && y == Branch(t0, !b)
    ensures WF(t1, path + [b])
    ensures Kept(Content(t0), t1) == Content(y) + Kept(Content(x), t1)
  {
    StepPath(path, b, t1.key);
    KeysUnderPath(y, path + [!b]);
    forall k | k in Content(y) ensures !HasPrefixOf(t1, k) { BeforeAtFork([], path, t1.key, k, b); }
    KeptAll(Content(y), t1);
    SiblingsApart(t0, path);
    ApartCommutes(Content(t0.left), Content(t0.right));
    KeptUnion(Content(y), Content(x), t1);
  }

  lemma {:induction false} SubtractNodes<D, E>(t0: Trie<D>, t1: Trie<E>, res: Trie<D>, path: Key)
    requires t0.Node? && t1.Node?
    requires WF(t0, path) && WF(t1, path) && WF(res, []) && Apart(Content(res), Content(t0))
    ensures WF(SubtractAt(t0, t1, res, |path|), [])
    ensures Content(SubtractAt(t0, t1, res, |path|)) == Content(res) + Kept(Content(t0), t1)
    decreases t0, t1, 0
  {
    var m, l, r := Content(res), Content(t0.left), Content(t0.right);
    BranchesApart(t0, path, m, false);
    SubtractAtSpec(t0.left, t1.left, res, path + [false]);
    KeysUnderPath(t0.left, path + [false]);
    KeysUnderPath(t0.right, path + [true]);
    KeptBranch(l, t1, path, false);
    KeptBranch(r, t1, path, true);
    KeptApart(m, l, r, t1);
    SubtractAtSpec(t0.right, t1.right, SubtractAt(t0.left, t1.left, res, |path| + 1), path + [true]);
    KeptUnion(l, r, t1);
    UnionAssociates(m, Kept(l, t1), Kept(r, t1));
  }

  lemma SubtractSpec<D, E>(t0: Trie<D>, t1: Trie<E>)
    requires WF(t0, []) && WF(t1, [])
    ensures WF(SubtractTrie(t0, t1), [])
    ensures Content(SubtractTrie(t0, t1)) == Kept(Content(t0), t1)
  {
    SubtractAtSpec(t0, t1, Empty, []);
  }

  /** After coalescing, subtraction keeps a region exactly if the recent regions do not cover it jointly. */
  lemma SubtractCoalesced<D, E>(schedule: Trie<D>, recent: Trie<E>, zero: E, n: nat)
    requires WF(schedule, []) && WF(recent, []) && Short(schedule, n) && Short(recent, n)
    ensures var rest := SubtractTrie(schedule, CoalesceTrie(recent, zero));
      && WF(rest, [])
      && (forall k :: k in Content(rest) <==> k in Content(schedule) && !FullyCovered(recent, k, n))
      && (forall k :: k in Content(rest) ==> Content(rest)[k] == Content(schedule)[k])
  {
    CoalesceShape(recent, zero, [], n);
    SubtractSpec(schedule, CoalesceTrie(recent, zero));
    forall k | k in Content(schedule)
      ensures HasPrefixOf(CoalesceTrie(recent, zero), k) <==> FullyCovered(recent, k, n)
    {
      CoalesceSpec(recent, zero, [], k, n);
    }
  }
}
