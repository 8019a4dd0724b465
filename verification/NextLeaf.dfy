/** The cyclic successor of a key in a trie, which drives the reprovide schedule. */
module NextLeaf {
  import opened Keys
  import opened Tries
  import opened TrieOps

  /** Going down towards `k`, then back up until a branch that follows in `order` can be taken.
      Only the root wraps around. The source panics where `k` is too short to pick a branch. */
  function NextAt<D>(t: Trie<D>, k: Key, order: Key, depth: nat, hitBottom: bool): Option<Entry<D>> {
    if hitBottom then
      match t
      case Empty => None
      case Leaf(p, d) => Some(Entry(p, d))
      case Node(_, _) =>
        var next := NextAt(Branch(t, Bit(order, depth)), k, order, depth + 1, true);
        if next.Some? then next else NextAt(Branch(t, !Bit(order, depth)), k, order, depth + 1, true)
    else
      match t
      case Empty => None
      case Leaf(p, d) =>
        var c := CommonPrefixLength(k, p);
        if depth == 0 || (c < |k| && c < |order| && Bit(order, c) == k[c]) then Some(Entry(p, d)) else None
      case Node(_, _) =>
        if depth >= |k| then None
        else
          var next := NextAt(Branch(t, k[depth]), k, order, depth + 1, false);
          if next.Some? then next
          else if k[depth] == Bit(order, depth) || depth == 0 then
            var neighbour := NextAt(Branch(t, !k[depth]), k, order, depth + 1, true);
            if neighbour.Some? then neighbour
            else if depth == 0 then NextAt(Branch(t, k[depth]), k, order, depth + 1, true)
            else None
          else None
  }

  function NextNonEmptyLeaf<D>(t: Trie<D>, k: Key, order: Key): Option<Entry<D>> {
    NextAt(t, k, order, 0, false)
  }

  // ---------------------------------------------------------------- reference definition

  /** The first key of a list that comes after `k` around `order`. */
  function FirstAfter(ks: seq<Key>, order: Key, k: Key): Option<Key> {
    if ks == [] then None
    else if Before(order, k, ks[0]) then Some(ks[0])
    else FirstAfter(ks[1..], order, k)
  }

  /** The next key in `order`, starting again from the first one past the end. */
  function CyclicSuccessor(ks: seq<Key>, order: Key, k: Key): Option<Key> {
    if ks == [] then None
    else if FirstAfter(ks, order, k).Some? then FirstAfter(ks, order, k)
    else Some(ks[0])
  }

  ghost function Found<D>(m: map<Key, D>, k: Option<Key>): Option<Entry<D>>
    requires k.Some? ==> k.value in m
  {
    if k.None? then None else Some(Entry(k.value, m[k.value]))
  }

  lemma {:induction false} FirstAfterJoin(a: seq<Key>, b: seq<Key>, order: Key, k: Key)
    ensures FirstAfter(a + b, order, k) ==
            if FirstAfter(a, order, k).Some? then FirstAfter(a, order, k) else FirstAfter(b, order, k)
  {
    if a == [] {
      assert a + b == b;
    } else {
      assert (a + b)[1..] == a[1..] + b;
      FirstAfterJoin(a[1..], b, order, k);
    }
  }

  lemma {:induction false} FirstAfterIsMember(ks: seq<Key>, order: Key, k: Key)
    ensures FirstAfter(ks, order, k).Some? ==> FirstAfter(ks, order, k).value in ks
    ensures (forall p :: p in ks ==> !Before(order, k, p)) ==> FirstAfter(ks, order, k).None?
    ensures ks != [] && (forall p :: p in ks ==> Before(order, k, p)) ==> FirstAfter(ks, order, k) == Some(ks[0])
  {
    if ks == [] {
    } else {
      FirstAfterIsMember(ks[1..], order, k);
      assert ks[0] in ks;
    }
  }

  // ---------------------------------------------------------------- correctness

  ghost predicate Short<D>(t: Trie<D>, n: nat) {
    forall p :: p in Content(t) ==> |p| <= n
  }

  lemma {:induction false} BottomIsFirst<D>(t: Trie<D>, k: Key, order: Key, path: Key)
    requires WF(t, path)
    ensures FindsFirst(t, k, order, |path|)
  {
    if !t.Node? {
    } else {
      var b := Bit(order, |path|);
      BranchKeys(t, path, b);
      BranchKeys(t, path, !b);
      BottomIsFirst(Branch(t, b), k, order, path + [b]);
      BottomIsFirst(Branch(t, !b), k, order, path + [!b]);
      FirstOfNode(t, k, order, path, b);
    }
  }

  /** Once it has hit the bottom, the search returns the first key of a subtrie. */
  ghost predicate FindsFirst<D>(t: Trie<D>, k: Key, order: Key, depth: nat) {
    var ks := AllKeys(t, order, depth);
    && (ks != [] ==> ks[0] in Content(t))
    && NextAt(t, k, order, depth, true) == Found(Content(t), if ks == [] then None else Some(ks[0]))
  }

  lemma FirstOfNode<D>(t: Trie<D>, k: Key, order: Key, path: Key, b: bool)
    requires t.Node? && WF(t, path) && b == Bit(order, |path|)
    requires FindsFirst(Branch(t, b), k, order, |path| + 1) && FindsFirst(Branch(t, !b), k, order, |path| + 1)
    ensures FindsFirst(t, k, order, |path|)
  {
    JoinHead(AllKeys(Branch(t, b), order, |path| + 1), AllKeys(Branch(t, !b), order, |path| + 1));
    BranchKeys(t, path, b);
    BranchKeys(t, path, !b);
  }

  /** Every key of the branch that `k` does not take is on the same side of `k`. */
  lemma NeighbourSide<D>(t: Trie<D>, k: Key, order: Key, path: Key, b: bool, y: Trie<D>)
    requires t.Node? && WF(t, path) && path + [b] <= k && y == Branch(t, !b)
    ensures var ks := AllKeys(y, order, |path| + 1);
      FirstAfter(ks, order, k) == if b == Bit(order, |path|) && ks != [] then Some(ks[0]) else None
  {
    BranchKeys(t, path, !b);
    var ks := AllKeys(y, order, |path| + 1);
    AllKeysSorted(y, order, path + [!b]);
    forall p | p in ks ensures Before(order, k, p) <==> b == Bit(order, |path|) {
      BeforeAtFork(order, path, k, p, b);
    }
    FirstAfterIsMember(ks, order, k);
  }

  /** The search in a subtrie below the root finds the next key of the subtrie, or nothing if there is none. */
  ghost predicate FindsNext<D>(t: Trie<D>, k: Key, order: Key, depth: nat) {
    var next := FirstAfter(AllKeys(t, order, depth), order, k);
    && (next.Some? ==> next.value in Content(t))
    && NextAt(t, k, order, depth, false) == Found(Content(t), next)
  }

  lemma {:induction false} InnerSpec<D>(t: Trie<D>, k: Key, order: Key, path: Key)
    requires WF(t, path) && path <= k && Fits(t, k) && Short(t, |order|) && path != []
    ensures FindsNext(t, k, order, |path|)
  {
    if t.Leaf? {
      InnerLeaf(t, k, order, path);
    } else if t.Node? {
      FitsBelow(t, k, path);
      BranchKeys(t, path, k[|path|]);
      InnerSpec(Branch(t, k[|path|]), k, order, path + [k[|path|]]);
      InnerNode(t, k, order, path);
    }
  }

  lemma InnerLeaf<D>(t: Trie<D>, k: Key, order: Key, path: Key)
    requires t.Leaf? && path <= k && Fits(t, k) && Short(t, |order|) && path != []
    ensures FindsNext(t, k, order, |path|)
  {
    assert t.key in Content(t);
    BeforeIrreflexive(order, k, t.key);
  }

  lemma InnerNode<D>(t: Trie<D>, k: Key, order: Key, path: Key)
    requires t.Node? && WF(t, path) && path != [] && |path| < |k| && path + [k[|path|]] <= k
    requires FindsNext(Branch(t, k[|path|]), k, order, |path| + 1)
    ensures FindsNext(t, k, order, |path|)
  {
    var b := k[|path|];
    NodeSteps(t, k, order, path);
    BranchKeys(t, path, b);
    BranchKeys(t, path, !b);
    BottomIsFirst(Branch(t, !b), k, order, path + [!b]);
  }

  /** At a node the order of the two branches decides which of them can hold the next key first. */
  lemma NodeSteps<D>(t: Trie<D>, k: Key, order: Key, path: Key)
    requires t.Node? && WF(t, path) && |path| < |k| && path + [k[|path|]] <= k
    ensures var b := k[|path|];
      var own := FirstAfter(AllKeys(Branch(t, b), order, |path| + 1), order, k);
      var other := AllKeys(Branch(t, !b), order, |path| + 1);
      FirstAfter(AllKeys(t, order, |path|), order, k) ==
        if own.Some? then own else if b == Bit(order, |path|) && other != [] then Some(other[0]) else None
  {
    var b := k[|path|];
    NeighbourSide(t, k, order, path, b, Branch(t, !b));
    var own, other := AllKeys(Branch(t, b), order, |path| + 1), AllKeys(Branch(t, !b), order, |path| + 1);
    FirstAfterJoin(own, other, order, k);
    FirstAfterJoin(other, own, order, k);
  }

  lemma JoinHead(a: seq<Key>, b: seq<Key>)
    ensures a + b != [] ==> (a + b)[0] == if a != [] then a[0] else b[0]
  {
  }

  /** At the root a failed search goes on with the other branch, and then with the own branch from its start. */
  lemma RootSteps<D>(t: Trie<D>, k: Key, order: Key, own: seq<Key>, other: seq<Key>)
    requires t.Node? && WF(t, []) && 0 < |k| && [k[0]] <= k
    requires own == AllKeys(Branch(t, k[0]), order, 1) && other == AllKeys(Branch(t, !k[0]), order, 1)
    requires own + other != []
    ensures CyclicSuccessor(AllKeys(t, order, 0), order, k) ==
      if FirstAfter(own, order, k).Some? then FirstAfter(own, order, k)
      else if other != [] then Some(other[0]) else Some(own[0])
  {
    assert [] + [k[0]] == [k[0]];
    NodeSteps(t, k, order, []);
    JoinHead(own, other);
    JoinHead(other, own);
  }

  lemma NextAtRoot<D>(t: Trie<D>, k: Key, order: Key, own: seq<Key>, other: seq<Key>)
    requires t.Node? && WF(t, []) && Short(t, |order|) && Fits(t, k) && 0 < |k|
    requires own == AllKeys(Branch(t, k[0]), order, 1) && other == AllKeys(Branch(t, !k[0]), order, 1)
    ensures own + other != []
    ensures var next := if FirstAfter(own, order, k).Some? then FirstAfter(own, order, k)
                        else if other != [] then Some(other[0]) else Some(own[0]);
      next.value in Content(t) && NextNonEmptyLeaf(t, k, order) == Some(Entry(next.value, Content(t)[next.value]))
  {
    var b := k[0];
    FitsBelow(t, k, []);
    assert [] + [b] == [b] && [] + [!b] == [!b];
    BranchKeys(t, [], b);
    BranchKeys(t, [], !b);
    InnerSpec(Branch(t, b), k, order, [b]);
    BottomIsFirst(Branch(t, !b), k, order, [!b]);
    BottomIsFirst(Branch(t, b), k, order, [b]);
    AllKeysSorted(t, order, []);
    var p := NonEmptyHasKey(t, []);
    assert p in AllKeys(t, order, 0);
  }

  /** On any trie the search returns the cyclic successor of `k` around `order`. */
  lemma NextIsCyclicSuccessor<D>(t: Trie<D>, k: Key, order: Key)
    requires WF(t, []) && Fits(t, k) && Short(t, |order|)
    ensures var next := CyclicSuccessor(AllKeys(t, order, 0), order, k);
      && (next.Some? ==> next.value in Content(t))
      && NextNonEmptyLeaf(t, k, order) == Found(Content(t), next)
  {
    if t.Leaf? {
      assert AllKeys(t, order, 0) == [t.key];
      FirstAfterIsMember([t.key], order, k);
    } else if t.Node? {
      FitsBelow(t, k, []);
      var own, other := AllKeys(Branch(t, k[0]), order, 1), AllKeys(Branch(t, !k[0]), order, 1);
      NextAtRoot(t, k, order, own, other);
      RootSteps(t, k, order, own, other);
    }
  }

  // ---------------------------------------------------------------- a full turn

  lemma {:induction false} FirstAfterAt(ks: seq<Key>, order: Key, i: nat)
    requires Sorted(order, ks) && i < |ks|
    ensures FirstAfter(ks, order, ks[i]) == if i + 1 < |ks| then Some(ks[i + 1]) else None
  {
    var a, b := ks[..i + 1], ks[i + 1..];
    assert ks == a + b;
    FirstAfterJoin(a, b, order, ks[i]);
    forall p | p in a ensures !Before(order, ks[i], p) {
      var j :| 0 <= j < |a| && a[j] == p;
      assert p == ks[j];
      BeforeIrreflexive(order, ks[j], ks[i]);
      BeforeIrreflexive(order, ks[i], ks[i]);
    }
    FirstAfterIsMember(a, order, ks[i]);
    forall p | p in b ensures Before(order, ks[i], p) {
      var j :| 0 <= j < |b| && b[j] == p;
      assert p == ks[i + 1 + j];
    }
    FirstAfterIsMember(b, order, ks[i]);
  }

  lemma StoredKeyFits<D>(t: Trie<D>, k: Key)
    requires WF(t, []) && k in Content(t)
    ensures Fits(t, k)
  {
    forall p | p in Content(t) ensures p == k || !Comparable(p, k) {
      if p != k { KeysDoNotOverlap(t, [], p, k); }
    }
  }

  /** From the i-th stored key the search moves to the (i+1)-th, and from the last one to the first. */
  lemma NextOfStored<D>(t: Trie<D>, order: Key, i: nat)
    requires WF(t, []) && Short(t, |order|) && i < |AllKeys(t, order, 0)|
    ensures var ks := AllKeys(t, order, 0);
      var j := if i + 1 < |ks| then i + 1 else 0;
      ks[j] in Content(t) && NextNonEmptyLeaf(t, ks[i], order) == Some(Entry(ks[j], Content(t)[ks[j]]))
  {
    var ks := AllKeys(t, order, 0);
    AllKeysSorted(t, order, []);
    assert ks[i] in ks;
    StoredKeyFits(t, ks[i]);
    NextIsCyclicSuccessor(t, ks[i], order);
    FirstAfterAt(ks, order, i);
  }

  /** The keys visited by `n` successive calls, starting after `k`. */
  function Walk<D>(t: Trie<D>, k: Key, order: Key, n: nat): seq<Key>
    decreases n
  {
    if n == 0 then []
    else
      var next := NextNonEmptyLeaf(t, k, order);
      if next.None? then [] else [next.value.key] + Walk(t, next.value.key, order, n - 1)
  }

  lemma {:induction false} WalkToEnd<D>(t: Trie<D>, order: Key, i: nat, n: nat)
    requires WF(t, []) && Short(t, |order|) && i < |AllKeys(t, order, 0)| && i + n < |AllKeys(t, order, 0)|
    ensures Walk(t, AllKeys(t, order, 0)[i], order, n) == AllKeys(t, order, 0)[i + 1..i + 1 + n]
    decreases n
  {
    if n == 0 {
    } else {
      NextOfStored(t, order, i);
      WalkToEnd(t, order, i + 1, n - 1);
    }
  }

  lemma {:induction false} WalkJoin<D>(t: Trie<D>, k: Key, order: Key, m: nat, n: nat, last: Key)
    requires |Walk(t, k, order, m)| == m && last == if m == 0 then k else Walk(t, k, order, m)[m - 1]
    ensures Walk(t, k, order, m + n) == Walk(t, k, order, m) + Walk(t, last, order, n)
    decreases m
  {
    if m == 0 {
    } else {
      var next := NextNonEmptyLeaf(t, k, order).value.key;
      assert Walk(t, k, order, m)[1..] == Walk(t, next, order, m - 1);
      WalkJoin(t, next, order, m - 1, n, last);
    }
  }

  lemma WalkFromLast<D>(t: Trie<D>, order: Key, n: nat)
    requires WF(t, []) && Short(t, |order|) && n < |AllKeys(t, order, 0)|
    ensures Walk(t, AllKeys(t, order, 0)[|AllKeys(t, order, 0)| - 1], order, n + 1) == AllKeys(t, order, 0)[..n + 1]
  {
    var ks := AllKeys(t, order, 0);
    NextOfStored(t, order, |ks| - 1);
    WalkToEnd(t, order, 0, n);
    assert [ks[0]] + ks[1..n + 1] == ks[..n + 1];
  }

  lemma JoinWalks<D>(t: Trie<D>, order: Key, ks: seq<Key>, i: nat)
    requires i < |ks|
    requires Walk(t, ks[i], order, |ks| - 1 - i) == ks[i + 1..|ks|]
    requires Walk(t, ks[|ks| - 1], order, i + 1) == ks[..i + 1]
    ensures Walk(t, ks[i], order, |ks|) == ks[i + 1..] + ks[..i + 1]
  {
    WalkJoin(t, ks[i], order, |ks| - 1 - i, i + 1, ks[|ks| - 1]);
    assert ks[i + 1..|ks|] == ks[i + 1..];
  }

  /** Size(t) steps from a stored key visit every stored key exactly once and end where they began. */
  lemma FullTurn<D>(t: Trie<D>, order: Key, i: nat)
    requires WF(t, []) && Short(t, |order|) && i < |AllKeys(t, order, 0)|
    ensures Walk(t, AllKeys(t, order, 0)[i], order, Size(t)) ==
      AllKeys(t, order, 0)[i + 1..] + AllKeys(t, order, 0)[..i + 1]
  {
    var ks := AllKeys(t, order, 0);
    AllKeysCount(t, order, 0);
    WalkToEnd(t, order, i, |ks| - 1 - i);
    WalkFromLast(t, order, i);
    JoinWalks(t, order, ks, i);
  }
}
