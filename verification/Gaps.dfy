/** The prefixes a trie leaves uncovered at a target location. */
module Gaps {
  import opened Keys
  import opened Tries
  import opened TrieOps
  import opened NextLeaf
  import opened Coverage

  /** The prefixes of the sibling subtrees along the path to `k`. */
  function SiblingPrefixes(k: Key): seq<Key> {
    seq(|k|, i requires 0 <= i < |k| => FlipLastBit(k[..i + 1]))
  }

  // ---------------------------------------------------------------- sorting around an order

  /** At the first bit where they part, `a` agrees with `order`; or `a` extends `b`. */
  predicate Precedes(order: Key, a: Key, b: Key) {
    Before(order, a, b) || b < a
  }

  function Insert(k: Key, ks: seq<Key>, order: Key): seq<Key> {
    if ks == [] || Precedes(order, k, ks[0]) then [k] + ks else [ks[0]] + Insert(k, ks[1..], order)
  }

  function SortByOrder(ks: seq<Key>, order: Key): seq<Key> {
    if ks == [] then [] else Insert(ks[0], SortByOrder(ks[1..], order), order)
  }

  ghost predicate Unrelated(ks: seq<Key>) {
    forall i, j :: 0 <= i < j < |ks| ==> !Comparable(ks[i], ks[j])
  }

  lemma BeforeTransitive(order: Key, a: Key, b: Key, c: Key)
    requires Before(order, a, b) && Before(order, b, c)
    ensures Before(order, a, c)
  {
    var x, y := CommonPrefixLength(a, b), CommonPrefixLength(b, c);
    var z := if x < y then x else y;
    assert a[..z] == a[..x][..z] == b[..x][..z] == b[..z] == b[..y][..z] == c[..y][..z] == c[..z];
    if x < y { assert b[x] == b[..y][x] == c[..y][x] == c[x]; }
    if y < x { assert a[y] == a[..x][y] == b[..x][y] == b[y]; }
    CommonPrefixLengthIs(a, c, z);
  }

  lemma PrecedesTransitive(order: Key, a: Key, b: Key, c: Key)
    requires Precedes(order, a, b) && Precedes(order, b, c)
    ensures Precedes(order, a, c)
  {
    if Before(order, a, b) && Before(order, b, c) {
      BeforeTransitive(order, a, b, c);
    } else if Before(order, a, b) {
      BeforePrefix(order, a, b, c);
    } else if Before(order, b, c) {
      BeforeExtension(order, a, b, c);
    }
  }

  lemma BeforePrefix(order: Key, a: Key, b: Key, c: Key)
    requires Before(order, a, b) && c < b
    ensures Precedes(order, a, c)
  {
    var x := CommonPrefixLength(a, b);
    assert a[..x] == b[..x];
    if x < |c| {
      assert a[..x] == b[..x] == c[..x];
      CommonPrefixLengthIs(a, c, x);
    } else {
      assert a[..|c|] == a[..x][..|c|] == b[..x][..|c|] == c;
    }
  }

  lemma BeforeExtension(order: Key, a: Key, b: Key, c: Key)
    requires b < a && Before(order, b, c)
    ensures Before(order, a, c)
  {
    var x := CommonPrefixLength(b, c);
    assert a[..x] == b[..x] == c[..x];
    CommonPrefixLengthIs(a, c, x);
  }

  lemma PrecedesAsymmetric(order: Key, a: Key, b: Key)
    requires Precedes(order, a, b)
    ensures !Precedes(order, b, a)
  {
    BeforeIrreflexive(order, a, b);
    BeforeIrreflexive(order, b, a);
  }

  /** No key precedes one that stands before it. */
  ghost predicate Arranged(order: Key, ks: seq<Key>) {
    forall i, j :: 0 <= i < j < |ks| ==> !Precedes(order, ks[j], ks[i])
  }

  lemma {:induction false} InsertSpec(k: Key, ks: seq<Key>, order: Key)
    requires Arranged(order, ks)
    ensures Arranged(order, Insert(k, ks, order)) && multiset(Insert(k, ks, order)) == multiset(ks) + multiset{k}
  {
    if ks == [] {
    } else if Precedes(order, k, ks[0]) {
      forall j | 0 <= j < |ks| ensures !Precedes(order, ks[j], k) {
        PrecedesAsymmetric(order, k, ks[0]);
        if Precedes(order, ks[j], k) { PrecedesTransitive(order, ks[j], k, ks[0]); }
      }
    } else {
      InsertSpec(k, ks[1..], order);
      InsertBehind(k, ks, order, Insert(k, ks[1..], order));
    }
  }

  lemma InsertBehind(k: Key, ks: seq<Key>, order: Key, s: seq<Key>)
    requires ks != [] && Arranged(order, ks) && !Precedes(order, k, ks[0])
    requires Arranged(order, s) && multiset(s) == multiset(ks[1..]) + multiset{k}
    ensures Arranged(order, [ks[0]] + s) && multiset([ks[0]] + s) == multiset(ks) + multiset{k}
  {
    assert ks == [ks[0]] + ks[1..];
    forall i | 0 <= i < |s| ensures !Precedes(order, s[i], ks[0]) {
      assert s[i] in multiset(s);
      if s[i] != k { var j :| 0 <= j < |ks[1..]| && ks[1..][j] == s[i]; assert ks[j + 1] == s[i]; }
    }
  }

  /** Sorting rearranges any list of prefixes so that none precedes an earlier one. */
  lemma {:induction false} SortSpec(ks: seq<Key>, order: Key)
    ensures Arranged(order, SortByOrder(ks, order)) && multiset(SortByOrder(ks, order)) == multiset(ks)
  {
    if ks == [] {
    } else {
      SortSpec(ks[1..], order);
      InsertSpec(ks[0], SortByOrder(ks[1..], order), order);
      assert ks == [ks[0]] + ks[1..];
    }
  }

  lemma {:induction false} InsertUnrelated(k: Key, ks: seq<Key>, order: Key)
    requires Sorted(order, ks) && forall p :: p in ks ==> !Comparable(k, p)
    ensures Sorted(order, Insert(k, ks, order))
    ensures forall p :: p in Insert(k, ks, order) <==> p == k || p in ks
  {
    if ks == [] {
    } else if Precedes(order, k, ks[0]) {
      assert ks[0] in ks;
      var r := [k] + ks;
      forall i, j | 0 <= i < j < |r| ensures Before(order, r[i], r[j]) {
        if i == 0 && j > 1 { BeforeTransitive(order, k, ks[0], ks[j - 1]); }
      }
    } else {
      InsertUnrelated(k, ks[1..], order);
      var s := Insert(k, ks[1..], order);
      BeforeIrreflexive(order, k, ks[0]);
      assert ks[0] in ks;
      forall i | 0 <= i < |s| ensures Before(order, ks[0], s[i]) {
        assert s[i] in s;
        if s[i] != k {
          var j :| 0 <= j < |ks[1..]| && ks[1..][j] == s[i];
        }
      }
      SortedJoin(order, [ks[0]], s);
    }
  }

  lemma {:induction false} SortUnrelated(ks: seq<Key>, order: Key)
    requires Unrelated(ks)
    ensures Sorted(order, SortByOrder(ks, order))
    ensures forall p :: p in SortByOrder(ks, order) <==> p in ks
  {
    if ks == [] {
    } else {
      SortUnrelated(ks[1..], order);
      forall p | p in SortByOrder(ks[1..], order) ensures !Comparable(ks[0], p) {
        var j :| 0 <= j < |ks[1..]| && ks[1..][j] == p;
        assert p == ks[j + 1];
      }
      InsertUnrelated(ks[0], SortByOrder(ks[1..], order), order);
      assert ks == [ks[0]] + ks[1..];
    }
  }

  // ---------------------------------------------------------------- siblings

  /** The sibling at index `i` leaves the path to `k` exactly there. */
  lemma SiblingAt(k: Key, i: nat)
    requires i < |k|
    ensures FlipLastBit(k[..i + 1]) == k[..i] + [!k[i]]
  {
    assert k[..i + 1][..i] == k[..i];
  }

  /** The siblings from index `d` on leave the path to `k` at the indexes from `d` on. */
  lemma SiblingIn(k: Key, d: nat, i: nat)
    requires d <= i < |k|
    ensures k[..i] + [!k[i]] in SiblingPrefixes(k)[d..]
  {
    SiblingAt(k, i);
    assert SiblingPrefixes(k)[d..][i - d] == FlipLastBit(k[..i + 1]);
  }

  lemma SiblingOf(k: Key, d: nat, p: Key) returns (i: nat)
    requires d <= |k| && p in SiblingPrefixes(k)[d..]
    ensures d <= i < |k| && p == k[..i] + [!k[i]]
  {
    var s := SiblingPrefixes(k)[d..];
    var j :| 0 <= j < |s| && s[j] == p;
    i := j + d;
    SiblingAt(k, i);
  }

  lemma SiblingsApart(k: Key, i: nat, j: nat)
    requires i < j < |k|
    ensures !Comparable(SiblingPrefixes(k)[i], SiblingPrefixes(k)[j])
  {
    SiblingAt(k, i);
    SiblingAt(k, j);
    StepPath(k[..i], k[i], k[..j]);
    BeforeAtFork([], k[..i], k[..i] + [!k[i]], k[..j] + [!k[j]], !k[i]);
  }

  lemma SiblingUnder(k: Key, d: nat, p: Key)
    requires d <= |k| && p in SiblingPrefixes(k)[d..]
    ensures k[..d] <= p && |p| <= |k| && !Comparable(p, k)
  {
    var i := SiblingOf(k, d, p);
    assert k[..i][..d] == k[..d] == p[..d];
    StepPath(k[..i], k[i], k);
    BeforeAtFork([], k[..i], p, k, !k[i]);
  }

  lemma SiblingsUnrelated(k: Key, d: nat)
    requires d <= |k|
    ensures Unrelated(SiblingPrefixes(k)[d..])
    ensures forall p :: p in SiblingPrefixes(k)[d..] ==> k[..d] <= p && |p| <= |k| && !Comparable(p, k)
  {
    forall i, j | 0 <= i < j < |k| ensures !Comparable(SiblingPrefixes(k)[i], SiblingPrefixes(k)[j]) {
      SiblingsApart(k, i, j);
    }
    forall p | p in SiblingPrefixes(k)[d..] ensures k[..d] <= p && |p| <= |k| && !Comparable(p, k) {
      SiblingUnder(k, d, p);
    }
  }

  /** An identifier under `k[..d]` but not under `k` leaves the path to `k` at some index from `d` on. */
  lemma LeavesPath(k: Key, d: nat, f: Key) returns (c: nat)
    requires d <= |k| <= |f| && k[..d] <= f && !(k <= f)
    ensures d <= c < |k| && k[..c] + [!k[c]] <= f
  {
    assert forall i {:trigger k[i]} :: 0 <= i < d ==> k[i] == k[..d][i] == f[i];
    c := CommonPrefixLength(k, f);
    assert k[..|k|] == k;
    StepPath(k[..c], !k[c], f);
  }

  /** Below `k[..d]`, an identifier is outside `k` exactly if it is under a sibling from index `d` on. */
  lemma SiblingsCover(k: Key, d: nat, f: Key)
    requires d <= |k| <= |f| && k[..d] <= f
    ensures k <= f <==> forall p :: p in SiblingPrefixes(k)[d..] ==> !(p <= f)
  {
    if k <= f {
      forall p | p in SiblingPrefixes(k)[d..] ensures !(p <= f) {
        SiblingUnder(k, d, p);
        if p <= f { PrefixesOfOneKey(p, k, f); }
      }
    } else {
      var c := LeavesPath(k, d, f);
      SiblingIn(k, d, c);
    }
  }

  // ---------------------------------------------------------------- gaps of a trie

  function Prepend(p: Key, ks: seq<Key>): seq<Key> {
    seq(|ks|, i requires 0 <= i < |ks| => p + ks[i])
  }

  function DropBits(ks: seq<Key>, d: nat): seq<Key> {
    seq(|ks|, i requires 0 <= i < |ks| => if d <= |ks[i]| then ks[i][d..] else [])
  }

  /** The sibling prefixes of a leaf's key from index `d` on, around `order`. */
  function LeafGaps(k: Key, d: nat, order: Key): seq<Key>
    requires d <= |k|
  {
    SortByOrder(SiblingPrefixes(k)[d..], order)
  }

  /** The gaps in the branch on bit `i` of a node at `depth`, as bit strings from that depth on. */
  function BranchGaps<D>(t: Trie<D>, depth: nat, target: Key, order: Key, i: bool): seq<Key>
    requires t.Node?
    decreases t, 0
  {
    if depth < |target| && i != target[depth] then []
    else
      match Branch(t, i)
      case Empty => [[i]]
      case Leaf(k, _) => if |k| > depth + 1 then DropBits(LeafGaps(k, depth + 1, order), depth) else []
      case Node(_, _) => Prepend([i], GapsAt(Branch(t, i), depth + 1, target, order))
  }

  function GapsAt<D>(t: Trie<D>, depth: nat, target: Key, order: Key): seq<Key>
    requires t.Node?
    decreases t, 1
  {
    BranchGaps(t, depth, target, order, Bit(order, depth)) + BranchGaps(t, depth, target, order, !Bit(order, depth))
  }

  function TrieGaps<D>(t: Trie<D>, target: Key, order: Key): seq<Key> {
    match t
    case Empty => [target]
    case Leaf(k, _) => if target <= k then LeafGaps(k, |target|, order) else if k <= target then [] else [target]
    case Node(_, _) => GapsAt(t, 0, target, order)
  }

  // ---------------------------------------------------------------- specification

  /** `gaps` are sorted, lie under `p`, and hold exactly the identifiers of `n` bits under `p` that `t` misses. */
  ghost predicate Complement<D>(gaps: seq<Key>, t: Trie<D>, p: Key, order: Key, n: nat) {
    && Sorted(order, gaps)
    && (forall g :: g in gaps ==> p <= g && |g| <= n)
    && (forall f :: |f| == n && p <= f ==> (HasPrefixOf(t, f) <==> !Holds(gaps, f)))
  }

  lemma LeafComplement<D>(t: Trie<D>, p: Key, order: Key, n: nat)
    requires t.Leaf? && p <= t.key && |t.key| <= n
    ensures Complement(LeafGaps(t.key, |p|, order), t, p, order, n)
  {
    var k := t.key;
    SiblingsUnrelated(k, |p|);
    SortUnrelated(SiblingPrefixes(k)[|p|..], order);
    assert k in Content(t) && k[..|p|] == p;
    forall f | |f| == n && p <= f ensures HasPrefixOf(t, f) <==> !Holds(LeafGaps(k, |p|, order), f) {
      SiblingsCover(k, |p|, f);
    }
  }

  lemma EmptyComplement<D>(t: Trie<D>, p: Key, order: Key, n: nat)
    requires |p| <= n && forall f :: |f| == n && p <= f ==> !HasPrefixOf(t, f)
    ensures Complement([p], t, p, order, n)
  {
    assert forall f :: p <= f ==> Holds([p], f) by {
      forall f | p <= f ensures Holds([p], f) { assert p in [p]; }
    }
  }

  lemma RestoreBits(path: Key, ks: seq<Key>)
    requires forall k :: k in ks ==> path <= k
    ensures Prepend(path, DropBits(ks, |path|)) == ks
  {
    forall i | 0 <= i < |ks| ensures path + DropBits(ks, |path|)[i] == ks[i] { assert ks[i] in ks; }
  }

  lemma PrependStep(path: Key, i: bool, ks: seq<Key>)
    ensures Prepend(path, Prepend([i], ks)) == Prepend(path + [i], ks)
  {
    assert forall k: Key {:trigger [i] + k} :: path + ([i] + k) == path + [i] + k;
  }

  lemma PrependJoin(path: Key, a: seq<Key>, b: seq<Key>)
    ensures Prepend(path, a + b) == Prepend(path, a) + Prepend(path, b)
  {
  }

  /** The gaps of a branch that is searched, as full prefixes, in terms of the branch alone. */
  function AbsoluteGaps<D>(x: Trie<D>, path: Key, target: Key, order: Key): seq<Key> {
    match x
    case Empty => [path]
    case Leaf(k, _) => if |path| <= |k| then LeafGaps(k, |path|, order) else []
    case Node(_, _) => Prepend(path, GapsAt(x, |path|, target, order))
  }

  lemma LeafGapsRestored(k: Key, path: Key, i: bool, order: Key)
    requires path + [i] <= k
    ensures Prepend(path, DropBits(LeafGaps(k, |path| + 1, order), |path|)) == LeafGaps(k, |path| + 1, order)
  {
    var d := |path| + 1;
    SiblingsUnrelated(k, d);
    SortUnrelated(SiblingPrefixes(k)[d..], order);
    forall p | p in LeafGaps(k, d, order) ensures path <= p {
      assert k[..d] == path + [i];
      StepPath(path, i, p);
    }
    RestoreBits(path, LeafGaps(k, d, order));
  }

  lemma BranchGapsAre<D>(t: Trie<D>, path: Key, target: Key, order: Key, i: bool)
    requires t.Node? && WF(t, path)
    ensures Prepend(path, BranchGaps(t, |path|, target, order, i)) ==
      if |path| < |target| && i != target[|path|] then [] else AbsoluteGaps(Branch(t, i), path + [i], target, order)
  {
    var x := Branch(t, i);
    if x.Node? {
      PrependStep(path, i, GapsAt(x, |path| + 1, target, order));
    } else if x.Leaf? {
      BranchKeys(t, path, i);
      LeafGapsRestored(x.key, path, i, order);
    }
  }

  // ---------------------------------------------------------------- inside the target

  lemma HoldsJoin(a: seq<Key>, b: seq<Key>, f: Key)
    ensures Holds(a + b, f) <==> Holds(a, f) || Holds(b, f)
  {
    assert forall g :: g in a + b <==> g in a || g in b;
  }

  /** The gaps of the two branches of a node, the one that agrees with `order` first. */
  lemma ComplementJoin<D>(t: Trie<D>, path: Key, b: bool, near: seq<Key>, far: seq<Key>, order: Key, n: nat)
    requires t.Node? && WF(t, path) && |path| < n && b == Bit(order, |path|)
    requires Complement(near, Branch(t, b), path + [b], order, n)
    requires Complement(far, Branch(t, !b), path + [!b], order, n)
    ensures Complement(near + far, t, path, order, n)
  {
    forall i, j | 0 <= i < |near| && 0 <= j < |far| ensures Before(order, near[i], far[j]) {
      assert near[i] in near && far[j] in far;
      BeforeAtFork(order, path, near[i], far[j], b);
    }
    SortedJoin(order, near, far);
    assert path <= path + [b] && path <= path + [!b];
    forall f | |f| == n && path <= f ensures HasPrefixOf(t, f) <==> !Holds(near + far, f) {
      var c := f[|path|];
      StepPath(path, c, f);
      BranchCoverage(t, path, c, f, n);
      HoldsJoin(near, far, f);
      OtherSide(path, c, if c == b then far else near, f);
    }
  }

  lemma OtherSide(path: Key, c: bool, gaps: seq<Key>, f: Key)
    requires path + [c] <= f && forall g :: g in gaps ==> path + [!c] <= g
    ensures !Holds(gaps, f)
  {
    forall g | g in gaps ensures !(g <= f) { BeforeAtFork([], path, f, g, c); }
  }

  lemma {:induction false} InsideComplement<D>(x: Trie<D>, path: Key, target: Key, order: Key, n: nat)
    requires WF(x, path) && Short(x, n) && |target| <= |path| <= n
    ensures Complement(AbsoluteGaps(x, path, target, order), x, path, order, n)
  {
    if x.Empty? {
      EmptyComplement(x, path, order, n);
    } else if x.Leaf? {
      assert x.key in Content(x);
      LeafComplement(x, path, order, n);
    } else {
      NodeCoverage(x, path, n);
      var b := Bit(order, |path|);
      BranchKeys(x, path, b);
      BranchKeys(x, path, !b);
      InsideComplement(Branch(x, b), path + [b], target, order, n);
      InsideComplement(Branch(x, !b), path + [!b], target, order, n);
      BranchGapsAre(x, path, target, order, b);
      BranchGapsAre(x, path, target, order, !b);
      PrependJoin(path, BranchGaps(x, |path|, target, order, b), BranchGaps(x, |path|, target, order, !b));
      ComplementJoin(x, path, b, AbsoluteGaps(Branch(x, b), path + [b], target, order),
                     AbsoluteGaps(Branch(x, !b), path + [!b], target, order), order, n);
    }
  }

  // ---------------------------------------------------------------- on the way to the target

  /** What the search needs: no leaf is met strictly above the target, except a leaf whose key is its own
      position, and except the sibling of the target one level above it. */
  ghost predicate Reaches<D>(t: Trie<D>, depth: nat, target: Key)
    requires t.Node?
  {
    depth + 1 >= |target| ||
    match Branch(t, target[depth])
    case Node(_, _) => Reaches(Branch(t, target[depth]), depth + 1, target)
    case Empty => false
    case Leaf(k, _) => |k| == depth + 1 || (depth + 2 == |target| && k == FlipLastBit(target))
  }

  lemma OnlySibling(k: Key, d: nat, order: Key)
    requires d + 1 == |k|
    ensures LeafGaps(k, d, order) == [FlipLastBit(k)]
  {
    var s := SiblingPrefixes(k)[d..];
    assert k[..|k|] == k;
    assert s == [FlipLastBit(k)] && s[1..] == [];
    assert SortByOrder(s[1..], order) == [];
    assert SortByOrder(s, order) == Insert(s[0], [], order) == [s[0]];
  }

  lemma FlipTwice(k: Key)
    ensures FlipLastBit(FlipLastBit(k)) == k && |FlipLastBit(k)| == |k|
  {
  }

  lemma SiblingAbove<D>(x: Trie<D>, target: Key, order: Key, n: nat)
    requires x.Leaf? && target != [] && |target| <= n && x.key == FlipLastBit(target)
    ensures Complement(LeafGaps(x.key, |target| - 1, order), x, target, order, n)
  {
    OnlySibling(x.key, |target| - 1, order);
    FlipTwice(target);
    SiblingsUnrelated(x.key, |target| - 1);
    assert SiblingPrefixes(x.key)[|target| - 1..] == [target] by {
      assert x.key[..|x.key|] == x.key;
    }
    assert target in [target];
    forall f | |f| == n && target <= f ensures !HasPrefixOf(x, f) {
      if x.key <= f { PrefixesOfOneKey(x.key, target, f); }
    }
    EmptyComplement(x, target, order, n);
  }

  /** Two different siblings of one key cannot both lie under a target longer than where they leave the path. */
  lemma SiblingsBelowTarget(k: Key, d: nat, target: Key, order: Key)
    requires d < |k| && d < |target|
    requires forall g :: g in LeafGaps(k, d, order) ==> target <= g
    ensures |target| == d + 1 == |k| && k == FlipLastBit(target)
  {
    SiblingIsGap(k, d, d, order);
    assert target == k[..d] + [!k[d]];
    if |k| > d + 1 {
      SiblingIsGap(k, d, d + 1, order);
      StepPath(k[..d], k[d], k[..d + 1] + [!k[d + 1]]);
      StepPath(k[..d], !k[d], k[..d + 1] + [!k[d + 1]]);
    }
    assert k == k[..d] + [k[d]];
  }

  lemma SiblingIsGap(k: Key, d: nat, i: nat, order: Key)
    requires d <= i < |k|
    ensures k[..i] + [!k[i]] in LeafGaps(k, d, order)
  {
    SiblingsUnrelated(k, d);
    SortUnrelated(SiblingPrefixes(k)[d..], order);
    SiblingIn(k, d, i);
  }

  /** A leaf met strictly above the target. */
  lemma LeafAbove<D>(x: Trie<D>, path: Key, target: Key, order: Key, n: nat)
    requires x.Leaf? && path <= x.key && |x.key| <= n && path <= target && |path| < |target| <= n
    ensures Complement(LeafGaps(x.key, |path|, order), x, target, order, n) <==>
            |x.key| == |path| || (|path| + 1 == |target| && x.key == FlipLastBit(target))
  {
    var k, d := x.key, |path|;
    if |k| == d {
      assert k in Content(x) && k == path && SiblingPrefixes(k)[d..] == [];
    } else if d + 1 == |target| && k == FlipLastBit(target) {
      SiblingAbove(x, target, order, n);
    } else if Complement(LeafGaps(k, d, order), x, target, order, n) {
      SiblingsBelowTarget(k, d, target, order);
    }
  }

  lemma SameComplement<D>(gaps: seq<Key>, t: Trie<D>, path: Key, i: bool, target: Key, order: Key, n: nat)
    requires t.Node? && WF(t, path) && path + [i] <= target
    ensures Complement(gaps, t, target, order, n) <==> Complement(gaps, Branch(t, i), target, order, n)
  {
    forall f | |f| == n && target <= f ensures HasPrefixOf(t, f) <==> HasPrefixOf(Branch(t, i), f) {
      BranchCoverage(t, path, i, f, n);
    }
  }

  lemma {:induction false} AboveTarget<D>(t: Trie<D>, path: Key, target: Key, order: Key, n: nat)
    requires t.Node? && WF(t, path) && Short(t, n) && path <= target && |path| < |target| <= n
    ensures Complement(Prepend(path, GapsAt(t, |path|, target, order)), t, target, order, n) <==>
      Reaches(t, |path|, target)
  {
    var i := target[|path|];
    var x, p := Branch(t, i), path + [i];
    OnlyTowardsTarget(t, path, target, order);
    StepPath(path, i, target);
    BranchKeys(t, path, i);
    var gaps := AbsoluteGaps(x, p, target, order);
    SameComplement(gaps, t, path, i, target, order, n);
    if |p| == |target| {
      assert p == target;
      InsideComplement(x, p, target, order, n);
    } else if x.Node? {
      AboveTarget(x, p, target, order, n);
    } else if x.Leaf? {
      assert x.key in Content(x);
      LeafAbove(x, p, target, order, n);
    } else {
      assert p in gaps;
    }
  }

  lemma OnlyTowardsTarget<D>(t: Trie<D>, path: Key, target: Key, order: Key)
    requires t.Node? && WF(t, path) && |path| < |target|
    ensures Prepend(path, GapsAt(t, |path|, target, order)) ==
            AbsoluteGaps(Branch(t, target[|path|]), path + [target[|path|]], target, order)
  {
    var b := Bit(order, |path|);
    BranchGapsAre(t, path, target, order, b);
    BranchGapsAre(t, path, target, order, !b);
    PrependJoin(path, BranchGaps(t, |path|, target, order, b), BranchGaps(t, |path|, target, order, !b));
  }

  // ---------------------------------------------------------------- the theorem

  ghost predicate GapsAreExact<D>(t: Trie<D>, target: Key) {
    t.Node? && target != [] ==> Reaches(t, 0, target)
  }

  /** Gaps and stored keys partition the target's keyspace exactly if the search reaches the target. */
  lemma GapsComplementIff<D>(t: Trie<D>, target: Key, order: Key, n: nat)
    requires WF(t, []) && Short(t, n) && |target| <= n
    ensures Complement(TrieGaps(t, target, order), t, target, order, n) <==> GapsAreExact(t, target)
  {
    if t.Empty? {
      EmptyComplement(t, target, order, n);
    } else if t.Leaf? {
      assert t.key in Content(t);
      RootLeaf(t, target, order, n);
    } else {
      assert Prepend([], GapsAt(t, 0, target, order)) == GapsAt(t, 0, target, order) by {
        assert forall k: Key {:trigger [] + k} :: [] + k == k;
      }
      if target == [] {
        InsideComplement(t, [], target, order, n);
      } else {
        AboveTarget(t, [], target, order, n);
      }
    }
  }

  lemma RootLeaf<D>(t: Trie<D>, target: Key, order: Key, n: nat)
    requires t.Leaf? && |t.key| <= n && |target| <= n
    ensures Complement(TrieGaps(t, target, order), t, target, order, n)
  {
    assert t.key in Content(t);
    if target <= t.key {
      LeafComplement(t, target, order, n);
    } else if !(t.key <= target) {
      forall f | |f| == n && target <= f ensures !HasPrefixOf(t, f) {
        if t.key <= f { PrefixesOfOneKey(t.key, target, f); }
      }
      EmptyComplement(t, target, order, n);
    }
  }

  /** The gaps that are not the complement: a leaf above the target, off the target's path, hides the target. */
  lemma LeafHidesTarget()
    ensures var t := Node(Leaf([false, false, false], ()), Leaf([true], ()));
      WF(t, []) && !Complement(TrieGaps(t, [false, true], []), t, [false, true], [], 3)
  {
    var t := Node(Leaf([false, false, false], ()), Leaf([true], ()));
    assert Branch(t, false) == Leaf([false, false, false], ());
    assert FlipLastBit([false, true]) == [false, false];
    assert !Reaches(t, 0, [false, true]);
    GapsComplementIff(t, [false, true], [], 3);
  }
}
