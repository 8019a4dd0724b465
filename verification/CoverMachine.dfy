/** The stack machine that decides whether a trie of prefixes covers the whole keyspace.
    It compares little more than lengths; that this is enough is a Kraft-sum argument. */
module CoverMachine {
  import opened Keys
  import opened Tries
  import opened TrieOps
  import opened NextLeaf
  import opened Coverage

  /** Where the machine stands: it has returned false, indexed out of range, or goes on with a stack. */
  datatype Verdict = Rejected | Crashed | Running(stack: seq<Key>)

  function Last(s: seq<Key>): Key
    requires s != []
  {
    s[|s| - 1]
  }

  function DropLast<T>(s: seq<T>): seq<T>
    requires s != []
  {
    s[..|s| - 1]
  }

  /** Popping while `p` is as long as the top of the stack, then pushing the sibling of what is left of `p`. */
  function Absorb(stack: seq<Key>, p: Key): Verdict
    decreases |stack|
  {
    if stack == [] then Crashed
    else if |p| != |Last(stack)| then Running(stack + [FlipLastBit(p)])
    else if |p| == 1 && Last(stack) == p then Running(DropLast(stack))
    else if p == [] then Crashed
    else Absorb(DropLast(stack), DropLast(p))
  }

  function Feed(stack: seq<Key>, p: Key): Verdict {
    if stack == [] then Crashed
    else if |p| < |Last(stack)| then Rejected
    else Absorb(stack, p)
  }

  function Run(stack: seq<Key>, ks: seq<Key>): Verdict
    decreases |ks|
  {
    if ks == [] then Running(stack)
    else
      var v := Feed(stack, ks[0]);
      if v.Running? then Run(v.stack, ks[1..]) else v
  }

  const START: seq<Key> := [[true], [false]]

  // ---------------------------------------------------------------- a covered keyspace is accepted

  lemma {:induction false} RunJoin(stack: seq<Key>, a: seq<Key>, b: seq<Key>)
    ensures Run(stack, a + b) == if Run(stack, a).Running? then Run(Run(stack, a).stack, b) else Run(stack, a)
    decreases |a|
  {
    if a == [] {
      assert a + b == b;
    } else {
      assert (a + b)[1..] == a[1..] + b;
      var v := Feed(stack, a[0]);
      if v.Running? { RunJoin(v.stack, a[1..], b); }
    }
  }

  /** Two runs that act like the two halves of a path act together like the path. */
  lemma RunHalves(stack: seq<Key>, path: Key, a: seq<Key>, b: seq<Key>)
    requires stack != [] && |Last(stack)| <= |path| && path != []
    requires Run(stack, a) == Absorb(stack, path + [false])
    requires Run(stack + [path + [true]], b) == Absorb(stack + [path + [true]], path + [true])
    ensures Run(stack, a + b) == Absorb(stack, path)
  {
    assert FlipLastBit(path + [false]) == path + [true];
    assert DropLast(stack + [path + [true]]) == stack && DropLast(path + [true]) == path;
    RunJoin(stack, a, b);
  }

  /** The keys act on every stack like the one key `path`. */
  ghost predicate ActLike(ks: seq<Key>, path: Key) {
    forall stack :: stack != [] && |Last(stack)| <= |path| ==> Run(stack, ks) == Absorb(stack, path)
  }

  lemma LeafActs(path: Key)
    ensures ActLike([path], path)
  {
    assert [path][1..] == [];
  }

  lemma HalvesAct(path: Key, a: seq<Key>, b: seq<Key>)
    requires path != [] && ActLike(a, path + [false]) && ActLike(b, path + [true])
    ensures ActLike(a + b, path)
  {
    forall stack | stack != [] && |Last(stack)| <= |path| ensures Run(stack, a + b) == Absorb(stack, path) {
      assert Last(stack + [path + [true]]) == path + [true];
      RunHalves(stack, path, a, b);
    }
  }

  ghost predicate Covers<D>(t: Trie<D>, path: Key, n: nat) {
    WF(t, path) && Short(t, n) && |path| <= n && FullyCovered(t, path, n)
  }

  lemma CoveringLeaf<D>(t: Trie<D>, path: Key, n: nat)
    requires Covers(t, path, n) && !t.Node?
    ensures AllKeys(t, [], |path|) == [path]
  {
    assert HasPrefixOf(t, Pad(path, n));
    LeafCoverage(t, path, n);
    assert t.key == path;
  }

  lemma CoveringHalves<D>(t: Trie<D>, path: Key, n: nat)
    requires Covers(t, path, n) && t.Node?
    ensures Covers(t.left, path + [false], n) && Covers(t.right, path + [true], n)
  {
    HalvesAreShort(t, path, n);
    NodeCoverage(t, path, n);
  }

  /** A subtrie that covers its path acts on the stack like the one key that is its path. */
  lemma {:induction false} CoveredActsAsLeaf<D>(t: Trie<D>, path: Key, n: nat)
    requires Covers(t, path, n) && path != []
    ensures ActLike(AllKeys(t, [], |path|), path)
    decreases t
  {
    if !t.Node? {
      CoveringLeaf(t, path, n);
      LeafActs(path);
    } else {
      CoveringHalves(t, path, n);
      CoveredActsAsLeaf(t.left, path + [false], n);
      CoveredActsAsLeaf(t.right, path + [true], n);
      HalvesAct(path, AllKeys(t.left, [], |path| + 1), AllKeys(t.right, [], |path| + 1));
    }
  }

  lemma HalvesAreShort<D>(t: Trie<D>, path: Key, n: nat)
    requires t.Node? && WF(t, path) && Short(t, n) && |path| <= n
    ensures |path| < n && Short(t.left, n) && Short(t.right, n)
  {
    NodeCoverage(t, path, n);
    BranchKeys(t, path, false);
    BranchKeys(t, path, true);
  }

  lemma LastTwoPops()
    ensures Absorb(START, [false]) == Running([[true]])
    ensures Absorb([[true]], [true]) == Running([])
  {
    assert DropLast(START) == [[true]] && DropLast([[true]]) == [];
  }

  lemma CoveredIsAccepted<D>(t: Trie<D>, n: nat)
    requires WF(t, []) && t.Node? && Short(t, n) && FullyCovered(t, [], n)
    ensures Run(START, AllKeys(t, [], 0)) == Running([])
  {
    CoveringHalves(t, [], n);
    assert [] + [false] == [false] && [] + [true] == [true];
    CoveredActsAsLeaf(t.left, [false], n);
    CoveredActsAsLeaf(t.right, [true], n);
    LastTwoPops();
    assert Last(START) == [false] && Last([[true]]) == [true];
    RunJoin(START, AllKeys(t.left, [], 1), AllKeys(t.right, [], 1));
  }

  // ---------------------------------------------------------------- weights

  /** The number of identifiers of `n` bits under the keys of a list, counted with repetition. */
  function Weight(ks: seq<Key>, n: nat): nat {
    if ks == [] then 0 else Weight(DropLast(ks), n) + if |Last(ks)| <= n then Pow2(n - |Last(ks)|) else 0
  }

  lemma {:induction false} WeightJoin(a: seq<Key>, b: seq<Key>, n: nat)
    ensures Weight(a + b, n) == Weight(a, n) + Weight(b, n)
    decreases |b|
  {
    if b == [] {
      assert a + b == a;
    } else {
      assert DropLast(a + b) == a + DropLast(b);
      WeightJoin(a, DropLast(b), n);
    }
  }

  lemma Pow2Step(n: nat, d: nat)
    requires d < n
    ensures Pow2(n - d) == 2 * Pow2(n - d - 1)
  {
  }

  lemma LeafWeight(k: Key, d: nat, n: nat)
    requires d <= |k| <= n
    ensures Weight([k], n) <= Pow2(n - d)
    ensures Weight([k], n) == Pow2(n - d) ==> |k| == d
  {
    assert DropLast([k]) == [];
    Pow2Grows(n - |k|, n - d);
  }

  lemma WeightHalves(a: seq<Key>, b: seq<Key>, d: nat, n: nat)
    requires d < n && Weight(a, n) <= Pow2(n - d - 1) && Weight(b, n) <= Pow2(n - d - 1)
    ensures Weight(a + b, n) <= Pow2(n - d)
    ensures Weight(a + b, n) == Pow2(n - d) ==> Weight(a, n) == Weight(b, n) == Pow2(n - d - 1)
  {
    WeightJoin(a, b, n);
    Pow2Step(n, d);
  }

  lemma LightLeaf<D>(t: Trie<D>, path: Key, n: nat)
    requires t.Leaf? && WF(t, path) && |path| <= |t.key| <= n
    ensures Weight([t.key], n) <= Pow2(n - |path|)
    ensures Weight([t.key], n) == Pow2(n - |path|) ==> FullyCovered(t, path, n)
  {
    LeafWeight(t.key, |path|, n);
    LeafCoverage(t, path, n);
  }

  lemma LightNode<D>(t: Trie<D>, path: Key, n: nat, a: seq<Key>, b: seq<Key>)
    requires t.Node? && WF(t, path) && Short(t, n) && |path| < n
    requires Weight(a, n) <= Pow2(n - |path| - 1) && Weight(b, n) <= Pow2(n - |path| - 1)
    requires Weight(a, n) == Pow2(n - |path| - 1) ==> FullyCovered(t.left, path + [false], n)
    requires Weight(b, n) == Pow2(n - |path| - 1) ==> FullyCovered(t.right, path + [true], n)
    ensures Weight(a + b, n) <= Pow2(n - |path|)
    ensures Weight(a + b, n) == Pow2(n - |path|) ==> FullyCovered(t, path, n)
  {
    WeightHalves(a, b, |path|, n);
    NodeCoverage(t, path, n);
  }

  /** Kraft: the keys of a subtrie weigh at most its path, and exactly that only if they cover it. */
  lemma {:induction false} TrieWeight<D>(t: Trie<D>, path: Key, n: nat)
    requires WF(t, path) && Short(t, n) && |path| <= n
    ensures Weight(AllKeys(t, [], |path|), n) <= Pow2(n - |path|)
    ensures Weight(AllKeys(t, [], |path|), n) == Pow2(n - |path|) ==> FullyCovered(t, path, n)
    decreases t
  {
    if t.Leaf? {
      assert t.key in Content(t);
      LightLeaf(t, path, n);
    } else if t.Node? {
      HalvesAreShort(t, path, n);
      TrieWeight(t.left, path + [false], n);
      TrieWeight(t.right, path + [true], n);
      LightNode(t, path, n, AllKeys(t.left, [], |path| + 1), AllKeys(t.right, [], |path| + 1));
    }
  }

  // ---------------------------------------------------------------- what is accepted is covered

  /** The lengths grow along the list and stay within `(lo, n]`. */
  ghost predicate Growing(s: seq<Key>, lo: nat, n: nat) {
    && (forall i :: 0 <= i < |s| ==> lo < |s[i]| <= n)
    && (forall i, j :: 0 <= i < j < |s| ==> |s[i]| < |s[j]|)
  }

  lemma GrowingPop(s: seq<Key>, lo: nat, n: nat)
    requires Growing(s, lo, n) && s != []
    ensures Growing(DropLast(s), lo, n) && Below(DropLast(s), |Last(s)|)
  {
  }

  ghost predicate Below(s: seq<Key>, length: nat) {
    forall i :: 0 <= i < |s| ==> |s[i]| < length
  }

  lemma PopAbove(base: seq<Key>, s: seq<Key>, p: Key, n: nat)
    requires s != [] && |p| == |Last(s)| && 2 <= |p| <= n
    ensures Absorb(base + s, p) == Absorb(base + DropLast(s), DropLast(p))
    ensures Weight(s, n) + Pow2(n - |p|) == Weight(DropLast(s), n) + Pow2(n - |DropLast(p)|)
  {
    assert Last(base + s) == Last(s) && DropLast(base + s) == base + DropLast(s);
    Pow2Step(n, |p| - 1);
  }

  lemma StopAbove(base: seq<Key>, s: seq<Key>, p: Key)
    requires base != [] && |p| > if s == [] then |Last(base)| else |Last(s)|
    ensures Absorb(base + s, p) == Running(base + s + [FlipLastBit(p)])
  {
    assert s != [] ==> Last(base + s) == Last(s);
    assert s == [] ==> base + s == base;
  }

  /** What is left above `base` after an absorption with verdict `v`: the stack `s` and the key `q`, of weight `w`. */
  ghost predicate Absorbed(base: seq<Key>, v: Verdict, w: nat, s: seq<Key>, q: Key, n: nat)
    requires base != []
  {
    && |Last(base)| <= |q| <= n && Growing(s, |Last(base)|, n) && Below(s, |q|) && Weight(s, n) + Pow2(n - |q|) == w
    && (|q| > |Last(base)| ==> v == Running(base + s + [FlipLastBit(q)]))
    && (|q| == |Last(base)| ==> s == [] && v == Absorb(base, q))
  }

  /** Above `base`, feeding `p` trades popped entries for a shorter prefix `q` of the same total weight;
      the machine stops there, or goes on at `base` if `q` has become as short as its top. */
  lemma {:induction false} AbsorbAbove(base: seq<Key>, s: seq<Key>, p: Key, n: nat) returns (s': seq<Key>, q: Key)
    requires base != [] && Growing(s, |Last(base)|, n) && (forall i :: 0 <= i < |s| ==> 2 <= |s[i]|)
    requires |p| <= n && |p| >= if s == [] then |Last(base)| else |Last(s)|
    ensures q <= p && Absorbed(base, Absorb(base + s, p), Weight(s, n) + Pow2(n - |p|), s', q, n)
    decreases |s|
  {
    if s != [] { GrowingPop(s, |Last(base)|, n); }
    if s != [] && |p| == |Last(s)| {
      PopAbove(base, s, p, n);
      s', q := AbsorbAbove(base, DropLast(s), DropLast(p), n);
      assert DropLast(p) <= p;
    } else {
      s', q := s, p;
      NothingAbsorbed(base, s, p, n);
    }
  }

  lemma NothingAbsorbed(base: seq<Key>, s: seq<Key>, p: Key, n: nat)
    requires base != [] && Growing(s, |Last(base)|, n) && |p| <= n
    requires if s == [] then |Last(base)| <= |p| else |Last(s)| < |p|
    ensures Absorbed(base, Absorb(base + s, p), Weight(s, n) + Pow2(n - |p|), s, p, n)
  {
    if s == [] { assert base + s == base; } else { GrowingPop(s, |Last(base)|, n); }
    if |p| > |Last(base)| { StopAbove(base, s, p); }
  }

  /** The possible stacks, with `w` the weight of the keys read so far:
      the lower half open, the upper half open, all done, or a gap already passed. */
  ghost predicate LowerOpen(stack: seq<Key>, w: nat, n: nat) {
    |stack| >= 2 && stack[..2] == START && Growing(stack[2..], 1, n) && w == Weight(stack[2..], n)
  }

  ghost predicate UpperOpen(stack: seq<Key>, w: nat, n: nat)
    requires n > 0
  {
    |stack| >= 1 && stack[..1] == [[true]] && Growing(stack[1..], 1, n) && w == Pow2(n - 1) + Weight(stack[1..], n)
  }

  ghost predicate GapPassed(stack: seq<Key>, w: nat, n: nat)
    requires n > 0
  {
    |stack| >= 2 && stack[..2] == [[true], []] && Growing(stack[2..], 0, n) && w >= Pow2(n - 1) + Weight(stack[2..], n)
  }

  ghost predicate Reachable(stack: seq<Key>, w: nat, n: nat)
    requires n > 0
  {
    LowerOpen(stack, w, n) || UpperOpen(stack, w, n) || GapPassed(stack, w, n) || (stack == [] && w == Pow2(n))
  }

  ghost predicate GoesOn(v: Verdict, w: nat, n: nat)
    requires n > 0
  {
    v.Rejected? || (v.Running? && Reachable(v.stack, w, n))
  }

  lemma PushWeight(s: seq<Key>, q: Key, lo: nat, n: nat)
    requires Growing(s, lo, n) && lo < |q| <= n && Below(s, |q|)
    ensures Growing(s + [FlipLastBit(q)], lo, n)
    ensures Weight(s + [FlipLastBit(q)], n) == Weight(s, n) + Pow2(n - |q|)
  {
    assert DropLast(s + [FlipLastBit(q)]) == s;
  }

  /** Completing half the keyspace closes the lower half, or shows that a gap has been passed. */
  lemma CloseLower(q: Key, n: nat)
    requires |q| == 1 && n > 0
    ensures GoesOn(Absorb(START, q), Pow2(n - 1), n)
  {
    assert DropLast(START) == [[true]] && DropLast(q) == [] && q == [q[0]];
    var r := Absorb(START, q).stack;
    assert q == [false] ==> r[1..] == [] && UpperOpen(r, Pow2(n - 1), n);
    assert q == [true] ==> r == [[true], []] && r[2..] == [];
  }

  lemma OnTop(base: seq<Key>, s: seq<Key>, k: Key)
    ensures (base + s + [k])[..|base|] == base && (base + s + [k])[|base|..] == s + [k]
  {
  }

  lemma ExtendLower(s: seq<Key>, q: Key, w: nat, n: nat)
    requires n > 0 && Growing(s, 1, n) && Below(s, |q|) && 1 < |q| <= n && w == Weight(s, n) + Pow2(n - |q|)
    ensures GoesOn(Running(START + s + [FlipLastBit(q)]), w, n)
  {
    var k := FlipLastBit(q);
    PushWeight(s, q, 1, n);
    OnTop(START, s, k);
    assert LowerOpen(START + s + [k], w, n);
  }

  lemma AbsorbLower(s: seq<Key>, p: Key, n: nat)
    requires 1 <= |p| <= n && Growing(s, 1, n) && |p| >= if s == [] then 1 else |Last(s)|
    ensures GoesOn(Absorb(START + s, p), Weight(s, n) + Pow2(n - |p|), n)
  {
    assert Last(START) == [false];
    var s', q := AbsorbAbove(START, s, p, n);
    var v, w := Absorb(START + s, p), Weight(s, n) + Pow2(n - |p|);
    if |q| == 1 { LowerCloses(v, q, w, n); } else { LowerExtends(v, s', q, w, n); }
  }

  lemma LowerCloses(v: Verdict, q: Key, w: nat, n: nat)
    requires |q| == 1 && n > 0 && v == Absorb(START, q) && w == Pow2(n - 1)
    ensures GoesOn(v, w, n)
  {
    CloseLower(q, n);
  }

  lemma LowerExtends(v: Verdict, s: seq<Key>, q: Key, w: nat, n: nat)
    requires n > 0 && Growing(s, 1, n) && Below(s, |q|) && 1 < |q| <= n && w == Weight(s, n) + Pow2(n - |q|)
    requires v == Running(START + s + [FlipLastBit(q)])
    ensures GoesOn(v, w, n)
  {
    ExtendLower(s, q, w, n);
  }

  lemma FeedLower(stack: seq<Key>, w: nat, p: Key, n: nat)
    requires 1 <= |p| <= n && LowerOpen(stack, w, n)
    ensures GoesOn(Feed(stack, p), w + Pow2(n - |p|), n)
  {
    var s := stack[2..];
    assert stack == START + s;
    assert s != [] ==> Last(stack) == Last(s);
    if |p| >= |Last(stack)| { AbsorbLower(s, p, n); }
  }

  lemma ExtendUpper(s: seq<Key>, q: Key, w: nat, n: nat)
    requires n > 0 && Growing(s, 1, n) && Below(s, |q|) && 1 < |q| <= n
    requires w == Pow2(n - 1) + Weight(s, n) + Pow2(n - |q|)
    ensures GoesOn(Running([[true]] + s + [FlipLastBit(q)]), w, n)
  {
    var k := FlipLastBit(q);
    PushWeight(s, q, 1, n);
    OnTop([[true]], s, k);
    assert UpperOpen([[true]] + s + [k], w, n);
  }

  /** Completing the upper half completes the keyspace. */
  lemma CloseUpper(q: Key, n: nat)
    requires |q| == 1 && q[0] && n > 0
    ensures Absorb([[true]], q) == Running([]) && Reachable([], Pow2(n - 1) + Pow2(n - 1), n)
  {
    assert q == [true] && DropLast([[true]]) == [];
    Pow2Step(n, 0);
  }

  lemma FeedUpper(stack: seq<Key>, w: nat, p: Key, n: nat)
    requires 1 <= |p| <= n && p[0] && UpperOpen(stack, w, n)
    ensures GoesOn(Feed(stack, p), w + Pow2(n - |p|), n)
  {
    var s := stack[1..];
    var base: seq<Key> := [[true]];
    assert stack == base + s && Last(base) == [true];
    if |p| >= |Last(stack)| {
      assert s != [] ==> Last(stack) == Last(s);
      var s', q := AbsorbAbove(base, s, p, n);
      if |q| == 1 {
        CloseUpper(q, n);
      } else {
        ExtendUpper(s', q, w + Pow2(n - |p|), n);
      }
    }
  }

  lemma {:induction false} LongEntries(s: seq<Key>, n: nat)
    requires n > 0 && Growing(s, 0, n) && Weight(s, n) < Pow2(n - 1)
    ensures forall i :: 0 <= i < |s| ==> 2 <= |s[i]|
    decreases |s|
  {
    if s == [] {
    } else {
      LongEntries(DropLast(s), n);
      assert forall i :: 0 <= i < |s| - 1 ==> s[i] == DropLast(s)[i];
    }
  }

  lemma ExtendGap(s: seq<Key>, k: Key, w: nat, n: nat)
    requires n > 0 && Growing(s + [k], 0, n) && w >= Pow2(n - 1) + Weight(s + [k], n)
    ensures GapPassed([[true], []] + s + [k], w, n)
  {
    var r := [[true], []] + s + [k];
    assert r[2..] == s + [k];
  }

  lemma FeedGap(stack: seq<Key>, w: nat, p: Key, n: nat)
    requires 1 <= |p| <= n && GapPassed(stack, w, n) && w + Pow2(n - |p|) <= Pow2(n)
    ensures GoesOn(Feed(stack, p), w + Pow2(n - |p|), n)
  {
    var s := stack[2..];
    var base: seq<Key> := [[true], []];
    assert stack == base + s && Last(base) == [];
    Pow2Step(n, 0);
    LongEntries(s, n);
    if |p| >= |Last(stack)| {
      assert s != [] ==> Last(stack) == Last(s);
      var s', q := AbsorbAbove(base, s, p, n);
      assert q != [];
      PushWeight(s', q, 0, n);
      ExtendGap(s', FlipLastBit(q), w + Pow2(n - |p|), n);
    }
  }

  /** The keys of a trie that is not a single leaf: first those starting with 0, then those starting with 1. */
  ghost predicate Halves(ks: seq<Key>, m: nat, n: nat) {
    && m <= |ks| && n > 0
    && (forall i :: 0 <= i < |ks| ==> 1 <= |ks[i]| <= n && (ks[i][0] <==> m <= i))
    && Weight(ks[..m], n) <= Pow2(n - 1) && Weight(ks, n) <= Pow2(n)
  }

  lemma WeightPrefix(ks: seq<Key>, i: nat, j: nat, n: nat)
    requires i < j <= |ks| && |ks[i]| <= n
    ensures Weight(ks[..i + 1], n) == Weight(ks[..i], n) + Pow2(n - |ks[i]|)
    ensures Weight(ks[..i], n) + Pow2(n - |ks[i]|) <= Weight(ks[..j], n)
  {
    assert DropLast(ks[..i + 1]) == ks[..i] && Last(ks[..i + 1]) == ks[i];
    assert ks[..j] == ks[..i + 1] + ks[i + 1..j];
    WeightJoin(ks[..i + 1], ks[i + 1..j], n);
  }

  /** Once the lower half is complete only keys of the upper half follow. */
  lemma UpperFollows(ks: seq<Key>, m: nat, i: nat, stack: seq<Key>, n: nat)
    requires Halves(ks, m, n) && i < |ks| && UpperOpen(stack, Weight(ks[..i], n), n)
    ensures ks[i][0]
  {
    if !ks[i][0] { WeightPrefix(ks, i, m, n); }
  }

  lemma FeedAny(stack: seq<Key>, w: nat, p: Key, n: nat)
    requires 1 <= |p| <= n && Reachable(stack, w, n) && w + Pow2(n - |p|) <= Pow2(n)
    requires UpperOpen(stack, w, n) ==> p[0]
    ensures GoesOn(Feed(stack, p), w + Pow2(n - |p|), n)
  {
    if LowerOpen(stack, w, n) {
      FeedLower(stack, w, p, n);
    } else if UpperOpen(stack, w, n) {
      FeedUpper(stack, w, p, n);
    } else if GapPassed(stack, w, n) {
      FeedGap(stack, w, p, n);
    }
  }

  /** One key: the machine never leaves its reachable stacks and never indexes out of range. */
  lemma FeedKey(ks: seq<Key>, m: nat, i: nat, stack: seq<Key>, n: nat)
    requires Halves(ks, m, n) && i < |ks| && Reachable(stack, Weight(ks[..i], n), n)
    ensures GoesOn(Feed(stack, ks[i]), Weight(ks[..i + 1], n), n)
  {
    var w := Weight(ks[..i], n);
    assert w + Pow2(n - |ks[i]|) == Weight(ks[..i + 1], n) <= Pow2(n) by {
      assert ks[..|ks|] == ks;
      WeightPrefix(ks, i, |ks|, n);
    }
    assert UpperOpen(stack, w, n) ==> ks[i][0] by {
      if UpperOpen(stack, w, n) { UpperFollows(ks, m, i, stack, n); }
    }
    FeedAny(stack, w, ks[i], n);
  }

  lemma {:induction false} RunKeys(ks: seq<Key>, m: nat, i: nat, stack: seq<Key>, n: nat)
    requires Halves(ks, m, n) && i <= |ks| && Reachable(stack, Weight(ks[..i], n), n)
    ensures !Run(stack, ks[i..]).Crashed?
    ensures Run(stack, ks[i..]) == Running([]) ==> Weight(ks, n) == Pow2(n)
    decreases |ks| - i
  {
    if i < |ks| {
      FeedKey(ks, m, i, stack, n);
      assert ks[i..][1..] == ks[i + 1..] && ks[i..][0] == ks[i];
      if Feed(stack, ks[i]).Running? { RunKeys(ks, m, i + 1, Feed(stack, ks[i]).stack, n); }
    } else {
      assert ks[..i] == ks && ks[i..] == [];
    }
  }

  lemma HalfKeys<D>(t: Trie<D>, b: bool, n: nat)
    requires WF(t, []) && t.Node? && Short(t, n)
    ensures n > 0 && WF(Branch(t, b), [b]) && Short(Branch(t, b), n)
    ensures forall i :: 0 <= i < |AllKeys(Branch(t, b), [], 1)| ==>
      var k := AllKeys(Branch(t, b), [], 1)[i]; 1 <= |k| <= n && k[0] == b
  {
    NodeCoverage(t, [], n);
    assert [] + [b] == [b];
    BranchKeys(t, [], b);
    AllKeysSorted(Branch(t, b), [], [b]);
    var ks := AllKeys(Branch(t, b), [], 1);
    forall i | 0 <= i < |ks| ensures 1 <= |ks[i]| <= n && ks[i][0] == b { assert ks[i] in ks && [b] <= ks[i]; }
  }

  lemma TrieHalves<D>(t: Trie<D>, n: nat)
    requires WF(t, []) && t.Node? && Short(t, n)
    ensures Halves(AllKeys(t, [], 0), Size(t.left), n)
    ensures Weight(AllKeys(t, [], 0), n) == Pow2(n) ==> FullyCovered(t, [], n)
  {
    var a, b := AllKeys(t.left, [], 1), AllKeys(t.right, [], 1);
    assert AllKeys(t, [], 0) == a + b;
    HalfKeys(t, false, n);
    HalfKeys(t, true, n);
    AllKeysCount(t.left, [], 1);
    TrieWeight(t, [], n);
    TrieWeight(t.left, [false], n);
    assert (a + b)[..|a|] == a;
  }

  /** The machine never indexes out of range, and it accepts exactly the tries that cover the keyspace. */
  lemma MachineDecidesCoverage<D>(t: Trie<D>, n: nat)
    requires WF(t, []) && t.Node? && Short(t, n)
    ensures !Run(START, AllKeys(t, [], 0)).Crashed?
    ensures Run(START, AllKeys(t, [], 0)) == Running([]) <==> FullyCovered(t, [], n)
  {
    var ks := AllKeys(t, [], 0);
    TrieHalves(t, n);
    assert START[2..] == [] && START[..2] == START && ks[..0] == [] && ks[0..] == ks;
    RunKeys(ks, Size(t.left), 0, START, n);
    if FullyCovered(t, [], n) { CoveredIsAccepted(t, n); }
  }

  /** `n` is the length of a full identifier, at least that of every key in the trie. */
  method KeyspaceCovered<D>(t: Trie<D>, ghost n: nat) returns (covered: bool)
    requires WF(t, []) && Short(t, n)
    ensures covered <==> FullyCovered(t, [], n)
  {
    if t.Empty? {
      assert !HasPrefixOf(t, Pad([], n));
      return false;
    }
    if t.Leaf? {
      assert t.key in Content(t);
      LeafCoverage(t, [], n);
      return t.key == [];
    }
    MachineDecidesCoverage(t, n);
    var ks := AllKeys(t, [], 0);
    var stack := START;
    ghost var verdict := Run(START, ks);
    assert ks[0..] == ks;
    for i := 0 to |ks|
      invariant Run(stack, ks[i..]) == verdict
    {
      assert ks[i..][0] == ks[i] && ks[i..][1..] == ks[i + 1..];
      var p := ks[i];
      if |p| < |Last(stack)| { return false; }
      var matched := false;
      ghost var next := Absorb(stack, p);
      while !matched && |p| == |Last(stack)|
        invariant matched ==> next == Running(stack)
        invariant !matched ==> stack != [] && next == Absorb(stack, p) && !next.Crashed?
        decreases !matched, |stack|
      {
        if |p| == 1 && Last(stack) == p {
          stack, matched := DropLast(stack), true;
        } else {
          stack, p := DropLast(stack), DropLast(p);
        }
      }
      if !matched { stack := stack + [FlipLastBit(p)]; }
    }
    assert ks[|ks|..] == [];
    return stack == [];
  }
}
