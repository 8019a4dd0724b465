/** Exploring the swarm around a prefix: which lookups are needed to find every peer under it.
    A peer is identified with its Kademlia identifier. */
module Exploration {
  import opened Keys
  import opened Sequences
  import opened Tries
  import opened TrieOps
  import opened NextLeaf
  import opened Gaps
  import opened Coverage
  import opened Schedules

  const MAX_SEARCHES: nat := 64
  const MAX_NO_FRESH_PEERS: nat := 2

  function FirstFullKeyWithPrefix(k: Key, order: Key): Key {
    if |k| > |order| then k[..|order|] else k + order[|k|..]
  }

  /** Of the full keys with a prefix it is the first around `order`. */
  lemma FirstFullKeyComesFirst(k: Key, order: Key, f: Key)
    requires |k| <= |order| == |f| && k <= f && f != FirstFullKeyWithPrefix(k, order)
    ensures Before(order, FirstFullKeyWithPrefix(k, order), f)
  {
    var first := FirstFullKeyWithPrefix(k, order);
    var c := CommonPrefixLength(first, f);
    assert first[..|first|] == first && f[..|f|] == f;
    assert forall i {:trigger first[i]} :: 0 <= i < |k| ==> first[i] == f[i];
  }

  // ---------------------------------------------------------------- the prefix a lookup covers

  ghost predicate ByDistance(target: Key, ps: seq<Key>) {
    && (forall i :: 0 <= i < |ps| ==> |ps[i]| == |target|)
    && (forall i, j :: 0 <= i < j < |ps| ==> Distance(target, ps[i]) <= Distance(target, ps[j]))
  }

  function InsertPeer(p: Key, ps: seq<Key>, target: Key): seq<Key>
    requires |p| == |target| && forall x :: x in ps ==> |x| == |target|
  {
    if ps == [] || Distance(target, p) <= Distance(target, ps[0]) then [p] + ps
    else [ps[0]] + InsertPeer(p, ps[1..], target)
  }

  function SortClosestPeers(ps: seq<Key>, target: Key): (r: seq<Key>)
    requires forall x :: x in ps ==> |x| == |target|
    ensures forall x :: x in r <==> x in ps
  {
    if ps == [] then []
    else
      assert ps == [ps[0]] + ps[1..];
      InsertMembers(ps[0], SortClosestPeers(ps[1..], target), target);
      InsertPeer(ps[0], SortClosestPeers(ps[1..], target), target)
  }

  lemma {:induction false} InsertMembers(p: Key, ps: seq<Key>, target: Key)
    requires |p| == |target| && forall x :: x in ps ==> |x| == |target|
    ensures forall x :: x in InsertPeer(p, ps, target) <==> x == p || x in ps
  {
    if ps == [] {
    } else {
      InsertMembers(p, ps[1..], target);
      assert ps == [ps[0]] + ps[1..];
    }
  }

  /** `a` is not farther from the target than any peer of the list. */
  ghost predicate Leads(a: Key, ps: seq<Key>, target: Key) {
    |a| == |target| &&
    forall i :: 0 <= i < |ps| ==> |ps[i]| == |target| && Distance(target, a) <= Distance(target, ps[i])
  }

  lemma ConsIsSorted(a: Key, ps: seq<Key>, target: Key)
    requires ByDistance(target, ps) && Leads(a, ps, target)
    ensures ByDistance(target, [a] + ps)
  {
  }

  lemma {:induction false} InsertIsSorted(p: Key, ps: seq<Key>, target: Key)
    requires |p| == |target| && (forall x :: x in ps ==> |x| == |target|) && ByDistance(target, ps)
    ensures ByDistance(target, InsertPeer(p, ps, target))
  {
    if ps == [] || Distance(target, p) <= Distance(target, ps[0]) {
      ConsIsSorted(p, ps, target);
    } else {
      InsertIsSorted(p, ps[1..], target);
      HeadStaysFirst(p, ps, target);
      ConsIsSorted(ps[0], InsertPeer(p, ps[1..], target), target);
    }
  }

  lemma HeadStaysFirst(p: Key, ps: seq<Key>, target: Key)
    requires |p| == |target| && (forall x :: x in ps ==> |x| == |target|) && ByDistance(target, ps)
    requires ps != [] && Distance(target, ps[0]) < Distance(target, p)
    ensures Leads(ps[0], InsertPeer(p, ps[1..], target), target)
  {
    var r := InsertPeer(p, ps[1..], target);
    InsertMembers(p, ps[1..], target);
    forall i | 0 <= i < |r| ensures |r[i]| == |target| && Distance(target, ps[0]) <= Distance(target, r[i]) {
      assert r[i] in r;
      if r[i] != p { var j :| 0 <= j < |ps[1..]| && ps[1..][j] == r[i]; assert ps[j + 1] == r[i]; }
    }
  }

  lemma {:induction false} SortIsSorted(ps: seq<Key>, target: Key)
    requires forall x :: x in ps ==> |x| == |target|
    ensures ByDistance(target, SortClosestPeers(ps, target))
  {
    if ps == [] {
    } else {
      SortIsSorted(ps[1..], target);
      InsertIsSorted(ps[0], SortClosestPeers(ps[1..], target), target);
    }
  }

  /** A peer that shares fewer bits with the target is farther from it. */
  lemma FartherByPrefix(target: Key, a: Key, b: Key)
    requires |a| == |b| == |target| && CommonPrefixLength(target, a) > CommonPrefixLength(target, b)
    ensures Distance(target, a) < Distance(target, b)
  {
    var c := CommonPrefixLength(target, b);
    assert a[..c] == a[..CommonPrefixLength(target, a)][..c] == target[..c] == b[..c];
    assert a[c] == a[..CommonPrefixLength(target, a)][c] == target[c];
    CloserAtFork(target, a, b, c);
  }

  lemma UnderByPrefixLength(target: Key, m: nat, p: Key)
    requires m < |target| == |p|
    ensures target[..m + 1] <= p <==> CommonPrefixLength(target, p) > m
  {
    var c := CommonPrefixLength(target, p);
    if c > m { assert target[..m + 1] == target[..c][..m + 1] == p[..c][..m + 1] == p[..m + 1]; }
    if target[..m + 1] <= p {
      assert forall i {:trigger target[i]} :: 0 <= i < m + 1 ==> target[i] == target[..m + 1][i] == p[i];
    }
  }

  /** In a list sorted by distance, the peers before the first one that shares the fewest bits are those that
      share more. */
  lemma CoveredPeers(target: Key, sorted: seq<Key>, m: nat, last: nat, p: Key)
    requires ByDistance(target, sorted) && last < |sorted| && CommonPrefixLength(target, sorted[last]) == m < |target|
    requires p in sorted && target[..m + 1] <= p
    ensures p in sorted[..last]
  {
    var j :| 0 <= j < |sorted| && sorted[j] == p;
    UnderByPrefixLength(target, m, p);
    FartherByPrefix(target, p, sorted[last]);
    assert j < last;
    assert sorted[..last][j] == p;
  }

  lemma SharesAllBits(target: Key, p: Key)
    requires |p| == |target|
    ensures CommonPrefixLength(target, p) == |target| <==> p == target
  {
    assert target[..|target|] == target && p[..|p|] == p;
    if p == target { CommonPrefixLengthIs(target, p, |p|); }
  }

  /** `prefix` is a prefix of the target that one of the peers just misses. */
  ghost predicate JustMissed(target: Key, peers: seq<Key>, prefix: Key) {
    prefix != [] && exists p :: p in peers && CommonPrefixLength(target, p) == |prefix| - 1
  }

  /** The fewest bits shared with the target in a list, and the first peer that shares no more. */
  ghost predicate FewestBits(target: Key, sorted: seq<Key>, n: nat, fewest: nat, first: nat) {
    && n <= |sorted| && fewest <= |target|
    && (forall j :: 0 <= j < n ==> CommonPrefixLength(target, sorted[j]) >= fewest)
    && (fewest == |target| ==> first == 0)
    && (fewest < |target| ==> first < n && CommonPrefixLength(target, sorted[first]) == fewest)
    && forall j :: 0 <= j < first && j < n ==> CommonPrefixLength(target, sorted[j]) > fewest
  }

  lemma CoveredIsExact(target: Key, sorted: seq<Key>, m: nat, last: nat)
    requires ByDistance(target, sorted) && FewestBits(target, sorted, |sorted|, m, last) && m < |target|
    ensures forall p :: p in sorted[..last] <==> p in sorted && target[..m + 1] <= p
  {
    forall p | p in sorted && target[..m + 1] <= p
      ensures p in sorted[..last]
    {
      CoveredPeers(target, sorted, m, last, p);
    }
    forall p | p in sorted[..last] ensures p in sorted && target[..m + 1] <= p {
      var j :| 0 <= j < last && sorted[j] == p;
      UnderByPrefixLength(target, m, p);
    }
  }

  lemma AllOnTarget(target: Key, sorted: seq<Key>, last: nat)
    requires FewestBits(target, sorted, |sorted|, |target|, last) && forall p :: p in sorted ==> |p| == |target|
    ensures forall p :: p in sorted ==> p == target
  {
    forall p | p in sorted ensures p == target {
      var j :| 0 <= j < |sorted| && sorted[j] == p;
      SharesAllBits(target, p);
    }
  }

  method FindFewestBits(target: Key, sorted: seq<Key>) returns (minCpl: nat, coveredCpl: nat, last: nat)
    ensures FewestBits(target, sorted, |sorted|, minCpl, last)
    ensures coveredCpl == if minCpl < |target| then minCpl + 1 else 0
  {
    minCpl, coveredCpl, last := |target|, 0, 0;
    for i := 0 to |sorted|
      invariant FewestBits(target, sorted, i, minCpl, last)
      invariant coveredCpl == if minCpl < |target| then minCpl + 1 else 0
    {
      var cpl := CommonPrefixLength(target, sorted[i]);
      if cpl < minCpl { coveredCpl, last, minCpl := cpl + 1, i, cpl; }
    }
  }

  /** What a lookup of `target` that returned `peers` is taken to cover: the shortest prefix that one of the peers
      just misses, with exactly the peers under it. If every peer is the target itself, this is the empty prefix
      without peers. */
  ghost predicate ShortestCover(target: Key, peers: seq<Key>, prefix: Key, covered: seq<Key>) {
    && prefix <= target && (forall p :: p in covered ==> p in peers)
    && (peers == [] ==> prefix == target && covered == [])
    && (peers != [] && (forall p :: p in peers ==> p == target) ==> prefix == [] && covered == [])
    && ((exists p :: p in peers && p != target) ==>
         && JustMissed(target, peers, prefix)
         && (forall p :: p in peers ==> CommonPrefixLength(target, p) >= |prefix| - 1)
         && (forall p :: p in covered <==> p in peers && prefix <= p))
  }

  /** The shortest prefix of `target` whose peers are all among the given closest peers, and those peers.
      If every given peer is the target itself, the result is the empty prefix without peers. */
  method ShortestCoveredPrefix(target: Key, peers: seq<Key>) returns (prefix: Key, covered: seq<Key>)
    requires forall p :: p in peers ==> |p| == |target|
    ensures ShortestCover(target, peers, prefix, covered)
  {
    if peers == [] { return target, []; }
    var sorted := SortClosestPeers(peers, target);
    SortIsSorted(peers, target);
    var minCpl, coveredCpl, last := FindFewestBits(target, sorted);
    prefix, covered := target[..coveredCpl], sorted[..last];
    if minCpl < |target| {
      assert sorted[last] in sorted;
      SharesAllBits(target, sorted[last]);
      CoveredIsExact(target, sorted, minCpl, last);
      forall p | p in peers ensures CommonPrefixLength(target, p) >= minCpl {
        var j :| 0 <= j < |sorted| && sorted[j] == p;
      }
    } else {
      AllOnTarget(target, sorted, last);
    }
  }

  // ---------------------------------------------------------------- exact lookups

  /** The router answers with the closest peers: whoever is left out is farther than whoever is returned. */
  ghost predicate Exact(peers: set<Key>, target: Key, answer: seq<Key>) {
    && (forall p :: p in answer ==> p in peers && |p| == |target|)
    && (forall p, q :: p in answer && q in peers && q !in answer && |q| == |target| ==>
      Distance(target, p) < Distance(target, q))
  }

  /** An exact answer with a peer that just misses a prefix holds every peer under the prefix. */
  lemma AnswerCovers(peers: set<Key>, target: Key, answer: seq<Key>, prefix: Key, q: Key)
    requires Exact(peers, target, answer) && prefix <= target && JustMissed(target, answer, prefix)
    requires q in peers && |q| == |target| && prefix <= q
    ensures q in answer
  {
    var p :| p in answer && CommonPrefixLength(target, p) == |prefix| - 1;
    assert target[..|prefix|] == prefix;
    UnderByPrefixLength(target, |prefix| - 1, q);
    FartherByPrefix(target, q, p);
  }

  /** The covered peers of an exact answer are all peers under the covered prefix exactly if some returned peer
      does not lie on the looked-up key. */
  method CoverIsExactIff(target: Key, answer: seq<Key>, ghost peers: set<Key>) returns (prefix: Key, covered: seq<Key>)
    requires answer != [] && Exact(peers, target, answer)
    ensures prefix <= target && forall p :: p in covered ==> p in peers
    ensures (forall q :: q in peers && |q| == |target| && prefix <= q ==> q in covered) <==>
      exists p :: p in answer && p != target
  {
    prefix, covered := ShortestCoveredPrefix(target, answer);
    if exists p :: p in answer && p != target {
      forall q | q in peers && |q| == |target| && prefix <= q ensures q in covered {
        AnswerCovers(peers, target, answer, prefix, q);
      }
    } else {
      assert answer[0] in answer && answer[0] !in covered;
    }
  }

  /** If the only answer is a peer exactly on the looked-up key, the whole keyspace is taken to be covered, and
      by no peer at all. */
  method LonePeerOnKey(t: Key) returns (prefix: Key, covered: seq<Key>)
    ensures Exact({t}, t, [t]) && prefix == [] && t !in covered
  {
    prefix, covered := ShortestCoveredPrefix(t, [t]);
  }

  // ---------------------------------------------------------------- the trie of covered prefixes

  /** Every position above `target` is an inner node. */
  ghost predicate NodesDown<D>(t: Trie<D>, depth: nat, target: Key)
    decreases t
  {
    depth >= |target| || (t.Node? && NodesDown(Branch(t, target[depth]), depth + 1, target))
  }

  /** All covered prefixes extend the explored prefix, and none sits above it unless it is the whole trie. */
  ghost predicate Explored(t: Trie<()>, prefix: Key) {
    && WF(t, []) && (forall k :: k in Content(t) ==> prefix <= k)
    && (t.Node? ==> NodesDown(t, 0, prefix))
  }

  lemma {:induction false} NodesDownReaches<D>(t: Trie<D>, depth: nat, target: Key)
    requires t.Node? && depth < |target| && NodesDown(t, depth, target)
    ensures Reaches(t, depth, target)
    decreases t
  {
    if depth + 1 < |target| { NodesDownReaches(Branch(t, target[depth]), depth + 1, target); }
  }

  lemma {:induction false} NodesDownShorter<D>(t: Trie<D>, depth: nat, target: Key, shorter: Key)
    requires NodesDown(t, depth, target) && shorter <= target
    ensures NodesDown(t, depth, shorter)
    decreases t
  {
    if depth >= |shorter| {
    } else {
      NodesDownShorter(Branch(t, target[depth]), depth + 1, target, shorter);
    }
  }

  lemma {:induction false} NodesDownAdd<D>(t: Trie<D>, k: Key, d: D, depth: nat, target: Key)
    requires target <= k && NodesDown(t, depth, target)
    ensures NodesDown(AddAt(t, k, d, depth), depth, target)
    decreases t
  {
    if depth >= |target| {
    } else {
      assert k[depth] == target[depth];
      NodesDownAdd(Branch(t, target[depth]), k, d, depth + 1, target);
    }
  }

  lemma {:induction false} NodesDownSplit<D>(t: Trie<D>, k: Key, d: D, depth: nat, target: Key)
    requires t.Leaf? && target <= k && target <= t.key && !Comparable(k, t.key)
    ensures NodesDown(AddAt(t, k, d, depth), depth, target)
    decreases |target| - depth
  {
    if depth >= |target| {
    } else {
      assert k[depth] == target[depth] == t.key[depth];
      NodesDownSplit(t, k, d, depth + 1, target);
    }
  }

  lemma {:induction false} NodesDownPrune<D>(t: Trie<D>, k: Key, depth: nat, target: Key, path: Key)
    requires WF(t, path) && |path| == depth && (forall p :: p in Content(t) ==> target <= p)
    requires target <= k && path <= k && NodesDown(t, depth, target)
    ensures PruneAt(t, k, depth).trie.Empty? || NodesDown(PruneAt(t, k, depth).trie, depth, target)
    ensures PruneAt(t, k, depth).trie.Empty? ==> PruneAt(t, k, depth).emptied || t.Empty?
    decreases t
  {
    PruneAtSpec(t, k, path);
    if depth >= |target| {
    } else {
      var b := target[depth];
      assert k[depth] == b;
      var x, y := Branch(t, b), Branch(t, !b);
      StepPath(path, b, k);
      BranchKeys(t, path, b);
      EmptyOffPath(t, path, target);
      NodesDownPrune(x, k, depth + 1, target, path + [b]);
      PruneAtSpec(x, k, path + [b]);
    }
  }

  /** Above the explored prefix the branch off the path is empty. */
  lemma EmptyOffPath<D>(t: Trie<D>, path: Key, target: Key)
    requires t.Node? && WF(t, path) && |path| < |target| && forall p :: p in Content(t) ==> target <= p
    ensures Branch(t, !target[|path|]).Empty?
  {
    var y := Branch(t, !target[|path|]);
    BranchKeys(t, path, !target[|path|]);
    if !y.Empty? {
      var p := NonEmptyHasKey(y, path + [!target[|path|]]);
      StepPath(path, !target[|path|], p);
    }
  }

  /** Either the explored prefix is above all covered ones, or a single covered prefix holds all of it. */
  ghost predicate Placed(t: Trie<()>, prefix: Key) {
    Explored(t, prefix) || (t.Leaf? && t.key <= prefix)
  }

  lemma PlacedIsExact(t: Trie<()>, prefix: Key)
    requires Placed(t, prefix)
    ensures WF(t, []) && GapsAreExact(t, prefix)
  {
    if t.Node? && prefix != [] { NodesDownReaches(t, 0, prefix); }
  }

  lemma PlacedShorter(t: Trie<()>, prefix: Key, shorter: Key)
    requires Placed(t, prefix) && shorter <= prefix
    ensures Placed(t, shorter)
  {
    if Explored(t, prefix) {
      if t.Node? { NodesDownShorter(t, 0, prefix, shorter); }
    } else {
      PrefixesOfOneKey(t.key, shorter, prefix);
    }
  }

  lemma PlacedWithGaps(t: Trie<()>, prefix: Key, order: Key)
    requires Placed(t, prefix) && TrieGaps(t, prefix, order) != []
    ensures Explored(t, prefix)
  {
    if t.Leaf? && prefix == t.key { assert SiblingPrefixes(t.key)[|prefix|..] == []; }
  }

  /** Recording a covered prefix of a key under the explored prefix. */
  lemma ExploredStep(t: Trie<()>, prefix: Key, c: Key)
    requires Explored(t, prefix) && Comparable(c, prefix)
    ensures Placed(WithRegion(t, c), prefix)
  {
    FindPrefix(t, c);
    if !HasPrefixOf(t, c) {
      PruneSpec(t, c);
      ReplaceSpec(t, c, ());
      var p := PruneSubtrie(t, c);
      KeysUnderPath(p, []);
      if prefix <= c {
        if t.Node? {
          NodesDownPrune(t, c, 0, prefix, []);
          if p.Node? { NodesDownAdd(p, c, (), 0, prefix); }
        } else if p.Leaf? {
          assert p.key in Content(p);
          NodesDownSplit(p, c, (), 0, prefix);
        }
      } else {
        assert Content(p) == map[];
      }
    }
  }

  ghost predicate Collected(t: Trie<()>, peers: set<Key>, found: set<Key>, n: nat) {
    forall p, q :: p in Content(t) && q in peers && |q| == n && p <= q ==> q in found
  }

  /** Without gaps, every peer under the prefix has been collected. */
  lemma NoGapsMeansAll(t: Trie<()>, prefix: Key, order: Key, peers: set<Key>, found: set<Key>, q: Key)
    requires Placed(t, prefix) && Short(t, |order|) && |prefix| <= |order| && TrieGaps(t, prefix, order) == []
    requires Collected(t, peers, found, |order|) && q in peers && |q| == |order| && prefix <= q
    ensures q in found
  {
    PlacedIsExact(t, prefix);
    GapsComplementIff(t, prefix, order, |order|);
    assert HasPrefixOf(t, q);
  }

  /** What holds after the region of a lookup has been added to the coverage. */
  lemma RegionExplored(t: Trie<()>, prefix: Key, c: Key, n: nat)
    requires Explored(t, prefix) && Comparable(c, prefix) && Short(t, n) && |c| <= n
    ensures Placed(WithRegion(t, c), prefix) && Short(WithRegion(t, c), n)
  {
    ExploredStep(t, prefix, c);
    WithRegionSpec(t, c);
  }

  /** The router always answers with the closest peers, and not only with peers that lie on the looked-up key. */
  ghost predicate Faithful(router: Key -> seq<Key>, peers: set<Key>, n: nat) {
    forall t :: |t| == n ==> Exact(peers, t, router(t)) && (router(t) == [] || exists p :: p in router(t) && p != t)
  }

  /** Peers have full identifiers. */
  ghost predicate FullAnswers(router: Key -> seq<Key>, n: nat) {
    forall t, p :: |t| == n && p in router(t) ==> |p| == n
  }

  /** All peers under `c` are among the delivered ones, and those are peers. */
  ghost predicate Delivers(c: Key, covered: seq<Key>, peers: set<Key>, n: nat) {
    && (forall q :: q in covered ==> q in peers)
    && (forall q :: q in peers && |q| == n && c <= q ==> q in covered)
  }

  // ---------------------------------------------------------------- the search

  /** One lookup of a search: the looked-up key, the prefix it was taken to cover, and the peers under it. */
  datatype Lookup = Lookup(target: Key, prefix: Key, covered: seq<Key>)

  ghost function FoundBy(log: seq<Lookup>): set<Key> {
    if log == [] then {} else FoundBy(log[..|log| - 1]) + Members(log[|log| - 1].covered)
  }

  ghost predicate Answered(l: Lookup, router: Key -> seq<Key>, n: nat) {
    |l.target| == n && router(l.target) != [] && ShortestCover(l.target, router(l.target), l.prefix, l.covered)
  }

  ghost predicate CoveredBy(log: seq<Lookup>, f: Key) {
    exists i :: 0 <= i < |log| && log[i].prefix <= f
  }

  ghost function AnsweredBy(router: Key -> seq<Key>, n: nat): Lookup -> bool {
    l => Answered(l, router, n)
  }

  /** Every lookup was answered, and none was for a key that an earlier one had covered. */
  ghost predicate Logged(log: seq<Lookup>, answered: Lookup -> bool) {
    && (forall i :: 0 <= i < |log| ==> answered(log[i]))
    && (forall i, j :: 0 <= i < j < |log| ==> !(log[i].prefix <= log[j].target))
  }

  /** The last `k` lookups found nobody new. */
  ghost predicate Stale(log: seq<Lookup>, k: nat) {
    k <= |log| && FoundBy(log) == FoundBy(log[..|log| - k])
  }

  ghost predicate NeverStale(log: seq<Lookup>, k: nat) {
    forall j :: k <= j <= |log| ==> !Stale(log[..j], k)
  }

  lemma {:induction false} FoundByPrefix(log: seq<Lookup>, i: nat)
    requires i <= |log|
    ensures FoundBy(log[..i]) <= FoundBy(log)
    decreases |log|
  {
    if i == |log| {
      assert log[..i] == log;
    } else {
      FoundByPrefix(log[..|log| - 1], i);
      assert log[..|log| - 1][..i] == log[..i];
    }
  }

  lemma FoundByMore(log: seq<Lookup>, l: Lookup)
    ensures FoundBy(log + [l]) == FoundBy(log) + Members(l.covered)
  {
    assert (log + [l])[..|log|] == log;
  }

  lemma StaleIsShorter(log: seq<Lookup>, k: nat, k': nat)
    requires Stale(log, k) && k' <= k
    ensures Stale(log, k')
  {
    var i := |log| - k';
    FoundByPrefix(log, i);
    FoundByPrefix(log[..i], |log| - k);
    assert log[..i][..|log| - k] == log[..|log| - k];
  }

  /** `k` counts the lookups since somebody new was found. */
  ghost predicate Counts(log: seq<Lookup>, k: nat) {
    Stale(log, k) && (k < |log| ==> !Stale(log, k + 1))
  }

  lemma CountMore(log: seq<Lookup>, l: Lookup, k: nat)
    requires Counts(log, k)
    ensures Counts(log + [l], if FoundBy(log + [l]) == FoundBy(log) then k + 1 else 0)
  {
    var log' := log + [l];
    assert log'[..|log'|] == log' && log'[..|log|] == log;
    assert log'[..|log| - k] == log[..|log| - k];
    if k < |log| { assert log'[..|log| - k - 1] == log[..|log| - k - 1]; }
  }

  lemma NeverStaleMore(log: seq<Lookup>, l: Lookup, k: nat, max: nat)
    requires NeverStale(log, max) && Counts(log + [l], k) && k < max
    ensures NeverStale(log + [l], max)
  {
    var log' := log + [l];
    forall j | max <= j <= |log'| ensures !Stale(log'[..j], max) {
      if j == |log'| {
        assert log'[..j] == log';
        if Stale(log', max) { StaleIsShorter(log', max, k + 1); }
      } else {
        assert log'[..j] == log[..j];
      }
    }
  }

  // ---------------------------------------------------------------- a search for one prefix

  ghost predicate SameCoverage(coverage: Trie<()>, log: seq<Lookup>) {
    forall f :: HasPrefixOf(coverage, f) <==> CoveredBy(log, f)
  }

  lemma CoverMore(coverage: Trie<()>, log: seq<Lookup>, l: Lookup)
    requires WF(coverage, []) && SameCoverage(coverage, log)
    ensures SameCoverage(WithRegion(coverage, l.prefix), log + [l])
  {
    var log' := log + [l];
    forall f ensures HasPrefixOf(WithRegion(coverage, l.prefix), f) <==> CoveredBy(log', f) {
      WithRegionCoverage(coverage, l.prefix, f);
      assert CoveredBy(log', f) <==> CoveredBy(log, f) || l.prefix <= f by {
        assert log'[|log|] == l;
        assert forall i :: 0 <= i < |log| ==> log'[i] == log[i];
      }
    }
  }

  /** The log of a search: it begins with the key `first`, and the last `k` lookups found nobody new. */
  ghost predicate Searched(log: seq<Lookup>, answered: Lookup -> bool, first: Key, k: nat) {
    Logged(log, answered) && Counts(log, k) && (log != [] ==> log[0].target == first)
  }

  lemma SearchMore(log: seq<Lookup>, l: Lookup, answered: Lookup -> bool, first: Key, k: nat)
    requires Searched(log, answered, first, k) && answered(l) && !CoveredBy(log, l.target)
    requires log == [] ==> l.target == first
    ensures Searched(log + [l], answered, first, if FoundBy(log + [l]) == FoundBy(log) then k + 1 else 0)
  {
    CountMore(log, l, k);
  }

  /** A search that may go on: fewer than the allowed number of lookups in a row found nobody new, now and before. */
  ghost predicate Progressing(log: seq<Lookup>, answered: Lookup -> bool, first: Key, k: nat) {
    Searched(log, answered, first, k) && NeverStale(log, MAX_NO_FRESH_PEERS) && k < MAX_NO_FRESH_PEERS
  }

  /** The log of a search that may end here. */
  ghost predicate WellKept(log: seq<Lookup>, answered: Lookup -> bool, first: Key) {
    && log != [] && Logged(log, answered) && log[0].target == first
    && NeverStale(log[..|log| - 1], MAX_NO_FRESH_PEERS)
  }

  lemma LogMore(log: seq<Lookup>, l: Lookup, answered: Lookup -> bool, first: Key, k: nat, k': nat)
    requires Progressing(log, answered, first, k) && answered(l) && !CoveredBy(log, l.target)
    requires log == [] ==> l.target == first
    requires k' == if FoundBy(log + [l]) == FoundBy(log) then k + 1 else 0
    ensures WellKept(log + [l], answered, first)
    ensures if k' < MAX_NO_FRESH_PEERS then Progressing(log + [l], answered, first, k')
            else Stale(log + [l], MAX_NO_FRESH_PEERS)
  {
    SearchMore(log, l, answered, first, k);
    assert (log + [l])[..|log|] == log;
    if k' < MAX_NO_FRESH_PEERS { NeverStaleMore(log, l, k', MAX_NO_FRESH_PEERS); }
  }

  /** How many peers of full length lie under `p`. */
  ghost function PeersUnder(peers: set<Key>, p: Key, n: nat): set<Key> {
    set q | q in peers && |q| == n && p <= q
  }

  /** What a search with a faithful router knows: every lookup delivered all peers under its prefix, and every prefix
      that was given up for a shorter one has too few peers. */
  ghost predicate Truthful(log: seq<Lookup>, peers: set<Key>, n: nat, prefix0: Key, prefix: Key, enough: nat) {
    && (forall i :: 0 <= i < |log| ==> Delivers(log[i].prefix, log[i].covered, peers, n))
    && (forall p :: prefix < p && p <= prefix0 ==> |PeersUnder(peers, p, n)| < enough)
  }

  lemma {:induction false} DeliveredIsFound(log: seq<Lookup>, peers: set<Key>, n: nat)
    requires forall i :: 0 <= i < |log| ==> Delivers(log[i].prefix, log[i].covered, peers, n)
    ensures FoundBy(log) <= peers
    ensures forall q :: q in peers && |q| == n && CoveredBy(log, q) ==> q in FoundBy(log)
    decreases |log|
  {
    if log == [] {
    } else {
      var init, last := log[..|log| - 1], log[|log| - 1];
      DeliveredIsFound(init, peers, n);
      forall q | q in peers && |q| == n && CoveredBy(log, q) ensures q in FoundBy(log) {
        var i :| 0 <= i < |log| && log[i].prefix <= q;
        if i < |init| { assert init[i].prefix <= q; }
      }
    }
  }

  /** One lookup: what it is taken to cover and, from a faithful router, all peers there. */
  method LookUp(nextPrefix: Key, order: Key, router: Key -> seq<Key>, ghost prefix: Key, ghost peers: set<Key>)
    returns (l: Lookup, ok: bool)
    requires prefix <= nextPrefix && |nextPrefix| <= |order| && FullAnswers(router, |order|)
    ensures l.target == FirstFullKeyWithPrefix(nextPrefix, order) && |l.target| == |order|
    ensures ok <==> router(l.target) != []
    ensures ok ==> Answered(l, router, |order|) && Comparable(l.prefix, prefix) && |l.prefix| <= |order|
    ensures ok && Faithful(router, peers, |order|) ==> Delivers(l.prefix, l.covered, peers, |order|)
  {
    var fullKey := FirstFullKeyWithPrefix(nextPrefix, order);
    var closest := router(fullKey);
    assert |fullKey| == |order|;
    if closest == [] { return Lookup(fullKey, [], []), false; }
    var c, covered := ShortestCoveredPrefix(fullKey, closest);
    l, ok := Lookup(fullKey, c, covered), true;
    PrefixesOfOneKey(c, prefix, fullKey);
    if Faithful(router, peers, |order|) {
      forall q | q in peers && |q| == |order| && c <= q
        ensures q in covered
      {
        AnswerCovers(peers, fullKey, closest, c, q);
      }
    }
  }

  /** The prefixes from `prefix` up to `prefix0` that were given up have no gap left, so all their peers are found. */
  lemma GivenUpIsScarce(coverage: Trie<()>, log: seq<Lookup>, peers: set<Key>, order: Key, p: Key, enough: nat)
    requires Placed(coverage, p) && Short(coverage, |order|) && |p| <= |order| && TrieGaps(coverage, p, order) == []
    requires SameCoverage(coverage, log) && |FoundBy(log)| < enough
    requires forall i :: 0 <= i < |log| ==> Delivers(log[i].prefix, log[i].covered, peers, |order|)
    ensures |PeersUnder(peers, p, |order|)| < enough
  {
    DeliveredIsFound(log, peers, |order|);
    forall q | q in PeersUnder(peers, p, |order|) ensures q in FoundBy(log) {
      NoGapsMeansAll(coverage, p, order, peers, FoundBy(log), q);
    }
    var under := PeersUnder(peers, p, |order|);
    assert FoundBy(log) == under + (FoundBy(log) - under);
  }

  /** No prefix longer than `prefix`, up to `prefix0`, has a gap. */
  ghost predicate NoGapsBetween(coverage: Trie<()>, prefix: Key, prefix0: Key, order: Key) {
    forall p :: p <= prefix0 && |prefix| < |p| ==> TrieGaps(coverage, p, order) == []
  }

  /** After the gaps have been looked for, with a faithful router. */
  lemma StaysTruthful(coverage: Trie<()>, log: seq<Lookup>, peers: set<Key>, order: Key, prefix0: Key, prefix: Key,
                      prefix': Key, enough: nat)
    requires Truthful(log, peers, |order|, prefix0, prefix, enough) && SameCoverage(coverage, log)
    requires prefix' <= prefix <= prefix0 && |prefix0| <= |order| && Short(coverage, |order|)
    requires Placed(coverage, prefix)
    requires prefix' != prefix ==> |FoundBy(log)| < enough
    requires NoGapsBetween(coverage, prefix', prefix, order)
    ensures Truthful(log, peers, |order|, prefix0, prefix', enough)
  {
    forall p | prefix' < p && p <= prefix0 ensures |PeersUnder(peers, p, |order|)| < enough {
      PrefixesOfOneKey(p, prefix, prefix0);
      if p <= prefix {
        PlacedShorter(coverage, prefix, p);
        GivenUpIsScarce(coverage, log, peers, order, p, enough);
      }
    }
  }

  /** What a search returns. For any router: exactly the peers of its lookups, of which none repeats what an earlier one
      covered; it stops at the first run of lookups without new peers. It is complete only if its lookups cover the
      whole prefix and found enough peers, or the prefix is empty; otherwise it stopped after such a run, or after the
      last lookup allowed. */
  ghost predicate Outcome(found: set<Key>, complete: bool, prefix: Key, log: seq<Lookup>, router: Key -> seq<Key>,
                          order: Key, prefix0: Key, enough: nat)
  {
    && prefix <= prefix0 && found == FoundBy(log) && |log| <= MAX_SEARCHES
    && WellKept(log, AnsweredBy(router, |order|), FirstFullKeyWithPrefix(prefix0, order))
    && (complete ==> (|found| >= enough || prefix == []) && forall f :: |f| == |order| && prefix <= f ==>
      CoveredBy(log, f))
    && (!complete ==> |log| == MAX_SEARCHES || Stale(log, MAX_NO_FRESH_PEERS))
  }

  /** A search that goes on: `nextPrefix` is the gap to look into next. */
  ghost predicate Searching(prefix: Key, nextPrefix: Key, coverage: Trie<()>, log: seq<Lookup>, order: Key,
                            prefix0: Key) {
    && prefix <= prefix0 && prefix <= nextPrefix && |nextPrefix| <= |order|
    && Explored(coverage, prefix) && Short(coverage, |order|) && SameCoverage(coverage, log)
    && !HasPrefixOf(coverage, FirstFullKeyWithPrefix(nextPrefix, order))
  }

  /** Records a lookup and looks for the next gap. */
  method Extend(prefix: Key, coverage: Trie<()>, l: Lookup, enough: bool, order: Key, ghost nextPrefix: Key,
                ghost log: seq<Lookup>, ghost prefix0: Key)
    returns (prefix': Key, coverage': Trie<()>, nextPrefix': Key, complete: bool)
    requires Searching(prefix, nextPrefix, coverage, log, order, prefix0) && |prefix0| <= |order|
    requires Comparable(l.prefix, prefix) && |l.prefix| <= |order|
    ensures prefix' <= prefix && Short(coverage', |order|) && SameCoverage(coverage', log + [l])
    ensures Placed(coverage', prefix) && NoGapsBetween(coverage', prefix', prefix, order)
    ensures prefix' != prefix ==> !enough
    ensures complete ==> (enough || prefix' == []) && FullyCovered(coverage', prefix', |order|)
    ensures !complete ==> Searching(prefix', nextPrefix', coverage', log + [l], order, prefix0)
    ensures !complete ==> FirstUncovered(coverage', prefix', order, FirstFullKeyWithPrefix(nextPrefix', order))
  {
    RegionExplored(coverage, prefix, l.prefix, |order|);
    CoverMore(coverage, log, l);
    coverage' := WithRegion(coverage, l.prefix);
    var gaps;
    prefix', gaps, complete := NextGaps(coverage', prefix, order, enough);
    nextPrefix' := if complete then [] else gaps[0];
  }

  lemma AllCovered(coverage: Trie<()>, log: seq<Lookup>, prefix: Key, n: nat)
    requires SameCoverage(coverage, log) && FullyCovered(coverage, prefix, n)
    ensures forall f :: |f| == n && prefix <= f ==> CoveredBy(log, f)
  {
  }

  /** A complete search with a faithful router has found every peer under its prefix. */
  lemma TruthfulFindsAll(log: seq<Lookup>, peers: set<Key>, order: Key, prefix0: Key, prefix: Key, enough: nat)
    requires Truthful(log, peers, |order|, prefix0, prefix, enough)
    requires forall f :: |f| == |order| && prefix <= f ==> CoveredBy(log, f)
    ensures forall q :: q in peers && |q| == |order| && prefix <= q ==> q in FoundBy(log)
  {
    DeliveredIsFound(log, peers, |order|);
  }

  lemma TruthfulMore(log: seq<Lookup>, l: Lookup, peers: set<Key>, n: nat, prefix0: Key, prefix: Key, enough: nat)
    requires Truthful(log, peers, n, prefix0, prefix, enough) && Delivers(l.prefix, l.covered, peers, n)
    ensures Truthful(log + [l], peers, n, prefix0, prefix, enough)
  {
  }

  /** Adds peers, and counts how often in a row none of them was new. */
  method CountFresh(found: set<Key>, covered: seq<Key>, noFresh: nat) returns (found': set<Key>, noFresh': nat)
    ensures found' == found + Members(covered) && noFresh' == if found' == found then noFresh + 1 else 0
  {
    found' := found + Members(covered);
    SameCount(found, found');
    if |found'| <= |found| { noFresh' := noFresh + 1; } else { noFresh' := 0; }
  }

  /** The next lookup of a search, and the peers found with it. */
  method LookUpNext(prefix: Key, nextPrefix: Key, order: Key, router: Key -> seq<Key>, found: set<Key>, noFresh: nat,
                    ghost coverage: Trie<()>, ghost log: seq<Lookup>, ghost prefix0: Key, ghost peers: set<Key>)
    returns (l: Lookup, ok: bool, found': set<Key>, noFresh': nat)
    requires FullAnswers(router, |order|) && Searching(prefix, nextPrefix, coverage, log, order, prefix0)
    requires Progressing(log, AnsweredBy(router, |order|), FirstFullKeyWithPrefix(prefix0, order), noFresh)
    requires found == FoundBy(log) && (log == [] ==> nextPrefix == prefix0)
    ensures !ok ==> |l.target| == |order| && router(l.target) == []
    ensures ok ==> Comparable(l.prefix, prefix) && |l.prefix| <= |order| && found' == FoundBy(log + [l])
    ensures ok ==> WellKept(log + [l], AnsweredBy(router, |order|), FirstFullKeyWithPrefix(prefix0, order))
    ensures ok ==>
      if noFresh' >= MAX_NO_FRESH_PEERS then Stale(log + [l], MAX_NO_FRESH_PEERS)
      else Progressing(log + [l], AnsweredBy(router, |order|), FirstFullKeyWithPrefix(prefix0, order), noFresh')
    ensures ok && Faithful(router, peers, |order|) ==> Delivers(l.prefix, l.covered, peers, |order|)
  {
    found', noFresh' := found, noFresh;
    l, ok := LookUp(nextPrefix, order, router, prefix, peers);
    if !ok { return; }
    found', noFresh' := CountFresh(found, l.covered, noFresh);
    FoundByMore(log, l);
    LogMore(log, l, AnsweredBy(router, |order|), FirstFullKeyWithPrefix(prefix0, order), noFresh, noFresh');
  }

  /** How a turn of the search ends: a lookup returned nobody, the prefix is covered, too many lookups in a row found
      nobody new, or the search goes on. */
  datatype Status = Failed | Complete | Dry | Open

  /** Whatever the router is, everything a faithful one would promise. */
  ghost predicate TruthfulIf(faithful: bool, log: seq<Lookup>, peers: set<Key>, n: nat, prefix0: Key, prefix: Key,
                             enough: nat)
  {
    faithful ==> Truthful(log, peers, n, prefix0, prefix, enough)
  }

  /** One turn of the search. */
  method SearchOnce(prefix: Key, nextPrefix: Key, coverage: Trie<()>, found: set<Key>, noFresh: nat, order: Key,
                    router: Key -> seq<Key>, replicationFactor: nat, ghost log: seq<Lookup>, ghost prefix0: Key,
                    ghost peers: set<Key>)
    returns (status: Status, prefix': Key, nextPrefix': Key, coverage': Trie<()>, found': set<Key>, noFresh': nat,
             ghost log': seq<Lookup>)
    requires |prefix0| <= |order| && FullAnswers(router, |order|)
    requires Searching(prefix, nextPrefix, coverage, log, order, prefix0)
    requires Progressing(log, AnsweredBy(router, |order|), FirstFullKeyWithPrefix(prefix0, order), noFresh)
    requires found == FoundBy(log) && (log == [] ==> nextPrefix == prefix0)
    requires TruthfulIf(Faithful(router, peers, |order|), log, peers, |order|, prefix0, prefix, replicationFactor)
    ensures status.Failed? ==> exists t :: |t| == |order| && router(t) == []
    ensures !status.Failed? ==>
      && |log'| == |log| + 1 && found' == FoundBy(log') && prefix' <= prefix0
      && WellKept(log', AnsweredBy(router, |order|), FirstFullKeyWithPrefix(prefix0, order))
      && TruthfulIf(Faithful(router, peers, |order|), log', peers, |order|, prefix0, prefix', replicationFactor)
    ensures status.Complete? ==> |found'| >= replicationFactor || prefix' == []
    ensures status.Complete? ==> forall f :: |f| == |order| && prefix' <= f ==> CoveredBy(log', f)
    ensures status.Dry? ==> Stale(log', MAX_NO_FRESH_PEERS)
    ensures status.Open? ==>
      && Searching(prefix', nextPrefix', coverage', log', order, prefix0)
      && Progressing(log', AnsweredBy(router, |order|), FirstFullKeyWithPrefix(prefix0, order), noFresh')
  {
    status, prefix', nextPrefix', coverage', log' := Failed, prefix, nextPrefix, coverage, log;
    ghost var faithful := Faithful(router, peers, |order|);
    var l, ok;
    l, ok, found', noFresh' :=
      LookUpNext(prefix, nextPrefix, order, router, found, noFresh, coverage, log, prefix0, peers);
    if !ok { return; }
    log' := log + [l];
    if faithful { TruthfulMore(log, l, peers, |order|, prefix0, prefix, replicationFactor); }
    if noFresh' >= MAX_NO_FRESH_PEERS {
      status := Dry;
      return;
    }
    var complete;
    prefix', coverage', nextPrefix', complete :=
      Extend(prefix, coverage, l, |found'| >= replicationFactor, order, nextPrefix, log, prefix0);
    if faithful { StaysTruthful(coverage', log', peers, order, prefix0, prefix, prefix', replicationFactor); }
    if complete { AllCovered(coverage', log', prefix', |order|); }
    status := if complete then Complete else Open;
  }

  lemma SearchBegins(router: Key -> seq<Key>, peers: set<Key>, order: Key, prefix0: Key, enough: nat)
    requires |prefix0| <= |order|
    ensures Searching(prefix0, prefix0, Empty, [], order, prefix0)
    ensures Progressing([], AnsweredBy(router, |order|), FirstFullKeyWithPrefix(prefix0, order), 0)
    ensures TruthfulIf(Faithful(router, peers, |order|), [], peers, |order|, prefix0, prefix0, enough)
  {
  }

  /** Looks up keys in the gaps of what is covered so far. It fails only if a lookup returns nobody. */
  method ClosestPeersToPrefix(prefix0: Key, order: Key, router: Key -> seq<Key>, replicationFactor: nat,
                              ghost peers: set<Key>)
    returns (r: Option<set<Key>>, prefix: Key, complete: bool, ghost log: seq<Lookup>)
    requires |prefix0| <= |order| && FullAnswers(router, |order|)
    ensures r.Some? ==> Outcome(r.value, complete, prefix, log, router, order, prefix0, replicationFactor)
    ensures r.None? ==> exists t :: |t| == |order| && router(t) == []
    ensures r.Some? && Faithful(router, peers, |order|) ==>
      Truthful(log, peers, |order|, prefix0, prefix, replicationFactor)
    ensures r.Some? && complete && Faithful(router, peers, |order|) ==>
      forall q :: q in peers && |q| == |order| && prefix <= q ==> q in r.value
  {
    prefix, complete, log := prefix0, false, [];
    var status, i: nat, noFresh: nat := Open, 0, 0;
    ghost var faithful := Faithful(router, peers, |order|);
    ghost var answered, first := AnsweredBy(router, |order|), FirstFullKeyWithPrefix(prefix0, order);
    var found: set<Key>, nextPrefix, coverage: Trie<()> := {}, prefix0, Empty;
    SearchBegins(router, peers, order, prefix0, replicationFactor);
    while i < MAX_SEARCHES
      invariant i == |log| <= MAX_SEARCHES && found == FoundBy(log) && status.Open? && prefix <= prefix0
      invariant Searching(prefix, nextPrefix, coverage, log, order, prefix0) && (log == [] ==> nextPrefix == prefix0)
      invariant Progressing(log, answered, first, noFresh) && (log != [] ==> WellKept(log, answered, first))
      invariant TruthfulIf(faithful, log, peers, |order|, prefix0, prefix, replicationFactor)
      decreases MAX_SEARCHES - i
    {
      status, prefix, nextPrefix, coverage, found, noFresh, log :=
        SearchOnce(prefix, nextPrefix, coverage, found, noFresh, order, router, replicationFactor, log, prefix0, peers);
      if status.Failed? { return None, prefix, false, log; }
      if !status.Open? { break; }
      i := i + 1;
    }
    r, complete := Some(found), status.Complete?;
    if faithful && complete { TruthfulFindsAll(log, peers, order, prefix0, prefix, replicationFactor); }
  }

  lemma SameCount(a: set<Key>, b: set<Key>)
    requires a <= b
    ensures |b| <= |a| <==> a == b
  {
    assert b == a + (b - a);
  }

  /** `first` comes before every other full key under the prefix that is not covered. */
  ghost predicate FirstUncovered(coverage: Trie<()>, prefix: Key, order: Key, first: Key) {
    forall f :: |f| == |order| && prefix <= f && !HasPrefixOf(coverage, f) && f != first ==> Before(order, first, f)
  }

  /** The gaps left under the prefix. If there are none but peers are too few, the prefix is shortened just until
      there are some, or until the whole keyspace is covered. */
  method NextGaps(coverage: Trie<()>, prefix0: Key, order: Key, enough: bool)
    returns (prefix: Key, gaps: seq<Key>, complete: bool)
    requires Placed(coverage, prefix0) && Short(coverage, |order|) && |prefix0| <= |order|
    ensures prefix <= prefix0 && gaps == TrieGaps(coverage, prefix, order) && Placed(coverage, prefix)
    ensures NoGapsBetween(coverage, prefix, prefix0, order) && (prefix != prefix0 ==> !enough)
    ensures complete <==> gaps == []
    ensures complete ==> enough || prefix == []
    ensures complete ==> FullyCovered(coverage, prefix, |order|)
    ensures !complete ==> Explored(coverage, prefix) && prefix <= gaps[0] && |gaps[0]| <= |order|
    ensures !complete ==> !HasPrefixOf(coverage, FirstFullKeyWithPrefix(gaps[0], order))
    ensures !complete ==> FirstUncovered(coverage, prefix, order, FirstFullKeyWithPrefix(gaps[0], order))
  {
    prefix, complete := prefix0, false;
    gaps := TrieGaps(coverage, prefix, order);
    if gaps == [] {
      if enough {
        NoGapsLeft(coverage, prefix, order);
        return prefix, gaps, true;
      }
      while gaps == [] && |prefix| > 0
        invariant prefix <= prefix0 && gaps == TrieGaps(coverage, prefix, order) && Placed(coverage, prefix)
        invariant NoGapsBetween(coverage, prefix, prefix0, order)
        decreases |prefix|
      {
        PlacedShorter(coverage, prefix, prefix[..|prefix| - 1]);
        OneShorter(coverage, prefix, prefix0, order);
        prefix := prefix[..|prefix| - 1];
        gaps := TrieGaps(coverage, prefix, order);
      }
      if gaps == [] {
        NoGapsLeft(coverage, prefix, order);
        return prefix, gaps, true;
      }
    }
    PlacedWithGaps(coverage, prefix, order);
    InFirstGap(coverage, prefix, order, gaps);
  }

  lemma OneShorter(coverage: Trie<()>, prefix: Key, prefix0: Key, order: Key)
    requires prefix <= prefix0 && prefix != [] && TrieGaps(coverage, prefix, order) == []
    requires NoGapsBetween(coverage, prefix, prefix0, order)
    ensures NoGapsBetween(coverage, prefix[..|prefix| - 1], prefix0, order)
  {
    forall p: Key | p <= prefix0 && |prefix| <= |p| ensures TrieGaps(coverage, p, order) == [] {
      if |p| == |prefix| { assert p == prefix0[..|p|] == prefix; }
    }
  }

  lemma NoGapsLeft(coverage: Trie<()>, prefix: Key, order: Key)
    requires Placed(coverage, prefix) && Short(coverage, |order|) && |prefix| <= |order|
    requires TrieGaps(coverage, prefix, order) == []
    ensures FullyCovered(coverage, prefix, |order|)
  {
    PlacedIsExact(coverage, prefix);
    GapsComplementIff(coverage, prefix, order, |order|);
  }

  lemma InFirstGap(coverage: Trie<()>, prefix: Key, order: Key, gaps: seq<Key>)
    requires Placed(coverage, prefix) && Short(coverage, |order|) && |prefix| <= |order|
    requires gaps == TrieGaps(coverage, prefix, order) != []
    ensures prefix <= gaps[0] && |gaps[0]| <= |order| && !HasPrefixOf(coverage, FirstFullKeyWithPrefix(gaps[0], order))
    ensures FirstUncovered(coverage, prefix, order, FirstFullKeyWithPrefix(gaps[0], order))
  {
    PlacedIsExact(coverage, prefix);
    GapsComplementIff(coverage, prefix, order, |order|);
    assert gaps[0] in gaps;
    var first := FirstFullKeyWithPrefix(gaps[0], order);
    assert |first| == |order| && gaps[0] <= first && prefix <= first;
    forall f | |f| == |order| && prefix <= f && !HasPrefixOf(coverage, f) && f != first
      ensures Before(order, first, f)
    {
      FirstGapComesFirst(order, gaps, f);
    }
  }

  lemma FirstGapComesFirst(order: Key, gaps: seq<Key>, f: Key)
    requires Sorted(order, gaps) && gaps != [] && |gaps[0]| <= |order| == |f| && Holds(gaps, f)
    requires f != FirstFullKeyWithPrefix(gaps[0], order)
    ensures Before(order, FirstFullKeyWithPrefix(gaps[0], order), f)
  {
    var first := FirstFullKeyWithPrefix(gaps[0], order);
    var g :| g in gaps && g <= f;
    var j :| 0 <= j < |gaps| && gaps[j] == g;
    assert gaps[0] <= first;
    if j == 0 { FirstFullKeyComesFirst(g, order, f); } else { BeforeBelow(order, gaps[0], g, first, f); }
  }

  /** Keys below two ordered prefixes are ordered like them. */
  lemma BeforeBelow(order: Key, a: Key, b: Key, x: Key, y: Key)
    requires Before(order, a, b) && a <= x && b <= y
    ensures Before(order, x, y)
  {
    var c := CommonPrefixLength(a, b);
    assert x[..c] == a[..c] == b[..c] == y[..c];
    CommonPrefixLengthIs(x, y, c);
  }
}
