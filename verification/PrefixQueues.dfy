/** A queue of non-overlapping prefixes: a list for the order, a trie for the lookups. */
module PrefixQueues {
  import opened Keys
  import opened Sequences
  import opened Tries
  import opened TrieOps

  // ---------------------------------------------------------------- lists of prefixes

  /** `q` without the members of `gone`, in the same order. */
  function Without(q: seq<Key>, gone: set<Key>): seq<Key> {
    if q == [] then [] else (if q[0] in gone then [] else [q[0]]) + Without(q[1..], gone)
  }

  function FirstIndex(q: seq<Key>, gone: set<Key>): nat {
    if q == [] || q[0] in gone then 0 else 1 + FirstIndex(q[1..], gone)
  }

  lemma {:induction false} WithoutJoin(a: seq<Key>, b: seq<Key>, gone: set<Key>)
    ensures Without(a + b, gone) == Without(a, gone) + Without(b, gone)
  {
    if a == [] {
      assert a + b == b;
    } else {
      assert (a + b)[1..] == a[1..] + b;
      WithoutJoin(a[1..], b, gone);
    }
  }

  lemma {:induction false} WithoutMembers(q: seq<Key>, gone: set<Key>)
    ensures forall k :: k in Without(q, gone) <==> k in q && k !in gone
    ensures NoRepeats(q) ==> NoRepeats(Without(q, gone))
    ensures |Without(q, gone)| <= |q|
  {
    if q == [] {
    } else {
      WithoutMembers(q[1..], gone);
      assert q == [q[0]] + q[1..];
    }
  }

  lemma {:induction false} WithoutNone(q: seq<Key>, gone: set<Key>)
    requires forall k :: k in q ==> k !in gone
    ensures Without(q, gone) == q
  {
    if q == [] {
    } else {
      WithoutNone(q[1..], gone);
      assert q[0] in q;
    }
  }

  lemma {:induction false} FirstIndexSpec(q: seq<Key>, gone: set<Key>)
    ensures FirstIndex(q, gone) <= |q|
    ensures forall i :: 0 <= i < FirstIndex(q, gone) ==> q[i] !in gone
    ensures FirstIndex(q, gone) < |q| ==> q[FirstIndex(q, gone)] in gone
  {
    if q != [] && q[0] !in gone { FirstIndexSpec(q[1..], gone); }
  }

  lemma WithoutSplits(q: seq<Key>, gone: set<Key>, i: nat)
    requires i <= |q| && forall j :: 0 <= j < i ==> q[j] !in gone
    ensures Without(q, gone) == q[..i] + Without(q[i..], gone)
  {
    assert q == q[..i] + q[i..];
    WithoutJoin(q[..i], q[i..], gone);
    WithoutNone(q[..i], gone);
  }

  /** The members of `q` that extend `p`. */
  function Extensions(q: seq<Key>, p: Key): set<Key> {
    set k | k in q && p <= k
  }

  /** The queue after `p` has been pushed: extensions of `p` are merged into `p` at the place of the first
      of them; a `p` that extends a queued prefix changes nothing; any other `p` goes to the end. */
  function Pushed(q: seq<Key>, p: Key): seq<Key> {
    var gone := Extensions(q, p);
    if gone != {} then
      FirstIndexSpec(q, gone);
      var i := FirstIndex(q, gone);
      q[..i] + [p] + Without(q[i..], gone)
    else if exists k :: k in q && k <= p then q
    else q + [p]
  }

  // ---------------------------------------------------------------- removing by position

  ghost predicate Descending(s: seq<nat>) {
    forall i, j :: 0 <= i < j < |s| ==> s[i] > s[j]
  }

  method SortDescending(s: seq<nat>) returns (r: seq<nat>)
    requires forall i, j :: 0 <= i < j < |s| ==> s[i] != s[j]
    ensures Descending(r) && |r| == |s| && forall x :: x in r <==> x in s
  {
    r := [];
    for n := 0 to |s|
      invariant Descending(r) && |r| == n && forall x :: x in r <==> x in s[..n]
    {
      var k := 0;
      while k < |r| && r[k] > s[n]
        invariant k <= |r| && forall i :: 0 <= i < k ==> r[i] > s[n]
      {
        k := k + 1;
      }
      assert s[..n + 1] == s[..n] + [s[n]];
      if k < |r| { assert r[k] in r; }
      r := r[..k] + [s[n]] + r[k..];
    }
    assert s[..|s|] == s;
  }

  /** Removing one more marked position, counted from the end. */
  lemma RemoveStep(q: seq<Key>, gone: set<Key>, i: nat, b: nat)
    requires i < b <= |q| && q[i] in gone && forall j :: i < j < b ==> q[j] !in gone
    ensures var r := q[..b] + Without(q[b..], gone);
      r[..i] + r[i + 1..] == q[..i] + Without(q[i..], gone)
  {
    var rest := Without(q[b..], gone);
    RemoveAt(q, rest, i, b);
    assert q[i..][1..] == q[i + 1..];
    assert q[i + 1..][..b - i - 1] == q[i + 1..b] && q[i + 1..][b - i - 1..] == q[b..];
    WithoutSplits(q[i + 1..], gone, b - i - 1);
  }

  lemma RemoveAt(q: seq<Key>, rest: seq<Key>, i: nat, b: nat)
    requires i < b <= |q|
    ensures (q[..b] + rest)[..i] + (q[..b] + rest)[i + 1..] == q[..i] + (q[i + 1..b] + rest)
  {
  }

  /** The positions of the members of `ps` in `q`. */
  method Positions(q: seq<Key>, ps: seq<Key>) returns (indexes: seq<nat>)
    requires forall p :: p in ps ==> p in q
    ensures |indexes| == |ps| && forall m :: 0 <= m < |ps| ==> indexes[m] < |q| && q[indexes[m]] == ps[m]
  {
    indexes := [];
    for n := 0 to |ps|
      invariant |indexes| == n && forall m :: 0 <= m < n ==> indexes[m] < |q| && q[indexes[m]] == ps[m]
    {
      assert ps[n] in ps;
      FirstIndexSpec(q, {ps[n]});
      indexes := indexes + [FirstIndex(q, {ps[n]})];
    }
  }

  /** Removing positions in descending order, so that the remaining positions stay valid. */
  method RemovePositions(q: seq<Key>, indexes: seq<nat>, ghost gone: set<Key>) returns (r: seq<Key>)
    requires Descending(indexes) && forall i :: i in indexes <==> 0 <= i < |q| && q[i] in gone
    ensures r == Without(q, gone)
    ensures indexes != [] ==> indexes[|indexes| - 1] == FirstIndex(q, gone)
  {
    r := q;
    ghost var b := |q|;
    assert q[..b] == q && q[b..] == [];
    for n := 0 to |indexes|
      invariant b == if n == 0 then |q| else indexes[n - 1]
      invariant b <= |q| && r == q[..b] + Without(q[b..], gone)
    {
      var i := indexes[n];
      assert i in indexes;
      assert i < b;
      BetweenMarks(q, indexes, gone, n, b);
      RemoveStep(q, gone, i, b);
      r := r[..i] + r[i + 1..];
      b := i;
    }
    NoneBefore(q, indexes, gone, b);
    WithoutSplits(q, gone, b);
    FirstIndexSpec(q, gone);
  }

  lemma BetweenMarks(q: seq<Key>, indexes: seq<nat>, gone: set<Key>, n: nat, b: nat)
    requires Descending(indexes) && forall i :: i in indexes <==> 0 <= i < |q| && q[i] in gone
    requires n < |indexes| && b == if n == 0 then |q| else indexes[n - 1]
    ensures forall j :: indexes[n] < j < b && j < |q| ==> q[j] !in gone
  {
    forall j | indexes[n] < j < b && j < |q| ensures q[j] !in gone {
      assert j in indexes <==> q[j] in gone;
    }
  }

  lemma NoneBefore(q: seq<Key>, indexes: seq<nat>, gone: set<Key>, b: nat)
    requires Descending(indexes) && forall i :: i in indexes <==> 0 <= i < |q| && q[i] in gone
    requires b == if indexes == [] then |q| else indexes[|indexes| - 1]
    ensures forall j :: 0 <= j < b && j < |q| ==> q[j] !in gone
  {
    forall j | 0 <= j < b && j < |q| ensures q[j] !in gone {
      assert j in indexes <==> q[j] in gone;
    }
  }

  method RemoveKeys(t: Trie<()>, ps: seq<Key>) returns (r: Trie<()>)
    requires WF(t, [])
    ensures WF(r, []) && forall k :: k in Content(r) <==> k in Content(t) && k !in ps
  {
    r := t;
    for n := 0 to |ps|
      invariant WF(r, []) && forall k :: k in Content(r) <==> k in Content(t) && k !in ps[..n]
    {
      RemoveSpec(r, ps[n], []);
      r := Remove(r, ps[n], 0);
      assert ps[..n + 1] == ps[..n] + [ps[n]];
    }
    assert ps[..|ps|] == ps;
  }

  /** List and trie hold the same prefixes; prefixes of one trie never overlap. */
  ghost predicate Indexed(q: seq<Key>, t: Trie<()>) {
    WF(t, []) && NoRepeats(q) && forall k :: k in q <==> k in Content(t)
  }

  class PrefixQueue {
    var queue: seq<Key>
    var prefixes: Trie<()>

    ghost predicate Valid()
      reads this
    {
      Indexed(queue, prefixes)
    }

    constructor ()
      ensures Valid() && queue == []
    {
      queue, prefixes := [], Empty;
    }

    /** Removes queued prefixes from list and trie, and returns the position of the first removed one. */
    method RemovePrefixes(ps: seq<Key>, ghost gone: set<Key>) returns (first: nat)
      requires Valid() && ps != [] && NoRepeats(ps) && forall p :: p in ps <==> p in gone
      requires forall p :: p in ps ==> p in queue
      modifies this
      ensures Valid()
      ensures queue == Without(old(queue), gone) && first == FirstIndex(old(queue), gone)
    {
      var indexes := Positions(queue, ps);
      assert forall m :: 0 <= m < |ps| ==> ps[m] in ps;
      prefixes := RemoveKeys(prefixes, ps);
      var marks := SortDescending(indexes);
      MarksAreExact(queue, ps, gone, indexes, marks);
      WithoutMembers(queue, gone);
      queue := RemovePositions(queue, marks, gone);
      first := marks[|marks| - 1];
    }

    /** Removes `p` and everything that extends it; -1 if there is nothing to remove. */
    method RemoveSuperstrings(p: Key) returns (first: int)
      requires Valid()
      modifies this
      ensures Valid()
      ensures queue == Without(old(queue), Extensions(old(queue), p))
      ensures first == if Extensions(old(queue), p) == {} then -1 else FirstIndex(old(queue), Extensions(old(queue), p))
    {
      ghost var gone := Extensions(queue, p);
      WithoutNone(queue, {});
      var sub, found := FindSubtrie(prefixes, p);
      if !found {
        assert forall k :: k in gone ==> k in Content(prefixes) && p <= k;
        assert gone == {};
        return -1;
      }
      var ps := AllKeys(sub, [], 0);
      ExtensionsOf(sub, prefixes, p, []);
      first := RemovePrefixes(ps, gone);
    }

    method Push(p: Key)
      requires Valid()
      modifies this
      ensures Valid() && queue == Pushed(old(queue), p)
    {
      ghost var q := queue;
      MergeFits(q, prefixes, p);
      var first := RemoveSuperstrings(p);
      PushedMembers(q, p);
      if first >= 0 {
        FirstIndexSpec(q, Extensions(q, p));
        WithoutSplits(q, Extensions(q, p), first);
        WithoutMembers(q, Extensions(q, p));
        AddSpec(prefixes, p, ());
        queue := queue[..first] + [p] + queue[first..];
        prefixes := Add(prefixes, p, ());
      } else {
        WithoutNone(q, {});
        FindPrefix(prefixes, p);
        if !FindPrefixOfKey(prefixes, p, 0).1 {
          AddSpec(prefixes, p, ());
          queue := queue + [p];
          prefixes := Add(prefixes, p, ());
        }
      }
    }

    method PushEach(ps: seq<Key>)
      requires Valid()
      modifies this
      ensures Valid() && queue == PushedAll(old(queue), ps)
    {
      for i := 0 to |ps|
        invariant Valid() && queue == PushedAll(old(queue), ps[..i])
      {
        assert ps[..i + 1][..i] == ps[..i];
        Push(ps[i]);
      }
      assert ps[..|ps|] == ps;
    }

    method Pop() returns (p: Key, ok: bool)
      requires Valid()
      modifies this
      ensures Valid() && ok == (old(queue) != [])
      ensures if ok then p == old(queue)[0] && queue == old(queue)[1..] else queue == []
    {
      if queue == [] { return [], false; }
      p, ok := queue[0], true;
      RemoveSpec(prefixes, p, []);
      assert queue == [p] + queue[1..];
      queue, prefixes := queue[1..], Remove(prefixes, p, 0);
    }

    method RemovePrefix(p: Key) returns (removed: bool)
      requires Valid()
      modifies this
      ensures Valid() && queue == Without(old(queue), Extensions(old(queue), p))
      ensures removed == (Extensions(old(queue), p) != {})
    {
      var first := RemoveSuperstrings(p);
      removed := first >= 0;
    }

    method Clear() returns (size: nat)
      requires Valid()
      modifies this
      ensures Valid() && queue == [] && size == |old(queue)|
    {
      size := |queue|;
      queue, prefixes := [], Empty;
    }
  }

  lemma ExtensionsOf(sub: Trie<()>, t: Trie<()>, p: Key, order: Key)
    requires WF(t, []) && WF(sub, p) && !sub.Empty? && Content(sub) == Under(Content(t), p)
    ensures AllKeys(sub, order, 0) != [] && NoRepeats(AllKeys(sub, order, 0))
    ensures forall k :: k in AllKeys(sub, order, 0) <==> k in Content(t) && p <= k
  {
    AllKeysMembers(sub, order, 0, p);
    var k := NonEmptyHasKey(sub, p);
    assert k in AllKeys(sub, order, 0);
  }

  /** What is left after the extensions of `p` are gone does not overlap `p`, unless a prefix of `p` stays. */
  lemma MergeFits(q: seq<Key>, t: Trie<()>, p: Key)
    requires WF(t, []) && forall k :: k in q <==> k in Content(t)
    ensures Extensions(q, p) != {} ==> forall k :: k in q && k !in Extensions(q, p) ==> !Comparable(k, p)
  {
    if Extensions(q, p) != {} {
      var e :| e in Extensions(q, p);
      forall k | k in q && k !in Extensions(q, p) ensures !Comparable(k, p) {
        KeysDoNotOverlap(t, [], k, e);
      }
    }
  }

  lemma MarksAreExact(q: seq<Key>, ps: seq<Key>, gone: set<Key>, indexes: seq<nat>, marks: seq<nat>)
    requires NoRepeats(q) && forall p :: p in ps <==> p in gone
    requires |indexes| == |ps| && forall m :: 0 <= m < |ps| ==> indexes[m] < |q| && q[indexes[m]] == ps[m]
    requires forall i :: i in marks <==> i in indexes
    ensures forall i :: i in marks <==> 0 <= i < |q| && q[i] in gone
  {
    forall i | 0 <= i < |q| && q[i] in gone ensures i in indexes {
      var m :| 0 <= m < |ps| && ps[m] == q[i];
      assert indexes[m] == i;
    }
    forall i | i in indexes ensures 0 <= i < |q| && q[i] in gone {
      var m :| 0 <= m < |indexes| && indexes[m] == i;
      assert ps[m] in ps;
    }
  }

  /** Merging: `p` takes the place of the first of its extensions among what is left. */
  lemma PushedMerges(q: seq<Key>, p: Key, i: nat)
    requires Extensions(q, p) != {} && i == FirstIndex(q, Extensions(q, p))
    ensures i <= |Without(q, Extensions(q, p))|
    ensures var w := Without(q, Extensions(q, p)); Pushed(q, p) == w[..i] + [p] + w[i..]
  {
    FirstIndexSpec(q, Extensions(q, p));
    WithoutSplits(q, Extensions(q, p), i);
  }

  lemma PushedMembers(q: seq<Key>, p: Key)
    ensures NoRepeats(q) ==> NoRepeats(Pushed(q, p))
    ensures forall k :: k in Pushed(q, p) ==> k == p || (k in q && k !in Extensions(q, p))
    ensures forall k :: k in q && !(p <= k) ==> k in Pushed(q, p)
    ensures p in Pushed(q, p) || (exists k :: k in q && k <= p)
  {
    var gone := Extensions(q, p);
    assert p in q ==> p in gone;
    if gone != {} {
      var i := FirstIndex(q, gone);
      PushedMerges(q, p, i);
      WithoutMembers(q, gone);
      InsertedMembers(Without(q, gone), i, p);
    }
  }

  /** `x` stands before `y`. */
  ghost predicate Earlier(s: seq<Key>, x: Key, y: Key) {
    exists i, j :: 0 <= i < j < |s| && s[i] == x && s[j] == y
  }

  lemma EarlierInJoin(a: seq<Key>, b: seq<Key>, x: Key, y: Key)
    ensures Earlier(a + b, x, y) <==> Earlier(a, x, y) || Earlier(b, x, y) || (x in a && y in b)
  {
    var s := a + b;
    if Earlier(a, x, y) { var i, j :| 0 <= i < j < |a| && a[i] == x && a[j] == y; assert s[i] == x && s[j] == y; }
    if Earlier(b, x, y) {
      var i, j :| 0 <= i < j < |b| && b[i] == x && b[j] == y;
      assert s[|a| + i] == x && s[|a| + j] == y;
    }
    if x in a && y in b {
      var i :| 0 <= i < |a| && a[i] == x;
      var j :| 0 <= j < |b| && b[j] == y;
      assert s[i] == x && s[|a| + j] == y;
    }
  }

  /** Removing keeps the order of what stays. */
  lemma {:induction false} WithoutKeepsOrder(q: seq<Key>, gone: set<Key>, x: Key, y: Key)
    requires x !in gone && y !in gone
    ensures Earlier(Without(q, gone), x, y) <==> Earlier(q, x, y)
  {
    if q == [] {
    } else {
      WithoutKeepsOrder(q[1..], gone, x, y);
      WithoutMembers(q[1..], gone);
      EarlierInJoin([q[0]], q[1..], x, y);
      EarlierInJoin(if q[0] in gone then [] else [q[0]], Without(q[1..], gone), x, y);
      assert q == [q[0]] + q[1..];
    }
  }

  lemma InsertKeepsOrder(w: seq<Key>, i: nat, p: Key, x: Key, y: Key)
    requires i <= |w| && x != p && y != p
    ensures Earlier(w[..i] + [p] + w[i..], x, y) <==> Earlier(w, x, y)
  {
    assert w == w[..i] + w[i..];
    EarlierInJoin(w[..i], w[i..], x, y);
    EarlierInJoin(w[..i] + [p], w[i..], x, y);
    EarlierInJoin(w[..i], [p], x, y);
  }

  /** Pushing keeps the order of the prefixes that stay, and puts the new one where the first of its extensions was,
      or at the end. */
  lemma PushedKeepsOrder(q: seq<Key>, p: Key, x: Key, y: Key)
    requires NoRepeats(q) && x in q && y in q && !(p <= x) && !(p <= y)
    ensures Earlier(Pushed(q, p), x, y) <==> Earlier(q, x, y)
  {
    var gone := Extensions(q, p);
    if gone != {} {
      var i := FirstIndex(q, gone);
      FirstIndexSpec(q, gone);
      PushedMerges(q, p, i);
      WithoutKeepsOrder(q, gone, x, y);
      InsertKeepsOrder(Without(q, gone), i, p, x, y);
    } else {
      EarlierInJoin(q, [p], x, y);
    }
  }

  lemma PushedTakesPlace(q: seq<Key>, p: Key, x: Key)
    requires NoRepeats(q) && x in q && !(p <= x) && p in Pushed(q, p)
    ensures Earlier(Pushed(q, p), x, p) <==> forall e :: e in q && p <= e ==> Earlier(q, x, e)
  {
    var gone := Extensions(q, p);
    assert p in q ==> p in gone;
    if gone != {} {
      var i := FirstIndex(q, gone);
      FirstIndexSpec(q, gone);
      BeforeFirst(q, gone, i, x);
      var rest := Without(q[i..], gone);
      WithoutMembers(q[i..], gone);
      EarlierInJoin(q[..i] + [p], rest, x, p);
      EarlierInJoin(q[..i], [p], x, p);
      assert p !in q[..i] && p !in rest;
    } else {
      assert p !in q && forall e :: e in q ==> e !in gone;
      assert Pushed(q, p) == q + [p];
      EarlierInJoin(q, [p], x, p);
    }
  }

  lemma BeforeFirst(q: seq<Key>, gone: set<Key>, i: nat, x: Key)
    requires NoRepeats(q) && i < |q| && q[i] in gone && (forall j :: 0 <= j < i ==> q[j] !in gone) && x in q
    requires x !in gone
    ensures x in q[..i] <==> forall e :: e in q && e in gone ==> Earlier(q, x, e)
  {
    var k :| 0 <= k < |q| && q[k] == x;
    forall e | e in q && e in gone && x in q[..i] ensures Earlier(q, x, e) {
      var m :| 0 <= m < |q| && q[m] == e;
      assert k < i <= m;
    }
    assert q[i] in q;
  }

  /** Pushing a prefix adds exactly its own keyspace to what the queue covers. */
  lemma PushedCoverage(q: seq<Key>, p: Key, f: Key)
    ensures Holds(Pushed(q, p), f) <==> Holds(q, f) || p <= f
  {
    PushedMembers(q, p);
    var pushed := Pushed(q, p);
    if Holds(pushed, f) {
      var k :| k in pushed && k <= f;
      if k != p { assert k in q; }
    }
    if Holds(q, f) && !(p <= f) {
      var k :| k in q && k <= f;
      assert k in pushed;
    }
    if p <= f {
      if p in pushed {
        assert Holds(pushed, f);
      } else {
        var k :| k in q && k <= p;
        assert p !in Extensions(q, p) && k !in Extensions(q, p);
        assert k in pushed;
      }
    }
  }

  function PushedAll(q: seq<Key>, ps: seq<Key>): seq<Key> {
    if ps == [] then q else Pushed(PushedAll(q, ps[..|ps| - 1]), ps[|ps| - 1])
  }

  lemma {:induction false} PushedAllCoverage(q: seq<Key>, ps: seq<Key>, f: Key)
    ensures Holds(PushedAll(q, ps), f) <==> Holds(q, f) || Holds(ps, f)
  {
    if ps == [] {
    } else {
      var init, p := ps[..|ps| - 1], ps[|ps| - 1];
      PushedAllCoverage(q, init, f);
      PushedCoverage(PushedAll(q, init), p, f);
      assert ps == init + [p] && p in ps;
      assert forall k :: k in init ==> k in ps;
    }
  }
}
