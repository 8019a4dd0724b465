/** The peers known to a lookup, each with its state, kept in a list that is sorted when needed. */
module QueryPeersets {
  import opened Sequences

  datatype PeerState = Heard | Waiting | Queried | Unreachable

  type Known<P> = map<P, PeerState>

  datatype QueryPeer<P> = QueryPeer(id: P, distance: nat, state: PeerState, referredBy: P)

  // ---------------------------------------------------------------- specification

  /** The peers of `m` in one of the given states. */
  ghost function InStates<P>(m: Known<P>, states: set<PeerState>): set<P> {
    set p | p in m && m[p] in states
  }

  ghost predicate Closest<P>(m: Known<P>, dist: P -> nat, n: nat, states: set<PeerState>, r: seq<P>) {
    && (forall i :: 0 <= i < |r| ==> r[i] in InStates(m, states))
    && (forall i, j :: 0 <= i < j < |r| ==> r[i] != r[j] && dist(r[i]) <= dist(r[j]))
    && |r| == (if |InStates(m, states)| < n then |InStates(m, states)| else n)
    && (forall p, i :: p in InStates(m, states) && p !in r && 0 <= i < |r| ==> dist(r[i]) <= dist(p))
  }

  // ---------------------------------------------------------------- the list

  ghost predicate SortedList<P>(all: seq<QueryPeer<P>>) {
    forall i, j :: 0 <= i < j < |all| ==> all[i].distance <= all[j].distance
  }

  ghost predicate ListOf<P>(all: seq<QueryPeer<P>>, dist: P -> nat) {
    && (forall i, j :: 0 <= i < j < |all| ==> all[i].id != all[j].id)
    && (forall i :: 0 <= i < |all| ==> all[i].distance == dist(all[i].id))
  }

  function StatesOf<P(==)>(all: seq<QueryPeer<P>>): Known<P> {
    if all == [] then map[] else StatesOf(all[..|all| - 1])[all[|all| - 1].id := all[|all| - 1].state]
  }

  lemma {:induction false} StatesOfSpec<P(!new)>(all: seq<QueryPeer<P>>, dist: P -> nat)
    requires ListOf(all, dist)
    ensures forall p :: p in StatesOf(all) <==> exists i :: 0 <= i < |all| && all[i].id == p
    ensures forall i :: 0 <= i < |all| ==> all[i].id in StatesOf(all) && StatesOf(all)[all[i].id] == all[i].state
    decreases |all|
  {
    if all == [] {
    } else {
      StatesOfSpec(all[..|all| - 1], dist);
    }
  }

  /** Who each peer was heard from. */
  ghost function ReferrersOf<P>(all: seq<QueryPeer<P>>): map<P, P> {
    if all == [] then map[] else ReferrersOf(all[..|all| - 1])[all[|all| - 1].id := all[|all| - 1].referredBy]
  }

  lemma {:induction false} ReferrersOfSpec<P(!new)>(all: seq<QueryPeer<P>>, dist: P -> nat)
    requires ListOf(all, dist)
    ensures forall p :: p in ReferrersOf(all) <==> exists i :: 0 <= i < |all| && all[i].id == p
    ensures forall i :: 0 <= i < |all| ==>
      all[i].id in ReferrersOf(all) && ReferrersOf(all)[all[i].id] == all[i].referredBy
    decreases |all|
  {
    if all == [] {
    } else {
      ReferrersOfSpec(all[..|all| - 1], dist);
    }
  }

  lemma SameReferrers<P(!new)>(a: seq<QueryPeer<P>>, b: seq<QueryPeer<P>>, dist: P -> nat)
    requires ListOf(a, dist) && ListOf(b, dist) && forall e :: e in a <==> e in b
    ensures ReferrersOf(a) == ReferrersOf(b)
  {
    ReferrersOfSpec(a, dist);
    ReferrersOfSpec(b, dist);
    forall p | p in ReferrersOf(a) ensures p in ReferrersOf(b) && ReferrersOf(a)[p] == ReferrersOf(b)[p] {
      var i :| 0 <= i < |a| && a[i].id == p;
      assert a[i] in b;
    }
    forall p | p in ReferrersOf(b) ensures p in ReferrersOf(a) {
      var i :| 0 <= i < |b| && b[i].id == p;
      assert b[i] in a;
    }
  }

  lemma AppendEntry<P(!new)>(all: seq<QueryPeer<P>>, e: QueryPeer<P>, dist: P -> nat)
    requires ListOf(all, dist) && e.distance == dist(e.id) && e.id !in StatesOf(all)
    ensures ListOf(all + [e], dist)
    ensures StatesOf(all + [e]) == StatesOf(all)[e.id := e.state]
    ensures ReferrersOf(all + [e]) == ReferrersOf(all)[e.id := e.referredBy]
  {
    StatesOfSpec(all, dist);
    assert (all + [e])[..|all|] == all;
  }

  /** Two lists with the same entries describe the same peers. */
  lemma SameEntries<P(!new)>(a: seq<QueryPeer<P>>, b: seq<QueryPeer<P>>, dist: P -> nat)
    requires ListOf(a, dist) && ListOf(b, dist) && forall e :: e in a <==> e in b
    ensures StatesOf(a) == StatesOf(b)
  {
    StatesOfSpec(a, dist);
    StatesOfSpec(b, dist);
    forall p | p in StatesOf(a) ensures p in StatesOf(b) && StatesOf(a)[p] == StatesOf(b)[p] {
      var i :| 0 <= i < |a| && a[i].id == p;
      assert a[i] in b;
    }
    forall p | p in StatesOf(b) ensures p in StatesOf(a) {
      var i :| 0 <= i < |b| && b[i].id == p;
      assert b[i] in a;
    }
  }

  /** Inserts an entry behind all entries that are not farther. */
  method InsertSorted<P(!new)>(r: seq<QueryPeer<P>>, e: QueryPeer<P>, ghost dist: P -> nat)
    returns (r': seq<QueryPeer<P>>)
    requires SortedList(r) && ListOf(r, dist) && e.distance == dist(e.id)
    requires forall i :: 0 <= i < |r| ==> r[i].id != e.id
    ensures SortedList(r') && ListOf(r', dist) && forall x :: x in r' <==> x == e || x in r
  {
    var k := 0;
    while k < |r| && r[k].distance <= e.distance
      invariant k <= |r| && forall i :: 0 <= i < k ==> r[i].distance <= e.distance
    {
      k := k + 1;
    }
    InsertedMembers(r, k, e);
    InsertedInPlace(r, k, e, dist);
    r' := r[..k] + [e] + r[k..];
  }

  lemma InsertedInPlace<P(!new)>(r: seq<QueryPeer<P>>, k: nat, e: QueryPeer<P>, dist: P -> nat)
    requires SortedList(r) && ListOf(r, dist) && e.distance == dist(e.id)
    requires forall i :: 0 <= i < |r| ==> r[i].id != e.id
    requires k <= |r| && (forall i :: 0 <= i < k ==> r[i].distance <= e.distance)
    requires k < |r| ==> e.distance <= r[k].distance
    ensures SortedList(r[..k] + [e] + r[k..]) && ListOf(r[..k] + [e] + r[k..], dist)
  {
  }

  method SortList<P(!new)>(all: seq<QueryPeer<P>>, ghost dist: P -> nat) returns (r: seq<QueryPeer<P>>)
    requires ListOf(all, dist)
    ensures SortedList(r) && ListOf(r, dist) && forall e :: e in r <==> e in all
  {
    r := [];
    for n := 0 to |all|
      invariant SortedList(r) && ListOf(r, dist) && forall e :: e in r <==> e in all[..n]
    {
      assert all[..n + 1] == all[..n] + [all[n]];
      forall i | 0 <= i < |r| ensures r[i].id != all[n].id { assert r[i] in r; }
      r := InsertSorted(r, all[n], dist);
    }
    assert all[..|all|] == all;
  }

  /** The ids of the entries in given states, in list order. */
  method Select<P(!new)>(all: seq<QueryPeer<P>>, states: set<PeerState>, ghost dist: P -> nat) returns (r: seq<P>)
    requires ListOf(all, dist) && SortedList(all)
    ensures forall p :: p in r <==> p in InStates(StatesOf(all), states)
    ensures forall i, j :: 0 <= i < j < |r| ==> r[i] != r[j] && dist(r[i]) <= dist(r[j])
  {
    r := [];
    ghost var at: seq<nat> := [];
    for n := 0 to |all|
      invariant |at| == |r|
      invariant forall i :: 0 <= i < |r| ==> at[i] < n && all[at[i]].id == r[i] && all[at[i]].state in states
      invariant forall i, j :: 0 <= i < j < |r| ==> at[i] < at[j]
      invariant forall k :: 0 <= k < n && all[k].state in states ==> all[k].id in r
    {
      if all[n].state in states {
        r, at := r + [all[n].id], at + [n];
      }
    }
    SelectedSpec(all, states, dist, r, at);
  }

  /** Entries picked from a list by rising positions are distinct and stay in its order. */
  lemma SelectedSpec<P(!new)>(all: seq<QueryPeer<P>>, states: set<PeerState>, dist: P -> nat, r: seq<P>, at: seq<nat>)
    requires ListOf(all, dist) && SortedList(all)
    requires |at| == |r|
    requires forall i :: 0 <= i < |r| ==> at[i] < |all| && all[at[i]].id == r[i] && all[at[i]].state in states
    requires forall i, j :: 0 <= i < j < |r| ==> at[i] < at[j]
    requires forall k :: 0 <= k < |all| && all[k].state in states ==> all[k].id in r
    ensures forall p :: p in r <==> p in InStates(StatesOf(all), states)
    ensures forall i, j :: 0 <= i < j < |r| ==> r[i] != r[j] && dist(r[i]) <= dist(r[j])
  {
    StatesOfSpec(all, dist);
  }

  lemma TakeClosest<P>(m: Known<P>, dist: P -> nat, n: nat, states: set<PeerState>, r: seq<P>)
    requires forall p :: p in r <==> p in InStates(m, states)
    requires forall i, j :: 0 <= i < j < |r| ==> r[i] != r[j] && dist(r[i]) <= dist(r[j])
    ensures Closest(m, dist, n, states, if |r| >= n then r[..n] else r)
  {
    DistinctCount(r);
    assert (set p | p in r) == InStates(m, states);
    var c := if |r| >= n then r[..n] else r;
    forall p, i | p in InStates(m, states) && p !in c && 0 <= i < |c| ensures dist(c[i]) <= dist(p) {
      var j :| 0 <= j < |r| && r[j] == p;
      assert forall x :: 0 <= x < |c| ==> c[x] == r[x] && c[x] in c;
    }
  }

  lemma {:induction false} UpdateEntry<P(!new)>(all: seq<QueryPeer<P>>, dist: P -> nat, i: nat, s: PeerState)
    requires ListOf(all, dist) && i < |all|
    ensures ListOf(all[i := all[i].(state := s)], dist)
    ensures StatesOf(all[i := all[i].(state := s)]) == StatesOf(all)[all[i].id := s]
    ensures ReferrersOf(all[i := all[i].(state := s)]) == ReferrersOf(all)
    ensures SortedList(all) ==> SortedList(all[i := all[i].(state := s)])
    decreases |all|
  {
    var b := all[i := all[i].(state := s)];
    var init := all[..|all| - 1];
    if i < |init| {
      assert b[..|b| - 1] == init[i := init[i].(state := s)];
      UpdateEntry(init, dist, i, s);
    } else {
      assert b[..|b| - 1] == init;
    }
  }

  class QueryPeerset<P(==, !new)> {
    const dist: P -> nat
    var all: seq<QueryPeer<P>>
    var sorted: bool

    ghost predicate Valid()
      reads this
    {
      ListOf(all, dist) && (sorted ==> SortedList(all))
    }

    ghost function States(): Known<P>
      reads this
    {
      StatesOf(all)
    }

    ghost function Referrers(): map<P, P>
      reads this
    {
      ReferrersOf(all)
    }

    constructor (dist: P -> nat)
      ensures Valid() && States() == map[] && Referrers() == map[] && this.dist == dist
    {
      this.dist := dist;
      all, sorted := [], false;
    }

    method Find(p: P) returns (i: int)
      requires Valid()
      ensures -1 <= i < |all| && (i >= 0 <==> p in States())
      ensures i >= 0 ==> all[i].id == p && States()[p] == all[i].state
    {
      StatesOfSpec(all, dist);
      i := 0;
      while i < |all|
        invariant 0 <= i <= |all| && forall j :: 0 <= j < i ==> all[j].id != p
      {
        if all[i].id == p { return; }
        i := i + 1;
      }
      i := -1;
    }

    method TryAdd(p: P, referredBy: P) returns (added: bool)
      requires Valid()
      modifies this
      ensures Valid() && added == (p !in old(States()))
      ensures States() == if added then old(States())[p := Heard] else old(States())
      ensures Referrers() == if added then old(Referrers())[p := referredBy] else old(Referrers())
    {
      StatesOfSpec(all, dist);
      var i := Find(p);
      if i >= 0 { return false; }
      AppendEntry(all, QueryPeer(p, dist(p), Heard, referredBy), dist);
      all := all + [QueryPeer(p, dist(p), Heard, referredBy)];
      sorted := false;
      added := true;
    }

    method Sort()
      requires Valid()
      modifies this
      ensures Valid() && sorted && States() == old(States()) && Referrers() == old(Referrers())
    {
      if sorted { return; }
      var r := SortList(all, dist);
      SameEntries(all, r, dist);
      SameReferrers(all, r, dist);
      all, sorted := r, true;
    }

    /** Panics in the source if `p` is not known. */
    method SetState(p: P, s: PeerState)
      requires Valid() && p in States()
      modifies this
      ensures Valid() && States() == old(States())[p := s] && Referrers() == old(Referrers())
    {
      var i := Find(p);
      UpdateEntry(all, dist, i, s);
      all := all[i := all[i].(state := s)];
    }

    method GetState(p: P) returns (s: PeerState)
      requires Valid() && p in States()
      ensures s == States()[p]
    {
      var i := Find(p);
      s := all[i].state;
    }

    /** Panics in the source if `p` is not known. */
    method GetReferrer(p: P) returns (r: P)
      requires Valid() && p in States()
      ensures p in Referrers() && r == Referrers()[p]
    {
      ReferrersOfSpec(all, dist);
      var i := Find(p);
      r := all[i].referredBy;
    }

    /** The `n` closest peers in the given states; sorts the list in place. */
    method GetClosestNInStates(n: nat, states: set<PeerState>) returns (r: seq<P>)
      requires Valid()
      modifies this
      ensures Valid() && States() == old(States()) && Referrers() == old(Referrers())
      ensures Closest(States(), dist, n, states, r)
    {
      Sort();
      var selected := Select(all, states, dist);
      TakeClosest(States(), dist, n, states, selected);
      r := if |selected| >= n then selected[..n] else selected;
    }

    method Count(state: PeerState) returns (n: nat)
      requires Valid()
      modifies this
      ensures Valid() && States() == old(States()) && Referrers() == old(Referrers())
      ensures n == |InStates(States(), {state})|
    {
      CountBound(States(), all, dist, {state});
      var r := GetClosestNInStates(|all|, {state});
      n := |r|;
    }
  }

  lemma {:induction false} CountBound<P(!new)>(m: Known<P>, all: seq<QueryPeer<P>>, dist: P -> nat,
                                               states: set<PeerState>)
    requires ListOf(all, dist) && m == StatesOf(all)
    ensures |InStates(m, states)| <= |m| <= |all|
    decreases |all|
  {
    assert InStates(m, states) <= m.Keys;
    assert |m.Keys - InStates(m, states)| == |m.Keys| - |InStates(m, states)|;
    if all == [] {
    } else {
      var init := all[..|all| - 1];
      CountBound(StatesOf(init), init, dist, states);
      assert m.Keys == StatesOf(init).Keys + {all[|all| - 1].id};
    }
  }
}
