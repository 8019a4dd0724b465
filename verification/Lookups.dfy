/** The iterative lookup: one coordinator, concurrent query workers and a bounded channel between them. */
module Lookups {
  import opened Sequences
  import opened QueryPeersets

  datatype Update<P> = Update(cause: P, heard: seq<P>, queried: seq<P>, unreachable: seq<P>)

  datatype Reason = Stopped | Starvation | Completed | Cancelled

  /** What applying an update does to the known peers; illegal transitions make the source panic. */
  datatype Outcome<P> = Panicked | Updated(known: Known<P>)

  const NOT_UNREACHABLE: set<PeerState> := {Heard, Waiting, Queried}

  lemma OnlyUnreachableIsLeftOut(s: PeerState)
    ensures s in NOT_UNREACHABLE <==> s != Unreachable
  {
  }

  // ---------------------------------------------------------------- applying updates

  function AddHeard<P(==)>(m: Known<P>, heard: seq<P>, self: P): Known<P> {
    if heard == [] then m
    else
      var m1 := AddHeard(m, heard[..|heard| - 1], self);
      var p := heard[|heard| - 1];
      if p == self || p in m1 then m1 else m1[p := Heard]
  }

  function Settle<P(==)>(o: Outcome<P>, ps: seq<P>, self: P, s: PeerState): Outcome<P> {
    if ps == [] then o
    else
      var o1 := Settle(o, ps[..|ps| - 1], self, s);
      var p := ps[|ps| - 1];
      if o1.Panicked? || p == self then o1
      else if p in o1.known && o1.known[p] == Waiting then Updated(o1.known[p := s])
      else Panicked
  }

  function ApplyUpdate<P(==)>(m: Known<P>, up: Update<P>, self: P): Outcome<P> {
    Settle(Settle(Updated(AddHeard(m, up.heard, self)), up.queried, self, Queried), up.unreachable, self, Unreachable)
  }

  function Spawn<P(==)>(m: Known<P>, ps: seq<P>): Known<P> {
    if ps == [] then m else Spawn(m, ps[..|ps| - 1])[ps[|ps| - 1] := Waiting]
  }

  // ---------------------------------------------------------------- deciding how to go on

  datatype Config<!P> = Config(self: P, alpha: nat, beta: nat, dist: P -> nat)

  ghost predicate Starving<P>(m: Known<P>) {
    |InStates(m, {Heard})| == 0 && |InStates(m, {Waiting})| == 0
  }

  ghost predicate AllQueried<P>(m: Known<P>, ps: seq<P>) {
    forall p :: p in ps ==> p in m && m[p] == Queried
  }

  /** `top` are `n` known peers, or all if there are fewer, that are not unreachable, and no other such peer is
      closer than one of them. */
  ghost predicate ClosestReachable<P>(m: Known<P>, dist: P -> nat, n: nat, top: seq<P>) {
    && |top| <= n && (forall p :: p in top ==> p in m && m[p] != Unreachable)
    && (forall i, j :: 0 <= i < j < |top| ==> top[i] != top[j])
    && forall p :: p in m && m[p] != Unreachable && p !in top ==>
         |top| == n && forall x :: x in top ==> dist(x) <= dist(p)
  }

  lemma TopIsClosestReachable<P>(m: Known<P>, dist: P -> nat, n: nat, top: seq<P>)
    requires Closest(m, dist, n, NOT_UNREACHABLE, top)
    ensures ClosestReachable(m, dist, n, top)
  {
    var all := InStates(m, NOT_UNREACHABLE);
    forall s: PeerState ensures s in NOT_UNREACHABLE <==> s != Unreachable { OnlyUnreachableIsLeftOut(s); }
    forall p | p in top ensures p in all { var i :| 0 <= i < |top| && top[i] == p; }
    forall p | p in m && m[p] != Unreachable && p !in top
      ensures |top| == n && forall x :: x in top ==> dist(x) <= dist(p)
    {
      assert p in all;
      if |all| < n { FullListHoldsAll(all, top, p); }
    }
  }

  lemma FullListHoldsAll<P>(all: set<P>, r: seq<P>, p: P)
    requires (forall x :: x in r ==> x in all) && |r| == |all| && p in all
    requires forall i, j :: 0 <= i < j < |r| ==> r[i] != r[j]
    ensures p in r
  {
    DistinctCount(r);
    var members := set x | x in r;
    if p !in r {
      assert members <= all - {p};
      SubsetCount(members, all - {p});
    }
  }

  /** The coordinator's choice after an update: a reason to stop, or the peers to query next. `top` are the
      `beta` closest peers that are not unreachable. */
  ghost predicate Decides<P>(c: Config<P>, m: Known<P>, stop: bool, reason: Reason, stops: bool, next: seq<P>,
                             top: seq<P>) {
    if stop then stops && reason == Stopped && next == []
    else if Starving(m) then stops && reason == Starvation && next == []
    else
      && Closest(m, c.dist, c.beta, NOT_UNREACHABLE, top)
      && if AllQueried(m, top) then stops && reason == Completed && next == []
         else !stops && |InStates(m, {Waiting})| <= c.alpha
              && Closest(m, c.dist, c.alpha - |InStates(m, {Waiting})|, {Heard}, next)
  }

  // ---------------------------------------------------------------- the coordinator

  class Query<P(==, !new)> {
    const self: P
    const alpha: nat
    const beta: nat
    const queryPeers: QueryPeerset<P>
    var terminated: bool

    ghost predicate Valid()
      reads this, queryPeers
    {
      queryPeers.Valid()
    }

    ghost function Setting(): Config<P>
      reads this
    {
      Config(self, alpha, beta, queryPeers.dist)
    }

    constructor (self: P, alpha: nat, beta: nat, dist: P -> nat)
      ensures Valid() && fresh(queryPeers) && !terminated && queryPeers.States() == map[]
      ensures Setting() == Config(self, alpha, beta, dist)
    {
      this.self, this.alpha, this.beta, terminated := self, alpha, beta, false;
      queryPeers := new QueryPeerset(dist);
    }

    method MoveAll(ps: seq<P>, s: PeerState)
      requires Valid() && Settle(Updated(queryPeers.States()), ps, self, s).Updated?
      modifies queryPeers
      ensures Valid() && Updated(queryPeers.States()) == Settle(Updated(old(queryPeers.States())), ps, self, s)
    {
      ghost var o := Updated(queryPeers.States());
      for i := 0 to |ps|
        invariant Valid() && Updated(queryPeers.States()) == Settle(o, ps[..i], self, s)
      {
        SettlePrefix(o, ps, self, s, i + 1);
        assert ps[..i + 1][..i] == ps[..i];
        if ps[i] != self {
          var st := queryPeers.GetState(ps[i]);
          if st == Waiting { queryPeers.SetState(ps[i], s); } else { assert false; }
        }
      }
      assert ps[..|ps|] == ps;
    }

    /** Applies an update; the precondition is that the source does not panic. */
    method UpdateState(up: Update<P>)
      requires Valid() && !terminated && ApplyUpdate(queryPeers.States(), up, self).Updated?
      modifies queryPeers
      ensures Valid() && Updated(queryPeers.States()) == ApplyUpdate(old(queryPeers.States()), up, self)
    {
      ghost var m := queryPeers.States();
      for i := 0 to |up.heard|
        invariant Valid() && queryPeers.States() == AddHeard(m, up.heard[..i], self)
      {
        assert up.heard[..i + 1][..i] == up.heard[..i];
        if up.heard[i] != self { var _ := queryPeers.TryAdd(up.heard[i], up.cause); }
      }
      assert up.heard[..|up.heard|] == up.heard;
      SettlePanics(Settle(Updated(queryPeers.States()), up.queried, self, Queried), up.unreachable, self, Unreachable);
      MoveAll(up.queried, Queried);
      MoveAll(up.unreachable, Unreachable);
    }

    method IsStarvationTermination() returns (b: bool)
      requires Valid()
      modifies queryPeers
      ensures Valid() && queryPeers.States() == old(queryPeers.States()) && b == Starving(queryPeers.States())
    {
      var heard := queryPeers.Count(Heard);
      var waiting := queryPeers.Count(Waiting);
      b := heard == 0 && waiting == 0;
    }

    /** Whether the `beta` closest peers that are not unreachable have all been queried. */
    method IsLookupTermination() returns (b: bool, top: seq<P>)
      requires Valid()
      modifies queryPeers
      ensures Valid() && queryPeers.States() == old(queryPeers.States())
      ensures Closest(queryPeers.States(), queryPeers.dist, beta, NOT_UNREACHABLE, top)
      ensures ClosestReachable(queryPeers.States(), queryPeers.dist, beta, top)
      ensures b == AllQueried(queryPeers.States(), top)
    {
      top := queryPeers.GetClosestNInStates(beta, NOT_UNREACHABLE);
      TopIsClosestReachable(queryPeers.States(), queryPeers.dist, beta, top);
      ghost var m := queryPeers.States();
      forall p | p in top
        ensures p in m
      {
        var j :| 0 <= j < |top| && top[j] == p;
        assert p in InStates(m, NOT_UNREACHABLE);
      }
      for i := 0 to |top|
        invariant Valid() && queryPeers.States() == m
        invariant forall p :: p in top[..i] ==> p in m && m[p] == Queried
      {
        assert top[i] in top && top[..i + 1] == top[..i] + [top[i]];
        var st := queryPeers.GetState(top[i]);
        if st != Queried { return false, top; }
      }
      assert top[..|top|] == top;
      b := true;
    }

    method IsReadyToTerminate(stop: bool) returns (stops: bool, reason: Reason, next: seq<P>, top: seq<P>)
      requires Valid() && |InStates(queryPeers.States(), {Waiting})| <= alpha
      modifies queryPeers
      ensures Valid() && queryPeers.States() == old(queryPeers.States())
      ensures Decides(Setting(), queryPeers.States(), stop, reason, stops, next, top)
    {
      var waiting := queryPeers.Count(Waiting);
      if stop { return true, Stopped, [], []; }
      var starving := IsStarvationTermination();
      if starving { return true, Starvation, [], []; }
      var all;
      all, top := IsLookupTermination();
      if all { return true, Completed, [], top; }
      next := queryPeers.GetClosestNInStates(alpha - waiting, {Heard});
      stops, reason := false, Stopped;
    }

    method SpawnQueries(ps: seq<P>)
      requires Valid() && forall p :: p in ps ==> p in queryPeers.States()
      modifies queryPeers
      ensures Valid() && queryPeers.States() == Spawn(old(queryPeers.States()), ps)
    {
      ghost var m := queryPeers.States();
      for i := 0 to |ps|
        invariant Valid() && queryPeers.States() == Spawn(m, ps[..i]) && m.Keys <= queryPeers.States().Keys
      {
        assert ps[..i + 1][..i] == ps[..i] && ps[i] in ps;
        queryPeers.SetState(ps[i], Waiting);
      }
      assert ps[..|ps|] == ps;
    }

    /** One turn of the loop after an update has been received. */
    method HandleUpdate(up: Update<P>, stop: bool) returns (reason: Reason, spawned: seq<P>, top: seq<P>)
      requires Valid() && !terminated && ApplyUpdate(queryPeers.States(), up, self).Updated?
      requires |InStates(ApplyUpdate(queryPeers.States(), up, self).known, {Waiting})| <= alpha
      modifies this, queryPeers
      ensures Valid() && Setting() == old(Setting())
      ensures var m := ApplyUpdate(old(queryPeers.States()), up, self).known;
        Decides(Setting(), m, stop, reason, terminated, spawned, top) && queryPeers.States() == Spawn(m, spawned)
    {
      UpdateState(up);
      ghost var m := queryPeers.States();
      var stops;
      stops, reason, spawned, top := IsReadyToTerminate(stop);
      if stops {
        terminated := true;
        return;
      }
      forall p | p in spawned
        ensures p in m
      {
        var j :| 0 <= j < |spawned| && spawned[j] == p;
        assert p in InStates(m, {Heard});
      }
      SpawnQueries(spawned);
    }
  }

  lemma {:induction false} SettlePanics<P>(o: Outcome<P>, ps: seq<P>, self: P, s: PeerState)
    ensures o.Panicked? ==> Settle(o, ps, self, s).Panicked?
    decreases |ps|
  {
    if ps == [] {
    } else {
      SettlePanics(o, ps[..|ps| - 1], self, s);
    }
  }

  /** If a list can be settled, so can each of its beginnings. */
  lemma {:induction false} SettlePrefix<P>(o: Outcome<P>, ps: seq<P>, self: P, s: PeerState, i: nat)
    requires Settle(o, ps, self, s).Updated? && i <= |ps|
    ensures Settle(o, ps[..i], self, s).Updated?
    decreases |ps|
  {
    if i == |ps| { assert ps[..i] == ps; }
    else { assert ps[..|ps| - 1][..i] == ps[..i]; SettlePrefix(o, ps[..|ps| - 1], self, s, i); }
  }
}
