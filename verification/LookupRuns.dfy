/** Every interleaving of a lookup: the coordinator's turns, the replies of its workers, and cancellation. */
module LookupRuns {
  import opened Sequences
  import opened QueryPeersets
  import opened Lookups

  datatype Phase = Active | Ended(reason: Reason)

  /** `replies` records what each successfully queried peer named; `top` is what completion was decided on. */
  datatype State<P> = State(
    known: Known<P>, running: set<P>, channel: seq<Update<P>>, phase: Phase, panicked: bool,
    replies: map<P, seq<P>>, top: seq<P>)

  // ---------------------------------------------------------------- steps

  ghost predicate Init<P>(c: Config<P>, seeds: seq<P>, s: State<P>) {
    s == State(map[], {}, [Update(c.self, seeds, [], [])], Active, false, map[], [])
  }

  /** What a worker that queries `up.cause` sends: a failure, or the peers it was told about without ourselves. */
  ghost predicate FromWorker<P>(c: Config<P>, up: Update<P>) {
    || (up.queried == [up.cause] && up.unreachable == [] && c.self !in up.heard)
    || (up.queried == [] && up.unreachable == [up.cause] && up.heard == [])
  }

  /** A worker ends by sending its update; the channel holds at most `alpha` updates. */
  ghost predicate Reply<P>(c: Config<P>, s: State<P>, s': State<P>, up: Update<P>) {
    && up.cause in s.running && FromWorker(c, up) && |s.channel| < c.alpha
    && s' == s.(running := s.running - {up.cause}, channel := s.channel + [up],
                replies := if up.queried == [] then s.replies else s.replies[up.cause := up.heard])
  }

  /** The coordinator's choice in one turn. */
  datatype Choice<P> = Choice(stop: bool, reason: Reason, stops: bool, next: seq<P>, top: seq<P>)

  ghost predicate Chooses<P>(c: Config<P>, m: Known<P>, x: Choice<P>) {
    Decides(c, m, x.stop, x.reason, x.stops, x.next, x.top)
  }

  /** The coordinator receives an update, applies it and decides how to go on. */
  ghost predicate Receive<P>(c: Config<P>, s: State<P>, s': State<P>, x: Choice<P>) {
    && s.phase == Active && s.channel != []
    && var o := ApplyUpdate(s.known, s.channel[0], c.self);
       if o.Panicked? then s' == s.(panicked := true)
       else
         && Chooses(c, o.known, x)
         && s' == s.(known := Spawn(o.known, x.next), running := s.running + Members(x.next), channel := s.channel[1..],
                     phase := if x.stops then Ended(x.reason) else Active, top := x.top)
  }

  ghost predicate Cancel<P>(s: State<P>, s': State<P>) {
    s.phase == Active && s' == s.(phase := Ended(Cancelled))
  }

  /** A step of the lookup itself: a worker replies, or the coordinator takes a turn. */
  ghost predicate Moves<P(!new)>(c: Config<P>, s: State<P>, s': State<P>) {
    || (exists up :: Reply(c, s, s', up))
    || (exists x :: Receive(c, s, s', x))
  }

  ghost predicate Next<P(!new)>(c: Config<P>, s: State<P>, s': State<P>) {
    Moves(c, s, s') || Cancel(s, s')
  }

  ghost predicate Run<P(!new)>(c: Config<P>, seeds: seq<P>, trace: seq<State<P>>) {
    trace != [] && Init(c, seeds, trace[0]) && forall i :: 0 <= i < |trace| - 1 ==> Next(c, trace[i], trace[i + 1])
  }

  // ---------------------------------------------------------------- invariant

  ghost function Causes<P>(ch: seq<Update<P>>): set<P> {
    set i | 0 <= i < |ch| :: ch[i].cause
  }

  ghost predicate Seeding<P>(c: Config<P>, s: State<P>) {
    && s.known == map[] && s.running == {}
    && |s.channel| == 1 && s.channel[0].queried == [] && s.channel[0].unreachable == []
  }

  /** Waiting peers are the running workers and the senders of queued updates, at most `alpha` together. */
  ghost predicate Ready<P>(c: Config<P>, m: Known<P>, running: set<P>, ch: seq<Update<P>>) {
    && (forall i :: 0 <= i < |ch| ==> FromWorker(c, ch[i]))
    && (forall i, j :: 0 <= i < j < |ch| ==> ch[i].cause != ch[j].cause)
    && running !! Causes(ch)
    && InStates(m, {Waiting}) == running + Causes(ch)
    && |running| + |ch| <= c.alpha
  }

  /** As long as the lookup is active there is a query to wait for. */
  ghost predicate Balanced<P>(c: Config<P>, s: State<P>) {
    && Ready(c, s.known, s.running, s.channel)
    && (s.phase == Active ==> InStates(s.known, {Waiting}) != {})
  }

  /** Everything a queried peer named is known. */
  ghost predicate Recorded<P>(c: Config<P>, s: State<P>) {
    && (forall p :: p in s.known && s.known[p] == Queried ==> p in s.replies && Remembered(c, s, s.replies[p]))
    && (forall i :: 0 <= i < |s.channel| && s.channel[i].queried != [] ==>
         s.channel[i].cause in s.replies && s.replies[s.channel[i].cause] == s.channel[i].heard)
  }

  ghost predicate Remembered<P>(c: Config<P>, s: State<P>, named: seq<P>) {
    forall x :: x in named ==> x == c.self || x in s.known
  }

  ghost predicate Inv<P>(c: Config<P>, s: State<P>) {
    && c.alpha >= 1 && !s.panicked && c.self !in s.known
    && (Seeding(c, s) || (Balanced(c, s) && Recorded(c, s)))
    && (s.phase == Ended(Completed) ==>
      Closest(s.known, c.dist, c.beta, NOT_UNREACHABLE, s.top) && AllQueried(s.known, s.top))
  }

  // ---------------------------------------------------------------- effect of one update

  lemma {:induction false} AddHeardSpec<P>(m: Known<P>, heard: seq<P>, self: P)
    ensures var m1 := AddHeard(m, heard, self);
      && (forall p :: p in m ==> p in m1 && m1[p] == m[p])
      && (forall p :: p in m1 && p !in m ==> m1[p] == Heard && p in heard && p != self)
      && (forall p :: p in heard ==> p == self || p in m1)
    decreases |heard|
  {
    if heard == [] {
    } else {
      AddHeardSpec(m, heard[..|heard| - 1], self);
      assert heard == heard[..|heard| - 1] + [heard[|heard| - 1]];
    }
  }

  /** An update from a worker whose peer is waiting never panics, and settles exactly that peer. */
  lemma ApplyWorkerUpdate<P>(c: Config<P>, m: Known<P>, up: Update<P>)
    requires FromWorker(c, up) && up.cause in m && m[up.cause] == Waiting && c.self !in m
    ensures ApplyUpdate(m, up, c.self) ==
      Updated(AddHeard(m, up.heard, c.self)[up.cause := if up.queried == [] then Unreachable else Queried])
  {
    AddHeardSpec(m, up.heard, c.self);
    var o := Updated(AddHeard(m, up.heard, c.self));
    SettleOne(o, up.cause, c.self, Queried);
    SettleOne(o, up.cause, c.self, Unreachable);
  }

  lemma SettleOne<P>(o: Outcome<P>, p: P, self: P, s: PeerState)
    requires o.Updated? && p != self && p in o.known && o.known[p] == Waiting
    ensures Settle(o, [p], self, s) == Updated(o.known[p := s])
  {
    assert [p][..0] == [];
    assert Settle(o, [p][..0], self, s) == o;
  }

  lemma {:induction false} SpawnStates<P>(m: Known<P>, ps: seq<P>)
    requires forall p :: p in ps ==> p in m && m[p] == Heard
    ensures var m1 := Spawn(m, ps);
      m1.Keys == m.Keys && forall p :: p in m ==> m1[p] == if p in ps then Waiting else m[p]
    decreases |ps|
  {
    if ps == [] {
    } else {
      SpawnStates(m, ps[..|ps| - 1]);
      assert ps == ps[..|ps| - 1] + [ps[|ps| - 1]];
    }
  }

  // ---------------------------------------------------------------- the invariant is kept

  lemma {:induction false} CausesCount<P>(ch: seq<Update<P>>)
    requires forall i, j :: 0 <= i < j < |ch| ==> ch[i].cause != ch[j].cause
    ensures |Causes(ch)| == |ch|
    decreases |ch|
  {
    if ch == [] {
    } else {
      var init, last := ch[..|ch| - 1], ch[|ch| - 1];
      CausesCount(init);
      assert Causes(ch) == Causes(init) + {last.cause};
    }
  }

  lemma CausesTail<P>(ch: seq<Update<P>>)
    requires ch != [] && forall i, j :: 0 <= i < j < |ch| ==> ch[i].cause != ch[j].cause
    ensures Causes(ch[1..]) == Causes(ch) - {ch[0].cause}
    ensures ch[0].cause in Causes(ch)
  {
    assert forall i :: 0 <= i < |ch| - 1 ==> ch[1..][i] == ch[i + 1];
    forall p | p in Causes(ch) - {ch[0].cause} ensures p in Causes(ch[1..]) {
      var i :| 0 <= i < |ch| && ch[i].cause == p;
      assert ch[1..][i - 1].cause == p;
    }
  }

  /** What the choice of new queries guarantees: known unqueried peers, as many as there are and `alpha` allows. */
  ghost predicate FairChoice<P>(c: Config<P>, m: Known<P>, x: Choice<P>) {
    && (forall p :: p in x.next ==> p in m && m[p] == Heard)
    && |Members(x.next)| == |x.next|
    && (x.stops ==> x.next == [])
    && (!x.stops ==>
         var h, w := |InStates(m, {Heard})|, |InStates(m, {Waiting})|;
         h + w > 0 && w <= c.alpha && |x.next| == if h < c.alpha - w then h else c.alpha - w)
  }

  lemma ChoiceIsFair<P>(c: Config<P>, m: Known<P>, x: Choice<P>)
    requires Chooses(c, m, x)
    ensures FairChoice(c, m, x)
  {
    if !x.stops {
      forall p | p in x.next ensures p in m && m[p] == Heard {
        var j :| 0 <= j < |x.next| && x.next[j] == p;
        assert p in InStates(m, {Heard});
      }
      DistinctCount(x.next);
    }
  }

  lemma WaitingAfterSpawn<P>(m: Known<P>, ps: seq<P>)
    requires forall p :: p in ps ==> p in m && m[p] == Heard
    ensures InStates(Spawn(m, ps), {Waiting}) == InStates(m, {Waiting}) + Members(ps)
  {
    SpawnStates(m, ps);
  }

  /** Spawning keeps the books balanced, and leaves someone to wait for unless the lookup ends. */
  lemma SpawnKeepsBalance<P>(c: Config<P>, m: Known<P>, running: set<P>, ch: seq<Update<P>>, x: Choice<P>)
    requires c.alpha >= 1 && Ready(c, m, running, ch) && FairChoice(c, m, x)
    ensures Ready(c, Spawn(m, x.next), running + Members(x.next), ch)
    ensures !x.stops ==> InStates(Spawn(m, x.next), {Waiting}) != {}
  {
    WaitingAfterSpawn(m, x.next);
    CausesCount(ch);
    var w, n := InStates(m, {Waiting}), Members(x.next);
    assert n !! w;
    Counts(w, running, Causes(ch), n);
  }

  lemma Counts<P>(w: set<P>, running: set<P>, causes: set<P>, n: set<P>)
    requires w == running + causes && running !! causes && n !! w
    ensures |w| == |running| + |causes| && |running + n| == |running| + |n| && (running + n) !! causes
    ensures |w + n| == |w| + |n|
    ensures w + n == (running + n) + causes
  {
  }

  lemma SettledStates<P>(m: Known<P>, m1: Known<P>, p: P, done: PeerState)
    requires forall q :: q in m ==> q in m1 && m1[q] == m[q]
    requires forall q :: q in m1 && q !in m ==> m1[q] == Heard
    requires done == Queried || done == Unreachable
    ensures InStates(m1[p := done], {Waiting}) == InStates(m, {Waiting}) - {p}
  {
  }

  /** Applying the first queued update settles its sender. */
  lemma ReceiveIsReady<P>(c: Config<P>, s: State<P>)
    requires c.self !in s.known && Balanced(c, s) && s.channel != []
    ensures ApplyUpdate(s.known, s.channel[0], c.self).Updated?
    ensures var m := ApplyUpdate(s.known, s.channel[0], c.self).known;
      Ready(c, m, s.running, s.channel[1..]) && c.self !in m
  {
    var up := s.channel[0];
    AddHeardSpec(s.known, up.heard, c.self);
    CausesTail(s.channel);
    assert up.cause in InStates(s.known, {Waiting});
    ApplyWorkerUpdate(c, s.known, up);
    SettledStates(s.known, AddHeard(s.known, up.heard, c.self), up.cause,
                  if up.queried == [] then Unreachable else Queried);
  }

  lemma SeedIsReady<P>(c: Config<P>, s: State<P>)
    requires c.self !in s.known && Seeding(c, s)
    ensures ApplyUpdate(s.known, s.channel[0], c.self) == Updated(AddHeard(s.known, s.channel[0].heard, c.self))
    ensures Ready(c, AddHeard(s.known, s.channel[0].heard, c.self), s.running, s.channel[1..])
    ensures c.self !in AddHeard(s.known, s.channel[0].heard, c.self)
  {
    AddHeardSpec(s.known, s.channel[0].heard, c.self);
    assert InStates(AddHeard(s.known, s.channel[0].heard, c.self), {Waiting}) == {};
  }

  lemma ReplyKeepsReady<P>(c: Config<P>, m: Known<P>, running: set<P>, ch: seq<Update<P>>, up: Update<P>)
    requires Ready(c, m, running, ch) && up.cause in running && FromWorker(c, up)
    ensures Ready(c, m, running - {up.cause}, ch + [up])
  {
    CausesAppend(ch, up);
    MoveOver(running, Causes(ch), up.cause);
    var ch' := ch + [up];
    forall i | 0 <= i < |ch'| ensures FromWorker(c, ch'[i]) { assert i < |ch| ==> ch'[i] == ch[i]; }
    forall i, j | 0 <= i < j < |ch'| ensures ch'[i].cause != ch'[j].cause {
      assert ch[i].cause in Causes(ch);
    }
  }

  lemma MoveOver<P>(a: set<P>, b: set<P>, p: P)
    requires p in a && a !! b
    ensures (a - {p}) !! (b + {p}) && a + b == (a - {p}) + (b + {p}) && |a - {p}| == |a| - 1
  {
  }

  lemma CausesAppend<P>(ch: seq<Update<P>>, up: Update<P>)
    ensures Causes(ch + [up]) == Causes(ch) + {up.cause}
    ensures forall i :: 0 <= i < |ch| ==> ch[i].cause in Causes(ch)
  {
    var ch' := ch + [up];
    assert ch'[|ch|].cause in Causes(ch');
    forall p | p in Causes(ch) ensures p in Causes(ch') {
      var i :| 0 <= i < |ch| && ch[i].cause == p;
      assert ch'[i].cause == p;
    }
  }

  lemma ReplyKeepsRecorded<P>(c: Config<P>, s: State<P>, s': State<P>, up: Update<P>)
    requires Recorded(c, s) && Ready(c, s.known, s.running, s.channel) && Reply(c, s, s', up)
    ensures Recorded(c, s')
  {
    assert up.cause in InStates(s.known, {Waiting});
    assert forall i :: 0 <= i < |s.channel| ==> s.channel[i].cause in Causes(s.channel);
  }

  lemma ReplyKeepsInv<P>(c: Config<P>, s: State<P>, s': State<P>, up: Update<P>)
    requires Inv(c, s) && Reply(c, s, s', up)
    ensures Inv(c, s')
  {
    ReplyKeepsReady(c, s.known, s.running, s.channel, up);
    ReplyKeepsRecorded(c, s, s', up);
  }

  /** Knowledge only grows, and what queried peers named stays known. */
  lemma TurnKeepsRecorded<P>(c: Config<P>, s: State<P>, s': State<P>, m: Known<P>, x: Choice<P>)
    requires Recorded(c, s) && s.channel != [] && c.self !in s.known
    requires s.channel[0].cause in s.known && s.known[s.channel[0].cause] == Waiting && FromWorker(c, s.channel[0])
    requires ApplyUpdate(s.known, s.channel[0], c.self) == Updated(m) && FairChoice(c, m, x)
    requires s'.known == Spawn(m, x.next) && s'.channel == s.channel[1..] && s'.replies == s.replies
    ensures Recorded(c, s')
  {
    var up := s.channel[0];
    AddHeardSpec(s.known, up.heard, c.self);
    ApplyWorkerUpdate(c, s.known, up);
    SpawnStates(m, x.next);
    forall p | p in s'.known && s'.known[p] == Queried ensures p in s.replies && Remembered(c, s', s.replies[p]) {
      if p != up.cause { assert s.known[p] == Queried; }
    }
  }

  lemma SeedKeepsRecorded<P>(c: Config<P>, s: State<P>, s': State<P>, m: Known<P>, x: Choice<P>)
    requires Seeding(c, s) && m == AddHeard(s.known, s.channel[0].heard, c.self) && FairChoice(c, m, x)
    requires s'.known == Spawn(m, x.next) && s'.channel == []
    ensures Recorded(c, s')
  {
    AddHeardSpec(s.known, s.channel[0].heard, c.self);
    SpawnStates(m, x.next);
  }

  lemma ReceiveKeepsBalance<P>(c: Config<P>, s: State<P>, s': State<P>, x: Choice<P>, m: Known<P>)
    requires c.alpha >= 1 && Ready(c, m, s.running, s'.channel) && c.self !in m && Chooses(c, m, x)
    requires s'.known == Spawn(m, x.next) && s'.running == s.running + Members(x.next)
    requires s'.phase == if x.stops then Ended(x.reason) else Active
    ensures Balanced(c, s') && c.self !in s'.known
  {
    ChoiceIsFair(c, m, x);
    SpawnKeepsBalance(c, m, s.running, s'.channel, x);
    SpawnStates(m, x.next);
  }

  lemma CompletionHolds<P>(c: Config<P>, m: Known<P>, x: Choice<P>)
    requires Chooses(c, m, x) && x.stops && x.reason == Completed
    ensures Closest(Spawn(m, x.next), c.dist, c.beta, NOT_UNREACHABLE, x.top) && AllQueried(Spawn(m, x.next), x.top)
  {
  }

  lemma ReceiveKeepsInv<P>(c: Config<P>, s: State<P>, s': State<P>, x: Choice<P>)
    requires Inv(c, s) && Receive(c, s, s', x)
    ensures Inv(c, s')
  {
    if Seeding(c, s) { SeedIsReady(c, s); } else { ReceiveIsReady(c, s); }
    var m := ApplyUpdate(s.known, s.channel[0], c.self).known;
    ReceiveKeepsBalance(c, s, s', x, m);
    ReceiveKeepsRecorded(c, s, s', x, m);
    if x.stops && x.reason == Completed { CompletionHolds(c, m, x); }
  }

  lemma FirstCauseWaits<P>(c: Config<P>, s: State<P>)
    requires Balanced(c, s) && s.channel != []
    ensures s.channel[0].cause in s.known && s.known[s.channel[0].cause] == Waiting && FromWorker(c, s.channel[0])
  {
    CausesTail(s.channel);
    assert s.channel[0].cause in InStates(s.known, {Waiting});
  }

  lemma ReceiveKeepsRecorded<P>(c: Config<P>, s: State<P>, s': State<P>, x: Choice<P>, m: Known<P>)
    requires Inv(c, s) && Receive(c, s, s', x) && ApplyUpdate(s.known, s.channel[0], c.self) == Updated(m)
    ensures Recorded(c, s')
  {
    ChoiceIsFair(c, m, x);
    if Seeding(c, s) {
      SeedIsReady(c, s);
      SeedKeepsRecorded(c, s, s', m, x);
    } else {
      FirstCauseWaits(c, s);
      TurnKeepsRecorded(c, s, s', m, x);
    }
  }

  lemma NextKeepsInv<P(!new)>(c: Config<P>, s: State<P>, s': State<P>)
    requires Inv(c, s) && Next(c, s, s')
    ensures Inv(c, s')
  {
    if up :| Reply(c, s, s', up) {
      ReplyKeepsInv(c, s, s', up);
    } else if x :| Receive(c, s, s', x) {
      ReceiveKeepsInv(c, s, s', x);
    }
  }

  /** Every state of every run satisfies the invariant: no panic, ourselves never a candidate, waiting peers
      exactly the outstanding queries, and never more than `alpha` of them. */
  lemma {:induction false} RunKeepsInv<P(!new)>(c: Config<P>, seeds: seq<P>, trace: seq<State<P>>, i: nat)
    requires c.alpha >= 1 && Run(c, seeds, trace) && i < |trace|
    ensures Inv(c, trace[i])
  {
    if i == 0 {
    } else {
      RunKeepsInv(c, seeds, trace, i - 1);
      NextKeepsInv(c, trace[i - 1], trace[i]);
    }
  }

  // ---------------------------------------------------------------- how peers move

  ghost predicate Forward(a: PeerState, b: PeerState) {
    a == b || (a == Heard && b == Waiting) || (a == Waiting && (b == Queried || b == Unreachable))
  }

  /** In every step a known peer keeps its state or takes the next one, and the end of a lookup is final. */
  lemma PeersMoveForward<P(!new)>(c: Config<P>, s: State<P>, s': State<P>)
    requires Inv(c, s) && Next(c, s, s')
    ensures forall p :: p in s.known ==> p in s'.known && Forward(s.known[p], s'.known[p])
    ensures s.phase != Active ==> s'.phase == s.phase && s'.known == s.known
  {
    if up :| Reply(c, s, s', up) {
    } else if x :| Receive(c, s, s', x) {
      ReceiveMovesForward(c, s, s', x);
    }
  }

  lemma ReceiveMovesForward<P>(c: Config<P>, s: State<P>, s': State<P>, x: Choice<P>)
    requires Inv(c, s) && Receive(c, s, s', x)
    ensures forall p :: p in s.known ==> p in s'.known && Forward(s.known[p], s'.known[p])
  {
    var m := UpdateIsApplied(c, s);
    ChoiceIsFair(c, m, x);
    TurnMovesForward(c, s.known, s.channel[0], m, x);
  }

  /** What an applied update does: heard peers are added, and at most its sender is settled. */
  ghost predicate Applied<P>(c: Config<P>, m0: Known<P>, up: Update<P>, m: Known<P>) {
    || m == AddHeard(m0, up.heard, c.self)
    || (&& up.cause in m0 && m0[up.cause] == Waiting
        && m == AddHeard(m0, up.heard, c.self)[up.cause := if up.queried == [] then Unreachable else Queried])
  }

  lemma UpdateIsApplied<P>(c: Config<P>, s: State<P>) returns (m: Known<P>)
    requires c.self !in s.known && s.channel != [] && (Seeding(c, s) || Ready(c, s.known, s.running, s.channel))
    ensures ApplyUpdate(s.known, s.channel[0], c.self) == Updated(m) && Applied(c, s.known, s.channel[0], m)
  {
    if Seeding(c, s) {
      SeedIsReady(c, s);
    } else {
      CausesTail(s.channel);
      assert s.channel[0].cause in InStates(s.known, {Waiting});
      ApplyWorkerUpdate(c, s.known, s.channel[0]);
    }
    m := ApplyUpdate(s.known, s.channel[0], c.self).known;
  }

  lemma TurnMovesForward<P>(c: Config<P>, m0: Known<P>, up: Update<P>, m: Known<P>, x: Choice<P>)
    requires Applied(c, m0, up, m) && FairChoice(c, m, x)
    ensures forall p :: p in m0 ==> p in Spawn(m, x.next) && Forward(m0[p], Spawn(m, x.next)[p])
  {
    AddHeardSpec(m0, up.heard, c.self);
    SpawnStates(m, x.next);
  }

  /** A worker that is done can always send, also after the lookup has ended: the channel has room for all. */
  lemma WorkersNeverBlock<P>(c: Config<P>, s: State<P>, p: P)
    requires Inv(c, s) && p in s.running
    ensures |s.channel| < c.alpha
  {
    assert s.running == (s.running - {p}) + {p};
  }

  // ---------------------------------------------------------------- every lookup ends

  /** What is left to do: unknown peers weigh 3, heard peers 2, waiting peers 1, settled peers nothing. */
  ghost function Weight<P>(U: set<P>, m: Known<P>): nat {
    3 * |U - m.Keys| + 2 * |InStates(m, {Heard})| + |InStates(m, {Waiting})|
  }

  ghost function Measure<P>(U: set<P>, s: State<P>): nat {
    2 * Weight(U, s.known) + 2 * |s.running| + |s.channel| + if s.phase == Active then 1 else 0
  }

  /** All peers of the run come from the finite universe `U`. */
  ghost predicate Within<P>(U: set<P>, c: Config<P>, s: State<P>) {
    s.known.Keys <= U && forall i, x :: 0 <= i < |s.channel| && x in s.channel[i].heard ==> x == c.self || x in U
  }

  lemma AddOneWeight<P>(U: set<P>, m: Known<P>, p: P)
    requires p in U && p !in m
    ensures Weight(U, m[p := Heard]) == Weight(U, m) - 1
  {
    var m1 := m[p := Heard];
    assert U - m1.Keys == (U - m.Keys) - {p};
    assert InStates(m1, {Heard}) == InStates(m, {Heard}) + {p};
    assert InStates(m1, {Waiting}) == InStates(m, {Waiting});
  }

  lemma MoveOneWeight<P>(U: set<P>, m: Known<P>, p: P, s: PeerState)
    requires p in m && ((m[p] == Heard && s == Waiting) || (m[p] == Waiting && (s == Queried || s == Unreachable)))
    ensures Weight(U, m[p := s]) == Weight(U, m) - 1
  {
    MovedStates(m, p, s, Heard);
    MovedStates(m, p, s, Waiting);
  }

  /** Changing the state of one peer moves it from one group to another. */
  lemma MovedStates<P>(m: Known<P>, p: P, s: PeerState, group: PeerState)
    requires p in m
    ensures m[p := s].Keys == m.Keys
    ensures InStates(m[p := s], {group})
         == if s == group then InStates(m, {group}) + {p} else InStates(m, {group}) - {p}
    ensures p in InStates(m, {group}) <==> m[p] == group
  {
  }

  lemma {:induction false} AddHeardWeight<P>(U: set<P>, m: Known<P>, heard: seq<P>, self: P)
    requires forall x :: x in heard ==> x == self || x in U
    ensures Weight(U, AddHeard(m, heard, self)) <= Weight(U, m)
    decreases |heard|
  {
    if heard == [] {
    } else {
      var init, p := heard[..|heard| - 1], heard[|heard| - 1];
      assert heard == init + [p];
      AddHeardWeight(U, m, init, self);
      var m1 := AddHeard(m, init, self);
      if p != self && p !in m1 { AddOneWeight(U, m1, p); }
    }
  }

  lemma {:induction false} SpawnWeight<P>(U: set<P>, m: Known<P>, ps: seq<P>)
    requires (forall p :: p in ps ==> p in m && m[p] == Heard) && |Members(ps)| == |ps|
    ensures Weight(U, Spawn(m, ps)) == Weight(U, m) - |ps|
    decreases |ps|
  {
    if ps == [] {
    } else {
      var init, p := ps[..|ps| - 1], ps[|ps| - 1];
      assert ps == init + [p] && Members(ps) == Members(init) + {p};
      MembersBound(init);
      SpawnWeight(U, m, init);
      SpawnStates(m, init);
      MoveOneWeight(U, Spawn(m, init), p, Waiting);
    }
  }

  lemma {:induction false} MembersBound<P>(ps: seq<P>)
    ensures |Members(ps)| <= |ps|
    decreases |ps|
  {
    if ps == [] {
    } else {
      MembersBound(ps[..|ps| - 1]);
      assert Members(ps) == Members(ps[..|ps| - 1]) + {ps[|ps| - 1]};
    }
  }

  /** Applying an update and spawning queries: each spawn is paid for. */
  lemma TurnWeight<P>(U: set<P>, c: Config<P>, m0: Known<P>, up: Update<P>, m: Known<P>, x: Choice<P>)
    requires Applied(c, m0, up, m) && FairChoice(c, m, x) && forall y :: y in up.heard ==> y == c.self || y in U
    ensures Weight(U, Spawn(m, x.next)) + |x.next| <= Weight(U, m0)
  {
    AddHeardSpec(m0, up.heard, c.self);
    AddHeardWeight(U, m0, up.heard, c.self);
    if m != AddHeard(m0, up.heard, c.self) {
      MoveOneWeight(U, AddHeard(m0, up.heard, c.self), up.cause, if up.queried == [] then Unreachable else Queried);
    }
    SpawnWeight(U, m, x.next);
  }

  lemma ReceiveDecreases<P>(U: set<P>, c: Config<P>, s: State<P>, s': State<P>, x: Choice<P>)
    requires Inv(c, s) && Within(U, c, s) && Receive(c, s, s', x)
    ensures Measure(U, s') < Measure(U, s)
  {
    var m := UpdateIsApplied(c, s);
    ChoiceIsFair(c, m, x);
    TurnWeight(U, c, s.known, s.channel[0], m, x);
    UnionBound(s.running, x.next);
  }

  lemma UnionBound<P>(a: set<P>, ps: seq<P>)
    ensures |a + Members(ps)| <= |a| + |ps|
  {
    MembersBound(ps);
    assert a + Members(ps) == a + (Members(ps) - a);
    assert Members(ps) == (Members(ps) - a) + (Members(ps) * a);
  }

  lemma ReplyDecreases<P>(U: set<P>, c: Config<P>, s: State<P>, s': State<P>, up: Update<P>)
    requires Reply(c, s, s', up)
    ensures Measure(U, s') < Measure(U, s)
  {
    assert s.running == s'.running + {up.cause};
  }

  lemma NextDecreases<P(!new)>(U: set<P>, c: Config<P>, s: State<P>, s': State<P>)
    requires Inv(c, s) && Within(U, c, s) && Next(c, s, s')
    ensures Measure(U, s') < Measure(U, s)
  {
    if up :| Reply(c, s, s', up) {
      ReplyDecreases(U, c, s, s', up);
    } else if x :| Receive(c, s, s', x) {
      ReceiveDecreases(U, c, s, s', x);
    } else {
      CancelDecreases(U, s, s');
    }
  }

  lemma CancelDecreases<P>(U: set<P>, s: State<P>, s': State<P>)
    requires Cancel(s, s')
    ensures Measure(U, s') < Measure(U, s)
  {
  }

  /** Over a finite universe of peers every run is finite: it is no longer than the initial measure. */
  lemma {:induction false} RunsAreFinite<P(!new)>(U: set<P>, c: Config<P>, seeds: seq<P>, trace: seq<State<P>>, i: nat)
    requires c.alpha >= 1 && Run(c, seeds, trace) && i < |trace|
    requires forall j :: 0 <= j < |trace| ==> Within(U, c, trace[j])
    ensures Measure(U, trace[i]) + i <= 6 * |U| + 2
  {
    if i == 0 {
      var m: Known<P> := map[];
      assert U - m.Keys == U && InStates(m, {Heard}) == {} && InStates(m, {Waiting}) == {};
    } else {
      RunsAreFinite(U, c, seeds, trace, i - 1);
      RunKeepsInv(c, seeds, trace, i - 1);
      NextDecreases(U, c, trace[i - 1], trace[i]);
    }
  }

  lemma {:induction false} Nearest<P>(S: set<P>, dist: P -> nat) returns (p: P)
    requires S != {}
    ensures p in S && forall q :: q in S ==> dist(p) <= dist(q)
    decreases |S|
  {
    p :| p in S;
    if S != {p} {
      assert S - {p} != {};
      var q := Nearest(S - {p}, dist);
      if dist(q) < dist(p) { p := q; }
    }
  }

  lemma {:induction false} ClosestExists<P>(m: Known<P>, dist: P -> nat, n: nat, states: set<PeerState>)
    returns (r: seq<P>)
    ensures Closest(m, dist, n, states, r)
    decreases n
  {
    if n == 0 { return []; }
    r := ClosestExists(m, dist, n - 1, states);
    var S := InStates(m, states);
    if |S| >= n {
      DistinctCount(r);
      var rest := S - Members(r);
      assert Members(r) <= S && |rest| == |S| - |r|;
      var p := Nearest(rest, dist);
      r := r + [p];
    }
  }

  /** The coordinator can always take its turn when an update is queued, whatever the stop function says. */
  lemma CoordinatorProceeds<P>(c: Config<P>, s: State<P>, stop: bool) returns (s': State<P>, x: Choice<P>)
    requires Inv(c, s) && s.phase == Active && s.channel != []
    ensures Receive(c, s, s', x) && x.stop == stop && !s'.panicked
  {
    var m := TurnIsReady(c, s);
    x := ChoiceExists(c, m, stop);
    s' := s.(known := Spawn(m, x.next), running := s.running + Members(x.next), channel := s.channel[1..],
             phase := if x.stops then Ended(x.reason) else Active, top := x.top);
  }

  /** The next update can be applied, and leaves at most `alpha` peers waiting. */
  lemma TurnIsReady<P>(c: Config<P>, s: State<P>) returns (m: Known<P>)
    requires Inv(c, s) && s.phase == Active && s.channel != []
    ensures ApplyUpdate(s.known, s.channel[0], c.self) == Updated(m) && |InStates(m, {Waiting})| <= c.alpha
  {
    if Seeding(c, s) { SeedIsReady(c, s); } else { ReceiveIsReady(c, s); }
    m := ApplyUpdate(s.known, s.channel[0], c.self).known;
    CausesCount(s.channel[1..]);
  }

  lemma ChoiceExists<P>(c: Config<P>, m: Known<P>, stop: bool) returns (x: Choice<P>)
    requires |InStates(m, {Waiting})| <= c.alpha
    ensures Chooses(c, m, x) && x.stop == stop
  {
    if stop {
      x := Choice(true, Stopped, true, [], []);
    } else if Starving(m) {
      x := Choice(false, Starvation, true, [], []);
    } else {
      var top := ClosestExists(m, c.dist, c.beta, NOT_UNREACHABLE);
      if AllQueried(m, top) {
        x := Choice(false, Completed, true, [], top);
      } else {
        var next := ClosestExists(m, c.dist, c.alpha - |InStates(m, {Waiting})|, {Heard});
        x := Choice(false, Stopped, false, next, top);
      }
    }
  }

  /** An active coordinator without a queued update has a worker outstanding. */
  lemma SomeoneToWaitFor<P>(c: Config<P>, s: State<P>)
    requires Inv(c, s) && s.phase == Active && s.channel == []
    ensures s.running != {}
  {
    var p :| p in InStates(s.known, {Waiting});
    assert p !in Causes(s.channel);
  }

  /** Without being cancelled, a lookup can go on exactly as long as it is active or a worker is left; it never
      waits for an update with no worker outstanding. */
  lemma NeverStuck<P(!new)>(c: Config<P>, s: State<P>)
    requires Inv(c, s)
    ensures s.phase == Active && s.channel == [] ==> s.running != {}
    ensures (exists s' :: Moves(c, s, s')) <==> s.phase == Active || s.running != {}
  {
    if s.phase == Active && s.channel == [] { SomeoneToWaitFor(c, s); }
    if s.running != {} {
      var p :| p in s.running;
      WorkersNeverBlock(c, s, p);
      var up := Update(p, [], [], [p]);
      var s' := s.(running := s.running - {p}, channel := s.channel + [up]);
      assert Reply(c, s, s', up);
      assert Moves(c, s, s');
    } else if s.phase == Active {
      var s', x := CoordinatorProceeds(c, s, true);
      assert Moves(c, s, s');
    }
  }

  /** A completed lookup has queried its `beta` closest reachable peers, and knows every peer they named. */
  lemma CompletedLookup<P(!new)>(c: Config<P>, seeds: seq<P>, trace: seq<State<P>>, i: nat)
    requires c.alpha >= 1 && Run(c, seeds, trace) && i < |trace| && trace[i].phase == Ended(Completed)
    ensures var s := trace[i];
      && ClosestReachable(s.known, c.dist, c.beta, s.top)
      && forall p :: p in s.top ==>
        p in s.known && s.known[p] == Queried && p in s.replies && Remembered(c, s, s.replies[p])
  {
    RunKeepsInv(c, seeds, trace, i);
    TopIsClosestReachable(trace[i].known, c.dist, c.beta, trace[i].top);
    forall p | p in trace[i].top ensures p in trace[i].replies && Remembered(c, trace[i], trace[i].replies[p]) {
      assert trace[i].known[p] == Queried;
      assert trace[i].known != map[];
    }
  }

  // ---------------------------------------------------------------- how the coordinator chooses

  /** Nobody is left to ask or to wait for. */
  ghost predicate Exhausted<P>(m: Known<P>) {
    forall p :: p in m ==> m[p] == Queried || m[p] == Unreachable
  }

  lemma StarvingIsExhausted<P>(m: Known<P>)
    ensures Starving(m) <==> Exhausted(m)
  {
    if Exhausted(m) { assert InStates(m, {Heard}) == {} && InStates(m, {Waiting}) == {}; }
    if Starving(m) {
      forall p | p in m ensures m[p] == Queried || m[p] == Unreachable {
        assert p !in InStates(m, {Heard}) && p !in InStates(m, {Waiting});
      }
    }
  }

  /** A lookup that ends by starvation has asked everybody it knows; one that completes has somebody left. */
  lemma EndingTurn<P>(c: Config<P>, s: State<P>, s': State<P>, x: Choice<P>)
    requires Inv(c, s) && Receive(c, s, s', x) && s'.phase.Ended?
    ensures s'.phase.reason == Starvation ==> Exhausted(s'.known)
    ensures s'.phase.reason == Completed ==> !Exhausted(s'.known) && AllQueried(s'.known, x.top)
    ensures s'.phase.reason == Stopped <==> x.stop
    ensures s'.running == s.running
  {
    var m := UpdateIsApplied(c, s);
    StarvingIsExhausted(m);
    assert x.next == [];
  }

  /** A turn that goes on starts as many queries as there is room for, with the closest peers heard of. */
  lemma TurnIsGreedy<P>(c: Config<P>, s: State<P>, s': State<P>, x: Choice<P>)
    requires Inv(c, s) && Receive(c, s, s', x) && s'.phase == Active
    ensures |s'.running| + |s'.channel| == c.alpha || forall h :: h in s'.known ==> s'.known[h] != Heard
    ensures forall p, h :: p in s'.running - s.running && h in s'.known && s'.known[h] == Heard ==>
      c.dist(p) <= c.dist(h)
    ensures forall p :: p in s'.running - s.running ==> p in s'.known && s'.known[p] == Waiting
  {
    if Seeding(c, s) { SeedIsReady(c, s); } else { ReceiveIsReady(c, s); }
    var m := ApplyUpdate(s.known, s.channel[0], c.self).known;
    ChoiceIsFair(c, m, x);
    SpawnStates(m, x.next);
    RoomIsUsed(c, m, s.running, s'.channel, x);
    ClosestAreSpawned(c, m, x);
  }

  lemma RoomIsUsed<P>(c: Config<P>, m: Known<P>, running: set<P>, ch: seq<Update<P>>, x: Choice<P>)
    requires Ready(c, m, running, ch) && FairChoice(c, m, x) && !x.stops
    ensures |running + Members(x.next)| + |ch| == c.alpha || forall h :: h in m && m[h] == Heard ==> h in x.next
  {
    var heard, n := InStates(m, {Heard}), Members(x.next);
    CausesCount(ch);
    Counts(InStates(m, {Waiting}), running, Causes(ch), n);
    if |x.next| == |heard| {
      assert n <= heard;
      forall h | h in m && m[h] == Heard ensures h in x.next {
        if h !in n { SubsetCount(n, heard - {h}); }
      }
    }
  }

  lemma ClosestAreSpawned<P>(c: Config<P>, m: Known<P>, x: Choice<P>)
    requires Chooses(c, m, x) && !x.stops
    ensures forall p, h :: p in x.next && h in m && m[h] == Heard && h !in x.next ==> c.dist(p) <= c.dist(h)
  {
    forall p, h | p in x.next && h in m && m[h] == Heard && h !in x.next ensures c.dist(p) <= c.dist(h) {
      var i :| 0 <= i < |x.next| && x.next[i] == p;
      assert h in InStates(m, {Heard});
    }
  }
}
