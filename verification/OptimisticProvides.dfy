/** Optimistic provide: RPCs started during a lookup, a bounded channel that reports their completion, an early
    return, and background consumers that hold leases of a shared job pool. */
module OptimisticProvides {
  import opened Sequences

  datatype RpcState = Scheduled | Success | Failure

  /** Where the providing goroutine stands: still scheduling, waiting for the return threshold, and then once per
      remaining RPC either leasing a consumer or receiving itself. The `Adding` phases lie between a receive and
      the increment of the atomic counter. */
  datatype Phase =
    | Scheduling
    | Waiting
    | WaitingAdd
    | Leasing(left: nat)
    | LeasingAdd(left: nat)
    | Returned

  /** `buffered` messages lie in the channel; `waiting`, `releasing` and `adding` count the consumers before their
      receive, before giving back the lease and before their increment; `started` and `closes` are history. */
  datatype State<P> = State(
    rpcs: map<P, RpcState>, started: seq<P>, running: set<P>, sending: set<P>,
    buffered: nat, received: nat, done: nat, closes: nat, phase: Phase, rpcCount: nat, threshold: nat,
    waiting: nat, releasing: nat, adding: nat, leases: nat)

  datatype Action<P> =
    | Start(peer: P)
    | FinishRpc(peer: P, ok: bool)
    | Send(peer: P)
    | BeginWait
    | MainReceive
    | MainAdd
    | Lease
    | LeaseReceive
    | LeaseAdd
    | Return
    | ConsumerReceive
    | ConsumerRelease
    | ConsumerAdd

  /** `capacity` is the size of the channel and the return threshold before it is capped. */
  predicate Enabled<P(==)>(capacity: nat, s: State<P>, a: Action<P>) {
    match a
    case Start(p) => s.phase.Scheduling? && p !in s.rpcs
    case FinishRpc(p, _) => p in s.running
    case Send(p) => p in s.sending && s.buffered < capacity
    case BeginWait => s.phase.Scheduling?
    case MainReceive => s.phase.Waiting? && s.buffered > 0
    case MainAdd => s.phase.WaitingAdd?
    case Lease => s.phase.Leasing? && s.phase.left > 0
    case LeaseReceive => s.phase.Leasing? && s.phase.left > 0 && s.buffered > 0
    case LeaseAdd => s.phase.LeasingAdd?
    case Return => s.phase.Leasing? && s.phase.left == 0
    case ConsumerReceive => s.waiting > 0 && s.buffered > 0
    case ConsumerRelease => s.releasing > 0 && s.leases > 0
    case ConsumerAdd => s.adding > 0
  }

  /** Incrementing the counter; whoever reaches the number of RPCs closes the channel. */
  function CountAndClose<P>(s: State<P>): State<P> {
    s.(done := s.done + 1, closes := if s.done + 1 == s.rpcCount then s.closes + 1 else s.closes)
  }

  function Step<P(==)>(capacity: nat, s: State<P>, a: Action<P>): State<P>
    requires Enabled(capacity, s, a)
  {
    match a
    case Start(p) => s.(rpcs := s.rpcs[p := Scheduled], started := s.started + [p], running := s.running + {p})
    case FinishRpc(p, ok) =>
      s.(rpcs := s.rpcs[p := if ok then Success else Failure], running := s.running - {p}, sending := s.sending + {p})
    case Send(p) => s.(sending := s.sending - {p}, buffered := s.buffered + 1)
    case BeginWait =>
      s.(phase := Waiting, rpcCount := |s.rpcs|, threshold := if capacity > |s.rpcs| then |s.rpcs| else capacity)
    case MainReceive => s.(buffered := s.buffered - 1, received := s.received + 1, phase := WaitingAdd)
    case MainAdd =>
      s.(done := s.done + 1,
         phase := if s.done + 1 != s.threshold then Waiting
                  else Leasing(if s.rpcCount >= s.done + 1 then s.rpcCount - (s.done + 1) else 0))
    case Lease => s.(phase := Leasing(s.phase.left - 1), waiting := s.waiting + 1, leases := s.leases + 1)
    case LeaseReceive =>
      s.(buffered := s.buffered - 1, received := s.received + 1, phase := LeasingAdd(s.phase.left - 1))
    case LeaseAdd => CountAndClose(s).(phase := Leasing(s.phase.left))
    case Return => s.(phase := Returned)
    case ConsumerReceive =>
      s.(buffered := s.buffered - 1, received := s.received + 1, waiting := s.waiting - 1,
         releasing := s.releasing + 1)
    case ConsumerRelease => s.(releasing := s.releasing - 1, adding := s.adding + 1, leases := s.leases - 1)
    case ConsumerAdd => CountAndClose(s).(adding := s.adding - 1)
  }

  ghost predicate Init<P>(s: State<P>) {
    s == State(map[], [], {}, {}, 0, 0, 0, 0, Scheduling, 0, 0, 0, 0, 0, 0)
  }

  // ---------------------------------------------------------------- invariant

  ghost predicate StartedOnce<P(!new)>(s: State<P>) {
    && NoRepeats(s.started)
    && (forall p :: p in s.started <==> p in s.rpcs)
    && s.running <= s.rpcs.Keys && s.sending <= s.rpcs.Keys && s.running !! s.sending
  }

  /** Receivers between their receive and their increment. */
  function Pending<P>(s: State<P>): nat {
    s.releasing + s.adding + if s.phase.WaitingAdd? || s.phase.LeasingAdd? then 1 else 0
  }

  /** Messages are conserved, every receive is counted, every lease belongs to a consumer, and every RPC that has
      not been received has exactly one receiver to come. */
  ghost predicate Balanced<P>(s: State<P>) {
    && |s.running| + |s.sending| + s.buffered + s.received == |s.rpcs|
    && s.received == s.done + Pending(s)
    && s.leases == s.waiting + s.releasing
    && match s.phase
       case Scheduling => s.received == 0 && s.waiting == 0 && s.closes == 0
       case Waiting => BelowThreshold(s)
       case WaitingAdd => BelowThreshold(s)
       case Leasing(left) => s.rpcCount == |s.rpcs| && s.received + s.waiting + left == s.rpcCount && Closing(s)
       case LeasingAdd(left) => s.rpcCount == |s.rpcs| && s.received + s.waiting + left == s.rpcCount && Closing(s)
       case Returned => s.rpcCount == |s.rpcs| && s.received + s.waiting == s.rpcCount && Closing(s)
  }

  ghost predicate BelowThreshold<P>(s: State<P>) {
    && s.rpcCount == |s.rpcs| && s.done < s.threshold <= s.rpcCount
    && s.waiting == s.releasing == s.adding == 0 && s.closes == 0
  }

  ghost predicate Closing<P>(s: State<P>) {
    s.closes <= 1 && (s.closes == 1 ==> s.done == s.rpcCount)
  }

  ghost predicate Inv<P(!new)>(s: State<P>) {
    StartedOnce(s) && Balanced(s)
  }

  lemma StepKeepsStarted<P(!new)>(capacity: nat, s: State<P>, a: Action<P>)
    requires StartedOnce(s) && Enabled(capacity, s, a)
    ensures StartedOnce(Step(capacity, s, a))
  {
  }

  lemma StartKeepsBalance<P(!new)>(capacity: nat, s: State<P>, p: P)
    requires Inv(s) && Enabled(capacity, s, Start(p))
    ensures Balanced(Step(capacity, s, Start(p)))
  {
    var t := Step(capacity, s, Start(p));
    assert t.rpcs.Keys == s.rpcs.Keys + {p};
    assert |t.rpcs| == |t.rpcs.Keys| && |s.rpcs| == |s.rpcs.Keys|;
    assert |t.running| == |s.running| + 1;
  }

  lemma FinishKeepsBalance<P(!new)>(capacity: nat, s: State<P>, p: P, ok: bool)
    requires Inv(s) && Enabled(capacity, s, FinishRpc(p, ok))
    ensures Balanced(Step(capacity, s, FinishRpc(p, ok)))
  {
    var t := Step(capacity, s, FinishRpc(p, ok));
    assert t.rpcs.Keys == s.rpcs.Keys;
    assert |t.rpcs| == |t.rpcs.Keys| && |s.rpcs| == |s.rpcs.Keys|;
    assert |t.running| == |s.running| - 1 && |t.sending| == |s.sending| + 1;
  }

  lemma SendKeepsBalance<P(!new)>(capacity: nat, s: State<P>, p: P)
    requires Inv(s) && Enabled(capacity, s, Send(p))
    ensures Balanced(Step(capacity, s, Send(p)))
  {
    assert |s.sending - {p}| == |s.sending| - 1;
  }

  /** The providing goroutine before its threshold. */
  lemma WaitKeepsBalance<P>(capacity: nat, s: State<P>, a: Action<P>)
    requires Balanced(s) && Enabled(capacity, s, a) && capacity >= 1
    requires (a.BeginWait? && s.rpcs != map[]) || a.MainReceive? || a.MainAdd?
    ensures Balanced(Step(capacity, s, a))
  {
    assert a.BeginWait? ==> |s.rpcs| > 0;
  }

  /** The providing goroutine behind its threshold. */
  lemma LeaseKeepsBalance<P>(capacity: nat, s: State<P>, a: Action<P>)
    requires Balanced(s) && Enabled(capacity, s, a) && (a.Lease? || a.LeaseReceive? || a.LeaseAdd? || a.Return?)
    ensures Balanced(Step(capacity, s, a))
  {
  }

  lemma ConsumerKeepsBalance<P>(capacity: nat, s: State<P>, a: Action<P>)
    requires Balanced(s) && Enabled(capacity, s, a) && (a.ConsumerReceive? || a.ConsumerRelease? || a.ConsumerAdd?)
    ensures Balanced(Step(capacity, s, a))
  {
  }

  /** Steps of the providing goroutine and of the consumers move messages out of the channel. */
  lemma ReceiverKeepsBalance<P>(capacity: nat, s: State<P>, a: Action<P>)
    requires Balanced(s) && Enabled(capacity, s, a) && capacity >= 1
    requires !a.Start? && !a.FinishRpc? && !a.Send? && (a.BeginWait? ==> s.rpcs != map[])
    ensures Balanced(Step(capacity, s, a))
  {
    if a.BeginWait? || a.MainReceive? || a.MainAdd? {
      WaitKeepsBalance(capacity, s, a);
    } else if a.ConsumerReceive? || a.ConsumerRelease? || a.ConsumerAdd? {
      ConsumerKeepsBalance(capacity, s, a);
    } else {
      LeaseKeepsBalance(capacity, s, a);
    }
  }

  lemma StepKeepsInv<P(!new)>(capacity: nat, s: State<P>, a: Action<P>)
    requires Inv(s) && Enabled(capacity, s, a) && capacity >= 1
    requires a.BeginWait? ==> s.rpcs != map[]
    ensures Inv(Step(capacity, s, a))
  {
    StepKeepsStarted(capacity, s, a);
    match a
    case Start(p) => StartKeepsBalance(capacity, s, p);
    case FinishRpc(p, ok) => FinishKeepsBalance(capacity, s, p, ok);
    case Send(p) => SendKeepsBalance(capacity, s, p);
    case _ => ReceiverKeepsBalance(capacity, s, a);
  }

  // ---------------------------------------------------------------- runs

  /** A run that starts waiting only after at least one RPC was started. */
  ghost predicate Allowed<P>(capacity: nat, s: State<P>, acts: seq<Action<P>>)
    decreases |acts|
  {
    acts == [] ||
    (Enabled(capacity, s, acts[0]) && (acts[0].BeginWait? ==> s.rpcs != map[]) &&
      Allowed(capacity, Step(capacity, s, acts[0]), acts[1..]))
  }

  function Execute<P(==)>(capacity: nat, s: State<P>, acts: seq<Action<P>>): State<P>
    requires Allowed(capacity, s, acts)
    decreases |acts|
  {
    if acts == [] then s else Execute(capacity, Step(capacity, s, acts[0]), acts[1..])
  }

  lemma {:induction false} RunKeepsInv<P(!new)>(capacity: nat, s: State<P>, acts: seq<Action<P>>)
    requires capacity >= 1 && Inv(s) && Allowed(capacity, s, acts)
    ensures Inv(Execute(capacity, s, acts))
    decreases |acts|
  {
    if acts == [] {
    } else {
      StepKeepsInv(capacity, s, acts[0]);
      RunKeepsInv(capacity, Step(capacity, s, acts[0]), acts[1..]);
    }
  }

  /** Nobody is left to send on the channel or to read from it. */
  ghost predicate NobodyLeft<P>(s: State<P>) {
    && s.running == {} && s.sending == {} && s.buffered == 0 && s.received == |s.rpcs| && s.waiting == 0
    && !s.phase.Scheduling? && !s.phase.Waiting? && (s.phase.Leasing? ==> s.phase.left == 0)
  }

  lemma ClosedMeansDone<P>(s: State<P>)
    requires Balanced(s)
    ensures s.received <= |s.rpcs| && s.closes <= 1 && (s.closes == 1 ==> NobodyLeft(s))
  {
  }

  /** What every reachable state guarantees: each peer got at most one RPC, at most one message was received per
      RPC, and the channel was closed at most once and only after every RPC has sent and every message was received. */
  ghost predicate Safe<P>(s: State<P>) {
    && NoRepeats(s.started)
    && s.received <= |s.rpcs| && s.closes <= 1 && (s.closes == 1 ==> NobodyLeft(s))
  }

  lemma InvIsSafe<P(!new)>(s: State<P>)
    requires Inv(s)
    ensures Safe(s)
  {
    ClosedMeansDone(s);
  }

  lemma InitKeepsInv<P(!new)>(s: State<P>)
    requires Init(s)
    ensures Inv(s)
  {
  }

  /** Every interleaving is safe. */
  lemma ProtocolIsSafe<P(!new)>(capacity: nat, s: State<P>, acts: seq<Action<P>>)
    requires capacity >= 1 && Init(s) && Allowed(capacity, s, acts)
    ensures Safe(Execute(capacity, s, acts))
  {
    InitKeepsInv(s);
    RunKeepsInv(capacity, s, acts);
    InvIsSafe(Execute(capacity, s, acts));
  }

  // ---------------------------------------------------------------- outcomes

  /** An RPC is scheduled as long as it runs, and afterwards shows how it ended. */
  ghost predicate Reported<P>(s: State<P>, acts: seq<Action<P>>) {
    forall p :: p in s.rpcs ==>
      match s.rpcs[p]
      case Scheduled => p in s.running
      case Success => p !in s.running && FinishRpc(p, true) in acts
      case Failure => p !in s.running && FinishRpc(p, false) in acts
  }

  lemma StepKeepsReported<P(!new)>(capacity: nat, s: State<P>, acts: seq<Action<P>>, a: Action<P>)
    requires StartedOnce(s) && Reported(s, acts) && Enabled(capacity, s, a)
    ensures Reported(Step(capacity, s, a), acts + [a])
  {
    assert a in acts + [a] && forall x :: x in acts ==> x in acts + [a];
  }

  lemma {:induction false} RunKeepsReported<P(!new)>(capacity: nat, s: State<P>, before: seq<Action<P>>,
                                                     acts: seq<Action<P>>)
    requires capacity >= 1 && Inv(s) && Reported(s, before) && Allowed(capacity, s, acts)
    ensures Reported(Execute(capacity, s, acts), before + acts)
    decreases |acts|
  {
    if acts == [] {
      assert before + acts == before;
    } else {
      StepKeepsInv(capacity, s, acts[0]);
      StepKeepsReported(capacity, s, before, acts[0]);
      RunKeepsReported(capacity, Step(capacity, s, acts[0]), before + [acts[0]], acts[1..]);
      assert before + [acts[0]] + acts[1..] == before + acts;
    }
  }

  // ---------------------------------------------------------------- the early return

  function Threshold(capacity: nat, rpcs: nat): nat {
    if capacity < rpcs then capacity else rpcs
  }

  ghost predicate PastWaiting<P>(s: State<P>) {
    s.phase.Leasing? || s.phase.LeasingAdd? || s.phase.Returned?
  }

  /** The goroutine waits for the threshold before it goes on, and the channel is closed exactly when the last RPC has
      been counted, unless the goroutine waited for all of them itself. */
  ghost predicate Paced<P>(capacity: nat, s: State<P>) {
    && (!s.phase.Scheduling? ==> s.threshold == Threshold(capacity, |s.rpcs|))
    && (PastWaiting(s) ==>
         && s.done >= Threshold(capacity, |s.rpcs|)
         && (s.closes == 1 <==> s.done == |s.rpcs| && capacity < |s.rpcs|))
  }

  lemma StepKeepsPace<P(!new)>(capacity: nat, s: State<P>, a: Action<P>)
    requires Inv(s) && Paced(capacity, s) && Enabled(capacity, s, a) && capacity >= 1
    requires a.BeginWait? ==> s.rpcs != map[]
    ensures Paced(capacity, Step(capacity, s, a))
  {
    if a.Start? || a.FinishRpc? || a.Send? {
      RpcKeepsPace(capacity, s, a);
    } else if a.BeginWait? || a.MainReceive? || a.MainAdd? {
      WaitKeepsPace(capacity, s, a);
    } else {
      CountKeepsPace(capacity, s, a);
    }
  }

  lemma RpcKeepsPace<P>(capacity: nat, s: State<P>, a: Action<P>)
    requires Paced(capacity, s) && Enabled(capacity, s, a) && (a.Start? || a.FinishRpc? || a.Send?)
    requires s.running <= s.rpcs.Keys
    ensures Paced(capacity, Step(capacity, s, a))
  {
    if a.FinishRpc? {
      var t := Step(capacity, s, a);
      assert t.rpcs.Keys == s.rpcs.Keys && |t.rpcs| == |t.rpcs.Keys| && |s.rpcs| == |s.rpcs.Keys|;
    }
  }

  lemma WaitKeepsPace<P>(capacity: nat, s: State<P>, a: Action<P>)
    requires Balanced(s) && Paced(capacity, s) && Enabled(capacity, s, a)
    requires a.BeginWait? || a.MainReceive? || a.MainAdd?
    ensures Paced(capacity, Step(capacity, s, a))
  {
  }

  lemma CountKeepsPace<P>(capacity: nat, s: State<P>, a: Action<P>)
    requires Balanced(s) && Paced(capacity, s) && Enabled(capacity, s, a)
    requires !a.Start? && !a.FinishRpc? && !a.Send? && !a.BeginWait? && !a.MainReceive? && !a.MainAdd?
    ensures Paced(capacity, Step(capacity, s, a))
  {
  }

  lemma InitIsPaced<P>(capacity: nat, s: State<P>)
    requires Init(s)
    ensures Paced(capacity, s)
  {
  }

  lemma {:induction false} RunKeepsPace<P(!new)>(capacity: nat, s: State<P>, acts: seq<Action<P>>)
    requires capacity >= 1 && Inv(s) && Paced(capacity, s) && Allowed(capacity, s, acts)
    ensures Paced(capacity, Execute(capacity, s, acts))
    decreases |acts|
  {
    if acts == [] {
    } else {
      StepKeepsInv(capacity, s, acts[0]);
      StepKeepsPace(capacity, s, acts[0]);
      RunKeepsPace(capacity, Step(capacity, s, acts[0]), acts[1..]);
    }
  }

  /** In every run the provide returns only once the threshold of RPCs, or all if there are fewer, has been counted,
      and a closed channel means that all have been. */
  lemma ReturnIsPaced<P(!new)>(capacity: nat, s: State<P>, acts: seq<Action<P>>)
    requires capacity >= 1 && Init(s) && Allowed(capacity, s, acts)
    ensures Paced(capacity, Execute(capacity, s, acts))
  {
    InitKeepsInv(s);
    InitIsPaced(capacity, s);
    RunKeepsPace(capacity, s, acts);
  }

  // ---------------------------------------------------------------- everything is cleaned up

  /** An upper bound on the steps left once scheduling is over. */
  ghost function Work<P>(s: State<P>): nat {
    7 * |s.running| + 6 * |s.sending| + 5 * s.buffered + 4 * s.waiting + 2 * s.releasing + s.adding +
    match s.phase
    case Scheduling => 0
    case Waiting => 5 * s.rpcCount + 2
    case WaitingAdd => 5 * s.rpcCount + 3
    case Leasing(left) => 5 * left + 1
    case LeasingAdd(left) => 5 * left + 2
    case Returned => 0
  }

  lemma StepsGoDown<P(!new)>(capacity: nat, s: State<P>, a: Action<P>)
    requires Inv(s) && Enabled(capacity, s, a) && !s.phase.Scheduling?
    ensures Work(Step(capacity, s, a)) < Work(s)
  {
    if a.FinishRpc? {
      RpcGoesDown(capacity, s, a);
    } else if a.Send? {
      SendGoesDown(capacity, s, a);
    }
  }

  lemma RpcGoesDown<P(!new)>(capacity: nat, s: State<P>, a: Action<P>)
    requires Inv(s) && Enabled(capacity, s, a) && a.FinishRpc?
    ensures Work(Step(capacity, s, a)) < Work(s)
  {
    var t := Step(capacity, s, a);
    assert |t.running| == |s.running| - 1 && |t.sending| == |s.sending| + 1;
  }

  lemma SendGoesDown<P(!new)>(capacity: nat, s: State<P>, a: Action<P>)
    requires Inv(s) && Enabled(capacity, s, a) && a.Send?
    ensures Work(Step(capacity, s, a)) < Work(s)
  {
    var t := Step(capacity, s, a);
    assert |t.sending| == |s.sending| - 1;
  }

  /** Nothing can be done without a free place in the job pool, which other provides may keep occupied. */
  ghost predicate Quiescent<P(!new)>(capacity: nat, s: State<P>) {
    forall a: Action<P> :: Enabled(capacity, s, a) ==> a.Lease?
  }

  /** When nothing is left to do, be the job pool full or not, the provide has returned, every RPC has reported and
      was counted, every message has been consumed and every lease given back. */
  lemma QuiescentIsClean<P(!new)>(capacity: nat, s: State<P>)
    requires capacity >= 1 && Inv(s) && Quiescent(capacity, s)
    ensures s.phase.Returned? && s.running == {} && s.sending == {} && s.buffered == 0
    ensures s.done == s.received == |s.rpcs| && s.leases == 0 && s.waiting == 0
  {
    assert !Enabled<P>(capacity, s, BeginWait) && !Enabled<P>(capacity, s, MainReceive) &&
      !Enabled<P>(capacity, s, MainAdd);
    assert !Enabled<P>(capacity, s, LeaseReceive) && !Enabled<P>(capacity, s, LeaseAdd) &&
      !Enabled<P>(capacity, s, Return);
    assert !Enabled<P>(capacity, s, ConsumerReceive) && !Enabled<P>(capacity, s, ConsumerRelease) &&
      !Enabled<P>(capacity, s, ConsumerAdd);
    if s.running != {} { var p :| p in s.running; assert Enabled(capacity, s, FinishRpc(p, true)); }
    assert forall p :: p in s.sending ==> !Enabled(capacity, s, Send(p));
  }

  /** A wait hangs from its beginning exactly if no RPC was started: then there is no message to come, and nobody
      closes the channel. */
  lemma WaitHangsIffNoRpcs<P(!new)>(capacity: nat, s: State<P>)
    requires capacity >= 1 && Inv(s) && s.phase.Scheduling?
    ensures Quiescent(capacity, Step(capacity, s, BeginWait)) <==> s.rpcs == map[]
  {
    var t := Step(capacity, s, BeginWait);
    if s.rpcs != map[] {
      StepKeepsInv(capacity, s, BeginWait);
      if Quiescent(capacity, t) { QuiescentIsClean(capacity, t); }
    } else {
      assert s.running == {} && s.sending == {};
    }
  }

  /** The failing input: an optimistic provide whose lookup found nobody. */
  lemma WaitWithoutRpcsHangs<P(!new)>(capacity: nat, s: State<P>)
    requires Init(s)
    ensures var t := Step(capacity, s, BeginWait); t.phase.Waiting? && Quiescent(capacity, t)
  {
  }
}
