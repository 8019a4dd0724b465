/** The keystore that can be replaced as a whole: two namespaces, a persisted marker of the active one, a worker
    that handles requests one at a time, and a reset that writes beside it. Writes and deletions hit the disk one
    key at a time, and the process may crash between any two of them. */
module ResettableKeystores {
  import opened Sequences

  /** What survives a crash. `marker` is absent until the first successful reset. */
  datatype Disk<K> = Disk(zero: set<K>, one: set<K>, marker: Marker)

  datatype Marker = NoMarker | At(one: bool)

  /** `Rejecting` is the answer to a start that arrives while a reset is in progress; its caller may have gone. */
  datatype Worker<K> =
    | Idle
    | PuttingAlt(todo: seq<K>, keys: seq<K>)
    | Putting(todo: seq<K>)
    | ClearingForStart
    | Swapped
    | Clearing
    | Rejecting(waiting: bool)

  datatype Resetter<K> =
    | NoReset
    | Asked(all: seq<K>)
    | Writing(all: seq<K>, todo: seq<K>)
    | Finished(all: seq<K>, success: bool)
    | Abandoned

  /** `active` is the namespace the worker serves. `since` collects the keys put since the reset started, and
      `contents` is the abstract store: what a put or a completed reset is supposed to leave behind. */
  datatype State<K> = State(
    disk: Disk<K>, active: bool, resetting: bool, worker: Worker<K>, resetter: Resetter<K>,
    since: set<K>, contents: set<K>)

  function Namespace<K>(d: Disk<K>, one: bool): set<K> {
    if one then d.one else d.zero
  }

  function WithNamespace<K>(d: Disk<K>, one: bool, keys: set<K>): Disk<K> {
    if one then d.(one := keys) else d.(zero := keys)
  }

  function MarkedActive<K>(d: Disk<K>): bool {
    d.marker.At? && d.marker.one
  }

  /** What a restart finds in the namespace the marker names. */
  function Persisted<K>(d: Disk<K>): set<K> {
    Namespace(d, MarkedActive(d))
  }

  // ---------------------------------------------------------------- steps

  datatype Action<K> =
    | BeginPut(keys: seq<K>)
    | WriteAlt
    | EndAltPut
    | WritePrimary
    | EndPut
    | AskReset(keys: seq<K>)
    | BeginStart
    | ClearOne(key: K)
    | EndStart
    | AbandonStart
    | WriteReset
    | FinishReset
    | FailReset
    | Swap
    | WriteMarker
    | BeginAbort
    | EndClear
    | BeginReject
    | GiveUp
    | EndReject
    | Crash

  predicate Enabled<K(==)>(s: State<K>, a: Action<K>) {
    match a
    case BeginPut(_) => s.worker.Idle?
    case WriteAlt => s.worker.PuttingAlt? && s.worker.todo != []
    case EndAltPut => s.worker.PuttingAlt? && s.worker.todo == []
    case WritePrimary => s.worker.Putting? && s.worker.todo != []
    case EndPut => s.worker.Putting? && s.worker.todo == []
    case AskReset(_) => s.resetter.NoReset?
    case BeginStart => s.worker.Idle? && s.resetter.Asked? && !s.resetting
    case ClearOne(k) => (s.worker.ClearingForStart? || s.worker.Clearing?) && k in Namespace(s.disk, !s.active)
    case EndStart => s.worker.ClearingForStart? && Namespace(s.disk, !s.active) == {} && s.resetter.Asked?
    case AbandonStart => s.worker.ClearingForStart? && s.resetter.Asked?
    case WriteReset => s.resetter.Writing? && s.resetter.todo != []
    case FinishReset => s.resetter.Writing? && s.resetter.todo == []
    case FailReset => s.resetter.Writing?
    case Swap => s.worker.Idle? && s.resetter.Finished? && s.resetter.success
    case WriteMarker => s.worker.Swapped?
    case BeginAbort => s.worker.Idle? && s.resetter.Finished? && !s.resetter.success
    case EndClear => s.worker.Clearing? && Namespace(s.disk, !s.active) == {}
    case BeginReject => s.worker.Idle? && s.resetting
    case GiveUp => s.worker.Rejecting? && s.worker.waiting
    case EndReject => s.worker.Rejecting? && s.worker.waiting
    case Crash => true
  }

  function AddTo<K>(s: State<K>, one: bool, k: K): Disk<K> {
    WithNamespace(s.disk, one, Namespace(s.disk, one) + {k})
  }

  function Step<K(==)>(s: State<K>, a: Action<K>): State<K>
    requires Enabled(s, a)
  {
    match a
    case BeginPut(keys) =>
      if s.resetting then s.(worker := PuttingAlt(keys, keys), since := s.since + Members(keys))
      else s.(worker := Putting(keys))
    case WriteAlt => s.(disk := AddTo(s, !s.active, s.worker.todo[0]), worker := s.worker.(todo := s.worker.todo[1..]))
    case EndAltPut => s.(worker := Putting(s.worker.keys))
    case WritePrimary =>
      s.(disk := AddTo(s, s.active, s.worker.todo[0]), worker := Putting(s.worker.todo[1..]),
         contents := s.contents + {s.worker.todo[0]})
    case EndPut => s.(worker := Idle)
    case AskReset(keys) => s.(resetter := Asked(keys))
    case BeginStart => s.(worker := ClearingForStart)
    case ClearOne(k) => s.(disk := WithNamespace(s.disk, !s.active, Namespace(s.disk, !s.active) - {k}))
    case EndStart =>
      s.(worker := Idle, resetting := true, since := {}, resetter := Writing(s.resetter.all, s.resetter.all))
    case AbandonStart => s.(resetter := Abandoned)
    case WriteReset =>
      s.(disk := AddTo(s, !s.active, s.resetter.todo[0]), resetter := s.resetter.(todo := s.resetter.todo[1..]))
    case FinishReset => s.(resetter := Finished(s.resetter.all, true))
    case FailReset => s.(resetter := Finished(s.resetter.all, false))
    case Swap => s.(active := !s.active, worker := Swapped)
    case WriteMarker =>
      s.(disk := s.disk.(marker := At(s.active)), resetting := false, worker := Clearing,
         contents := (if s.resetter.Finished? then Members(s.resetter.all) else {}) + s.since)
    case BeginAbort => s.(resetting := false, worker := Clearing)
    case EndClear => s.(worker := Idle, resetter := NoReset)
    case BeginReject => s.(worker := Rejecting(true))
    case GiveUp => s.(worker := Rejecting(false))
    case EndReject => s.(worker := Idle)
    case Crash =>
      s.(active := MarkedActive(s.disk), resetting := false, worker := Idle, resetter := NoReset, since := {})
  }

  // ---------------------------------------------------------------- invariant

  /** The keys of the current put that have not reached the alternate namespace yet. */
  function AltPending<K>(w: Worker<K>): set<K> {
    if w.PuttingAlt? then Members(w.todo) else {}
  }

  /** The alternate namespace holds exactly what the reset has written and what was put since, up to what is
      still on its way. */
  ghost predicate AltBuilds<K>(s: State<K>, all: seq<K>, todo: set<K>) {
    var alt := Namespace(s.disk, !s.active);
    && alt <= Members(all) + s.since
    && Members(all) <= alt + todo
    && s.since <= alt + AltPending(s.worker)
    && todo <= Members(all) && AltPending(s.worker) <= s.since
  }

  ghost predicate Phases<K>(s: State<K>) {
    match s.worker
    case Idle => (s.resetting <==> s.resetter.Writing? || s.resetter.Finished?) && !s.resetter.Abandoned?
    case Putting(_) => (s.resetting <==> s.resetter.Writing? || s.resetter.Finished?) && !s.resetter.Abandoned?
    case PuttingAlt(_, _) => s.resetting && (s.resetter.Writing? || s.resetter.Finished?)
    case ClearingForStart => !s.resetting && (s.resetter.Asked? || s.resetter.Abandoned?)
    case Swapped => s.resetting && s.resetter.Finished? && s.resetter.success
    case Clearing => !s.resetting && s.resetter.Finished?
    case Rejecting(_) => s.resetting && (s.resetter.Writing? || s.resetter.Finished?)
  }

  ghost predicate Inv<K>(s: State<K>) {
    && Phases(s)
    && Persisted(s.disk) == s.contents
    && (s.worker.Swapped? <==> s.active != MarkedActive(s.disk))
    && (s.resetting && !s.worker.Swapped? ==>
         && (s.resetter.Writing? ==> AltBuilds(s, s.resetter.all, Members(s.resetter.todo)))
         && (s.resetter.Finished? && s.resetter.success ==> AltBuilds(s, s.resetter.all, {})))
    && (s.worker.Swapped? ==> Namespace(s.disk, s.active) == Members(s.resetter.all) + s.since)
  }

  ghost predicate Init<K>(s: State<K>) {
    && s.worker.Idle? && s.resetter.NoReset? && !s.resetting
    && s.active == MarkedActive(s.disk) && s.contents == Persisted(s.disk)
  }

  lemma PutKeepsInv<K>(s: State<K>, a: Action<K>)
    requires Inv(s) && Enabled(s, a) && (a.BeginPut? || a.WriteAlt? || a.EndAltPut? || a.WritePrimary? || a.EndPut?)
    ensures Inv(Step(s, a))
  {
    assert a.WriteAlt? ==> s.worker.todo == [s.worker.todo[0]] + s.worker.todo[1..];
  }

  lemma StartKeepsInv<K>(s: State<K>, a: Action<K>)
    requires Inv(s) && Enabled(s, a)
    requires a.AskReset? || a.BeginStart? || a.EndStart? || a.AbandonStart? || a.BeginReject? || a.GiveUp? ||
      a.EndReject?
    ensures Inv(Step(s, a))
  {
  }

  lemma ResetKeepsInv<K>(s: State<K>, a: Action<K>)
    requires Inv(s) && Enabled(s, a) && (a.WriteReset? || a.FinishReset? || a.FailReset?)
    ensures Inv(Step(s, a))
  {
    assert a.WriteReset? ==> s.resetter.todo == [s.resetter.todo[0]] + s.resetter.todo[1..];
  }

  lemma EndKeepsInv<K>(s: State<K>, a: Action<K>)
    requires Inv(s) && Enabled(s, a)
    requires a.ClearOne? || a.Swap? || a.WriteMarker? || a.BeginAbort? || a.EndClear? || a.Crash?
    ensures Inv(Step(s, a))
  {
  }

  lemma StepKeepsInv<K>(s: State<K>, a: Action<K>)
    requires Inv(s) && Enabled(s, a)
    ensures Inv(Step(s, a))
  {
    if a.BeginPut? || a.WriteAlt? || a.EndAltPut? || a.WritePrimary? || a.EndPut? {
      PutKeepsInv(s, a);
    } else if a.WriteReset? || a.FinishReset? || a.FailReset? {
      ResetKeepsInv(s, a);
    } else if a.ClearOne? || a.Swap? || a.WriteMarker? || a.BeginAbort? || a.EndClear? || a.Crash? {
      EndKeepsInv(s, a);
    } else {
      StartKeepsInv(s, a);
    }
  }

  // ---------------------------------------------------------------- runs

  ghost predicate Allowed<K>(s: State<K>, acts: seq<Action<K>>)
    decreases |acts|
  {
    acts == [] || (Enabled(s, acts[0]) && Allowed(Step(s, acts[0]), acts[1..]))
  }

  function Execute<K(==)>(s: State<K>, acts: seq<Action<K>>): State<K>
    requires Allowed(s, acts)
    decreases |acts|
  {
    if acts == [] then s else Execute(Step(s, acts[0]), acts[1..])
  }

  /** The keys of all puts since the last reset start or crash, `so` far collected before. */
  function KeysPutSince<K>(acts: seq<Action<K>>, so: set<K>): set<K> {
    if acts == [] then so
    else KeysPutSince(acts[1..],
      match acts[0]
      case BeginPut(keys) => so + Members(keys)
      case EndStart => {}
      case Crash => {}
      case _ => so)
  }

  /** `since` is what its name says whenever a reset is in progress. */
  lemma {:induction false} SinceIsExact<K>(s: State<K>, acts: seq<Action<K>>, so: set<K>)
    requires Inv(s) && Allowed(s, acts) && (s.resetting ==> s.since == so)
    ensures Inv(Execute(s, acts))
    ensures Execute(s, acts).resetting ==> Execute(s, acts).since == KeysPutSince(acts, so)
    decreases |acts|
  {
    if acts == [] {
    } else {
      StepKeepsInv(s, acts[0]);
      var so' := match acts[0]
        case BeginPut(keys) => so + Members(keys)
        case EndStart => {}
        case Crash => {}
        case _ => so;
      SinceIsExact(Step(s, acts[0]), acts[1..], so');
    }
  }

  // ---------------------------------------------------------------- what the disk shows

  /** A put adds its key, the marker write replaces everything at once, and no other step, a crash included,
      changes what the marked namespace holds. */
  lemma PersistedEffect<K>(s: State<K>, a: Action<K>)
    requires Inv(s) && Enabled(s, a)
    ensures Persisted(Step(s, a).disk) ==
      match a
      case WritePrimary => Persisted(s.disk) + {s.worker.todo[0]}
      case WriteMarker => Members(s.resetter.all) + s.since
      case _ => Persisted(s.disk)
  {
    StepKeepsInv(s, a);
  }

  /** The keys of the last reset asked for, `so` far asked before. */
  function LastAsked<K>(acts: seq<Action<K>>, so: seq<K>): seq<K> {
    if acts == [] then so else LastAsked(acts[1..], if acts[0].AskReset? then acts[0].keys else so)
  }

  ghost predicate Carries<K>(r: Resetter<K>, keys: seq<K>) {
    r.Asked? || r.Writing? || r.Finished? ==> r.all == keys
  }

  /** A reset works on the keys it was asked for. */
  lemma {:induction false} ResetIsTheOneAsked<K>(s: State<K>, acts: seq<Action<K>>, so: seq<K>)
    requires Allowed(s, acts) && Carries(s.resetter, so)
    ensures Carries(Execute(s, acts).resetter, LastAsked(acts, so))
    decreases |acts|
  {
    if acts == [] {
    } else {
      ResetIsTheOneAsked(Step(s, acts[0]), acts[1..], if acts[0].AskReset? then acts[0].keys else so);
    }
  }

  /** A successful reset leaves exactly the keys it was asked for and the keys put since it started. */
  lemma ResetReplaces<K>(s: State<K>, acts: seq<Action<K>>)
    requires Init(s) && Allowed(s, acts) && Enabled(Execute(s, acts), WriteMarker)
    ensures Persisted(Step(Execute(s, acts), WriteMarker).disk) == Members(LastAsked(acts, [])) + KeysPutSince(acts, {})
  {
    SinceIsExact(s, acts, {});
    ResetIsTheOneAsked(s, acts, []);
    PersistedEffect(Execute(s, acts), WriteMarker);
  }

  /** Without a marker write, a run leaves what it found and the keys written by puts, however often resets
      started, failed or crashed. */
  function Written<K>(s: State<K>, acts: seq<Action<K>>): set<K>
    requires Allowed(s, acts)
    decreases |acts|
  {
    if acts == [] then {}
    else (if acts[0].WritePrimary? then {s.worker.todo[0]} else {}) + Written(Step(s, acts[0]), acts[1..])
  }

  lemma {:induction false} UnfinishedResetsLeaveNoTrace<K>(s: State<K>, acts: seq<Action<K>>)
    requires Inv(s) && Allowed(s, acts) && WriteMarker !in acts
    ensures Persisted(Execute(s, acts).disk) == Persisted(s.disk) + Written(s, acts)
    decreases |acts|
  {
    if acts == [] {
    } else {
      assert acts[0] in acts && forall a :: a in acts[1..] ==> a in acts;
      StepKeepsInv(s, acts[0]);
      PersistedEffect(s, acts[0]);
      UnfinishedResetsLeaveNoTrace(Step(s, acts[0]), acts[1..]);
    }
  }

  /** The keys of the current put that are still on their way to the active namespace. */
  function OnTheWay<K>(w: Worker<K>): set<K> {
    match w
    case PuttingAlt(_, keys) => Members(keys)
    case Putting(todo) => Members(todo)
    case _ => {}
  }

  function KeysPut<K>(acts: seq<Action<K>>): set<K> {
    if acts == [] then {} else (if acts[0].BeginPut? then Members(acts[0].keys) else {}) + KeysPut(acts[1..])
  }

  lemma PutStepArrives<K>(s: State<K>, a: Action<K>)
    requires Inv(s) && Enabled(s, a) && !a.Crash? && !a.WriteMarker?
    ensures Persisted(Step(s, a).disk) + OnTheWay(Step(s, a).worker) ==
            Persisted(s.disk) + OnTheWay(s.worker) + if a.BeginPut? then Members(a.keys) else {}
  {
    PersistedEffect(s, a);
    if a.WritePrimary? { assert s.worker.todo == [s.worker.todo[0]] + s.worker.todo[1..]; }
  }

  /** Every key that is put arrives, also during a reset that fails later: while no reset completes and nothing
      crashes, what is there and what is on its way are what was there, what was on its way, and the keys put. */
  lemma {:induction false} PutsArrive<K>(s: State<K>, acts: seq<Action<K>>)
    requires Inv(s) && Allowed(s, acts) && WriteMarker !in acts && Crash !in acts
    ensures var t := Execute(s, acts);
      Persisted(t.disk) + OnTheWay(t.worker) == Persisted(s.disk) + OnTheWay(s.worker) + KeysPut(acts)
    decreases |acts|
  {
    if acts == [] {
    } else {
      assert acts[0] in acts && forall a :: a in acts[1..] ==> a in acts;
      StepKeepsInv(s, acts[0]);
      PutStepArrives(s, acts[0]);
      PutsArrive(Step(s, acts[0]), acts[1..]);
    }
  }

  /** Crashes only lose what is on its way. */
  lemma {:induction false} CrashesLoseOnlyPuts<K>(s: State<K>, acts: seq<Action<K>>)
    requires Inv(s) && Allowed(s, acts) && WriteMarker !in acts
    ensures var t := Execute(s, acts);
      && Persisted(s.disk) <= Persisted(t.disk)
      && Persisted(t.disk) + OnTheWay(t.worker) <= Persisted(s.disk) + OnTheWay(s.worker) + KeysPut(acts)
    decreases |acts|
  {
    if acts == [] {
    } else {
      assert acts[0] in acts && forall a :: a in acts[1..] ==> a in acts;
      StepKeepsInv(s, acts[0]);
      PersistedEffect(s, acts[0]);
      if !acts[0].Crash? { PutStepArrives(s, acts[0]); }
      CrashesLoseOnlyPuts(Step(s, acts[0]), acts[1..]);
    }
  }

  /** After a crash at any point the worker serves the complete abstract contents again. */
  lemma CrashRecovers<K>(s: State<K>, acts: seq<Action<K>>)
    requires Init(s) && Allowed(s, acts)
    ensures var t := Step(Execute(s, acts), Crash);
      Init(t) && Namespace(t.disk, t.active) == Execute(s, acts).contents
  {
    SinceIsExact(s, acts, {});
  }

  // ---------------------------------------------------------------- callers that give up

  /** The worker answers a start on an unbuffered channel, and the caller of the start has gone: one whose start
      it is serving, or one that it has to tell that a reset is in progress already. */
  ghost predicate GivenUp<K>(s: State<K>) {
    (s.worker.ClearingForStart? && s.resetter.Abandoned?) || (s.worker.Rejecting? && !s.worker.waiting)
  }

  /** No crash, and nobody gives up. */
  ghost predicate Undisturbed<K>(acts: seq<Action<K>>) {
    Crash !in acts && GiveUp !in acts && AbandonStart !in acts
  }

  ghost predicate WorkerCanGoOn<K(!new)>(s: State<K>) {
    exists acts :: Allowed(s, acts) && Undisturbed(acts) && Execute(s, acts).worker != s.worker
  }

  /** Once the caller has gone the worker never leaves its answer again, whatever happens short of a crash. */
  lemma {:induction false} StuckForGood<K>(s: State<K>, acts: seq<Action<K>>)
    requires Inv(s) && GivenUp(s) && Allowed(s, acts) && Crash !in acts
    ensures GivenUp(Execute(s, acts)) && Execute(s, acts).worker == s.worker
    decreases |acts|
  {
    if acts == [] {
    } else {
      assert acts[0] in acts && forall a :: a in acts[1..] ==> a in acts;
      StepKeepsInv(s, acts[0]);
      StuckForGood(Step(s, acts[0]), acts[1..]);
    }
  }

  /** What the worker does next if it does not have to clear a namespace first. */
  function NextAction<K>(w: Worker<K>): Action<K> {
    match w
    case Idle => BeginPut([])
    case PuttingAlt(todo, _) => if todo == [] then EndAltPut else WriteAlt
    case Putting(todo) => if todo == [] then EndPut else WritePrimary
    case ClearingForStart => EndStart
    case Swapped => WriteMarker
    case Clearing => EndClear
    case Rejecting(_) => EndReject
  }

  /** The worker first clears the namespace if it has to, and then goes on. */
  lemma {:induction false} GoesOn<K>(s: State<K>) returns (acts: seq<Action<K>>)
    requires Inv(s) && !GivenUp(s)
    ensures Allowed(s, acts) && Undisturbed(acts) && Execute(s, acts).worker != s.worker
    decreases Namespace(s.disk, !s.active)
  {
    if (s.worker.ClearingForStart? || s.worker.Clearing?) && Namespace(s.disk, !s.active) != {} {
      var k :| k in Namespace(s.disk, !s.active);
      StepKeepsInv(s, ClearOne(k));
      var rest := GoesOn(Step(s, ClearOne(k)));
      acts := [ClearOne(k)] + rest;
      assert acts[1..] == rest;
    } else {
      acts := [NextAction(s.worker)];
      assert acts[1..] == [];
    }
  }

  /** The worker can go on exactly if the caller it has to answer has not given up. */
  lemma StuckIffGivenUp<K(!new)>(s: State<K>)
    requires Inv(s)
    ensures WorkerCanGoOn(s) <==> !GivenUp(s)
  {
    if GivenUp(s) {
      forall acts | Allowed(s, acts) && Undisturbed(acts) ensures Execute(s, acts).worker == s.worker {
        StuckForGood(s, acts);
      }
    } else {
      var acts := GoesOn(s);
    }
  }

  /** Both ways to block the worker, from an empty keystore. */
  lemma StuckIsReachable<K(!new)>(s: State<K>) returns (served: seq<Action<K>>, rejected: seq<Action<K>>)
    requires s == State(Disk({}, {}, NoMarker), false, false, Idle, NoReset, {}, {})
    ensures Init(s) && Allowed(s, served) && GivenUp(Execute(s, served)) && Execute(s, served).worker.ClearingForStart?
    ensures Allowed(s, rejected) && GivenUp(Execute(s, rejected)) && Execute(s, rejected).worker.Rejecting?
  {
    var t := Step(Step(s, AskReset([])), BeginStart);
    served, rejected := [AbandonStart], [EndStart, BeginReject, GiveUp];
    RunFirst(t, AbandonStart, []);
    RunFirst(Step(Step(t, EndStart), BeginReject), GiveUp, []);
    RunFirst(Step(t, EndStart), BeginReject, [GiveUp]);
    RunFirst(t, EndStart, [BeginReject, GiveUp]);
    served := AfterStart(s, served);
    rejected := AfterStart(s, rejected);
  }

  /** A run that begins with the start of a reset. */
  lemma AfterStart<K>(s: State<K>, rest: seq<Action<K>>) returns (acts: seq<Action<K>>)
    requires s.worker.Idle? && s.resetter.NoReset? && !s.resetting
    requires Allowed(Step(Step(s, AskReset([])), BeginStart), rest)
    ensures Allowed(s, acts) && Execute(s, acts) == Execute(Step(Step(s, AskReset([])), BeginStart), rest)
  {
    acts := [AskReset([])] + ([BeginStart] + rest);
    RunFirst(Step(s, AskReset([])), BeginStart, rest);
    RunFirst(s, AskReset([]), [BeginStart] + rest);
  }

  lemma RunFirst<K>(s: State<K>, a: Action<K>, rest: seq<Action<K>>)
    requires Enabled(s, a) && Allowed(Step(s, a), rest)
    ensures Allowed(s, [a] + rest) && Execute(s, [a] + rest) == Execute(Step(s, a), rest)
  {
    assert ([a] + rest)[1..] == rest;
  }
}
