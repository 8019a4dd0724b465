/** The reprovide schedule: a trie of regions with their times, a cursor and a timer. */
module Schedules {
  import opened Keys
  import opened Tries
  import opened TrieOps
  import opened NextLeaf
  import opened ReprovideTimes
  import opened CatchUp
  import opened Punctuality
  import opened PrefixQueues
  import opened Coverage

  /** The next scheduled region; callers must not pass a prefix that overlaps other regions. */
  method Successor(t: Trie<int>, k: Key, order: Key) returns (next: Option<Entry<int>>)
    requires WF(t, []) && Fits(t, k) && Short(t, |order|)
    ensures next.None? <==> t.Empty?
    ensures next.Some? ==> next.value.key in Content(t) && next.value.data == Content(t)[next.value.key]
    ensures next.Some? ==> CyclicSuccessor(AllKeys(t, order, 0), order, k) == Some(next.value.key)
  {
    NextIsCyclicSuccessor(t, k, order);
    KeysUnderPath(t, []);
    AllKeysSorted(t, order, []);
    if !t.Empty? { ghost var p := NonEmptyHasKey(t, []); assert p in AllKeys(t, order, 0); }
    next := NextNonEmptyLeaf(t, k, order);
  }

  /** `late` are the regions that come up first after `from` and have passed, and `to` is the one that follows. */
  ghost predicate FollowsTurn(ks: seq<Key>, from: Key, late: seq<Key>, to: Key, d: Key -> int, running: int) {
    exists c :: 0 <= c < |ks| && ks[c] == from && CaughtUp(Turn(ks, c), late, to, d, running)
  }

  /** The reprovide queue after a wake-up within one cycle: the late regions are pushed, then the region whose turn
      it is is taken out if it can be reprovided now, and pushed otherwise. */
  function QueueAfter(q: seq<Key>, late: seq<Key>, region: Key, online: bool): seq<Key> {
    var pushed := PushedAll(q, late);
    if online then Without(pushed, Extensions(pushed, region)) else Pushed(pushed, region)
  }

  /** No queued or late region is lost outside the region whose turn it is, nothing else is added, and offline that
      region is queued as well. */
  lemma QueueAfterCoverage(q: seq<Key>, late: seq<Key>, region: Key, online: bool, f: Key)
    ensures !(region <= f) ==> (Holds(QueueAfter(q, late, region, online), f) <==> Holds(q, f) || Holds(late, f))
    ensures !online && region <= f ==> Holds(QueueAfter(q, late, region, online), f)
    ensures online && region <= f ==>
      (Holds(QueueAfter(q, late, region, online), f) <==> exists k :: k in PushedAll(q, late) && k < region)
  {
    PushedAllCoverage(q, late, f);
    var pushed := PushedAll(q, late);
    PushedCoverage(pushed, region, f);
    WithoutMembers(pushed, Extensions(pushed, region));
    if online && region <= f {
      forall k | k in pushed && k <= f && !(region <= k) ensures k < region { PrefixesOfOneKey(k, region, f); }
    }
  }

  /** Online, neither the region whose turn it is nor a part of it stays queued. */
  lemma TakenIsNotQueued(q: seq<Key>, late: seq<Key>, region: Key, k: Key)
    requires k in QueueAfter(q, late, region, true)
    ensures !(region <= k)
  {
    var pushed := PushedAll(q, late);
    WithoutMembers(pushed, Extensions(pushed, region));
  }

  /** The cursor and the timer that is set for it. */
  datatype Timer = Timer(cursor: Key, alarm: int, startedAt: int)

  method FirstPastIn(ks: seq<Key>, vs: seq<int>, offset: int, ghost m: map<Key, int>) returns (next: Entry<int>)
    requires ks != [] && |ks| == |vs| && forall i :: 0 <= i < |ks| ==> ks[i] in m && vs[i] == m[ks[i]]
    ensures next.key in m && next.data == m[next.key] && FirstPast(ks, m, offset, next.key)
  {
    for i := 0 to |ks|
      invariant forall j :: 0 <= j < i ==> m[ks[j]] <= offset
    {
      if vs[i] > offset {
        assert FirstPastAt(ks, m, offset, i);
        return Entry(ks[i], vs[i]);
      }
    }
    assert FirstPastAt(ks, m, offset, 0);
    next := Entry(ks[0], vs[0]);
  }

  /** The region to wake up for after a missed cycle: the first one after `offset`, or the first one of all. */
  method FirstAfterOffset(t: Trie<int>, order: Key, offset: int) returns (next: Entry<int>)
    requires WF(t, []) && !t.Empty?
    ensures next.key in Content(t) && next.data == Content(t)[next.key]
    ensures FirstPast(AllKeys(t, order, 0), Content(t), offset, next.key)
  {
    AllKeysSorted(t, order, []);
    AllValuesMatch(t, order, []);
    ghost var p := NonEmptyHasKey(t, []);
    assert p in AllKeys(t, order, 0);
    next := FirstPastIn(AllKeys(t, order, 0), AllValues(t, order, 0), offset, Content(t));
  }

  /** The successor of a key in a sorted cycle comes first in the turn after it; a key follows itself only if
      it is alone. */
  lemma CycleIndex(ks: seq<Key>, order: Key, cursor: Key, next: Key) returns (c: nat)
    requires Sorted(order, ks) && cursor in ks && CyclicSuccessor(ks, order, cursor) == Some(next)
    ensures c < |ks| && cursor == ks[c] && next == Turn(ks, c)[0]
    ensures next == cursor <==> |ks| == 1
  {
    c :| 0 <= c < |ks| && ks[c] == cursor;
    FirstAfterAt(ks, order, c);
    assert next in ks;
    if next == cursor { SortedIsDistinct(order, ks, c, if c + 1 < |ks| then c + 1 else 0); }
  }

  /** What is known when the timer fires: the schedule, its cursor, the offsets of the timer start and of now, how
      long the timer has been running by the offsets and by the clock, and whether the wake-up is timely. */
  datatype Firing = Firing(m: map<Key, int>, ks: seq<Key>, cursor: Key, start: int, now: int, running: int,
                           elapsed: int, interval: int, timely: bool)

  /** The regions that a wake-up finds late, and where the cursor goes. If it is timely, these are exactly the
      regions that have passed, and the cursor goes to the first region to come up exactly if the way is clear. */
  ghost predicate Woken(w: Firing, late: seq<Key>, to: Key)
    requires w.interval > 0
  {
    var d := Since(w.m, w.start, w.interval);
    && FollowsTurn(w.ks, w.cursor, late, to, d, w.running)
    && (w.timely ==>
         && MissesPassed(w.m, w.cursor, late, d, w.elapsed)
         && (ComesFirst(w.m, to, w.now, w.interval) <==> ClearNext(w.ks, w.cursor, d, w.elapsed)))
  }

  /** What makes a wake-up timely. */
  ghost predicate TimelyWake(w: Firing)
    requires w.interval > 0
  {
    && 0 <= w.start < w.interval && TimesRise(w.m, w.ks, w.interval) && ComesFirst(w.m, w.cursor, w.start, w.interval)
    && 0 < w.elapsed <= w.interval && w.running == w.elapsed && w.now == Later(w.start, w.elapsed, w.interval)
    && forall k :: k in w.m <==> k in w.ks
  }

  /** However long the timer has been running, every region other than the cursor's that has passed is late. */
  ghost predicate NonePassedUnseen(w: Firing, late: seq<Key>) {
    forall k :: k in w.m && k != w.cursor && Since(w.m, w.start, w.interval)(k) < w.elapsed ==> k in late
  }

  lemma WokenSeesAll(w: Firing, late: seq<Key>, to: Key)
    requires w.interval > 0 && Woken(w, late, to) && (w.timely || forall k :: k in w.m ==> k == w.cursor)
    ensures NonePassedUnseen(w, late)
  {
  }

  lemma LoneKey(t: Trie<int>, order: Key, cursor: Key)
    requires WF(t, []) && cursor in Content(t) && |AllKeys(t, order, 0)| <= 1
    ensures forall k :: k in Content(t) ==> k == cursor
  {
    AllKeysSorted(t, order, []);
    forall k | k in Content(t) ensures k == cursor { LoneMember(AllKeys(t, order, 0), k, cursor); }
  }

  lemma LoneMember(ks: seq<Key>, a: Key, b: Key)
    requires |ks| <= 1 && a in ks && b in ks
    ensures a == b
  {
    assert a == ks[0] == b;
  }

  lemma CaughtUpSeesAll(w: Firing, c: nat, late: seq<Key>, to: Key, seen: bool)
    requires w.interval > 0 && c < |w.ks| && w.cursor == w.ks[c] && (w.timely ==> TimelyWake(w))
    requires CaughtUp(Turn(w.ks, c), late, to, Since(w.m, w.start, w.interval), w.running)
    requires seen ==> w.timely || forall k :: k in w.m ==> k == w.cursor
    ensures Woken(w, late, to) && (seen ==> NonePassedUnseen(w, late))
  {
    CaughtUpIsWoken(w, c, late, to);
    if seen { WokenSeesAll(w, late, to); }
  }

  lemma CaughtUpIsWoken(w: Firing, c: nat, late: seq<Key>, to: Key)
    requires w.interval > 0 && c < |w.ks| && w.cursor == w.ks[c] && (w.timely ==> TimelyWake(w))
    requires CaughtUp(Turn(w.ks, c), late, to, Since(w.m, w.start, w.interval), w.running)
    ensures Woken(w, late, to)
  {
    if w.timely {
      TimelyCatchUp(w.m, w.ks, c, w.start, w.elapsed, w.interval, late, to);
      TimelyNext(w.m, w.ks, c, w.start, w.elapsed, w.interval, late, to);
    }
  }

  class Scheduler {
    const order: Key
    const interval: int
    const maxDelay: int
    const cycleStart: int
    const reprovideQueue: PrefixQueue
    var schedule: Trie<int>
    var cursor: Key
    var timerStartedAt: int
    var alarm: int

    /** Scheduled regions do not overlap, each time is the time of its region, and unless the schedule is empty the
        cursor is scheduled and the timer goes off at its time. */
    ghost predicate Valid()
      reads this, reprovideQueue
    {
      && |order| >= MAX_PREFIX_SIZE && interval > 0 && maxDelay >= 0 && reprovideQueue.Valid()
      && WF(schedule, []) && Short(schedule, |order|)
      && Timed(Content(schedule))
      && (!schedule.Empty? ==>
           && cursor in Content(schedule)
           && alarm == TimeBetween(Offset(timerStartedAt), Content(schedule)[cursor], interval))
    }

    ghost predicate Timed(m: map<Key, int>)
      requires |order| >= MAX_PREFIX_SIZE
    {
      forall k :: k in m ==> m[k] == ReprovideTime(k, order, interval)
    }

    constructor (order: Key, interval: int, maxDelay: int, cycleStart: int)
      requires |order| >= MAX_PREFIX_SIZE && interval > 0 && maxDelay >= 0
      ensures Valid() && fresh(reprovideQueue) && Content(schedule) == map[] && reprovideQueue.queue == []
      ensures this.order == order && this.interval == interval && this.maxDelay == maxDelay
      ensures this.cycleStart == cycleStart
    {
      this.order, this.interval, this.maxDelay, this.cycleStart := order, interval, maxDelay, cycleStart;
      schedule, cursor, timerStartedAt, alarm := Empty, [], 0, 0;
      reprovideQueue := new PrefixQueue();
    }

    function Offset(t: int): int
      requires interval > 0
    {
      TimeOffset(t, cycleStart, interval)
    }

    function TimeUntil(d: int, now: int): int
      requires interval > 0
    {
      TimeBetween(Offset(now), d, interval)
    }

    method ScheduleNext(prefix: Key, delay: int, now: int)
      modifies this`cursor, this`alarm, this`timerStartedAt
      ensures cursor == prefix && alarm == delay && timerStartedAt == now
    {
      cursor, alarm, timerStartedAt := prefix, delay, now;
    }

    ghost function Timing(): Timer
      reads this
    {
      Timer(cursor, alarm, timerStartedAt)
    }

    /** The timer after the regions under `prefix` are gone: it stays unless its region was one of them; then it is
        set for the region that follows in `t`, or for a whole interval if none is left. */
    ghost function AfterRemoval(t: Trie<int>, prefix: Key, timer: Timer, now: int): Timer
      requires interval > 0
    {
      if !(prefix <= timer.cursor) then timer
      else
        match CyclicSuccessor(AllKeys(t, order, 0), order, timer.cursor)
        case None => Timer(prefix, interval, now)
        case Some(k) => Timer(k, if k in Content(t) then TimeUntil(Content(t)[k], now) else 0, now)
    }

    /** The new region comes up before the cursor: it is alone, or the cursor follows it and comes up later. */
    ghost predicate ComesUpFirst(t: Trie<int>, prefix: Key, time: int, cursor: Key, now: int)
      requires interval > 0
    {
      t.Leaf? || (
        && cursor in Content(t) && CyclicSuccessor(AllKeys(t, order, 0), order, prefix) == Some(cursor)
        && TimeUntil(time, now) < Remainder(TimeUntil(Content(t)[cursor], now), interval))
    }

    /** The timer after a region has been added. */
    ghost function AfterInsertion(t: Trie<int>, prefix: Key, time: int, timer: Timer, now: int): Timer
      requires interval > 0
    {
      if ComesUpFirst(t, prefix, time, timer.cursor, now) then Timer(prefix, TimeUntil(time, now), now) else timer
    }

    /** Removes every region under `prefix`; a removed cursor moves on to the next region. */
    method UnscheduleSubsumed(prefix: Key, now: int)
      requires Valid()
      modifies this`schedule, this`cursor, this`alarm, this`timerStartedAt
      ensures Valid() && schedule == PruneSubtrie(old(schedule), prefix)
      ensures Content(schedule) == NotUnder(old(Content(schedule)), prefix)
      ensures Timing() == AfterRemoval(schedule, prefix, old(Timing()), now)
    {
      PruneSpec(schedule, prefix);
      if !schedule.Empty? { StoredKeyFits(schedule, cursor); }
      schedule := PruneSubtrie(schedule, prefix);
      if prefix <= cursor {
        var next := Successor(schedule, cursor, order);
        if next.None? {
          ScheduleNext(prefix, interval, now);
        } else {
          ScheduleNext(next.value.key, TimeUntil(next.value.data, now), now);
        }
      }
    }

    /** Adds a region, unless it lies in a scheduled one; regions inside it are merged into it. */
    method SchedulePrefix(prefix: Key, justReprovided: bool, now: int)
      requires Valid() && |prefix| <= |order| && now >= cycleStart
      modifies this`schedule, this`cursor, this`alarm, this`timerStartedAt
      ensures Valid() && !schedule.Empty?
      ensures HasPrefixOf(old(schedule), prefix) ==> schedule == old(schedule) && Timing() == old(Timing())
      ensures !HasPrefixOf(old(schedule), prefix) ==>
        var time := ReprovideTime(prefix, order, interval);
        && Content(schedule) == NotUnder(old(Content(schedule)), prefix)[prefix := time]
        && Timing() == AfterInsertion(schedule, prefix, time,
             AfterRemoval(PruneSubtrie(old(schedule), prefix), prefix, old(Timing()), now), now)
    {
      FindPrefix(schedule, prefix);
      var time := NextTime(prefix, justReprovided, now);
      if FindPrefixOfKey(schedule, prefix, 0).1 {
        KeysUnderPath(schedule, []);
        return;
      }
      AddRegion(prefix, time, now);
    }

    /** Puts a region in the place of the regions inside it. */
    method AddRegion(prefix: Key, time: int, now: int)
      requires Valid() && |prefix| <= |order| && !HasPrefixOf(schedule, prefix)
      requires time == ReprovideTime(prefix, order, interval)
      modifies this`schedule, this`cursor, this`alarm, this`timerStartedAt
      ensures Valid() && !schedule.Empty?
      ensures Content(schedule) == NotUnder(old(Content(schedule)), prefix)[prefix := time]
      ensures Timing() == AfterInsertion(schedule, prefix, time,
        AfterRemoval(PruneSubtrie(old(schedule), prefix), prefix, old(Timing()), now), now)
    {
      RegionFits(schedule, prefix, time);
      UnscheduleSubsumed(prefix, now);
      schedule := Add(schedule, prefix, time);
      MoveCursor(prefix, time, now);
    }

    /** A schedule in which a region has taken the place of the regions inside it. */
    lemma RegionFits(t: Trie<int>, prefix: Key, time: int)
      requires |order| >= MAX_PREFIX_SIZE && time == ReprovideTime(prefix, order, interval) && |prefix| <= |order|
      requires WF(t, []) && Short(t, |order|) && Timed(Content(t)) && !HasPrefixOf(t, prefix)
      ensures var r := Add(PruneSubtrie(t, prefix), prefix, time);
        && WF(r, []) && Short(r, |order|) && Timed(Content(r)) && !r.Empty?
        && Content(r) == NotUnder(Content(t), prefix)[prefix := time]
        && (PruneSubtrie(t, prefix).Empty? ==> r.Leaf?)
        && forall k :: k in Content(PruneSubtrie(t, prefix)) ==> k in Content(r)
    {
      ReplaceSpec(t, prefix, time);
      PruneSpec(t, prefix);
    }

    /** A just reprovided region is delayed by at most `maxDelay`; its time never is that late. */
    method NextTime(prefix: Key, justReprovided: bool, now: int) returns (time: int)
      requires |order| >= MAX_PREFIX_SIZE && interval > 0 && maxDelay >= 0 && now >= cycleStart
      ensures time == ReprovideTime(prefix, order, interval)
    {
      time := ReprovideTime(prefix, order, interval);
      if justReprovided {
        TimeBelowInterval(prefix, order, interval);
        var latest := Offset(now) + interval + maxDelay;
        time := if time < latest then time else latest;
      }
    }

    /** If the region just added comes up before the cursor, it becomes the cursor. */
    method MoveCursor(prefix: Key, time: int, now: int)
      requires interval > 0 && WF(schedule, []) && Short(schedule, |order|) && prefix in Content(schedule)
      requires schedule.Leaf? || cursor in Content(schedule)
      modifies this`cursor, this`alarm, this`timerStartedAt
      ensures cursor in Content(schedule) && Timing() == AfterInsertion(schedule, prefix, time, old(Timing()), now)
    {
      if schedule.Leaf? {
        ScheduleNext(prefix, TimeUntil(time, now), now);
        return;
      }
      StoredKeyFits(schedule, prefix);
      KeysUnderPath(schedule, []);
      var following := Successor(schedule, prefix, order);
      if following.value.key == cursor {
        var untilPrefix := TimeUntil(time, now);
        if untilPrefix < Remainder(TimeUntil(Content(schedule)[cursor], now), interval) {
          ScheduleNext(prefix, untilPrefix, now);
        }
      }
    }

    /** The timer fired within one interval of its start, no time overflows, and the cursor is the first region
        to come up since then. */
    ghost predicate Timely(now: int)
      reads this
      requires interval > 0
    {
      timerStartedAt < now && InTime(schedule, Timing(), now) && SetForFirst(schedule, Timing())
    }

    /** The timer was started less than an interval ago, and no time overflows. */
    ghost predicate InTime(t: Trie<int>, timer: Timer, now: int)
      requires interval > 0
    {
      && cycleStart <= timer.startedAt <= now <= timer.startedAt + interval
      && forall k :: k in Content(t) ==> NoOverflow(|k|, interval)
    }

    /** The timer is set for the first region to come up after its start. */
    ghost predicate SetForFirst(t: Trie<int>, timer: Timer)
      requires interval > 0
    {
      ComesFirst(Content(t), timer.cursor, Offset(timer.startedAt), interval)
    }

    /** The times of a schedule rise along it, as long as none overflows. */
    lemma ScheduleRises(t: Trie<int>)
      requires |order| >= MAX_PREFIX_SIZE && interval > 0 && WF(t, []) && Timed(Content(t))
      requires forall k :: k in Content(t) ==> NoOverflow(|k|, interval)
      ensures Scheduled(Content(t), AllKeys(t, order, 0), order, interval)
    {
      var m, ks := Content(t), AllKeys(t, order, 0);
      AllKeysSorted(t, order, []);
      forall k | k in ks ensures 0 <= m[k] < interval { TimeInRange(k, order, interval); }
      forall i, j | 0 <= i < j < |ks| ensures ks[i] != ks[j] && m[ks[i]] <= m[ks[j]] {
        assert ks[i] in ks && ks[j] in ks;
        BeforeIrreflexive(order, ks[i], ks[j]);
        TimesFollowOrder(order, ks[i], ks[j], interval);
      }
    }

    /** The regions missed since the timer started, in the order they came up, and the region to wake up for. */
    method Missed(next0: Entry<int>, now: int, ghost c: nat) returns (late: seq<Key>, next: Entry<int>)
      requires Valid() && c < |AllKeys(schedule, order, 0)| && cursor == AllKeys(schedule, order, 0)[c] != next0.key
      requires next0.key == Turn(AllKeys(schedule, order, 0), c)[0]
      requires next0.key in Content(schedule) && next0.data == Content(schedule)[next0.key]
      ensures next.key in Content(schedule) && next.data == Content(schedule)[next.key]
      ensures var start := Offset(timerStartedAt);
        CaughtUp(Turn(AllKeys(schedule, order, 0), c), late, next.key, Since(Content(schedule), start, interval),
                 TimeBetween(start, Offset(now), interval))
    {
      var start := Offset(timerStartedAt);
      var running := TimeBetween(start, Offset(now), interval);
      var span := interval;
      ghost var turn := Turn(AllKeys(schedule, order, 0), c);
      var isLate := d => span > 0 && TimeBetween(start, d, span) < running;
      late, next := CollectLate(schedule, order, next0, isLate, turn, c);
      assert forall i :: 0 <= i < |late| ==> turn[i] == late[i] && late[i] in late;
    }

    /** The timer has not been handled for more than a whole interval, and there is more than one region. */
    ghost predicate CycleMissed(now: int)
      reads this
    {
      timerStartedAt + interval < now && |AllKeys(schedule, order, 0)| > 1
    }

    /** After a missed cycle: hands every region to the reprovide queue and waits for the next one to come up. */
    method RequeueAll(now: int) returns (late: seq<Key>)
      requires Valid() && !schedule.Empty?
      modifies this`cursor, this`alarm, this`timerStartedAt, reprovideQueue
      ensures Valid() && timerStartedAt == now && alarm == TimeUntil(Content(schedule)[cursor], now)
      ensures late == AllKeys(schedule, order, 0) && (forall k :: k in late <==> k in Content(schedule))
      ensures reprovideQueue.queue == PushedAll(old(reprovideQueue.queue), late)
      ensures FirstPast(AllKeys(schedule, order, 0), Content(schedule), Offset(now), cursor)
      ensures InTime(schedule, Timing(), now) ==>
        (SetForFirst(schedule, Timing()) <==> OwnTime(Content(schedule), cursor))
    {
      late := AllKeys(schedule, order, 0);
      AllKeysSorted(schedule, order, []);
      var next := FirstAfterOffset(schedule, order, Offset(now));
      reprovideQueue.PushEach(late);
      ScheduleNext(next.key, TimeUntil(next.data, now), now);
      if InTime(schedule, Timing(), now) { RequeuedIsFirst(now); }
    }

    lemma RequeuedIsFirst(now: int)
      requires Valid() && timerStartedAt == now && InTime(schedule, Timing(), now)
      requires FirstPast(AllKeys(schedule, order, 0), Content(schedule), Offset(now), cursor)
      ensures SetForFirst(schedule, Timing()) <==> OwnTime(Content(schedule), cursor)
    {
      ScheduleRises(schedule);
      OffsetLater(now, now, cycleStart, interval);
      RequeuedIsFirstIff(Content(schedule), AllKeys(schedule, order, 0), Offset(now), interval, cursor);
    }

    /** Queues the regions missed since the timer started and moves the cursor to the one that follows them. */
    method Advance(next0: Entry<int>, now: int, ghost c: nat) returns (late: seq<Key>)
      requires Valid() && c < |AllKeys(schedule, order, 0)| && cursor == AllKeys(schedule, order, 0)[c]
      requires next0.key == Turn(AllKeys(schedule, order, 0), c)[0]
      requires next0.key in Content(schedule) && next0.data == Content(schedule)[next0.key]
      requires next0.key == cursor ==> |AllKeys(schedule, order, 0)| == 1
      modifies this`cursor, this`alarm, this`timerStartedAt, reprovideQueue
      ensures Valid() && timerStartedAt == now && cursor in Content(schedule)
      ensures alarm == TimeUntil(Content(schedule)[cursor], now)
      ensures reprovideQueue.queue == PushedAll(old(reprovideQueue.queue), late)
      ensures var start := Offset(old(timerStartedAt));
        CaughtUp(Turn(AllKeys(schedule, order, 0), c), late, cursor, Since(Content(schedule), start, interval),
                 TimeBetween(start, Offset(now), interval))
    {
      late := [];
      var next := next0;
      if next.key != cursor {
        late, next := Missed(next, now, c);
        reprovideQueue.PushEach(late);
      }
      ScheduleNext(next.key, TimeUntil(next.data, now), now);
    }

    ghost function Waking(now: int): Firing
      reads this
      requires interval > 0
    {
      Firing(Content(schedule), AllKeys(schedule, order, 0), cursor, Offset(timerStartedAt), Offset(now),
           TimeBetween(Offset(timerStartedAt), Offset(now), interval), now - timerStartedAt, interval, Timely(now))
    }

    lemma TimelyFacts(now: int)
      requires Valid() && Timely(now)
      ensures TimelyWake(Waking(now))
    {
      ElapsedIs(timerStartedAt, now, cycleStart, interval);
      OffsetLater(timerStartedAt, now, cycleStart, interval);
      ScheduleRises(schedule);
    }

    /** Removing regions other than the cursor's leaves the timer set for the first region to come up. */
    lemma RemovalKeepsFirst(t: Trie<int>, prefix: Key, timer: Timer, now: int)
      requires interval > 0 && WF(t, []) && SetForFirst(t, timer) && !(prefix <= timer.cursor)
      ensures AfterRemoval(PruneSubtrie(t, prefix), prefix, timer, now) == timer
      ensures SetForFirst(PruneSubtrie(t, prefix), timer)
    {
      PruneSpec(t, prefix);
    }

    /** Removing the cursor's region sets the timer for the first one to come up exactly if `ClearRemoval` says so. */
    lemma RemovalSetsForFirstIff(t: Trie<int>, prefix: Key, timer: Timer, now: int)
      requires |order| >= MAX_PREFIX_SIZE && interval > 0 && WF(t, []) && Timed(Content(t))
      requires InTime(t, timer, now) && SetForFirst(t, timer)
      requires prefix <= timer.cursor && !PruneSubtrie(t, prefix).Empty?
      ensures var r := PruneSubtrie(t, prefix);
        var after := AfterRemoval(r, prefix, timer, now);
        SetForFirst(r, after) <==>
        ClearRemoval(Content(r), Since(Content(r), Offset(timer.startedAt), interval), now - timer.startedAt,
                     after.cursor)
    {
      var r := PruneSubtrie(t, prefix);
      PruneSpec(t, prefix);
      SuccessorOfRemoved(r, prefix, timer, now);
      FollowerSetsForFirstIff(t, r, timer, now, AfterRemoval(r, prefix, timer, now).cursor);
    }

    lemma SuccessorOfRemoved(r: Trie<int>, prefix: Key, timer: Timer, now: int)
      requires interval > 0 && WF(r, []) && !r.Empty? && prefix <= timer.cursor
      ensures var after := AfterRemoval(r, prefix, timer, now);
        after.startedAt == now && CyclicSuccessor(AllKeys(r, order, 0), order, timer.cursor) == Some(after.cursor)
    {
      AllKeysSorted(r, order, []);
      var k := NonEmptyHasKey(r, []);
      assert k in AllKeys(r, order, 0);
    }

    lemma FollowerSetsForFirstIff(t: Trie<int>, r: Trie<int>, timer: Timer, now: int, next: Key)
      requires |order| >= MAX_PREFIX_SIZE && interval > 0 && WF(t, []) && Timed(Content(t)) && WF(r, [])
      requires InTime(t, timer, now) && SetForFirst(t, timer) && timer.cursor !in Content(r)
      requires forall k :: k in Content(r) ==> k in Content(t) && Content(r)[k] == Content(t)[k]
      requires CyclicSuccessor(AllKeys(r, order, 0), order, timer.cursor) == Some(next)
      ensures ComesFirst(Content(r), next, Offset(now), interval) <==>
        ClearRemoval(Content(r), Since(Content(r), Offset(timer.startedAt), interval), now - timer.startedAt, next)
    {
      ScheduleRises(t);
      ScheduleRises(r);
      FollowerAmong(Content(t), AllKeys(t, order, 0), Content(r), AllKeys(r, order, 0), timer, now, next);
    }

    lemma FollowerAmong(m: map<Key, int>, ks: seq<Key>, rest: map<Key, int>, left: seq<Key>, timer: Timer, now: int,
                        next: Key)
      requires interval > 0 && cycleStart <= timer.startedAt <= now <= timer.startedAt + interval
      requires Scheduled(m, ks, order, interval) && ComesFirst(m, timer.cursor, Offset(timer.startedAt), interval)
      requires Scheduled(rest, left, order, interval) && timer.cursor !in rest
      requires forall k :: k in rest ==> k in m && rest[k] == m[k]
      requires CyclicSuccessor(left, order, timer.cursor) == Some(next)
      ensures ComesFirst(rest, next, Offset(now), interval) <==>
        ClearRemoval(rest, Since(rest, Offset(timer.startedAt), interval), now - timer.startedAt, next)
    {
      OffsetLater(timer.startedAt, now, cycleStart, interval);
      FollowerIsFirstIff(m, ks, rest, left, order, timer.cursor, Offset(timer.startedAt), now - timer.startedAt,
                         Offset(now), interval, next);
    }

    /** Adding a region leaves the timer set for the first region to come up exactly if `ClearInsertion` says so. */
    lemma InsertionSetsForFirstIff(t: Trie<int>, prefix: Key, timer: Timer, now: int)
      requires |order| >= MAX_PREFIX_SIZE && interval > 0 && WF(t, []) && Timed(Content(t)) && InTime(t, timer, now)
      requires FirstBut(Content(t), timer.cursor, prefix, Offset(timer.startedAt), interval)
      ensures var after := AfterInsertion(t, prefix, Content(t)[prefix], timer, now);
        SetForFirst(t, after) <==>
        ClearInsertion(Content(t), Since(Content(t), Offset(timer.startedAt), interval), now - timer.startedAt,
                       interval, timer.cursor, prefix, after != timer)
    {
      AddedOvertakes(t, prefix, timer, now);
      AddedIsFirstIff(t, prefix, timer, now);
    }

    /** The same for `SchedulePrefix` from schedule `t0` to schedule `t`, if the cursor's region is not replaced. */
    lemma SchedulingSetsForFirstIff(t0: Trie<int>, t: Trie<int>, prefix: Key, timer: Timer, now: int)
      requires |order| >= MAX_PREFIX_SIZE && interval > 0 && WF(t0, []) && WF(t, []) && Timed(Content(t))
      requires InTime(t, timer, now)
      requires SetForFirst(t0, timer) && !(prefix <= timer.cursor) && !HasPrefixOf(t0, prefix)
      requires Content(t) == NotUnder(Content(t0), prefix)[prefix := ReprovideTime(prefix, order, interval)]
      ensures var after := AfterInsertion(t, prefix, ReprovideTime(prefix, order, interval),
                             AfterRemoval(PruneSubtrie(t0, prefix), prefix, timer, now), now);
        SetForFirst(t, after) <==>
        ClearInsertion(Content(t), Since(Content(t), Offset(timer.startedAt), interval), now - timer.startedAt,
                       interval, timer.cursor, prefix, after != timer)
    {
      RemovalKeepsFirst(t0, prefix, timer, now);
      assert timer.cursor in Content(t0) && timer.cursor != prefix;
      InsertionSetsForFirstIff(t, prefix, timer, now);
    }

    /** The new region becomes the cursor exactly if it overtakes it. */
    lemma AddedOvertakes(t: Trie<int>, prefix: Key, timer: Timer, now: int)
      requires interval > 0 && prefix in Content(t) && timer.cursor in Content(t) && prefix != timer.cursor
      ensures AfterInsertion(t, prefix, Content(t)[prefix], timer, now) ==
        if Overtakes(Content(t), AllKeys(t, order, 0), order, timer.cursor, prefix, Offset(now), interval)
        then Timer(prefix, TimeUntil(Content(t)[prefix], now), now) else timer
    {
      assert !t.Leaf?;
    }

    lemma AddedIsFirstIff(t: Trie<int>, prefix: Key, timer: Timer, now: int)
      requires |order| >= MAX_PREFIX_SIZE && interval > 0 && WF(t, []) && Timed(Content(t)) && InTime(t, timer, now)
      requires FirstBut(Content(t), timer.cursor, prefix, Offset(timer.startedAt), interval)
      ensures ExactInsertion(Content(t), AllKeys(t, order, 0), order, timer.cursor, Offset(timer.startedAt),
                             now - timer.startedAt, Offset(now), interval, prefix)
    {
      ScheduleRises(t);
      AddedAmong(Content(t), AllKeys(t, order, 0), prefix, timer, now);
    }

    lemma AddedAmong(m: map<Key, int>, ks: seq<Key>, prefix: Key, timer: Timer, now: int)
      requires interval > 0 && cycleStart <= timer.startedAt <= now <= timer.startedAt + interval
      requires Scheduled(m, ks, order, interval) && FirstBut(m, timer.cursor, prefix, Offset(timer.startedAt), interval)
      ensures ExactInsertion(m, ks, order, timer.cursor, Offset(timer.startedAt), now - timer.startedAt, Offset(now),
                             interval, prefix)
    {
      OffsetLater(timer.startedAt, now, cycleStart, interval);
      InsertedIsFirstIff(m, ks, order, timer.cursor, Offset(timer.startedAt), now - timer.startedAt, Offset(now),
                         interval, prefix);
    }

    /** A wake-up within one cycle. */
    method WakeUp(next: Entry<int>, now: int, ghost c: nat) returns (late: seq<Key>)
      requires Valid() && c < |AllKeys(schedule, order, 0)| && cursor == AllKeys(schedule, order, 0)[c]
      requires next.key == Turn(AllKeys(schedule, order, 0), c)[0]
      requires next.key in Content(schedule) && next.data == Content(schedule)[next.key]
      requires next.key == cursor ==> |AllKeys(schedule, order, 0)| == 1
      modifies this`cursor, this`alarm, this`timerStartedAt, reprovideQueue
      ensures Valid() && timerStartedAt == now && cursor in Content(schedule)
      ensures alarm == TimeUntil(Content(schedule)[cursor], now)
      ensures reprovideQueue.queue == PushedAll(old(reprovideQueue.queue), late)
      ensures Woken(old(Waking(now)), late, cursor)
      ensures old(!CycleMissed(now) && SetForFirst(schedule, Timing()) && StartedBefore(now)) ==>
        NonePassedUnseen(old(Waking(now)), late)
    {
      ghost var w, seen := Waking(now), !CycleMissed(now) && SetForFirst(schedule, Timing()) && StartedBefore(now);
      WakingFacts(now);
      late := Advance(next, now, c);
      CaughtUpSeesAll(w, c, late, cursor, seen);
    }

    lemma WakingFacts(now: int)
      requires Valid() && !schedule.Empty?
      ensures Timely(now) ==> TimelyWake(Waking(now))
      ensures !CycleMissed(now) && SetForFirst(schedule, Timing()) && StartedBefore(now) ==>
        Timely(now) || forall k :: k in Content(schedule) ==> k == cursor
    {
      if Timely(now) {
        TimelyFacts(now);
      } else if !CycleMissed(now) && SetForFirst(schedule, Timing()) && StartedBefore(now) {
        OnlyOneRegion(now);
      }
    }

    lemma OnlyOneRegion(now: int)
      requires Valid() && !schedule.Empty? && !CycleMissed(now) && SetForFirst(schedule, Timing()) && StartedBefore(now)
      requires !Timely(now)
      ensures forall k :: k in Content(schedule) ==> k == cursor
    {
      LoneKey(schedule, order, cursor);
    }

    /** One wake-up. Moves the cursor on, hands missed regions to the reprovide queue, and returns the region to
        reprovide now, if any. After a whole missed cycle every region is handed to the queue. */
    method HandleReprovide(now: int, online: bool) returns (current: Option<Key>, late: seq<Key>)
      requires Valid()
      modifies this`cursor, this`alarm, this`timerStartedAt, reprovideQueue
      ensures Valid() && schedule == old(schedule)
      ensures schedule.Empty? ==>
        current.None? && late == [] && cursor == old(cursor) && reprovideQueue.queue == old(reprovideQueue.queue)
      ensures !schedule.Empty? ==> timerStartedAt == now && alarm == TimeUntil(Content(schedule)[cursor], now)
      ensures old(CycleMissed(now)) ==>
        && current.None? && late == AllKeys(schedule, order, 0)
        && reprovideQueue.queue == PushedAll(old(reprovideQueue.queue), late)
      ensures !schedule.Empty? && !old(CycleMissed(now)) ==>
        && current == (if online then Some(old(cursor)) else None)
        && reprovideQueue.queue == QueueAfter(old(reprovideQueue.queue), late, old(cursor), online)
      ensures old(CycleMissed(now)) ==> FirstPast(AllKeys(schedule, order, 0), Content(schedule), Offset(now), cursor)
      ensures old(CycleMissed(now)) && InTime(schedule, Timing(), now) ==>
        (SetForFirst(schedule, Timing()) <==> OwnTime(Content(schedule), cursor))
      ensures !schedule.Empty? && !old(CycleMissed(now)) ==> Woken(old(Waking(now)), late, cursor)
      ensures !schedule.Empty? && old(SetForFirst(schedule, Timing()) && StartedBefore(now)) ==>
        NonePassedUnseen(old(Waking(now)), late)
    {
      late := [];
      if schedule.Empty? { return None, []; }
      StoredKeyFits(schedule, cursor);
      var found := Successor(schedule, cursor, order);
      var next := found.value;
      ghost var c := CursorIndex(next.key);
      assert CycleMissed(now) <==> next.key != cursor && timerStartedAt + interval < now;
      var previous := cursor;
      if next.key != cursor && timerStartedAt + interval < now {
        late := RequeueAll(now);
        return None, late;
      }
      late := WakeUp(next, now, c);
      current := TakeTurn(previous, online);
    }

    /** The timer was started in a past cycle or this one, and no time overflows. */
    ghost predicate StartedBefore(now: int)
      reads this
    {
      && cycleStart <= timerStartedAt < now
      && forall k :: k in Content(schedule) ==> NoOverflow(|k|, interval)
    }

    /** Online the region is reprovided now, so it need not be queued; offline it is queued for later. */
    method TakeTurn(region: Key, online: bool) returns (current: Option<Key>)
      requires reprovideQueue.Valid()
      modifies reprovideQueue
      ensures reprovideQueue.Valid() && current == if online then Some(region) else None
      ensures reprovideQueue.queue == QueueAfter(old(reprovideQueue.queue), [], region, online)
    {
      if !online {
        reprovideQueue.Push(region);
        return None;
      }
      var _ := reprovideQueue.RemovePrefix(region);
      return Some(region);
    }

    lemma CursorIndex(next: Key) returns (c: nat)
      requires Valid() && !schedule.Empty?
      requires CyclicSuccessor(AllKeys(schedule, order, 0), order, cursor) == Some(next)
      ensures c < |AllKeys(schedule, order, 0)| && cursor == AllKeys(schedule, order, 0)[c]
      ensures next == Turn(AllKeys(schedule, order, 0), c)[0]
      ensures next == cursor <==> |AllKeys(schedule, order, 0)| == 1
    {
      AllKeysSorted(schedule, order, []);
      assert cursor in AllKeys(schedule, order, 0);
      c := CycleIndex(AllKeys(schedule, order, 0), order, cursor, next);
    }

    /** Hands to the queue the scheduled regions that the recently reprovided ones do not cover jointly. */
    method EnqueueExpired(recent: Trie<()>) returns (expired: seq<Key>)
      requires Valid() && WF(recent, []) && Short(recent, |order|)
      modifies reprovideQueue
      ensures Valid() && reprovideQueue.queue == PushedAll(old(reprovideQueue.queue), expired)
      ensures Sorted(order, expired)
      ensures forall k :: k in expired <==> k in Content(schedule) && !FullyCovered(recent, k, |order|)
      ensures forall f :: Holds(reprovideQueue.queue, f) <==> Holds(old(reprovideQueue.queue), f) || Holds(expired, f)
    {
      SubtractCoalesced(schedule, recent, (), |order|);
      var rest := SubtractTrie(schedule, CoalesceTrie(recent, ()));
      AllKeysSorted(rest, order, []);
      expired := AllKeys(rest, order, 0);
      forall f
        ensures Holds(PushedAll(reprovideQueue.queue, expired), f) <==>
                Holds(reprovideQueue.queue, f) || Holds(expired, f)
      {
        PushedAllCoverage(reprovideQueue.queue, expired, f);
      }
      reprovideQueue.PushEach(expired);
    }
  }

  datatype Step =
    | Schedule(prefix: Key, justReprovided: bool, now: int)
    | Unschedule(prefix: Key, now: int)
    | Wake(now: int, online: bool)

  /** The invariant of the schedule holds after every run of its operations from the empty schedule. */
  method Run(order: Key, interval: int, maxDelay: int, cycleStart: int, steps: seq<Step>) returns (s: Scheduler)
    requires |order| >= MAX_PREFIX_SIZE && interval > 0 && maxDelay >= 0
    requires forall x :: x in steps ==> x.now >= cycleStart && (x.Wake? || |x.prefix| <= |order|)
    ensures s.Valid() && s.order == order && s.interval == interval
  {
    s := new Scheduler(order, interval, maxDelay, cycleStart);
    for i := 0 to |steps|
      invariant s.Valid() && fresh(s) && fresh(s.reprovideQueue)
      invariant s.order == order && s.interval == interval && s.cycleStart == cycleStart
    {
      assert steps[i] in steps;
      match steps[i]
      case Schedule(p, just, now) => s.SchedulePrefix(p, just, now);
      case Unschedule(p, now) => s.UnscheduleSubsumed(p, now);
      case Wake(now, online) => var _, _ := s.HandleReprovide(now, online);
    }
  }

  /** A trie of regions, each new region replacing the smaller ones it covers. */
  method CollectRegions(ps: seq<Key>) returns (t: Trie<()>)
    ensures WF(t, []) && forall k :: k in Content(t) ==> k in ps
    ensures forall f :: HasPrefixOf(t, f) <==> Holds(ps, f)
  {
    t := Empty;
    for i := 0 to |ps|
      invariant WF(t, []) && forall k :: k in Content(t) ==> k in ps[..i]
      invariant forall f :: HasPrefixOf(t, f) <==> Holds(ps[..i], f)
    {
      FindPrefix(t, ps[i]);
      assert ps[..i + 1] == ps[..i] + [ps[i]];
      forall f ensures HasPrefixOf(WithRegion(t, ps[i]), f) <==> Holds(ps[..i + 1], f) {
        WithRegionCoverage(t, ps[i], f);
        HoldsOneMore(ps[..i], ps[i], f);
      }
      WithRegionSpec(t, ps[i]);
      t := WithRegion(t, ps[i]);
    }
    assert ps[..|ps|] == ps;
  }

  /** Adding one region to a trie of regions. */
  function WithRegion(t: Trie<()>, p: Key): Trie<()> {
    if FindPrefixOfKey(t, p, 0).1 then t else Add(PruneSubtrie(t, p), p, ())
  }

  lemma WithRegionSpec(t: Trie<()>, p: Key)
    requires WF(t, [])
    ensures WF(WithRegion(t, p), [])
    ensures HasPrefixOf(t, p) ==> WithRegion(t, p) == t
    ensures !HasPrefixOf(t, p) ==> Content(WithRegion(t, p)) == NotUnder(Content(t), p)[p := ()]
  {
    FindPrefix(t, p);
    if !HasPrefixOf(t, p) { ReplaceSpec(t, p, ()); }
  }

  /** A region adds exactly its own keyspace to what a trie of regions covers. */
  lemma WithRegionCoverage(t: Trie<()>, p: Key, f: Key)
    requires WF(t, [])
    ensures HasPrefixOf(WithRegion(t, p), f) <==> HasPrefixOf(t, f) || p <= f
  {
    WithRegionSpec(t, p);
    if !HasPrefixOf(t, p) { ReplaceCoverage(t, WithRegion(t, p), p, (), f); }
  }

  lemma HoldsOneMore(ks: seq<Key>, k: Key, f: Key)
    ensures Holds(ks + [k], f) <==> Holds(ks, f) || k <= f
  {
    assert k in ks + [k];
    assert forall x :: x in ks ==> x in ks + [k];
  }
}
