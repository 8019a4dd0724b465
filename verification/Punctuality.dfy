/** When the timer is set for the region that comes up first: which steps of the scheduler keep or establish this,
    and which do not. */
module Punctuality {
  import opened Keys
  import opened Tries
  import opened NextLeaf
  import opened ReprovideTimes
  import opened CatchUp

  /** No other region has the same time. */
  ghost predicate OwnTime(m: map<Key, int>, k: Key) {
    k in m && forall x :: x in m && x != k ==> m[x] != m[k]
  }

  ghost predicate SameKeys(m: map<Key, int>, ks: seq<Key>) {
    forall k :: k in m <==> k in ks
  }

  lemma InCycle(m: map<Key, int>, ks: seq<Key>, interval: int, k: Key)
    requires TimesRise(m, ks, interval) && SameKeys(m, ks) && k in m
    ensures 0 <= m[k] < interval
  {
    assert k in ks;
  }

  // ---------------------------------------------------------------- after a missed cycle

  /** `k` is the first key with a time past `offset`, or the first key of all if there is none. */
  ghost predicate FirstPast(ks: seq<Key>, m: map<Key, int>, offset: int, k: Key) {
    exists i :: 0 <= i < |ks| && ks[i] == k && FirstPastAt(ks, m, offset, i)
  }

  ghost predicate FirstPastAt(ks: seq<Key>, m: map<Key, int>, offset: int, i: nat) {
    && i < |ks| && ks[i] in m && (i == 0 || m[ks[i]] > offset)
    && forall j :: 0 <= j < (if m[ks[i]] > offset then i else |ks|) ==> ks[j] in m && m[ks[j]] <= offset
  }

  /** After a missed cycle the timer is set for the first region to come up exactly if none shares its time. */
  lemma RequeuedIsFirstIff(m: map<Key, int>, ks: seq<Key>, now: int, interval: int, k: Key)
    requires 0 <= now < interval && TimesRise(m, ks, interval) && SameKeys(m, ks) && FirstPast(ks, m, now, k)
    ensures ComesFirst(m, k, now, interval) <==> OwnTime(m, k)
  {
    var i :| 0 <= i < |ks| && ks[i] == k && FirstPastAt(ks, m, now, i);
    InCycle(m, ks, interval, k);
    TimeBetweenIs(now, m[k], interval);
    forall x | x in m && x != k
      ensures TimeBetween(now, m[k], interval) < TimeBetween(now, m[x], interval) <==> m[x] != m[k]
    {
      InCycle(m, ks, interval, x);
      TimeBetweenIs(now, m[x], interval);
      var j :| 0 <= j < |ks| && ks[j] == x;
      assert j < i ==> m[x] <= m[k];
      assert i < j ==> m[k] <= m[x];
    }
  }

  // ---------------------------------------------------------------- removing regions

  /** Where the first key after `k` stands. */
  lemma {:induction false} FirstAfterSplits(ks: seq<Key>, order: Key, k: Key) returns (i: nat)
    ensures i <= |ks| && forall j :: 0 <= j < i ==> !Before(order, k, ks[j])
    ensures i < |ks| ==> Before(order, k, ks[i]) && FirstAfter(ks, order, k) == Some(ks[i])
    ensures i == |ks| ==> FirstAfter(ks, order, k) == None
  {
    if ks == [] || Before(order, k, ks[0]) {
      i := 0;
    } else {
      i := FirstAfterSplits(ks[1..], order, k);
      i := i + 1;
    }
  }

  /** Regions after the cursor have later times, the others earlier ones. */
  lemma TimesAround(m: map<Key, int>, ks: seq<Key>, order: Key, interval: int, cursor: Key, k: Key)
    requires TimesRise(m, ks, interval) && Sorted(order, ks) && cursor in ks && k in ks && k != cursor
    ensures if Before(order, cursor, k) then m[cursor] <= m[k] else m[k] <= m[cursor]
  {
    var c :| 0 <= c < |ks| && ks[c] == cursor;
    var j :| 0 <= j < |ks| && ks[j] == k;
    if j < c { BeforeIrreflexive(order, k, cursor); }
  }

  /** A schedule with its times, in order. */
  ghost predicate Scheduled(m: map<Key, int>, ks: seq<Key>, order: Key, interval: int) {
    TimesRise(m, ks, interval) && Sorted(order, ks) && SameKeys(m, ks)
  }

  /** Of the regions that stay, the one that follows the removed cursor is the nearest from the timer start. */
  lemma FollowerIsNearest(m: map<Key, int>, ks: seq<Key>, left: seq<Key>, order: Key, cursor: Key, start: int,
                          interval: int, next: Key, k: Key)
    requires 0 <= start < interval && Scheduled(m, ks, order, interval) && ComesFirst(m, cursor, start, interval)
    requires Sorted(order, left) && cursor !in left && (forall x :: x in left ==> x in ks)
    requires CyclicSuccessor(left, order, cursor) == Some(next) && k in left
    ensures next in left && TimeBetween(start, m[next], interval) <= TimeBetween(start, m[k], interval)
  {
    var i := FirstAfterSplits(left, order, cursor);
    var n := if i < |left| then i else 0;
    var j :| 0 <= j < |left| && left[j] == k;
    assert next == left[n] && next in left;
    TimesAround(m, ks, order, interval, cursor, next);
    TimesAround(m, ks, order, interval, cursor, k);
    if j < n { assert !Before(order, cursor, k); }
    if n < j { assert Before(order, next, k); }
    if next != k { TimesAround(m, ks, order, interval, next, k); }
    assert n < j ==> m[next] <= m[k];
    InCycle(m, ks, interval, cursor);
    InCycle(m, ks, interval, next);
    InCycle(m, ks, interval, k);
    TimeBetweenIs(start, m[cursor], interval);
    TimeBetweenIs(start, m[next], interval);
    TimeBetweenIs(start, m[k], interval);
  }

  /** What removing the cursor's region leaves clear: nobody shares the time of the region that follows, and of the
      regions that stay either none that follows has passed since the timer start, or all have. */
  ghost predicate ClearRemoval(m: map<Key, int>, d: Key -> int, running: int, next: Key) {
    OwnTime(m, next) && (d(next) > running || forall k :: k in m ==> d(k) <= running)
  }

  /** Removing the cursor's region sets the timer for the first region to come up exactly then. */
  lemma FollowerIsFirstIff(m: map<Key, int>, ks: seq<Key>, rest: map<Key, int>, left: seq<Key>, order: Key, cursor: Key,
                           start: int, running: int, now: int, interval: int, next: Key)
    requires 0 <= start < interval && 0 <= running <= interval && now == Later(start, running, interval)
    requires Scheduled(m, ks, order, interval) && ComesFirst(m, cursor, start, interval)
    requires Scheduled(rest, left, order, interval) && cursor !in rest
    requires forall k :: k in rest ==> k in m && rest[k] == m[k]
    requires CyclicSuccessor(left, order, cursor) == Some(next)
    ensures ComesFirst(rest, next, now, interval) <==>
            ClearRemoval(rest, Since(rest, start, interval), running, next)
  {
    var d := Since(rest, start, interval);
    FollowerIsNearest(m, ks, left, order, cursor, start, interval, next, left[0]);
    forall k | k in rest
      ensures 0 < d(k) <= interval && d(next) <= d(k) && (d(next) == d(k) <==> m[next] == m[k])
      ensures TimeBetween(now, rest[k], interval) == Ahead(d(k), running, interval)
    {
      FollowerIsNearest(m, ks, left, order, cursor, start, interval, next, k);
      InCycle(rest, left, interval, k);
      InCycle(rest, left, interval, next);
      TimeBetweenIs(start, m[next], interval);
      TimeBetweenIs(start, m[k], interval);
      LaterDistance(start, rest[k], running, interval);
    }
    NearestIsFirst(rest, d, running, interval, next);
  }

  /** From the nearest region on. */
  lemma NearestIsFirst(m: map<Key, int>, d: Key -> int, running: int, interval: int, next: Key)
    requires next in m && 0 <= running <= interval
    requires forall k :: k in m ==> 0 < d(k) <= interval && d(next) <= d(k) && (d(next) == d(k) <==> m[next] == m[k])
    ensures (forall k :: k in m && k != next ==>
      Ahead(d(next), running, interval) < Ahead(d(k), running, interval)) <==>
            ClearRemoval(m, d, running, next)
  {
  }

  // ---------------------------------------------------------------- adding a region

  /** Every region but `prefix` comes up after the cursor. */
  ghost predicate FirstBut(m: map<Key, int>, cursor: Key, prefix: Key, start: int, interval: int)
    requires interval > 0
  {
    && cursor in m && prefix in m && prefix != cursor
    && forall k :: k in m && k != cursor && k != prefix ==>
         TimeBetween(start, m[cursor], interval) < TimeBetween(start, m[k], interval)
  }

  /** Where a key stands in the turn after another one. */
  lemma PlaceInTurn(ks: seq<Key>, c: nat, k: Key) returns (i: nat)
    requires c < |ks| && k in ks && k != ks[c]
    ensures i < |ks| - 1 && Turn(ks, c)[i] == k
  {
    TurnMembers(ks, c);
    i :| 0 <= i < |ks| && Turn(ks, c)[i] == k;
  }

  /** A region that comes up before the cursor is followed by it. */
  lemma EarlierIsFollowed(m: map<Key, int>, ks: seq<Key>, order: Key, cursor: Key, start: int, interval: int,
                          prefix: Key)
    requires 0 <= start < interval && Scheduled(m, ks, order, interval) && FirstBut(m, cursor, prefix, start, interval)
    requires TimeBetween(start, m[prefix], interval) < TimeBetween(start, m[cursor], interval)
    ensures CyclicSuccessor(ks, order, prefix) == Some(cursor)
  {
    var p :| 0 <= p < |ks| && ks[p] == prefix;
    SecondIsNext(m, ks, p, cursor, start, interval);
    FirstAfterAt(ks, order, p);
  }

  lemma SecondIsNext(m: map<Key, int>, ks: seq<Key>, p: nat, cursor: Key, start: int, interval: int)
    requires 0 <= start < interval && TimesRise(m, ks, interval) && SameKeys(m, ks) && p < |ks|
    requires FirstBut(m, cursor, ks[p], start, interval)
    requires TimeBetween(start, m[ks[p]], interval) < TimeBetween(start, m[cursor], interval)
    ensures Turn(ks, p)[0] == cursor
  {
    var i := PlaceInTurn(ks, p, cursor);
    if i > 0 {
      TurnRises(m, ks, p, start, interval, 0, i);
      TurnIsDistinct(ks, p);
      assert Turn(ks, p)[|ks| - 1] == ks[p];
    }
  }

  /** A region that the cursor follows comes up before it or after all others. */
  lemma FollowedIsLast(m: map<Key, int>, ks: seq<Key>, order: Key, cursor: Key, start: int, interval: int, prefix: Key,
                       k: Key)
    requires 0 <= start < interval && Scheduled(m, ks, order, interval) && FirstBut(m, cursor, prefix, start, interval)
    requires CyclicSuccessor(ks, order, prefix) == Some(cursor) && k in m
    requires TimeBetween(start, m[cursor], interval) < TimeBetween(start, m[prefix], interval)
    ensures TimeBetween(start, m[k], interval) <= TimeBetween(start, m[prefix], interval)
  {
    if k != cursor && k != prefix {
      var c := FollowedAt(ks, order, prefix, cursor);
      var i := PlaceInTurn(ks, c, k);
      TurnRises(m, ks, c, start, interval, i, |ks| - 2);
    }
  }

  lemma FollowedAt(ks: seq<Key>, order: Key, prefix: Key, cursor: Key) returns (c: nat)
    requires Sorted(order, ks) && prefix in ks && cursor in ks && prefix != cursor
    requires CyclicSuccessor(ks, order, prefix) == Some(cursor)
    ensures c < |ks| && ks[c] == cursor && |ks| >= 2 && Turn(ks, c)[|ks| - 2] == prefix
  {
    var p :| 0 <= p < |ks| && ks[p] == prefix;
    FirstAfterAt(ks, order, p);
    c := if p + 1 < |ks| then p + 1 else 0;
  }

  /** What the source asks before it makes the new region the cursor. */
  ghost predicate Overtakes(m: map<Key, int>, ks: seq<Key>, order: Key, cursor: Key, prefix: Key, now: int,
                            interval: int)
    requires interval > 0
  {
    && cursor in m && prefix in m && CyclicSuccessor(ks, order, prefix) == Some(cursor)
    && TimeBetween(now, m[prefix], interval) < Remainder(TimeBetween(now, m[cursor], interval), interval)
  }

  /** What makes way for a new region. While the timer is running: its time has not passed since the timer start,
      the cursor has another time, and the cursor is not due in a whole interval. Once the timer is overdue: the
      cursor has another time, and the new region does not overtake it unless every region is late. */
  ghost predicate ClearInsertion(m: map<Key, int>, d: Key -> int, running: int, interval: int, cursor: Key, prefix: Key,
                                 overtakes: bool)
  {
    && cursor in m && prefix in m && m[prefix] != m[cursor]
    && if running <= d(cursor) then d(prefix) > running && d(cursor) - running < interval
       else overtakes ==> forall k :: k in m && k != prefix ==> d(k) <= running
  }

  /** Afterwards the timer is set for the first region to come up exactly if the way was clear. */
  ghost predicate ExactInsertion(m: map<Key, int>, ks: seq<Key>, order: Key, cursor: Key, start: int, running: int,
                                 now: int, interval: int, prefix: Key)
    requires interval > 0
  {
    var overtakes := Overtakes(m, ks, order, cursor, prefix, now, interval);
    (if overtakes then ComesFirst(m, prefix, now, interval) else ComesFirst(m, cursor, start, interval)) <==>
    ClearInsertion(m, Since(m, start, interval), running, interval, cursor, prefix, overtakes)
  }

  /** Adding a region leaves the timer set for the first region to come up exactly then. */
  lemma InsertedIsFirstIff(m: map<Key, int>, ks: seq<Key>, order: Key, cursor: Key, start: int, running: int, now: int,
                           interval: int, prefix: Key)
    requires 0 <= start < interval && 0 <= running <= interval && now == Later(start, running, interval)
    requires Scheduled(m, ks, order, interval)
    requires FirstBut(m, cursor, prefix, start, interval)
    ensures ExactInsertion(m, ks, order, cursor, start, running, now, interval, prefix)
  {
    var d := Since(m, start, interval);
    var followed := CyclicSuccessor(ks, order, prefix) == Some(cursor);
    forall k | k in m
      ensures 0 < d(k) <= interval && TimeBetween(now, m[k], interval) == Ahead(d(k), running, interval)
      ensures d(k) == d(cursor) <==> m[k] == m[cursor]
    {
      InCycle(m, ks, interval, k);
      InCycle(m, ks, interval, cursor);
      TimeBetweenIs(start, m[k], interval);
      TimeBetweenIs(start, m[cursor], interval);
      LaterDistance(start, m[k], running, interval);
    }
    if d(prefix) < d(cursor) { EarlierIsFollowed(m, ks, order, cursor, start, interval, prefix); }
    if followed && d(cursor) < d(prefix) {
      forall k | k in m ensures d(k) <= d(prefix) { FollowedIsLast(m, ks, order, cursor, start, interval, prefix, k); }
    }
    RemainderOfTime(Ahead(d(cursor), running, interval), interval);
    ClearInsertionIff(m, d, running, interval, cursor, prefix, followed);
  }

  lemma RemainderOfTime(x: int, interval: int)
    requires 0 < x <= interval
    ensures Remainder(x, interval) == if x == interval then 0 else x
  {
    if x == interval { DivisionIs(x, interval, 1, 0); } else { DivisionIs(x, interval, 0, x); }
  }

  /** The new region comes up before the cursor, and the cursor is not due right now. */
  ghost predicate ComesSooner(d: Key -> int, running: int, interval: int, cursor: Key, prefix: Key) {
    && Ahead(d(cursor), running, interval) < interval
    && Ahead(d(prefix), running, interval) < Ahead(d(cursor), running, interval)
  }

  lemma ClearInsertionIff(m: map<Key, int>, d: Key -> int, running: int, interval: int, cursor: Key, prefix: Key,
                          followed: bool)
    requires cursor in m && prefix in m && prefix != cursor && 0 <= running <= interval
    requires forall k :: k in m ==> 0 < d(k) <= interval && (d(k) == d(cursor) <==> m[k] == m[cursor])
    requires forall k :: k in m && k != prefix && k != cursor ==> d(cursor) < d(k)
    requires d(prefix) < d(cursor) ==> followed
    requires followed && d(cursor) < d(prefix) ==> forall k :: k in m ==> d(k) <= d(prefix)
    ensures var overtakes := followed && ComesSooner(d, running, interval, cursor, prefix);
      (if overtakes then forall k :: k in m && k != prefix ==>
        Ahead(d(prefix), running, interval) < Ahead(d(k), running, interval)
       else forall k :: k in m && k != cursor ==> d(cursor) < d(k)) <==>
      ClearInsertion(m, d, running, interval, cursor, prefix, overtakes)
  {
  }

  // ---------------------------------------------------------------- steps that fail

  /** Times in a cycle of 100 around an order that starts with two zeros. */
  lemma QuarterTimes(order: Key)
    requires |order| >= MAX_PREFIX_SIZE && !order[0] && !order[1]
    ensures ReprovideTime([false, false], order, 100) == 0 && ReprovideTime([false, true], order, 100) == 25
    ensures ReprovideTime([true, false], order, 100) == 50
  {
    QuarterTime(order, false, false, 0);
    QuarterTime(order, false, true, 1);
    QuarterTime(order, true, false, 2);
  }

  lemma QuarterTime(order: Key, a: bool, b: bool, v: nat)
    requires |order| >= MAX_PREFIX_SIZE && !order[0] && !order[1]
    requires v == (if a then 2 else 0) + if b then 1 else 0
    ensures ReprovideTime([a, b], order, 100) == 25 * v
  {
    assert order[..2] == [false, false];
    assert [a, b][1..] == [b] && [false, false][1..] == [false] && [b][1..] == [] && [false][1..] == [];
    assert Distance([b], [false]) == if b then 1 else 0;
    assert Distance([a, b], [false, false]) == v;
    assert Pow2(2) == 4;
    DivisionIs(100 * v + TWO63, 2 * TWO63, 0, 100 * v + TWO63);
    DivisionIs(100 * v, 4, 25 * v, 0);
  }

  /** Three regions at 0, 25 and 50; the timer was set for the first of them at 90 and fires 70 later, when all are
      late. The cursor goes to the second region, although the first one comes up first. */
  lemma RegionIsSkipped(order: Key)
    requires |order| >= MAX_PREFIX_SIZE && !order[0] && !order[1]
    ensures var a, b, c := [false, false], [false, true], [true, false];
      var m := map[a := 0, b := 25, c := 50];
      && (forall k :: k in m ==> m[k] == ReprovideTime(k, order, 100))
      && TimesRise(m, [a, b, c], 100) && ComesFirst(m, a, 90, 100)
      && CaughtUp(Turn([a, b, c], 0), [b, c, a], b, Since(m, 90, 100), 70)
      && !ComesFirst(m, b, Later(90, 70, 100), 100)
  {
    var a, b, c := [false, false], [false, true], [true, false];
    QuarterTimes(order);
    assert a != b && a[0] != c[0] && b[0] != c[0];
    ThreeAreLate(a, b, c);
  }

  lemma ThreeAreLate(a: Key, b: Key, c: Key)
    requires a != b && a != c && b != c
    ensures var m := map[a := 0, b := 25, c := 50];
      && TimesRise(m, [a, b, c], 100) && ComesFirst(m, a, 90, 100)
      && CaughtUp(Turn([a, b, c], 0), [b, c, a], b, Since(m, 90, 100), 70)
      && !ComesFirst(m, b, Later(90, 70, 100), 100)
  {
    TimeBetweenIs(90, 0, 100);
    TimeBetweenIs(90, 25, 100);
    TimeBetweenIs(90, 50, 100);
    TimeBetweenIs(60, 0, 100);
    TimeBetweenIs(60, 25, 100);
    assert Turn([a, b, c], 0) == [b, c, a];
  }

  /** The timer was set for the region at 50 at offset 0; a region at 25 is added at 30. It does not overtake the
      cursor, so the next wake-up finds it late, although it was added after its time. */
  lemma LateRegionIsMissed(order: Key)
    requires |order| >= MAX_PREFIX_SIZE && !order[0] && !order[1]
    ensures var b, c := [false, true], [true, false];
      var m := map[b := 25, c := 50];
      && (forall k :: k in m ==> m[k] == ReprovideTime(k, order, 100)) && Scheduled(m, [b, c], order, 100)
      && FirstBut(m, c, b, 0, 100) && !Overtakes(m, [b, c], order, c, b, 30, 100) && !ComesFirst(m, c, 0, 100)
  {
    var b, c := [false, true], [true, false];
    QuarterTimes(order);
    assert b[0] != c[0] && Before(order, b, c);
    var m := map[b := 25, c := 50];
    TimeBetweenIs(0, 25, 100);
    TimeBetweenIs(0, 50, 100);
    TimeBetweenIs(30, 25, 100);
    TimeBetweenIs(30, 50, 100);
    RemainderOfTime(20, 100);
  }
}
