/** Offsets in the reprovide cycle, and which regions a late wake-up has missed. */
module CatchUp {
  import opened Keys
  import opened Tries
  import opened TrieOps
  import opened NextLeaf
  import opened ReprovideTimes

  function TimeOffset(t: int, cycleStart: int, interval: int): int
    requires interval > 0
  {
    Remainder(t - cycleStart, interval)
  }

  /** Offsets count from the start of the cycle and start again with every cycle. */
  lemma OffsetInCycle(cycleStart: int, interval: int, n: nat, x: nat)
    requires x < interval
    ensures TimeOffset(cycleStart + n * interval + x, cycleStart, interval) == x
  {
    DivisionIs(n * interval + x, interval, n, x);
  }

  /** The time from one offset to the next occurrence of another; a full interval if they are equal. */
  function TimeBetween(from: int, to: int, interval: int): int
    requires interval > 0
  {
    Remainder(to - from + interval - 1, interval) + 1
  }

  lemma TimeBetweenIs(from: int, to: int, interval: int)
    requires 0 <= from < interval && 0 <= to < interval
    ensures TimeBetween(from, to, interval) == if from < to then to - from else to - from + interval
  {
    if from < to {
      DivisionIs(to - from + interval - 1, interval, 1, to - from - 1);
    } else {
      DivisionIs(to - from + interval - 1, interval, 0, to - from + interval - 1);
    }
  }

  /** The offset `running` after the offset `start`, up to one interval later. */
  function Later(start: int, running: int, interval: int): int {
    if start + running < interval then start + running else start + running - interval
  }

  lemma OffsetLater(start: int, now: int, cycleStart: int, interval: int)
    requires interval > 0 && cycleStart <= start <= now <= start + interval
    ensures 0 <= TimeOffset(start, cycleStart, interval) < interval
    ensures TimeOffset(now, cycleStart, interval) ==
      Later(TimeOffset(start, cycleStart, interval), now - start, interval)
  {
    var a, b := start - cycleStart, now - cycleStart;
    var q, x := a / interval, a % interval;
    assert a == q * interval + x;
    assert (q + 1) * interval == q * interval + interval;
    if x + (b - a) < interval {
      DivisionIs(b, interval, q, x + (b - a));
    } else {
      if x + (b - a) - interval < interval { DivisionIs(b, interval, q + 1, x + (b - a) - interval); }
    }
  }

  /** Up to one interval, the offsets of two instants tell how far apart they are. */
  lemma ElapsedIs(start: int, now: int, cycleStart: int, interval: int)
    requires cycleStart <= start < now <= start + interval
    ensures TimeBetween(TimeOffset(start, cycleStart, interval), TimeOffset(now, cycleStart, interval), interval) ==
      now - start
  {
    OffsetLater(start, now, cycleStart, interval);
    var x := TimeOffset(start, cycleStart, interval);
    TimeBetweenIs(x, Later(x, now - start, interval), interval);
  }

  // ---------------------------------------------------------------- the regions after the cursor

  /** The scheduled keys in the order they come up after index `c`, the key at `c` last. */
  function Turn(ks: seq<Key>, c: nat): seq<Key>
    requires c < |ks|
  {
    ks[c + 1..] + ks[..c + 1]
  }

  /** Positions of a turn in terms of positions of the list. */
  lemma TurnIndex(ks: seq<Key>, c: nat, j: nat) returns (i: nat)
    requires c < |ks| && j < |ks|
    ensures i < |ks| && Turn(ks, c)[j] == ks[i]
    ensures Turn(ks, c)[if j + 1 < |ks| then j + 1 else 0] == ks[if i + 1 < |ks| then i + 1 else 0]
  {
    i := if j < |ks| - c - 1 then c + 1 + j else j - (|ks| - c - 1);
  }

  lemma TurnNext(t: Trie<int>, order: Key, turn: seq<Key>, c: nat, j: nat)
    requires WF(t, []) && Short(t, |order|) && c < |AllKeys(t, order, 0)| && turn == Turn(AllKeys(t, order, 0), c)
    requires j < |turn|
    ensures var k := turn[if j + 1 < |turn| then j + 1 else 0];
      k in Content(t) && NextNonEmptyLeaf(t, turn[j], order) == Some(Entry(k, Content(t)[k]))
  {
    var i := TurnIndex(AllKeys(t, order, 0), c, j);
    NextOfStored(t, order, i);
  }

  /** From every key of a turn the search in the trie finds the next one, and from the last one the first. */
  ghost predicate Turns(t: Trie<int>, order: Key, turn: seq<Key>) {
    forall j :: 0 <= j < |turn| ==> Steps(t, order, turn[j], turn[if j + 1 < |turn| then j + 1 else 0])
  }

  ghost predicate Steps(t: Trie<int>, order: Key, k: Key, next: Key) {
    next in Content(t) && NextNonEmptyLeaf(t, k, order) == Some(Entry(next, Content(t)[next]))
  }

  method CollectFrom(t: Trie<int>, order: Key, first: Entry<int>, isLate: int -> bool, ghost turn: seq<Key>)
    returns (late: seq<Key>, next: Entry<int>)
    requires turn != [] && Size(t) == |turn| && Turns(t, order, turn)
    requires first.key == turn[0] && first.key in Content(t) && first.data == Content(t)[first.key]
    ensures |late| <= |turn| && late == turn[..|late|]
    ensures forall k :: k in late ==> k in Content(t) && isLate(Content(t)[k])
    ensures next.key in Content(t) && next.data == Content(t)[next.key]
    ensures next.key == turn[if |late| < |turn| then |late| else 0]
    ensures |late| < |turn| ==> !isLate(Content(t)[next.key])
  {
    late, next := [], first;
    var size := Size(t);
    ghost var m := Content(t);
    var count := 0;
    while isLate(next.data) && count < size
      invariant count <= size && late == turn[..count]
      invariant forall k :: k in late ==> k in m && isLate(m[k])
      invariant next.key == turn[if count < size then count else 0]
      invariant next.key in m && next.data == m[next.key]
      decreases size - count
    {
      assert Steps(t, order, turn[count], turn[if count + 1 < |turn| then count + 1 else 0]);
      late := late + [next.key];
      next := NextNonEmptyLeaf(t, next.key, order).value;
      count := count + 1;
    }
  }

  /** Starting after the cursor, collects regions while their times are late, at most one turn. */
  method CollectLate(t: Trie<int>, order: Key, first: Entry<int>, isLate: int -> bool, ghost turn: seq<Key>,
                     ghost c: nat)
    returns (late: seq<Key>, next: Entry<int>)
    requires WF(t, []) && Short(t, |order|) && c < |AllKeys(t, order, 0)| && turn == Turn(AllKeys(t, order, 0), c)
    requires first.key == turn[0] && first.key in Content(t) && first.data == Content(t)[first.key]
    ensures |late| <= |turn| && late == turn[..|late|]
    ensures forall k :: k in late ==> k in Content(t) && isLate(Content(t)[k])
    ensures next.key in Content(t) && next.data == Content(t)[next.key]
    ensures next.key == turn[if |late| < |turn| then |late| else 0]
    ensures |late| < |turn| ==> !isLate(Content(t)[next.key])
  {
    AllKeysCount(t, order, 0);
    forall j | 0 <= j < |turn| ensures Steps(t, order, turn[j], turn[if j + 1 < |turn| then j + 1 else 0]) {
      TurnNext(t, order, turn, c, j);
    }
    late, next := CollectFrom(t, order, first, isLate, turn);
  }

  // ---------------------------------------------------------------- nothing missed, nothing early

  /** The times of the scheduled regions lie in the cycle and rise along the schedule. */
  ghost predicate TimesRise(m: map<Key, int>, ks: seq<Key>, interval: int) {
    && (forall k :: k in ks ==> k in m && 0 <= m[k] < interval)
    && (forall i, j :: 0 <= i < j < |ks| ==> ks[i] != ks[j] && m[ks[i]] <= m[ks[j]])
  }

  /** `cursor` is the first region to come up after the timer start. */
  ghost predicate ComesFirst(m: map<Key, int>, cursor: Key, start: int, interval: int)
    requires interval > 0
  {
    cursor in m && forall k :: k in m && k != cursor ==>
      TimeBetween(start, m[cursor], interval) < TimeBetween(start, m[k], interval)
  }

  /** One turn after the first region, regions come up in the order of their distance from the timer start. */
  lemma TurnRises(m: map<Key, int>, ks: seq<Key>, c: nat, start: int, interval: int, i: nat, j: nat)
    requires 0 <= start < interval && c < |ks| && TimesRise(m, ks, interval) && ComesFirst(m, ks[c], start, interval)
    requires i < j < |ks| - 1
    ensures Turn(ks, c)[i] in m && Turn(ks, c)[j] in m
    ensures TimeBetween(start, m[Turn(ks, c)[i]], interval) <= TimeBetween(start, m[Turn(ks, c)[j]], interval)
  {
    var x := if i < |ks| - c - 1 then c + 1 + i else i - (|ks| - c - 1);
    var y := if j < |ks| - c - 1 then c + 1 + j else j - (|ks| - c - 1);
    assert Turn(ks, c)[i] == ks[x] && Turn(ks, c)[j] == ks[y] && x != c && y != c;
    assert ks[x] in ks && ks[y] in ks && ks[c] in ks;
    TimeBetweenIs(start, m[ks[x]], interval);
    TimeBetweenIs(start, m[ks[y]], interval);
    TimeBetweenIs(start, m[ks[c]], interval);
  }

  // ---------------------------------------------------------------- the next region to come up

  /** How long after `running` something at distance `d` comes up; a whole interval if it comes up right then. */
  function Ahead(d: int, running: int, interval: int): int {
    if d > running then d - running else d - running + interval
  }

  /** Distances from a later instant, up to one interval later. */
  lemma LaterDistance(start: int, x: int, running: int, interval: int)
    requires 0 <= start < interval && 0 <= x < interval && 0 <= running <= interval
    ensures 0 <= Later(start, running, interval) < interval
    ensures TimeBetween(Later(start, running, interval), x, interval) ==
      Ahead(TimeBetween(start, x, interval), running, interval)
  {
    TimeBetweenIs(start, x, interval);
    TimeBetweenIs(Later(start, running, interval), x, interval);
  }

  /** The first region ahead of `running`, before all others ahead. */
  ghost predicate FirstAhead(ks: seq<Key>, d: Key -> int, running: int, u: Key) {
    u in ks && d(u) > running && forall k :: k in ks && k != u && d(k) > running ==> d(u) < d(k)
  }

  /** The cursor's region is alone; or it has come up, no other region comes up right now, and one of those still
      ahead is the first. */
  ghost predicate ClearNext(ks: seq<Key>, cursor: Key, d: Key -> int, running: int) {
    || (forall k :: k in ks ==> k == cursor)
    || (&& d(cursor) <= running
        && (forall k :: k in ks && k != cursor ==> d(k) != running)
        && exists u :: FirstAhead(ks, d, running, u))
  }

  ghost predicate ComesBefore(ks: seq<Key>, d: Key -> int, running: int, interval: int, u: Key) {
    forall k :: k in ks && k != u ==> Ahead(d(u), running, interval) < Ahead(d(k), running, interval)
  }

  /** What a catch-up finds: a turn that rises but for the cursor at its end, which comes before all others. */
  ghost predicate Rising(turn: seq<Key>, d: Key -> int, interval: int) {
    && turn != []
    && (forall k :: k in turn ==> 0 < d(k) <= interval)
    && (forall i, j :: 0 <= i < j < |turn| ==> turn[i] != turn[j])
    && (forall i, j :: 0 <= i < j < |turn| - 1 ==> d(turn[i]) <= d(turn[j]))
    && (forall i :: 0 <= i < |turn| - 1 ==> d(turn[|turn| - 1]) < d(turn[i]))
  }

  /** The late regions at the beginning of a turn, and the region that follows them. */
  ghost predicate LateStretch(turn: seq<Key>, d: Key -> int, running: int, n: nat, to: Key) {
    && n <= |turn| && turn != [] && to == turn[if n < |turn| then n else 0]
    && (forall i :: 0 <= i < n ==> d(turn[i]) < running)
    && (n < |turn| ==> d(to) >= running)
  }

  /** If every region is late, the catch-up goes round once and ends at the region after the cursor's, although
      the cursor's region comes up first again. */
  lemma AllLate(turn: seq<Key>, d: Key -> int, running: int, interval: int, n: nat, to: Key)
    requires Rising(turn, d, interval) && LateStretch(turn, d, running, n, to) && |turn| > 1 && n == |turn|
    ensures !ComesBefore(turn, d, running, interval, to) && !ClearNext(turn, turn[|turn| - 1], d, running)
  {
    var cursor := turn[|turn| - 1];
    assert turn[0] in turn && cursor in turn && turn[0] != cursor;
    forall u | u in turn ensures d(u) < running {
      var i :| 0 <= i < |turn| && turn[i] == u;
    }
  }

  /** Otherwise it ends at another region than the cursor's, the first of those not late. */
  lemma EndsAtFirst(turn: seq<Key>, d: Key -> int, running: int, interval: int, n: nat, to: Key)
    requires Rising(turn, d, interval) && LateStretch(turn, d, running, n, to) && |turn| > 1 && n < |turn|
    ensures to in turn && to != turn[|turn| - 1]
    ensures forall k :: k in turn && k != turn[|turn| - 1] && d(k) >= running ==> d(to) <= d(k)
  {
    var last := |turn| - 1;
    assert d(turn[last]) < d(turn[0]);
    forall k | k in turn && k != turn[last] && d(k) >= running ensures d(to) <= d(k) {
      var i :| 0 <= i < |turn| && turn[i] == k;
      assert n <= i;
    }
  }

  lemma NotAllLate(turn: seq<Key>, d: Key -> int, running: int, interval: int, n: nat, to: Key)
    requires Rising(turn, d, interval) && LateStretch(turn, d, running, n, to) && |turn| > 1 && n < |turn|
    requires 0 < running <= interval
    ensures ComesBefore(turn, d, running, interval, to) <==> ClearNext(turn, turn[|turn| - 1], d, running)
  {
    var cursor := turn[|turn| - 1];
    EndsAtFirst(turn, d, running, interval, n, to);
    assert cursor in turn && turn[0] in turn && turn[0] != cursor;
    if ComesBefore(turn, d, running, interval, to) {
      assert Ahead(d(to), running, interval) < Ahead(d(cursor), running, interval);
      var i :| 0 <= i < |turn| && turn[i] == to;
      assert d(cursor) < d(to);
      assert FirstAhead(turn, d, running, to);
    }
    if ClearNext(turn, cursor, d, running) {
      var u :| FirstAhead(turn, d, running, u);
      assert u == to;
    }
  }

  /** A catch-up leaves the first region to come up as the next one exactly if the way was clear before it. */
  lemma NextIsFirstIff(turn: seq<Key>, d: Key -> int, running: int, interval: int, n: nat, to: Key)
    requires Rising(turn, d, interval) && LateStretch(turn, d, running, n, to) && |turn| > 1 && 0 < running <= interval
    ensures ComesBefore(turn, d, running, interval, to) <==> ClearNext(turn, turn[|turn| - 1], d, running)
  {
    if n < |turn| {
      NotAllLate(turn, d, running, interval, n, to);
    } else {
      AllLate(turn, d, running, interval, n, to);
    }
  }

  // ---------------------------------------------------------------- a wake-up

  /** How long after the offset `start` each region comes up. */
  ghost function Since(m: map<Key, int>, start: int, interval: int): Key -> int {
    k => if k in m && interval > 0 then TimeBetween(start, m[k], interval) else 0
  }

  lemma TurnMembers(ks: seq<Key>, c: nat)
    requires c < |ks|
    ensures |Turn(ks, c)| == |ks| && Turn(ks, c)[|ks| - 1] == ks[c]
    ensures forall k :: k in Turn(ks, c) <==> k in ks
  {
    assert ks == ks[..c + 1] + ks[c + 1..];
  }

  lemma TurnIsRising(m: map<Key, int>, ks: seq<Key>, c: nat, start: int, interval: int)
    requires 0 <= start < interval && c < |ks| && TimesRise(m, ks, interval) && ComesFirst(m, ks[c], start, interval)
    ensures Rising(Turn(ks, c), Since(m, start, interval), interval)
  {
    var turn, d := Turn(ks, c), Since(m, start, interval);
    TurnMembers(ks, c);
    TurnIsDistinct(ks, c);
    forall k | k in turn ensures 0 < d(k) <= interval { TimeBetweenIs(start, m[k], interval); }
    forall i, j | 0 <= i < j < |turn| - 1
      ensures d(turn[i]) <= d(turn[j])
    {
      TurnRises(m, ks, c, start, interval, i, j);
    }
    forall i | 0 <= i < |turn| - 1 ensures d(ks[c]) < d(turn[i]) { CursorIsFirst(m, ks, c, start, interval, i); }
  }

  lemma CursorIsFirst(m: map<Key, int>, ks: seq<Key>, c: nat, start: int, interval: int, i: nat)
    requires 0 <= start < interval && c < |ks| && TimesRise(m, ks, interval) && ComesFirst(m, ks[c], start, interval)
    requires i < |ks| - 1
    ensures Since(m, start, interval)(ks[c]) < Since(m, start, interval)(Turn(ks, c)[i])
  {
    var turn := Turn(ks, c);
    TurnMembers(ks, c);
    TurnIsDistinct(ks, c);
    assert turn[i] in turn && turn[i] != turn[|ks| - 1];
  }

  lemma TurnIsDistinct(ks: seq<Key>, c: nat)
    requires c < |ks| && forall i, j :: 0 <= i < j < |ks| ==> ks[i] != ks[j]
    ensures forall i, j :: 0 <= i < j < |ks| ==> Turn(ks, c)[i] != Turn(ks, c)[j]
  {
  }

  /** `late` holds exactly the regions that have passed, but for the cursor's. */
  ghost predicate MissesPassed(m: map<Key, int>, cursor: Key, late: seq<Key>, d: Key -> int, running: int) {
    forall k :: k in m && k != cursor ==> (k in late <==> d(k) < running)
  }

  /** What a catch-up collects and where it ends; a lone region is not caught up with. */
  ghost predicate CaughtUp(turn: seq<Key>, late: seq<Key>, to: Key, d: Key -> int, running: int) {
    && |late| <= |turn| && late == turn[..|late|] && turn != []
    && if |turn| == 1 then late == [] && to == turn[0] else LateStretch(turn, d, running, |late|, to)
  }

  lemma PassedAreCollected(turn: seq<Key>, d: Key -> int, interval: int, running: int, late: seq<Key>, to: Key)
    requires Rising(turn, d, interval) && CaughtUp(turn, late, to, d, running)
    ensures forall k :: k in turn && k != turn[|turn| - 1] ==> (k in late <==> d(k) < running)
  {
    if |turn| > 1 {
      forall k | k in turn && k != turn[|turn| - 1] && d(k) < running ensures k in late {
        LateIsCollected(turn, d, interval, running, |late|, to, k);
      }
      forall k | k in late ensures d(k) < running { var i :| 0 <= i < |late| && late[i] == k; assert turn[i] == k; }
    }
  }

  lemma CaughtUpNext(turn: seq<Key>, d: Key -> int, interval: int, running: int, late: seq<Key>, to: Key)
    requires Rising(turn, d, interval) && CaughtUp(turn, late, to, d, running) && 0 < running <= interval
    ensures to in turn
    ensures ComesBefore(turn, d, running, interval, to) <==> ClearNext(turn, turn[|turn| - 1], d, running)
  {
    if |turn| > 1 { NextIsFirstIff(turn, d, running, interval, |late|, to); }
  }

  /** A timely catch-up collects exactly the regions that have passed, but for the cursor's. */
  lemma TimelyCatchUp(m: map<Key, int>, ks: seq<Key>, c: nat, start: int, running: int, interval: int, late: seq<Key>,
                      to: Key)
    requires 0 <= start < interval && c < |ks| && TimesRise(m, ks, interval) && ComesFirst(m, ks[c], start, interval)
    requires forall k :: k in m <==> k in ks
    requires CaughtUp(Turn(ks, c), late, to, Since(m, start, interval), running)
    ensures MissesPassed(m, ks[c], late, Since(m, start, interval), running)
  {
    TurnMembers(ks, c);
    TurnIsRising(m, ks, c, start, interval);
    PassedAreCollected(Turn(ks, c), Since(m, start, interval), interval, running, late, to);
  }

  /** It ends at the first region to come up exactly if the way was clear. */
  lemma TimelyNext(m: map<Key, int>, ks: seq<Key>, c: nat, start: int, running: int, interval: int, late: seq<Key>,
                   to: Key)
    requires 0 <= start < interval && c < |ks| && TimesRise(m, ks, interval) && ComesFirst(m, ks[c], start, interval)
    requires 0 < running <= interval && forall k :: k in m <==> k in ks
    requires CaughtUp(Turn(ks, c), late, to, Since(m, start, interval), running)
    ensures ComesFirst(m, to, Later(start, running, interval), interval) <==>
            ClearNext(ks, ks[c], Since(m, start, interval), running)
  {
    TurnMembers(ks, c);
    TurnIsRising(m, ks, c, start, interval);
    CaughtUpNext(Turn(ks, c), Since(m, start, interval), interval, running, late, to);
    SameClearNext(Turn(ks, c), ks, ks[c], Since(m, start, interval), running);
    ComesFirstLater(m, Turn(ks, c), start, running, interval, to);
  }

  lemma ComesFirstLater(m: map<Key, int>, turn: seq<Key>, start: int, running: int, interval: int, to: Key)
    requires 0 <= start < interval && 0 < running <= interval && to in turn
    requires forall k :: k in m <==> k in turn
    requires forall k :: k in m ==> 0 <= m[k] < interval
    ensures ComesFirst(m, to, Later(start, running, interval), interval) <==>
            ComesBefore(turn, Since(m, start, interval), running, interval, to)
  {
    var d := Since(m, start, interval);
    forall k | k in m
      ensures TimeBetween(Later(start, running, interval), m[k], interval) == Ahead(d(k), running, interval)
    {
      LaterDistance(start, m[k], running, interval);
    }
  }

  lemma LateIsCollected(turn: seq<Key>, d: Key -> int, interval: int, running: int, n: nat, to: Key, k: Key)
    requires Rising(turn, d, interval) && LateStretch(turn, d, running, n, to) && |turn| > 1
    requires k in turn && k != turn[|turn| - 1] && d(k) < running
    ensures k in turn[..n]
  {
    var i :| 0 <= i < |turn| && turn[i] == k;
    assert i < |turn| - 1;
    if n < |turn| && n <= i {
      EndsAtFirst(turn, d, running, interval, n, to);
    }
    assert i < n ==> turn[..n][i] == k;
  }

  lemma SameClearNext(a: seq<Key>, b: seq<Key>, cursor: Key, d: Key -> int, running: int)
    requires forall k :: k in a <==> k in b
    ensures ClearNext(a, cursor, d, running) <==> ClearNext(b, cursor, d, running)
  {
    forall u ensures FirstAhead(a, d, running, u) <==> FirstAhead(b, d, running, u) { }
  }
}
