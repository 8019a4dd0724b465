/** Grouping keys by scheduled prefix, and refreshing the schedule from the keystore. */
module Grouping {
  import opened Keys
  import opened Sequences
  import opened Tries
  import opened TrieOps
  import opened NextLeaf
  import opened Gaps
  import opened PrefixQueues
  import opened ProvideQueues
  import opened Schedules
  import opened Multihashes
  import opened ReprovideTimes

  type Groups<V> = map<Key, seq<V>>

  // ---------------------------------------------------------------- groups

  ghost predicate Grouped<V>(groups: Groups<V>, v: V) {
    exists p :: p in groups && v in groups[p]
  }

  /** Non-overlapping prefixes, each with a repetition-free list of values under it. */
  ghost predicate Partitioned<V>(t: Trie<()>, groups: Groups<V>, hash: V -> Key) {
    && WF(t, []) && groups.Keys == Content(t).Keys
    && (forall p :: p in groups ==> NoRepeats(groups[p]))
    && (forall p, v :: p in groups && v in groups[p] ==> p <= hash(v))
  }

  lemma OneGroup<V>(t: Trie<()>, groups: Groups<V>, hash: V -> Key, v: V, a: Key, b: Key)
    requires Partitioned(t, groups, hash) && a in groups && b in groups && v in groups[a] && v in groups[b]
    ensures a == b
  {
    OnePrefixPerKey(t, hash(v), a, b);
  }

  /** The values of the groups in a list, in order. */
  function Gathered<V>(groups: Groups<V>, ps: seq<Key>): seq<V>
    requires forall p :: p in ps ==> p in groups
  {
    if ps == [] then [] else Gathered(groups, ps[..|ps| - 1]) + groups[ps[|ps| - 1]]
  }

  lemma {:induction false} GatheredSpec<V>(t: Trie<()>, groups: Groups<V>, hash: V -> Key, ps: seq<Key>)
    requires Partitioned(t, groups, hash) && NoRepeats(ps) && forall p :: p in ps ==> p in groups
    ensures NoRepeats(Gathered(groups, ps))
    ensures forall v :: v in Gathered(groups, ps) <==> exists p :: p in ps && v in groups[p]
    decreases |ps|
  {
    if ps == [] {
    } else {
      var init, p := ps[..|ps| - 1], ps[|ps| - 1];
      GatheredSpec(t, groups, hash, init);
      assert ps == init + [p];
      forall v | v in Gathered(groups, init) && v in groups[p] ensures false {
        var q :| q in init && v in groups[q];
        OneGroup(t, groups, hash, v, p, q);
      }
      JoinedMembers(Gathered(groups, init), groups[p]);
    }
  }

  /** Takes the groups of a list of prefixes out, collecting their values after `v`. */
  method TakeGroups<V>(groups: Groups<V>, ps: seq<Key>, v: V) returns (members: seq<V>, rest: Groups<V>)
    requires NoRepeats(ps) && forall p :: p in ps ==> p in groups
    ensures members == [v] + Gathered(groups, ps) && rest == groups - set p | p in ps
  {
    members, rest := [v], groups;
    for i := 0 to |ps|
      invariant members == [v] + Gathered(groups, ps[..i])
      invariant rest == groups - set p | p in ps[..i]
    {
      assert ps[i] in ps && ps[..i + 1][..i] == ps[..i] && ps[i] !in ps[..i];
      assert ps[..i + 1] == ps[..i] + [ps[i]];
      members := members + rest[ps[i]];
      rest := rest - {ps[i]};
    }
    assert ps[..|ps|] == ps;
  }

  /** Opens a group for `v` under `prefix`, taking in the groups of longer prefixes. */
  method AddGroup<V(!new)>(t: Trie<()>, groups: Groups<V>, prefix: Key, v: V, order: Key, ghost hash: V -> Key)
    returns (t': Trie<()>, groups': Groups<V>)
    requires Partitioned(t, groups, hash) && !HasPrefixOf(t, prefix) && prefix <= hash(v) && !Grouped(groups, v)
    ensures Partitioned(t', groups', hash)
    ensures forall w :: Grouped(groups', w) <==> w == v || Grouped(groups, w)
    ensures Content(t') == NotUnder(Content(t), prefix)[prefix := ()]
  {
    t' := t;
    var ps: seq<Key> := [];
    var sub, found := FindSubtrie(t, prefix);
    if found {
      ps := AllKeys(sub, order, 0);
      ExtensionsOf(sub, t, prefix, order);
      ReplaceSpec(t, prefix, ());
      t' := PruneSubtrie(t, prefix);
    } else {
      AddDisjoint(t, prefix);
    }
    t' := Add(t', prefix, ());
    var members;
    members, groups' := TakeGroups(groups, ps, v);
    groups' := groups'[prefix := members];
    MergedPartition(t, groups, hash, prefix, v, ps, members, t', groups');
    MergedMembers(t, groups, hash, prefix, v, ps, members, groups');
  }

  lemma AddDisjoint(t: Trie<()>, prefix: Key)
    requires WF(t, []) && !HasExtensionOf(t, prefix) && !HasPrefixOf(t, prefix)
    ensures WF(Add(t, prefix, ()), []) && Content(Add(t, prefix, ())) == NotUnder(Content(t), prefix)[prefix := ()]
  {
    AddSpec(t, prefix, ());
    assert NotUnder(Content(t), prefix) == Content(t);
  }

  lemma MergedPartition<V(!new)>(t: Trie<()>, groups: Groups<V>, hash: V -> Key, prefix: Key, v: V, ps: seq<Key>,
                                 members: seq<V>, t': Trie<()>, groups': Groups<V>)
    requires Partitioned(t, groups, hash) && prefix <= hash(v) && !Grouped(groups, v)
    requires NoRepeats(ps) && forall k :: k in ps <==> k in Content(t) && prefix <= k
    requires members == [v] + Gathered(groups, ps)
    requires WF(t', []) && Content(t') == NotUnder(Content(t), prefix)[prefix := ()]
    requires groups' == (groups - set k | k in ps)[prefix := members]
    ensures Partitioned(t', groups', hash)
  {
    GatheredSpec(t, groups, hash, ps);
    assert forall w :: w in Gathered(groups, ps) ==> Grouped(groups, w);
    JoinedMembers([v], Gathered(groups, ps));
    forall w | w in members ensures prefix <= hash(w) {
      if w != v { var p :| p in ps && w in groups[p]; assert prefix <= p <= hash(w); }
    }
    assert groups'.Keys == Content(t').Keys;
  }

  lemma MergedMembers<V(!new)>(t: Trie<()>, groups: Groups<V>, hash: V -> Key, prefix: Key, v: V, ps: seq<Key>,
                               members: seq<V>, groups': Groups<V>)
    requires Partitioned(t, groups, hash) && NoRepeats(ps) && forall p :: p in ps ==> p in groups && prefix <= p
    requires prefix !in groups || prefix in ps
    requires members == [v] + Gathered(groups, ps)
    requires groups' == (groups - set k | k in ps)[prefix := members]
    ensures forall w :: Grouped(groups', w) <==> w == v || Grouped(groups, w)
  {
    GatheredSpec(t, groups, hash, ps);
    assert v in groups'[prefix];
    forall w | Grouped(groups, w) ensures Grouped(groups', w) {
      var p :| p in groups && w in groups[p];
      if p in ps { assert w in groups'[prefix]; } else { assert w in groups'[p]; }
    }
    forall w | Grouped(groups', w) ensures w == v || Grouped(groups, w) {
      var p :| p in groups' && w in groups'[p];
      if p != prefix { assert w in groups[p]; }
    }
  }

  // ---------------------------------------------------------------- grouping by scheduled prefix

  /** Exactly one scheduled prefix holds `k`. */
  ghost predicate ScheduledOnce(t: Trie<int>, k: Key) {
    HasPrefixOf(t, k) && forall a, b :: a in Content(t) && b in Content(t) && a <= k && b <= k ==> a == b
  }

  lemma OneScheduledPrefix(t: Trie<int>, k: Key)
    requires WF(t, []) && HasPrefixOf(t, k)
    ensures ScheduledOnce(t, k)
  {
    forall a, b | a in Content(t) && b in Content(t) && a <= k && b <= k ensures a == b { OnePrefixPerKey(t, k, a, b); }
  }

  /** A region that was scheduled, or one of average length. */
  ghost predicate RegionOf(p: Key, regions: set<Key>, avgPrefixLen: int) {
    p in regions || |p| == avgPrefixLen
  }

  /** None of the prefixes lies inside one of the regions. */
  ghost predicate Undivided(ps: set<Key>, regions: set<Key>) {
    forall p, s :: p in ps && s in regions && s <= p ==> p == s
  }

  /** A schedule that began with `regions`: it still covers them, and has added only regions of average length. */
  ghost predicate GrownFrom(t: Trie<int>, regions: set<Key>, avgPrefixLen: int) {
    && (forall p :: p in Content(t) ==> RegionOf(p, regions, avgPrefixLen))
    && (forall s :: s in regions ==> HasPrefixOf(t, s))
  }

  /** The prefix of a key does not lie inside a region: it is scheduled itself, or the key is in no region. */
  lemma PrefixIsUndivided(t: Trie<int>, regions: set<Key>, avgPrefixLen: int, k: Key, prefix: Key)
    requires WF(t, []) && GrownFrom(t, regions, avgPrefixLen) && prefix <= k
    requires if HasPrefixOf(t, k) then prefix in Content(t) else |prefix| == avgPrefixLen
    ensures RegionOf(prefix, regions, avgPrefixLen) && Undivided({prefix}, regions)
  {
    forall s | s in regions && s <= prefix ensures prefix == s {
      var q :| q in Content(t) && q <= s;
      assert q <= k && HasPrefixOf(t, k);
      OnePrefixPerKey(t, k, q, prefix);
    }
  }

  /** The prefix a key is grouped under: its scheduled region, or a new region of average length. */
  method PrefixFor(s: Scheduler, k: Key, avgPrefixLen: nat, addToSchedule: bool, now: int) returns (prefix: Key)
    requires s.Valid() && avgPrefixLen <= |k| <= |s.order| && now >= s.cycleStart
    modifies s`schedule, s`cursor, s`alarm, s`timerStartedAt
    ensures s.Valid() && prefix <= k
    ensures HasPrefixOf(old(s.schedule), k) ==> prefix in old(Content(s.schedule)) && s.schedule == old(s.schedule)
    ensures !HasPrefixOf(old(s.schedule), k) ==> prefix == k[..avgPrefixLen]
    ensures addToSchedule ==> HasPrefixOf(s.schedule, prefix)
    ensures forall f :: HasPrefixOf(old(s.schedule), f) ==> HasPrefixOf(s.schedule, f)
    ensures forall p :: p in Content(s.schedule) ==> p in old(Content(s.schedule)) || |p| == avgPrefixLen
    ensures !addToSchedule ==> s.schedule == old(s.schedule)
  {
    FindPrefix(s.schedule, k);
    var (p, inSchedule) := FindPrefixOfKey(s.schedule, k, 0);
    prefix := p;
    if !inSchedule {
      prefix := k[..avgPrefixLen];
      if addToSchedule {
        ghost var t := s.schedule;
        assert HasPrefixOf(t, prefix) ==> HasPrefixOf(t, k);
        s.SchedulePrefix(prefix, false, now);
        forall f ensures HasPrefixOf(s.schedule, f) <==> HasPrefixOf(t, f) || prefix <= f {
          ReplaceCoverage(t, s.schedule, prefix, ReprovideTime(prefix, s.order, s.interval), f);
        }
      }
    }
  }

  /** The groups so far: a partition into regions, none of which is divided, scheduled if that is asked for. */
  ghost predicate GroupedByRegion<V>(t: Trie<()>, groups: Groups<V>, hash: V -> Key, schedule: Trie<int>,
                                     regions: set<Key>, avgPrefixLen: int, addToSchedule: bool)
  {
    && Partitioned(t, groups, hash) && Undivided(groups.Keys, regions)
    && (forall p :: p in groups ==> RegionOf(p, regions, avgPrefixLen))
    && (addToSchedule ==> forall p :: p in groups ==> HasPrefixOf(schedule, p))
  }

  /** Opens a group under a prefix that is a region. */
  method OpenGroup<V(!new)>(t: Trie<()>, groups: Groups<V>, prefix: Key, h: V, order: Key, ghost hash: V -> Key,
                            ghost schedule: Trie<int>, ghost regions: set<Key>, ghost avgPrefixLen: int,
                            ghost addToSchedule: bool)
    returns (t': Trie<()>, groups': Groups<V>)
    requires GroupedByRegion(t, groups, hash, schedule, regions, avgPrefixLen, addToSchedule) && !Grouped(groups, h)
    requires !HasPrefixOf(t, prefix) && prefix <= hash(h)
    requires RegionOf(prefix, regions, avgPrefixLen) && Undivided({prefix}, regions)
    requires addToSchedule ==> HasPrefixOf(schedule, prefix)
    ensures GroupedByRegion(t', groups', hash, schedule, regions, avgPrefixLen, addToSchedule)
    ensures forall w :: Grouped(groups', w) <==> w == h || Grouped(groups, w)
  {
    t', groups' := AddGroup(t, groups, prefix, h, order, hash);
    assert forall p :: p in groups' ==> p == prefix || p in groups;
  }

  /** A new key that has no group yet; there is none for it if it is not scheduled and no average length is known. */
  method OpenGroupOf<V(!new)>(s: Scheduler, t: Trie<()>, groups: Groups<V>, h: V, k: Key, avgPrefixLen: int,
                              addToSchedule: bool, now: int, ghost hash: V -> Key, ghost regions: set<Key>)
    returns (t': Trie<()>, groups': Groups<V>, ok: bool)
    requires s.Valid() && !Grouped(groups, h) && k == hash(h) && !HasPrefixOf(t, k)
    requires |k| <= |s.order| && now >= s.cycleStart && -1 <= avgPrefixLen <= |k|
    requires GroupedByRegion(t, groups, hash, s.schedule, regions, avgPrefixLen, addToSchedule)
    requires GrownFrom(s.schedule, regions, avgPrefixLen)
    modifies s`schedule, s`cursor, s`alarm, s`timerStartedAt
    ensures s.Valid() && (avgPrefixLen >= 0 ==> ok) && (!ok ==> !HasPrefixOf(old(s.schedule), k))
    ensures avgPrefixLen < 0 ==> s.schedule == old(s.schedule)
    ensures forall f :: HasPrefixOf(old(s.schedule), f) ==> HasPrefixOf(s.schedule, f)
    ensures GrownFrom(s.schedule, regions, avgPrefixLen)
    ensures ok ==> GroupedByRegion(t', groups', hash, s.schedule, regions, avgPrefixLen, addToSchedule)
    ensures ok ==> forall w :: Grouped(groups', w) <==> w == h || Grouped(groups, w)
    ensures ok && addToSchedule ==> HasPrefixOf(s.schedule, k)
  {
    t', groups', ok := t, groups, true;
    FindPrefix(s.schedule, k);
    if avgPrefixLen < 0 && !FindPrefixOfKey(s.schedule, k, 0).1 { return t, groups, false; }
    ghost var schedule := s.schedule;
    var prefix := PrefixFor(s, k, if avgPrefixLen < 0 then 0 else avgPrefixLen, addToSchedule, now);
    PrefixIsUndivided(schedule, regions, avgPrefixLen, k, prefix);
    ShorterPrefix(t, prefix, k);
    ShorterPrefix(s.schedule, prefix, k);
    t', groups' := OpenGroup(t, groups, prefix, h, s.order, hash, s.schedule, regions, avgPrefixLen, addToSchedule);
  }

  /** One new key: it joins the group of a prefix already there, or opens a group of its own. */
  method GroupOne<V(!new)>(s: Scheduler, t: Trie<()>, groups: Groups<V>, h: V, k: Key, avgPrefixLen: int,
                           addToSchedule: bool, now: int, ghost hash: V -> Key, ghost regions: set<Key>)
    returns (t': Trie<()>, groups': Groups<V>, ok: bool)
    requires s.Valid() && !Grouped(groups, h) && k == hash(h)
    requires |k| <= |s.order| && now >= s.cycleStart && -1 <= avgPrefixLen <= |k|
    requires GroupedByRegion(t, groups, hash, s.schedule, regions, avgPrefixLen, addToSchedule)
    requires GrownFrom(s.schedule, regions, avgPrefixLen)
    modifies s`schedule, s`cursor, s`alarm, s`timerStartedAt
    ensures s.Valid() && (avgPrefixLen >= 0 ==> ok) && (!ok ==> !HasPrefixOf(old(s.schedule), k))
    ensures avgPrefixLen < 0 ==> s.schedule == old(s.schedule)
    ensures forall f :: HasPrefixOf(old(s.schedule), f) ==> HasPrefixOf(s.schedule, f)
    ensures GrownFrom(s.schedule, regions, avgPrefixLen)
    ensures ok ==> GroupedByRegion(t', groups', hash, s.schedule, regions, avgPrefixLen, addToSchedule)
    ensures ok ==> forall w :: Grouped(groups', w) <==> w == h || Grouped(groups, w)
    ensures ok && addToSchedule ==> HasPrefixOf(s.schedule, k)
  {
    FindPrefix(t, k);
    var (p, found) := FindPrefixOfKey(t, k, 0);
    if found {
      JoinGroup(t, groups, hash, p, h);
      assert addToSchedule ==> HasPrefixOf(s.schedule, p);
      ShorterPrefix(s.schedule, p, k);
      return t, groups[p := groups[p] + [h]], true;
    }
    t', groups', ok := OpenGroupOf(s, t, groups, h, k, avgPrefixLen, addToSchedule, now, hash, regions);
  }

  lemma ShorterPrefix<D>(t: Trie<D>, p: Key, k: Key)
    requires p <= k
    ensures HasPrefixOf(t, p) ==> HasPrefixOf(t, k)
  {
  }

  /** Two keys of one region are in one group. */
  lemma RegionSharesGroup<V>(t: Trie<()>, groups: Groups<V>, hash: V -> Key, regions: set<Key>, region: Key, a: V, b: V,
                             p: Key, q: Key)
    requires Partitioned(t, groups, hash) && Undivided(groups.Keys, regions) && region in regions
    requires region <= hash(a) && region <= hash(b)
    requires p in groups && a in groups[p] && q in groups && b in groups[q]
    ensures p == q
  {
    PrefixesOfOneKey(p, region, hash(a));
    PrefixesOfOneKey(q, region, hash(b));
    assert p <= region && q <= region;
    OnePrefixPerKey(t, region, p, q);
  }

  /** Groups distinct keys by non-overlapping prefixes: regions of the schedule, or of average length where there is
      none. No group divides a scheduled region. If `addToSchedule` is set, every key has exactly one scheduled prefix
      afterwards. Without an average prefix length there is no result once a key is not scheduled. */
  method GroupAndSchedule<V(!new)>(s: Scheduler, hs: seq<V>, hash: V -> Key, avgPrefixLen: int, addToSchedule: bool,
                                   now: int, ghost unhash: Key -> V, ghost bits: nat)
    returns (r: Option<Groups<V>>, t: Trie<()>)
    requires s.Valid() && Hashing(hash, unhash, bits) && bits <= |s.order| && now >= s.cycleStart
    requires -1 <= avgPrefixLen <= bits
    modifies s`schedule, s`cursor, s`alarm, s`timerStartedAt
    ensures s.Valid() && (avgPrefixLen >= 0 ==> r.Some?)
    ensures r.None? ==> exists h :: h in hs && !HasPrefixOf(old(s.schedule), hash(h))
    ensures forall f :: HasPrefixOf(old(s.schedule), f) ==> HasPrefixOf(s.schedule, f)
    ensures r.Some? ==> Partitioned(t, r.value, hash) && forall h :: h in hs <==> Grouped(r.value, h)
    ensures r.Some? ==> forall p :: p in r.value ==> p in old(Content(s.schedule)) || |p| == avgPrefixLen
    ensures r.Some? ==> Undivided(r.value.Keys, old(Content(s.schedule)).Keys)
    ensures r.Some? && addToSchedule ==> forall h :: h in hs ==> ScheduledOnce(s.schedule, hash(h))
  {
    var seen: set<Key>, groups: Groups<V> := {}, map[];
    t := Empty;
    ghost var regions := Content(s.schedule).Keys;
    for i := 0 to |hs|
      invariant s.Valid() && GrownFrom(s.schedule, regions, avgPrefixLen)
      invariant GroupedByRegion(t, groups, hash, s.schedule, regions, avgPrefixLen, addToSchedule)
      invariant avgPrefixLen < 0 ==> s.schedule == old(s.schedule)
      invariant forall k :: k in seen <==> Grouped(groups, unhash(k)) && hash(unhash(k)) == k
      invariant forall h :: h in hs[..i] <==> Grouped(groups, h)
      invariant forall f :: HasPrefixOf(old(s.schedule), f) ==> HasPrefixOf(s.schedule, f)
      invariant addToSchedule ==> forall h :: h in hs[..i] ==> HasPrefixOf(s.schedule, hash(h))
    {
      var h := hs[i];
      var k := hash(h);
      assert forall x :: x in hs[..i + 1] <==> x in hs[..i] || x == h;
      assert unhash(k) == h;
      if k !in seen {
        seen := seen + {k};
        var ok;
        t, groups, ok := GroupOne(s, t, groups, h, k, avgPrefixLen, addToSchedule, now, hash, regions);
        if !ok {
          assert h in hs;
          return None, t;
        }
      }
    }
    assert hs[..|hs|] == hs;
    r := Some(groups);
    if addToSchedule {
      forall h | h in hs ensures ScheduledOnce(s.schedule, hash(h)) { OneScheduledPrefix(s.schedule, hash(h)); }
    }
  }

  lemma JoinGroup<V(!new)>(t: Trie<()>, groups: Groups<V>, hash: V -> Key, p: Key, v: V)
    requires Partitioned(t, groups, hash) && p in groups && p <= hash(v) && !Grouped(groups, v)
    ensures Partitioned(t, groups[p := groups[p] + [v]], hash)
    ensures forall w :: Grouped(groups[p := groups[p] + [v]], w) <==> w == v || Grouped(groups, w)
  {
    var g := groups[p := groups[p] + [v]];
    assert v in g[p];
    forall w | Grouped(groups, w) ensures Grouped(g, w) {
      var q :| q in groups && w in groups[q];
      assert w in g[q];
    }
  }

  // ---------------------------------------------------------------- refreshing the schedule

  /** All bit strings of length `n` that start with `prefix`, each once; nothing if `n` is too small. */
  method ExtendBinaryPrefix(prefix: Key, n: int) returns (r: seq<Key>)
    ensures n < |prefix| ==> r == []
    ensures n >= |prefix| ==> NoRepeats(r) && forall e :: e in r <==> |e| == n && prefix <= e
  {
    if n < |prefix| { return []; }
    r := [prefix];
    assert forall e: Key {:trigger e in r} :: |e| == |prefix| && prefix <= e ==> e == prefix;
    for i := 0 to n - |prefix|
      invariant NoRepeats(r) && forall e :: e in r <==> |e| == |prefix| + i && prefix <= e
    {
      r := ExtendEach(r, |prefix| + i, prefix);
    }
  }

  method ExtendEach(rd: seq<Key>, ghost n: nat, ghost prefix: Key) returns (wr: seq<Key>)
    requires |prefix| <= n && NoRepeats(rd) && forall e :: e in rd <==> |e| == n && prefix <= e
    ensures NoRepeats(wr) && forall e :: e in wr <==> |e| == n + 1 && prefix <= e
  {
    wr := [];
    for j := 0 to |rd|
      invariant |wr| == 2 * j && forall i :: 0 <= i < |wr| ==> wr[i] == rd[i / 2] + [i % 2 == 1]
    {
      wr := wr + [rd[j] + [false], rd[j] + [true]];
    }
    DoubledMembers(rd, wr, n, prefix);
  }

  lemma DoubledMembers(rd: seq<Key>, wr: seq<Key>, n: nat, prefix: Key)
    requires |prefix| <= n && NoRepeats(rd) && forall e :: e in rd <==> |e| == n && prefix <= e
    requires |wr| == 2 * |rd| && forall i :: 0 <= i < |wr| ==> wr[i] == rd[i / 2] + [i % 2 == 1]
    ensures NoRepeats(wr) && forall e :: e in wr <==> |e| == n + 1 && prefix <= e
  {
    forall i | 0 <= i < |wr|
      ensures |wr[i]| == n + 1 && prefix <= wr[i] && wr[i][..n] == rd[i / 2] && wr[i][n] == (i % 2 == 1)
    {
      assert rd[i / 2] in rd;
    }
    forall i, j | 0 <= i < j < |wr| ensures wr[i] != wr[j] {
      assert i / 2 < j / 2 ==> rd[i / 2] != rd[j / 2];
    }
    forall e: Key | |e| == n + 1 && prefix <= e ensures e in wr {
      assert e[..n][..|prefix|] == prefix;
      var i :| 0 <= i < |rd| && rd[i] == e[..n];
      var j := if e[n] then 2 * i + 1 else 2 * i;
      assert wr[j] == rd[i] + [e[n]] == e;
    }
  }

  /** A gap that is long enough, or an extension of average length of one that is not. */
  ghost predicate FromGap(gaps: seq<Key>, e: Key, prefixLen: nat) {
    |e| >= prefixLen && exists g :: g in gaps && g <= e && (e == g || |e| == prefixLen)
  }

  lemma UnrelatedJoin(a: seq<Key>, b: seq<Key>)
    requires Unrelated(a) && Unrelated(b) && forall x, y :: x in a && y in b ==> !Comparable(x, y)
    ensures Unrelated(a + b)
  {
    var s := a + b;
    forall i, j | 0 <= i < j < |s| ensures !Comparable(s[i], s[j]) {
      if i < |a| <= j { assert a[i] in a && b[j - |a|] in b; }
    }
  }

  /** Regions from different gaps are unrelated if the gaps are. */
  lemma FromUnrelatedGaps(gaps: seq<Key>, i: nat, e: Key, e': Key, prefixLen: nat)
    requires Unrelated(gaps) && i < |gaps| && FromGap(gaps[..i], e, prefixLen) && gaps[i] <= e'
    ensures !Comparable(e, e')
  {
    var g :| g in gaps[..i] && g <= e;
    var j :| 0 <= j < i && gaps[j] == g;
    if e <= e' { PrefixesOfOneKey(g, gaps[i], e'); }
    if e' <= e { PrefixesOfOneKey(g, gaps[i], e); }
  }

  lemma EquallyLong(ks: seq<Key>, n: nat)
    requires NoRepeats(ks) && forall k :: k in ks ==> |k| == n
    ensures Unrelated(ks)
  {
    forall i, j | 0 <= i < j < |ks| ensures !Comparable(ks[i], ks[j]) {
      assert ks[i] in ks && ks[j] in ks;
      EqualLength(ks[i], ks[j]);
    }
  }

  lemma EqualLength(a: Key, b: Key)
    requires |a| == |b|
    ensures Comparable(a, b) ==> a == b
  {
    if Comparable(a, b) { assert a == b; }
  }

  /** The regions of one gap. */
  method RegionsOfGap(p: Key, prefixLen: nat) returns (more: seq<Key>)
    ensures Unrelated(more) && forall e :: e in more ==> FromGap([p], e, prefixLen)
    ensures forall f :: |f| >= prefixLen && p <= f ==> Holds(more, f)
  {
    if |p| >= prefixLen { return [p]; }
    more := ExtendBinaryPrefix(p, prefixLen);
    EquallyLong(more, prefixLen);
    assert p in [p];
    forall f: Key | |f| >= prefixLen && p <= f ensures Holds(more, f) { assert f[..prefixLen] in more; }
  }

  /** The regions to look for keys in: the gaps, cut down to the average prefix length. */
  method MissingRegions(gaps: seq<Key>, prefixLen: nat) returns (missing: seq<Key>)
    ensures forall f :: |f| >= prefixLen && Holds(gaps, f) ==> Holds(missing, f)
    ensures forall e :: e in missing ==> FromGap(gaps, e, prefixLen)
    ensures Unrelated(gaps) ==> Unrelated(missing)
  {
    missing := [];
    for i := 0 to |gaps|
      invariant forall f :: |f| >= prefixLen && Holds(gaps[..i], f) ==> Holds(missing, f)
      invariant forall e :: e in missing ==> FromGap(gaps[..i], e, prefixLen)
      invariant Unrelated(gaps) ==> Unrelated(missing)
    {
      var more := RegionsOfGap(gaps[i], prefixLen);
      AddRegionsOfGap(gaps, i, missing, more, prefixLen);
      missing := missing + more;
    }
    assert gaps[..|gaps|] == gaps;
  }

  lemma FromMoreGaps(gaps: seq<Key>, g: Key, e: Key, prefixLen: nat)
    requires FromGap(gaps, e, prefixLen)
    ensures FromGap(gaps + [g], e, prefixLen)
  {
    var x :| x in gaps && x <= e && (e == x || |e| == prefixLen);
    assert x in gaps + [g];
  }

  lemma AddRegionsOfGap(gaps: seq<Key>, i: nat, missing: seq<Key>, more: seq<Key>, prefixLen: nat)
    requires i < |gaps| && Unrelated(more) && forall e :: e in more ==> FromGap([gaps[i]], e, prefixLen)
    requires forall f :: |f| >= prefixLen && gaps[i] <= f ==> Holds(more, f)
    requires forall f :: |f| >= prefixLen && Holds(gaps[..i], f) ==> Holds(missing, f)
    requires forall e :: e in missing ==> FromGap(gaps[..i], e, prefixLen)
    requires Unrelated(gaps) ==> Unrelated(missing)
    ensures forall f :: |f| >= prefixLen && Holds(gaps[..i + 1], f) ==> Holds(missing + more, f)
    ensures forall e :: e in missing + more ==> FromGap(gaps[..i + 1], e, prefixLen)
    ensures Unrelated(gaps) ==> Unrelated(missing + more)
  {
    assert gaps[..i + 1] == gaps[..i] + [gaps[i]];
    forall f: Key | |f| >= prefixLen && Holds(gaps[..i + 1], f) ensures Holds(missing + more, f) {
      HoldsOneMore(gaps[..i], gaps[i], f);
      HoldsJoin(missing, more, f);
    }
    forall e | e in missing + more ensures FromGap(gaps[..i + 1], e, prefixLen) {
      if e in missing { FromMoreGaps(gaps[..i], gaps[i], e, prefixLen); } else { assert gaps[i] in gaps[..i + 1]; }
    }
    if Unrelated(gaps) {
      forall x, y | x in missing && y in more ensures !Comparable(x, y) { FromUnrelatedGaps(gaps, i, x, y, prefixLen); }
      UnrelatedJoin(missing, more);
    }
  }

  method KeepStored(ps: seq<Key>, store: set<Key>) returns (r: seq<Key>)
    ensures forall p :: p in r <==> p in ps && HasKey(store, p)
    ensures Unrelated(ps) ==> Unrelated(r)
  {
    r := [];
    for i := 0 to |ps|
      invariant forall p :: p in r <==> p in ps[..i] && HasKey(store, p)
      invariant Unrelated(ps) ==> Unrelated(r)
    {
      assert ps[..i + 1] == ps[..i] + [ps[i]];
      if HasKey(store, ps[i]) {
        if Unrelated(ps) { UnrelatedJoin(r, [ps[i]]); }
        r := r + [ps[i]];
      }
    }
    assert ps[..|ps|] == ps;
  }

  method ScheduleAll(s: Scheduler, ps: seq<Key>, now: int)
    requires s.Valid() && now >= s.cycleStart && forall p :: p in ps ==> |p| <= |s.order|
    requires Unrelated(ps) && forall p, k :: p in ps && k in Content(s.schedule) ==> !Comparable(p, k)
    modifies s`schedule, s`cursor, s`alarm, s`timerStartedAt
    ensures s.Valid() && Content(s.schedule).Keys == old(Content(s.schedule)).Keys + Members(ps)
  {
    ghost var keys := Content(s.schedule).Keys;
    for i := 0 to |ps|
      invariant s.Valid() && Content(s.schedule).Keys == keys + Members(ps[..i])
    {
      NextIsUnrelated(ps, i, keys);
      ScheduleNew(s, ps[i], now);
    }
    assert ps[..|ps|] == ps;
  }

  lemma NextIsUnrelated(ps: seq<Key>, i: nat, keys: set<Key>)
    requires Unrelated(ps) && i < |ps| && forall p, k :: p in ps && k in keys ==> !Comparable(p, k)
    ensures forall k :: k in keys + Members(ps[..i]) ==> !Comparable(ps[i], k)
    ensures Members(ps[..i + 1]) == Members(ps[..i]) + {ps[i]}
  {
    assert ps[i] in ps && ps[..i + 1] == ps[..i] + [ps[i]];
    forall k | k in ps[..i] ensures !Comparable(ps[i], k) { var j :| 0 <= j < i && ps[j] == k; }
  }

  /** Scheduling a region that overlaps no other adds exactly that region. */
  method ScheduleNew(s: Scheduler, p: Key, now: int)
    requires s.Valid() && now >= s.cycleStart && |p| <= |s.order|
    requires forall k :: k in Content(s.schedule) ==> !Comparable(p, k)
    modifies s`schedule, s`cursor, s`alarm, s`timerStartedAt
    ensures s.Valid() && Content(s.schedule).Keys == old(Content(s.schedule)).Keys + {p}
  {
    ghost var m := Content(s.schedule);
    assert NotUnder(m, p) == m;
    s.SchedulePrefix(p, false, now);
  }

  /** Prefixes in the gaps of a schedule are unrelated to what is scheduled. */
  lemma GapIsUnrelated(t: Trie<int>, order: Key, gaps: seq<Key>, p: Key, k: Key)
    requires Complement(gaps, t, [], order, |order|) && Short(t, |order|) && |p| <= |order|
    requires Holds(gaps, p) && k in Content(t)
    ensures !Comparable(p, k)
  {
    forall f | |f| == |order| && k <= f ensures !Holds(gaps, f) { assert HasPrefixOf(t, f); }
    var g :| g in gaps && g <= p;
    if Comparable(p, k) { var f := CommonExtension(p, k, order); }
  }

  lemma CommonExtension(p: Key, k: Key, order: Key) returns (f: Key)
    requires Comparable(p, k) && |p| <= |order| && |k| <= |order|
    ensures |f| == |order| && p <= f && k <= f
  {
    f := if p <= k then k + order[|k|..] else p + order[|p|..];
  }

  /** What a refresh inserts: regions of the gaps that hold a stored key; together with what is scheduled they hold
      every stored key. */
  method RegionsToInsert(s: Scheduler, store: set<Key>, prefixLen: nat) returns (ps: seq<Key>)
    requires s.Valid() && prefixLen <= |s.order| && forall k :: k in store ==> |k| == |s.order|
    ensures Unrelated(ps) && forall p, k :: p in ps && k in Content(s.schedule) ==> !Comparable(p, k)
    ensures forall p :: p in ps ==> p !in Content(s.schedule)
    ensures forall p :: p in ps ==> prefixLen <= |p| <= |s.order| && HasKey(store, p)
    ensures forall k :: k in store ==> HasPrefixOf(s.schedule, k) || Holds(ps, k)
  {
    GapsComplementIff(s.schedule, [], s.order, |s.order|);
    var gaps := TrieGaps(s.schedule, [], s.order);
    SortedIsUnrelated(gaps, s.order);
    var missing := MissingRegions(gaps, prefixLen);
    ps := KeepStored(missing, store);
    forall p | p in ps ensures prefixLen <= |p| <= |s.order| && Holds(gaps, p) {
      assert FromGap(gaps, p, prefixLen);
    }
    forall p, k | p in ps && k in Content(s.schedule) ensures !Comparable(p, k) {
      GapIsUnrelated(s.schedule, s.order, gaps, p, k);
    }
    forall k | k in store ensures HasPrefixOf(s.schedule, k) || Holds(ps, k) {
      if !HasPrefixOf(s.schedule, k) {
        assert Holds(gaps, k);
        ghost var e :| e in missing && e <= k;
        assert HasKey(store, e);
      }
    }
  }

  lemma SortedIsUnrelated(ks: seq<Key>, order: Key)
    requires Sorted(order, ks)
    ensures Unrelated(ks)
  {
    forall i, j | 0 <= i < j < |ks| ensures !Comparable(ks[i], ks[j]) { BeforeIrreflexive(order, ks[i], ks[j]); }
  }

  lemma SizeGrows(t: Trie<int>, t': Trie<int>, ps: seq<Key>)
    requires WF(t, []) && WF(t', []) && Unrelated(ps) && forall p :: p in ps ==> p !in Content(t)
    requires Content(t').Keys == Content(t).Keys + Members(ps)
    ensures Size(t') == Size(t) + |ps|
  {
    SizeIsCount(t, []);
    SizeIsCount(t', []);
    forall i, j | 0 <= i < j < |ps| ensures ps[i] != ps[j] { assert !Comparable(ps[i], ps[j]); }
    DistinctCount(ps);
    assert Content(t).Keys !! Members(ps);
  }

  /** Schedules a region for every stored key that has none. Afterwards every key in the keystore has exactly one
      scheduled prefix, what was scheduled still is, and every new region is at least of average length and holds a
      stored key. All regions are queued exactly if that is asked for and their number more than doubles. */
  method RefreshSchedule(s: Scheduler, store: set<Key>, prefixLen: int, canReprovideAll: bool, now: int)
    requires s.Valid() && now >= s.cycleStart && prefixLen <= |s.order| && forall k :: k in store ==> |k| == |s.order|
    modifies s`schedule, s`cursor, s`alarm, s`timerStartedAt, s.reprovideQueue
    ensures s.Valid() && old(Content(s.schedule)).Keys <= Content(s.schedule).Keys
    ensures prefixLen >= 0 ==> forall k :: k in store ==> ScheduledOnce(s.schedule, k)
    ensures prefixLen < 0 ==> s.schedule == old(s.schedule)
    ensures forall p :: p in Content(s.schedule) && p !in old(Content(s.schedule)) ==>
      |p| >= prefixLen && HasKey(store, p)
    ensures s.reprovideQueue.queue ==
      if canReprovideAll && Size(s.schedule) > 2 * Size(old(s.schedule))
      then PushedAll(old(s.reprovideQueue.queue), AllKeys(s.schedule, s.order, 0))
      else old(s.reprovideQueue.queue)
  {
    if prefixLen < 0 { return; }
    var toInsert := RegionsToInsert(s, store, prefixLen);
    ghost var t := s.schedule;
    if toInsert != [] {
      var reprovideAll := canReprovideAll && |toInsert| > Size(s.schedule);
      ScheduleAll(s, toInsert, now);
      SizeGrows(t, s.schedule, toInsert);
      if reprovideAll { s.reprovideQueue.PushEach(AllKeys(s.schedule, s.order, 0)); }
    }
    forall k | k in store ensures ScheduledOnce(s.schedule, k) {
      if !HasPrefixOf(t, k) { ghost var p :| p in toInsert && p <= k; assert p in Content(s.schedule); }
      OneScheduledPrefix(s.schedule, k);
    }
  }
}
