/** The provider record store: a cache in front of a datastore, garbage-collected over an old snapshot. */
module ProviderManagers {
  import opened Sequences

  /** A stored timestamp, or bytes that do not parse as one. */
  datatype Stamp = Bad | Good(time: int)

  datatype Record<K, P> = Record(key: K, peer: P, stamp: Stamp)

  type Store<!K(==), !P(==)> = map<(K, P), Stamp>

  // ---------------------------------------------------------------- provider sets

  /** The providers of one key, as a list for callers and with the times they were added. */
  datatype ProviderSet<P> = ProviderSet(providers: seq<P>, times: map<P, int>)

  ghost predicate Coherent<P(!new)>(s: ProviderSet<P>) {
    && NoRepeats(s.providers)
    && (forall p :: p in s.providers <==> p in s.times)
  }

  function SetVal<P(==)>(s: ProviderSet<P>, p: P, t: int): ProviderSet<P> {
    ProviderSet(if p in s.times then s.providers else s.providers + [p], s.times[p := t])
  }

  /** The cached set and the stored records of a key agree. */
  ghost predicate Mirrors<K, P(!new)>(s: ProviderSet<P>, k: K, store: Store<K, P>) {
    && Coherent(s)
    && forall p :: (p in s.times <==> (k, p) in store) && (p in s.times ==> store[(k, p)] == Good(s.times[p]))
  }

  lemma MirrorsAdd<K(!new), P(!new)>(s: ProviderSet<P>, k: K, store: Store<K, P>, p: P, t: int)
    requires Mirrors(s, k, store)
    ensures Mirrors(SetVal(s, p, t), k, store[(k, p) := Good(t)])
  {
    var s' := SetVal(s, p, t);
    assert forall q :: q in s'.times <==> q in s.times || q == p;
    assert forall q :: q in s'.providers <==> q in s.providers || q == p;
  }

  /** A set mirrors every store with the same records for its key. */
  lemma MirrorsSame<K(!new), P(!new)>(s: ProviderSet<P>, k: K, store: Store<K, P>, store': Store<K, P>)
    requires Mirrors(s, k, store)
    requires forall p ::
      ((k, p) in store <==> (k, p) in store') && ((k, p) in store ==> store'[(k, p)] == store[(k, p)])
    ensures Mirrors(s, k, store')
  {
  }

  /** The cached set of `x` once `p` has been added for `k`. */
  function WithProvider<K(==), P(==)>(s: ProviderSet<P>, x: K, k: K, p: P, t: int): ProviderSet<P> {
    if x == k then SetVal(s, p, t) else s
  }

  lemma MirrorsWithProvider<K(!new), P(!new)>(s: ProviderSet<P>, x: K, k: K, store: Store<K, P>, p: P, t: int)
    requires Mirrors(s, x, store)
    ensures Mirrors(WithProvider(s, x, k, p, t), x, store[(k, p) := Good(t)])
  {
    if x == k { MirrorsAdd(s, k, store, p, t); } else { MirrorsSame(s, x, store, store[(k, p) := Good(t)]); }
  }

  /** Unreadable, or older than `validity`. */
  predicate Expired(stamp: Stamp, now: int, validity: int) {
    stamp.Bad? || now - stamp.time > validity
  }

  /** A readable stamp that is not older than `validity`. */
  ghost predicate Fresh(stamp: Stamp, now: int, validity: int) {
    stamp.Good? && now <= stamp.time + validity
  }

  // ---------------------------------------------------------------- query results

  /** `records` lists the stored records that satisfy the query, each once. */
  ghost predicate ListsKey<K, P(!new)>(records: seq<Record<K, P>>, k: K, store: Store<K, P>) {
    && (forall i :: 0 <= i < |records| ==>
      records[i].key == k && (k, records[i].peer) in store && store[(k, records[i].peer)] == records[i].stamp)
    && (forall i, j :: 0 <= i < j < |records| ==> records[i].peer != records[j].peer)
    && (forall p :: (k, p) in store ==> exists i :: 0 <= i < |records| && records[i].peer == p)
  }

  ghost predicate ListsAll<K(!new), P(!new)>(records: seq<Record<K, P>>, store: Store<K, P>) {
    && (forall i :: 0 <= i < |records| ==>
         (records[i].key, records[i].peer) in store && store[(records[i].key, records[i].peer)] == records[i].stamp)
    && (forall id :: id in store ==> Listed(records, id))
  }

  ghost predicate Listed<K, P>(records: seq<Record<K, P>>, id: (K, P)) {
    exists i :: 0 <= i < |records| && (records[i].key, records[i].peer) == id
  }

  /** The store without the expired and the unreadable records of `k`. */
  ghost predicate Swept<K(!new), P(!new)>(before: Store<K, P>, after: Store<K, P>, k: K, now: int, validity: int) {
    && (forall id :: id in after ==> id in before && after[id] == before[id])
    && (forall id :: id in before ==> (id in after <==> id.0 != k || !Expired(before[id], now, validity)))
  }

  /** One of the first `i` records is of `p` and has, or has not, expired. */
  ghost predicate Met<K, P>(records: seq<Record<K, P>>, i: nat, p: P, expired: bool, now: int, validity: int)
    requires i <= |records|
  {
    exists j :: 0 <= j < i && records[j].peer == p && Expired(records[j].stamp, now, validity) == expired
  }

  /** The set that the first `i` records make up. */
  ghost predicate Gathered<K, P(!new)>(out: ProviderSet<P>, records: seq<Record<K, P>>, i: nat, k: K,
                                       store: Store<K, P>, now: int, validity: int)
    requires i <= |records|
  {
    && Coherent(out)
    && (forall p :: p in out.times <==> Met(records, i, p, false, now, validity))
    && (forall p :: p in out.times ==> (k, p) in store && store[(k, p)] == Good(out.times[p]))
  }

  /** The store once the expired ones of the first `i` records are gone. */
  ghost predicate Thinned<K(!new), P(!new)>(after: Store<K, P>, records: seq<Record<K, P>>, i: nat, k: K,
                                            store: Store<K, P>, now: int, validity: int)
    requires i <= |records|
  {
    && (forall id :: id in after ==> id in store && after[id] == store[id])
    && (forall id :: id in store ==> (id in after <==> !(id.0 == k && Met(records, i, id.1, true, now, validity))))
  }

  lemma MetMore<K, P(!new)>(records: seq<Record<K, P>>, i: nat, expired: bool, now: int, validity: int)
    requires i < |records|
    ensures forall p :: Met(records, i + 1, p, expired, now, validity) <==>
      Met(records, i, p, expired, now, validity) ||
        (p == records[i].peer && Expired(records[i].stamp, now, validity) == expired)
  {
    var r := records[i];
    assert Expired(r.stamp, now, validity) == expired ==> Met(records, i + 1, r.peer, expired, now, validity);
  }

  lemma GatherMore<K(!new), P(!new)>(out: ProviderSet<P>, records: seq<Record<K, P>>, i: nat, k: K, store: Store<K, P>,
                                     now: int, validity: int)
    requires i < |records| && ListsKey(records, k, store) && Gathered(out, records, i, k, store, now, validity)
    ensures Expired(records[i].stamp, now, validity) ==> Gathered(out, records, i + 1, k, store, now, validity)
    ensures !Expired(records[i].stamp, now, validity) ==>
      Gathered(SetVal(out, records[i].peer, records[i].stamp.time), records, i + 1, k, store, now, validity)
  {
    MetMore(records, i, false, now, validity);
  }

  lemma ThinMore<K(!new), P(!new)>(after: Store<K, P>, records: seq<Record<K, P>>, i: nat, k: K, store: Store<K, P>,
                                   now: int, validity: int)
    requires i < |records| && Thinned(after, records, i, k, store, now, validity)
    ensures Expired(records[i].stamp, now, validity) ==>
      Thinned(after - {(k, records[i].peer)}, records, i + 1, k, store, now, validity)
    ensures !Expired(records[i].stamp, now, validity) ==> Thinned(after, records, i + 1, k, store, now, validity)
  {
    MetMore(records, i, true, now, validity);
  }

  /** Of a record that is listed, exactly one of the two is met: that it has expired, or that it has not. */
  lemma MetOnce<K(!new), P(!new)>(records: seq<Record<K, P>>, k: K, store: Store<K, P>, p: P, now: int, validity: int)
    requires ListsKey(records, k, store)
    ensures Met(records, |records|, p, true, now, validity) <==>
      (k, p) in store && Expired(store[(k, p)], now, validity)
    ensures Met(records, |records|, p, false, now, validity) <==>
      (k, p) in store && !Expired(store[(k, p)], now, validity)
  {
  }

  /** Loads the providers of `k`, deleting what has expired on the way. */
  method LoadProviderSet<K(==, !new), P(==, !new)>(records: seq<Record<K, P>>, k: K, store: Store<K, P>, now: int,
                                                   validity: int)
    returns (out: ProviderSet<P>, store': Store<K, P>)
    requires ListsKey(records, k, store)
    ensures Swept(store, store', k, now, validity) && Mirrors(out, k, store')
    ensures forall p :: p in out.times <==> (k, p) in store && Fresh(store[(k, p)], now, validity)
  {
    out, store' := ProviderSet([], map[]), store;
    for i := 0 to |records|
      invariant Gathered(out, records, i, k, store, now, validity)
      invariant Thinned(store', records, i, k, store, now, validity)
    {
      GatherMore(out, records, i, k, store, now, validity);
      ThinMore(store', records, i, k, store, now, validity);
      var e := records[i];
      if Expired(e.stamp, now, validity) {
        store' := store' - {(k, e.peer)};
      } else {
        out := SetVal(out, e.peer, e.stamp.time);
      }
    }
    forall p
      ensures Met(records, |records|, p, true, now, validity) <==>
        (k, p) in store && Expired(store[(k, p)], now, validity)
      ensures Met(records, |records|, p, false, now, validity) <==>
        (k, p) in store && !Expired(store[(k, p)], now, validity)
    {
      MetOnce(records, k, store, p, now, validity);
    }
  }

  // ---------------------------------------------------------------- the manager

  datatype Gc<K(==), P(==)> = NoGc | Collecting(pending: seq<Record<K, P>>, skip: set<(K, P)>, time: int)

  class ProviderManager<K(==, !new), P(==, !new)> {
    const validity: int
    var cache: map<K, ProviderSet<P>>
    var store: Store<K, P>
    var gc: Gc<K, P>
    ghost var clock: int

    /** Every cached set mirrors the store. A running collection only looks at records that are unchanged since it
        began, unless they are marked to be skipped, and nothing it would collect is cached. */
    ghost predicate Valid()
      reads this
    {
      && validity >= 0 && (forall k :: k in cache ==> Mirrors(cache[k], k, store))
      && (gc.Collecting? ==>
           && gc.time <= clock
           && (forall i :: 0 <= i < |gc.pending| ==> Unchanged(gc.pending[i]))
           && (forall id :: id in store ==>
             id in gc.skip || Listed(gc.pending, id) || !Expired(store[id], gc.time, validity))
           && (forall k, p :: k in cache && p in cache[k].times ==> gc.time - cache[k].times[p] <= validity))
    }

    ghost predicate Unchanged(r: Record<K, P>)
      reads this
      requires gc.Collecting?
    {
      (r.key, r.peer) in gc.skip || ((r.key, r.peer) in store ==> store[(r.key, r.peer)] == r.stamp)
    }

    constructor (validity: int, store: Store<K, P>, ghost now: int)
      requires validity >= 0
      ensures Valid() && this.validity == validity && this.store == store && cache == map[] && gc == NoGc
      ensures clock == now
    {
      this.validity, this.store, cache, gc, clock := validity, store, map[], NoGc, now;
    }

    method AddProvider(k: K, p: P, now: int)
      requires Valid() && now >= clock
      modifies this
      ensures Valid() && clock == now
      ensures store == old(store)[(k, p) := Good(now)]
      ensures cache.Keys == old(cache).Keys
      ensures old(gc).Collecting? ==> gc == old(gc).(skip := old(gc).skip + {(k, p)})
      ensures old(gc).NoGc? ==> gc.NoGc?
    {
      forall x | x in cache ensures Mirrors(WithProvider(cache[x], x, k, p, now), x, store[(k, p) := Good(now)]) {
        MirrorsWithProvider(cache[x], x, k, store, p, now);
      }
      clock := now;
      if k in cache { cache := cache[k := SetVal(cache[k], p, now)]; }
      store := store[(k, p) := Good(now)];
      if gc.Collecting? { gc := gc.(skip := gc.skip + {(k, p)}); }
    }

    /** The providers of a key. `results` is what the datastore query for it returns if it is needed. */
    method GetProviders(k: K, now: int, results: seq<Record<K, P>>) returns (providers: seq<P>)
      requires Valid() && now >= clock && (k in cache || ListsKey(results, k, store))
      modifies this
      ensures Valid() && clock == now && gc == old(gc)
      ensures k in old(cache) ==> store == old(store) && cache == old(cache)
      ensures k !in old(cache) ==> Swept(old(store), store, k, now, validity)
      ensures k !in old(cache) ==>
        && cache.Keys == old(cache).Keys + (if providers == [] then {} else {k})
        && forall x :: x in old(cache) ==> cache[x] == old(cache)[x]
      ensures NoRepeats(providers)
      ensures forall p :: p in providers <==> (k, p) in store
      ensures forall id :: id in old(store) && Fresh(old(store)[id], now, validity) ==> id in store
      ensures k !in old(cache) ==> forall p :: (k, p) in store ==> Fresh(store[(k, p)], now, validity)
    {
      clock := now;
      if k in cache { return cache[k].providers; }
      var out, after := LoadProviderSet(results, k, store, now, validity);
      forall x | x in cache ensures Mirrors(cache[x], x, after) { MirrorsSame(cache[x], x, store, after); }
      store := after;
      if out.providers != [] {
        forall p | p in out.times ensures now - out.times[p] <= validity { assert (k, p) in after; }
        cache := cache[k := out];
      }
      providers := out.providers;
    }

    /** The LRU policy may drop any entry. */
    method Evict(k: K)
      requires Valid()
      modifies this`cache
      ensures Valid() && cache == old(cache) - {k}
    {
      cache := cache - {k};
    }

    /** The timer fired at `time`: drop the cache and start a round over a snapshot of all records. */
    method BeginGc(time: int, now: int, snapshot: seq<Record<K, P>>)
      requires Valid() && clock <= now && time <= now && gc.NoGc? && ListsAll(snapshot, store)
      modifies this
      ensures Valid() && clock == now && store == old(store) && cache == map[]
      ensures gc == Collecting(snapshot, {}, time)
    {
      clock, cache, gc := now, map[], Collecting(snapshot, {}, time);
    }

    /** One record of the round. Whatever is deleted has not been added again since the round began, is still
        what the snapshot shows, and had expired when the round began. */
    method CollectOne() returns (deleted: bool)
      requires Valid() && gc.Collecting? && gc.pending != []
      modifies this`store, this`gc
      ensures Valid() && gc == old(gc).(pending := old(gc).pending[1..])
      ensures var r := old(gc).pending[0];
        && store == (if deleted then old(store) - {(r.key, r.peer)} else old(store))
        && (deleted ==> (r.key, r.peer) !in old(gc).skip && !Fresh(r.stamp, old(gc).time, validity))
        && (deleted && (r.key, r.peer) in old(store) ==> old(store)[(r.key, r.peer)] == r.stamp)
        && (!deleted ==> (r.key, r.peer) in old(gc).skip || Fresh(r.stamp, old(gc).time, validity))
    {
      var r := gc.pending[0];
      assert Unchanged(r);
      assert forall i :: 0 <= i < |gc.pending| - 1 ==> gc.pending[1..][i] == gc.pending[i + 1];
      forall id | Listed(gc.pending, id) ensures id == (r.key, r.peer) || Listed(gc.pending[1..], id) {
        var i :| 0 <= i < |gc.pending| && (gc.pending[i].key, gc.pending[i].peer) == id;
        if i > 0 { assert gc.pending[1..][i - 1] == gc.pending[i]; }
      }
      deleted := (r.key, r.peer) !in gc.skip && Expired(r.stamp, gc.time, validity);
      if deleted {
        ExpiredIsNotCached(r);
        forall x | x in cache ensures Mirrors(cache[x], x, store - {(r.key, r.peer)}) {
          MirrorsSame(cache[x], x, store, store - {(r.key, r.peer)});
        }
        store := store - {(r.key, r.peer)};
      }
      gc := gc.(pending := gc.pending[1..]);
    }

    lemma ExpiredIsNotCached(r: Record<K, P>)
      requires Valid() && gc.Collecting? && Unchanged(r) && (r.key, r.peer) !in gc.skip
      requires Expired(r.stamp, gc.time, validity)
      ensures r.key in cache ==> (r.key, r.peer) !in store
    {
      if r.key in cache {
        assert r.peer in cache[r.key].times <==> (r.key, r.peer) in store;
      }
    }

    /** After a round, an expired record is only left if it was added again during the round. */
    method EndGc()
      requires Valid() && gc.Collecting? && gc.pending == []
      modifies this`gc
      ensures Valid() && gc.NoGc?
      ensures forall id :: id in store ==> id in old(gc).skip || Fresh(store[id], old(gc).time, validity)
    {
      gc := NoGc;
    }
  }

  // ---------------------------------------------------------------- a whole round

  /** What may happen between two records of a round; `wait` is the time since the last step. */
  datatype RoundStep<K, P> =
    | Add(key: K, peer: P, wait: nat)
    | Get(key: K, wait: nat)
    | Drop(key: K)
    | Collect

  /** The datastore answers a query for a key with exactly its records. */
  ghost predicate Answers<K(!new), P(!new)>(query: (K, Store<K, P>) -> seq<Record<K, P>>) {
    forall k, s :: ListsKey(query(k, s), k, s)
  }

  /** What the store holds during a round that found `before`: the records added since, unless they have expired
      meanwhile, and records found that were not added again; only what has expired can be gone. */
  ghost predicate RoundKeeps<K(!new), P(!new)>(before: Store<K, P>, added: map<(K, P), int>, store: Store<K, P>,
                                               now: int, validity: int)
  {
    && (forall id :: id in store ==> Explained(before, added, id, store[id]))
    && (forall id :: id in added && !Expired(Good(added[id]), now, validity) ==> id in store)
    && (forall id :: id in before && id !in added && !Expired(before[id], now, validity) ==> id in store)
  }

  ghost predicate Explained<K, P>(before: Store<K, P>, added: map<(K, P), int>, id: (K, P), stamp: Stamp) {
    if id in added then stamp == Good(added[id]) else id in before && stamp == before[id]
  }

  lemma KeepsAdd<K(!new), P(!new)>(before: Store<K, P>, added: map<(K, P), int>, store: Store<K, P>, now: int,
                                   validity: int, id: (K, P), later: int)
    requires RoundKeeps(before, added, store, now, validity) && now <= later
    ensures RoundKeeps(before, added[id := later], store[id := Good(later)], later, validity)
  {
  }

  lemma KeepsSweep<K(!new), P(!new)>(before: Store<K, P>, added: map<(K, P), int>, store: Store<K, P>, now: int,
                                     validity: int, swept: Store<K, P>, k: K, later: int)
    requires RoundKeeps(before, added, store, now, validity) && now <= later
    requires swept == store || Swept(store, swept, k, later, validity)
    ensures RoundKeeps(before, added, swept, later, validity)
  {
    forall id | id in store && !Expired(store[id], later, validity) ensures id in swept {}
  }

  lemma KeepsCollect<K(!new), P(!new)>(before: Store<K, P>, added: map<(K, P), int>, store: Store<K, P>, now: int,
                                       validity: int, id: (K, P))
    requires RoundKeeps(before, added, store, now, validity) && id !in added
    requires id in store ==> Expired(store[id], now, validity)
    ensures RoundKeeps(before, added, store - {id}, now, validity)
  {
  }

  /** The round so far: it skips exactly what was added since it began. */
  ghost predicate InRound<K(!new), P(!new)>(pm: ProviderManager<K, P>, before: Store<K, P>, added: map<(K, P), int>,
                                            time: int)
    reads pm
  {
    && pm.Valid() && pm.gc.Collecting? && pm.gc.time == time && pm.gc.skip == added.Keys
    && RoundKeeps(before, added, pm.store, pm.clock, pm.validity)
  }

  method CollectNext<K(==, !new), P(==, !new)>(pm: ProviderManager<K, P>, ghost before: Store<K, P>,
                                               ghost added: map<(K, P), int>, ghost time: int)
    requires InRound(pm, before, added, time) && pm.gc.pending != []
    modifies pm
    ensures InRound(pm, before, added, time) && pm.clock == old(pm.clock)
    ensures |pm.gc.pending| == |old(pm.gc.pending)| - 1
  {
    ghost var r, store := pm.gc.pending[0], pm.store;
    ghost var id := (r.key, r.peer);
    var deleted := pm.CollectOne();
    if deleted { KeepsCollect(before, added, store, pm.clock, pm.validity, id); }
  }

  /** One step of the round. */
  method TakeStep<K(==, !new), P(==, !new)>(pm: ProviderManager<K, P>, step: RoundStep<K, P>, now: int,
                                            query: (K, Store<K, P>) -> seq<Record<K, P>>, ghost before: Store<K, P>,
                                            ghost added: map<(K, P), int>, ghost time: int)
    returns (now': int, ghost added': map<(K, P), int>)
    requires InRound(pm, before, added, time) && pm.clock == now && Answers(query)
    modifies pm
    ensures InRound(pm, before, added', time) && pm.clock == now' >= now
    ensures added' == if step.Add? then added[(step.key, step.peer) := now'] else added
  {
    now', added' := now, added;
    match step
    case Add(k, p, wait) =>
      KeepsAdd(before, added, pm.store, now, pm.validity, (k, p), now + wait);
      now' := now + wait;
      added' := added[(k, p) := now'];
      pm.AddProvider(k, p, now');
    case Get(k, wait) =>
      ghost var store := pm.store;
      now' := now + wait;
      var providers := pm.GetProviders(k, now', query(k, pm.store));
      KeepsSweep(before, added, store, now, pm.validity, pm.store, k, now');
    case Drop(k) =>
      pm.Evict(k);
    case Collect =>
      if pm.gc.pending != [] { CollectNext(pm, before, added, time); }
  }

  /** A whole round with anything in between. What is left is what was added during the round, unless it has expired
      meanwhile, and of what the round found, what had not expired when it began; nothing else is deleted. */
  method Round<K(==, !new), P(==, !new)>(pm: ProviderManager<K, P>, time: int, start: int, snapshot: seq<Record<K, P>>,
                                         steps: seq<RoundStep<K, P>>, query: (K, Store<K, P>) -> seq<Record<K, P>>)
    returns (now: int, ghost added: map<(K, P), int>)
    requires pm.Valid() && pm.gc.NoGc? && pm.clock <= start && time <= start && ListsAll(snapshot, pm.store)
    requires Answers(query)
    modifies pm
    ensures pm.Valid() && pm.gc.NoGc? && pm.clock == now >= start
    ensures forall k, p :: (k, p) in added <==> exists s :: s in steps && s.Add? && s.key == k && s.peer == p
    ensures forall id :: id in added ==> start <= added[id] <= now
    ensures RoundKeeps(old(pm.store), added, pm.store, now, pm.validity)
    ensures forall id :: id in added && now <= added[id] + pm.validity ==> id in pm.store
    ensures forall id :: id in old(pm.store) && id !in added && Fresh(old(pm.store)[id], now, pm.validity) ==>
      id in pm.store
    ensures forall id :: id in pm.store && id !in added ==> Fresh(pm.store[id], time, pm.validity)
  {
    ghost var before := pm.store;
    pm.BeginGc(time, start, snapshot);
    now, added := start, map[];
    for i := 0 to |steps|
      invariant InRound(pm, before, added, time) && pm.clock == now >= start
      invariant forall id :: id in added ==> start <= added[id] <= now
      invariant forall k, p :: (k, p) in added <==> exists s :: s in steps[..i] && s.Add? && s.key == k && s.peer == p
    {
      assert steps[..i + 1] == steps[..i] + [steps[i]];
      now, added := TakeStep(pm, steps[i], now, query, before, added, time);
    }
    assert steps[..|steps|] == steps;
    while pm.gc.pending != []
      invariant InRound(pm, before, added, time) && pm.clock == now
      decreases |pm.gc.pending|
    {
      CollectNext(pm, before, added, time);
    }
    pm.EndGc();
  }
}
