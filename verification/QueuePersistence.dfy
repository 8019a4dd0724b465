/** Saving the provide queue in a datastore and loading it back. */
module QueuePersistence {
  import opened Keys
  import opened Tries
  import opened PrefixQueues
  import opened Allocation
  import opened Multihashes
  import opened ProvideQueues
  import opened DatastoreKeys

  type Bytes = seq<bv8>
  type Store = map<string, Bytes>

  // ---------------------------------------------------------------- multihashes

  datatype Parse<V> = Failed | Parsed(consumed: nat, value: V)

  /** Encodings delimit themselves: a parser finds the first one whatever follows it. */
  ghost predicate Coding<V(!new)>(encode: V -> Bytes, parse: Bytes -> Parse<V>) {
    && (forall v, rest :: encode(v) != [] && parse(encode(v) + rest) == Parsed(|encode(v)|, v))
    && Consuming(parse)
  }

  /** Successful parsing consumes something. */
  ghost predicate Consuming<V(!new)>(parse: Bytes -> Parse<V>) {
    forall b :: parse(b).Parsed? ==> 0 < parse(b).consumed <= |b|
  }

  function Concat<V>(hs: seq<V>, encode: V -> Bytes): Bytes {
    if hs == [] then [] else encode(hs[0]) + Concat(hs[1..], encode)
  }

  /** The values of a byte string, or None if some part of it cannot be parsed. */
  ghost function Decoded<V>(data: Bytes, parse: Bytes -> Parse<V>): Option<seq<V>>
    decreases |data|
  {
    if data == [] then Some([])
    else match parse(data)
      case Failed => None
      case Parsed(n, v) => if 0 < n <= |data| then Prepend([v], Decoded(data[n..], parse)) else None
  }

  /** Decoding the concatenated encodings of values yields the values. */
  lemma {:induction false} DecodeConcat<V(!new)>(hs: seq<V>, encode: V -> Bytes, parse: Bytes -> Parse<V>)
    requires Coding(encode, parse)
    ensures Decoded(Concat(hs, encode), parse) == Some(hs)
  {
    if hs == [] {
    } else {
      var rest := Concat(hs[1..], encode);
      var data := encode(hs[0]) + rest;
      assert parse(data) == Parsed(|encode(hs[0])|, hs[0]);
      assert data[|encode(hs[0])|..] == rest;
      DecodeConcat(hs[1..], encode, parse);
      assert hs == [hs[0]] + hs[1..];
    }
  }

  ghost function Prepend<V>(hs: seq<V>, rest: Option<seq<V>>): Option<seq<V>> {
    match rest
    case None => None
    case Some(more) => Some(hs + more)
  }

  lemma PrependMore<V>(hs: seq<V>, v: V, rest: Option<seq<V>>)
    ensures Prepend(hs, Prepend([v], rest)) == Prepend(hs + [v], rest)
  {
    if rest.Some? { assert hs + ([v] + rest.value) == (hs + [v]) + rest.value; }
  }

  method DecodeMultihashes<V(!new)>(data: Bytes, parse: Bytes -> Parse<V>) returns (r: Option<seq<V>>)
    requires Consuming(parse)
    ensures r == Decoded(data, parse)
  {
    var hs, offset := [], 0;
    assert data[0..] == data && forall more: seq<V> :: [] + more == more;
    while offset < |data|
      invariant 0 <= offset <= |data|
      invariant Decoded(data, parse) == Prepend(hs, Decoded(data[offset..], parse))
    {
      match parse(data[offset..])
      case Failed => return None;
      case Parsed(n, v) =>
        assert data[offset..][n..] == data[offset + n..];
        PrependMore(hs, v, Decoded(data[offset + n..], parse));
        hs, offset := hs + [v], offset + n;
    }
    assert data[offset..] == [] && hs + [] == hs;
    r := Some(hs);
  }

  // ---------------------------------------------------------------- batches

  datatype Op = Put(key: string, value: Bytes) | Delete(key: string)

  function Apply(store: Store, op: Op): Store {
    match op
    case Put(k, v) => store[k := v]
    case Delete(k) => store - {k}
  }

  /** A committed batch takes effect in the order of its operations. */
  function Commit(store: Store, batch: seq<Op>): Store {
    if batch == [] then store else Apply(Commit(store, batch[..|batch| - 1]), batch[|batch| - 1])
  }

  lemma CommitMore(store: Store, batch: seq<Op>, op: Op)
    ensures Commit(store, batch + [op]) == Apply(Commit(store, batch), op)
  {
    assert (batch + [op])[..|batch|] == batch;
  }

  /** Nothing is left in the batch when the number of entries is a multiple of the batch size. */
  ghost predicate Flushed(batch: seq<Op>, size: nat, batchSize: nat)
    requires batchSize > 0
  {
    size % batchSize == 0 ==> batch == []
  }

  /** Commits a full batch and starts a new one. */
  method CommitIfFull(store: Store, batch: seq<Op>, size: nat, batchSize: nat) returns (r: Store, b: seq<Op>)
    requires batchSize > 0
    ensures Commit(r, b) == Commit(store, batch)
    ensures Flushed(b, size, batchSize)
  {
    r, b := store, batch;
    if size % batchSize == 0 { r, b := Commit(r, b), []; }
  }

  /** Commits what is left of the last batch. */
  method FinalCommit(store: Store, batch: seq<Op>, size: nat, batchSize: nat) returns (r: Store)
    requires batchSize > 0 && Flushed(batch, size, batchSize)
    ensures r == Commit(store, batch)
  {
    r := store;
    if size % batchSize != 0 { r := Commit(r, batch); }
  }

  method DeleteAll(store: Store, keys: seq<string>, batchSize: nat) returns (r: Store)
    requires batchSize > 0 && forall k :: k in keys <==> k in store
    ensures r == map[]
  {
    var batch := [];
    r := store;
    for i := 0 to |keys|
      invariant Commit(r, batch) == store - set k | k in keys[..i]
      invariant Flushed(batch, i, batchSize)
    {
      CommitMore(r, batch, Delete(keys[i]));
      batch := batch + [Delete(keys[i])];
      r, batch := CommitIfFull(r, batch, i + 1, batchSize);
      assert keys[..i + 1] == keys[..i] + [keys[i]];
    }
    assert keys[..|keys|] == keys;
    r := FinalCommit(r, batch, |keys|, batchSize);
  }

  // ---------------------------------------------------------------- saving

  ghost predicate Batches<V(!new)>(lists: seq<seq<V>>, ps: seq<Key>, keys: set<Key>, hash: V -> Key) {
    |lists| == |ps| && forall i :: 0 <= i < |ps| ==> Batch(lists[i], ps[i], keys, hash)
  }

  function DsKeys(ps: seq<Key>): (ks: seq<string>)
    ensures |ks| == |ps| && forall i :: 0 <= i < |ps| ==> ks[i] == DsKey(i, ps[i])
  {
    if ps == [] then [] else DsKeys(ps[..|ps| - 1]) + [DsKey(|ps| - 1, ps[|ps| - 1])]
  }

  /** A datastore with the keys `ks` and the encodings of `lists[i]` under `ks[i]`. */
  function Pack<V>(ks: seq<string>, lists: seq<seq<V>>, encode: V -> Bytes): Store
    requires |ks| == |lists|
  {
    if ks == [] then map[]
    else
      var n := |ks| - 1;
      Pack(ks[..n], lists[..n], encode)[ks[n] := Concat(lists[n], encode)]
  }

  /** What the datastore holds of a queue with prefixes `ps` and the values `lists[i]` under `ps[i]`. */
  function Image<V>(ps: seq<Key>, lists: seq<seq<V>>, encode: V -> Bytes): Store
    requires |ps| == |lists|
  {
    Pack(DsKeys(ps), lists, encode)
  }

  lemma PackMore<V>(r: Store, batch: seq<Op>, ks: seq<string>, lists: seq<seq<V>>, n: nat, hs: seq<V>,
                    encode: V -> Bytes)
    requires n < |ks| && |lists| == n && Commit(r, batch) == Pack(ks[..n], lists, encode)
    ensures Commit(r, batch + [Put(ks[n], Concat(hs, encode))]) == Pack(ks[..n + 1], lists + [hs], encode)
  {
    CommitMore(r, batch, Put(ks[n], Concat(hs, encode)));
    assert ks[..n + 1][..n] == ks[..n] && (lists + [hs])[..n] == lists;
  }

  /** The datastore holds, under the i-th key, exactly the values waiting under the i-th prefix, and nothing else. */
  ghost predicate Saves<V(!new)>(r: Store, ks: seq<string>, ps: seq<Key>, keys: set<Key>, hash: V -> Key,
                                 encode: V -> Bytes)
    requires |ks| == |ps|
  {
    exists lists :: Batches(lists, ps, keys, hash) && r == Pack(ks, lists, encode)
  }

  /** Adds one prefix to the batch. */
  method SaveOne<V(!new)>(t: Trie<V>, p: Key, ks: seq<string>, i: nat, r: Store, batch: seq<Op>, encode: V -> Bytes,
                          ghost hash: V -> Key, ghost unhash: Key -> V, ghost bits: nat, ghost lists: seq<seq<V>>)
    returns (b: seq<Op>, ghost values: seq<V>)
    requires Stored(t, hash, unhash, bits) && HasKey(Content(t).Keys, p)
    requires i < |ks| && |lists| == i && Commit(r, batch) == Pack(ks[..i], lists, encode)
    ensures Batch(values, p, Content(t).Keys, hash) && Commit(r, b) == Pack(ks[..i + 1], lists + [values], encode)
  {
    b := batch;
    var hs, found := ValuesUnder(t, p, hash, unhash, bits);
    values := hs;
    if found {
      PackMore(r, batch, ks, lists, i, hs, encode);
      b := batch + [Put(ks[i], Concat(hs, encode))];
    }
  }

  /** Writes every prefix with its values, for every batch size. */
  method SaveAll<V(!new)>(t: Trie<V>, ps: seq<Key>, ks: seq<string>, store: Store, batchSize: nat, encode: V -> Bytes,
                          ghost hash: V -> Key, ghost unhash: Key -> V, ghost bits: nat)
    returns (r: Store)
    requires Stored(t, hash, unhash, bits) && Used(ps, Content(t).Keys) && |ks| == |ps| && store == map[]
    requires batchSize > 0
    ensures Saves(r, ks, ps, Content(t).Keys, hash, encode)
  {
    var batch := [];
    ghost var lists: seq<seq<V>> := [];
    r := store;
    for i := 0 to |ps|
      invariant Batches(lists, ps[..i], Content(t).Keys, hash)
      invariant Commit(r, batch) == Pack(ks[..i], lists, encode)
      invariant Flushed(batch, i, batchSize)
    {
      ghost var hs;
      batch, hs := SaveOne(t, ps[i], ks, i, r, batch, encode, hash, unhash, bits, lists);
      lists := lists + [hs];
      r, batch := CommitIfFull(r, batch, i + 1, batchSize);
    }
    assert ps[..|ps|] == ps && ks[..|ks|] == ks;
    r := FinalCommit(r, batch, |ps|, batchSize);
  }

  /** Replaces whatever the datastore held by the queue, and leaves the queue as it is. */
  method Persist<V(!new)>(q: ProvideQueue<V>, store: Store, keys: seq<string>, batchSize: nat, encode: V -> Bytes)
    returns (r: Store)
    requires q.Valid() && batchSize > 0 && forall k :: k in keys <==> k in store
    ensures Saves(r, DsKeys(q.queue.queue), q.queue.queue, q.Waiting(), q.hash, encode)
  {
    var cleared := DeleteAll(store, keys, batchSize);
    r := SaveAll(q.keys, q.queue.queue, DsKeys(q.queue.queue), cleared, batchSize, encode, q.hash, q.unhash, q.bits);
  }

  // ---------------------------------------------------------------- loading

  datatype Item<V> = Skipped | Broken | Item(prefix: Key, values: seq<V>)

  /** What an entry of the datastore stands for. */
  ghost function ItemOf<V>(key: string, value: Bytes, parse: Bytes -> Parse<V>): Item<V> {
    match ParseKey(key)
    case Invalid => Skipped
    case Prefix(p) =>
      match Decoded(value, parse)
      case None => Broken
      case Some(hs) => if hs == [] then Skipped else Item(p, hs)
  }

  datatype Row<V> = Row(key: string, item: Item<V>)

  /** The rows an ordered query returns, as what they stand for. */
  ghost function Rows<V>(store: Store, ks: seq<string>, parse: Bytes -> Parse<V>): seq<Row<V>> {
    seq(|ks|, i requires 0 <= i < |ks| =>
      Row(ks[i], if ks[i] in store then ItemOf(ks[i], store[ks[i]], parse) else Skipped))
  }

  /** What has been loaded: prefixes in order, values, and the keys of the entries they came from. */
  datatype Load<V> = Load(prefixes: seq<Key>, values: seq<V>, keys: set<string>, broken: bool)

  ghost function LoadRow<V>(l: Load<V>, row: Row<V>): Load<V> {
    if l.broken then l
    else match row.item
      case Skipped => l
      case Broken => l.(broken := true)
      case Item(p, hs) => Load(l.prefixes + [p], l.values + hs, l.keys + {row.key}, false)
  }

  /** Loading rows in order, up to the first one that cannot be decoded. */
  ghost function Loaded<V>(rows: seq<Row<V>>): Load<V> {
    if rows == [] then Load([], [], {}, false) else LoadRow(Loaded(rows[..|rows| - 1]), rows[|rows| - 1])
  }

  /** The values of an entry belong under its prefix. */
  ghost predicate Matches<V>(item: Item<V>, hash: V -> Key) {
    item.Item? ==> forall h :: h in item.values ==> item.prefix <= hash(h)
  }

  lemma LoadMore<V>(rows: seq<Row<V>>, i: nat)
    requires i < |rows|
    ensures Loaded(rows[..i + 1]) == LoadRow(Loaded(rows[..i]), rows[i])
  {
    assert rows[..i + 1][..i] == rows[..i];
  }

  lemma {:induction false} BrokenStays<V>(rows: seq<Row<V>>, i: nat)
    requires i <= |rows| && Loaded(rows[..i]).broken
    ensures Loaded(rows) == Loaded(rows[..i])
    decreases |rows| - i
  {
    if i < |rows| {
      LoadMore(rows, i);
      BrokenStays(rows, i + 1);
    } else {
      assert rows[..i] == rows;
    }
  }

  /** Row `i` is loaded: it holds values, and every row before it could be decoded. */
  ghost predicate Reached<V>(rows: seq<Row<V>>, i: nat) {
    i < |rows| && rows[i].item.Item? && forall j :: 0 <= j < i ==> !rows[j].item.Broken?
  }

  ghost predicate Reaches<V>(rows: seq<Row<V>>, good: Row<V> -> bool) {
    exists i: nat :: Reached(rows, i) && good(rows[i])
  }

  ghost predicate Decodable<V>(rows: seq<Row<V>>) {
    forall i :: 0 <= i < |rows| ==> !rows[i].item.Broken?
  }

  lemma ReachesMore<V>(rows: seq<Row<V>>, row: Row<V>, good: Row<V> -> bool)
    ensures Reaches(rows + [row], good) <==> Reaches(rows, good) || (Decodable(rows) && row.item.Item? && good(row))
  {
    var rows', n := rows + [row], |rows|;
    assert forall i :: 0 <= i < n ==> rows'[i] == rows[i];
    forall i: nat | i < n ensures Reached(rows', i) <==> Reached(rows, i) {}
    assert Reached(rows', n) <==> Decodable(rows) && row.item.Item?;
    if Reaches(rows, good) { var i: nat :| Reached(rows, i) && good(rows[i]); assert Reached(rows', i); }
    if Reaches(rows', good) { var i: nat :| Reached(rows', i) && good(rows'[i]); assert i < n ==> Reached(rows, i); }
  }

  /** Loading takes in exactly the rows with values before the first one that cannot be decoded: their values, their
      prefixes, and their keys for deletion. */
  lemma {:induction false} LoadedSpec<V(!new)>(rows: seq<Row<V>>, v: V, p: Key, k: string)
    ensures Loaded(rows).broken <==> !Decodable(rows)
    ensures v in Loaded(rows).values <==> Reaches(rows, (r: Row<V>) => r.item.Item? && v in r.item.values)
    ensures p in Loaded(rows).prefixes <==> Reaches(rows, (r: Row<V>) => r.item.Item? && r.item.prefix == p)
    ensures k in Loaded(rows).keys <==> Reaches(rows, (r: Row<V>) => r.key == k)
    decreases |rows|
  {
    if rows == [] {
    } else {
      var init, last := rows[..|rows| - 1], rows[|rows| - 1];
      assert rows == init + [last];
      LoadedSpec(init, v, p, k);
      ReachesMore(init, last, (r: Row<V>) => r.item.Item? && v in r.item.values);
      ReachesMore(init, last, (r: Row<V>) => r.item.Item? && r.item.prefix == p);
      ReachesMore(init, last, (r: Row<V>) => r.key == k);
      assert Decodable(rows) <==> Decodable(init) && !last.item.Broken?;
    }
  }

  lemma PushedOneMore(q: seq<Key>, ps: seq<Key>, p: Key)
    ensures PushedAll(q, ps + [p]) == Pushed(PushedAll(q, ps), p)
  {
    assert (ps + [p])[..|ps|] == ps;
  }

  /** Reads one entry. */
  method ReadItem<V(!new)>(key: string, value: Bytes, parse: Bytes -> Parse<V>) returns (item: Item<V>)
    requires Consuming(parse)
    ensures item == ItemOf(key, value, parse)
  {
    match ParseKey(key)
    case Invalid => return Skipped;
    case Prefix(p) =>
      var hs := DecodeMultihashes(value, parse);
      if hs.None? { return Broken; }
      item := if |hs.value| == 0 then Skipped else Item(p, hs.value);
  }

  ghost function Hashes<V>(hs: seq<V>, hash: V -> Key): set<Key> {
    set h | h in hs :: hash(h)
  }

  /** A queue that held `m` under the prefixes `q` and has been loaded with `l`. */
  ghost predicate Grown<V>(now: seq<Key>, waiting: set<Key>, q: seq<Key>, m: set<Key>, l: Load<V>, hash: V -> Key) {
    now == PushedAll(q, l.prefixes) && waiting == m + Hashes(l.values, hash)
  }

  lemma GrowMore<V(!new)>(now: seq<Key>, waiting: set<Key>, q: seq<Key>, m: set<Key>, l: Load<V>, hash: V -> Key,
                          row: Row<V>)
    requires Grown(now, waiting, q, m, l, hash) && !l.broken && row.item.Item?
    ensures Grown(Pushed(now, row.item.prefix), waiting + Hashes(row.item.values, hash), q, m, LoadRow(l, row), hash)
  {
    var item := row.item;
    PushedOneMore(q, l.prefixes, item.prefix);
    assert Hashes(l.values + item.values, hash) == Hashes(l.values, hash) + Hashes(item.values, hash);
  }

  lemma DeleteMore(store: Store, batch: seq<Op>, gone: set<string>, key: string)
    requires Commit(store, batch) == store - gone
    ensures Commit(store, batch + [Delete(key)]) == store - (gone + {key})
  {
    CommitMore(store, batch, Delete(key));
  }

  lemma BrokenAt<V>(rows: seq<Row<V>>, i: nat, l: Load<V>)
    requires i < |rows| && l == Loaded(rows[..i]) && !l.broken && rows[i].item.Broken?
    ensures Loaded(rows) == l.(broken := true)
  {
    LoadMore(rows, i);
    BrokenStays(rows, i + 1);
  }

  /** Adds one entry to the queue and its deletion to the batch. */
  method AddItem<V(!new)>(q: ProvideQueue<V>, store: Store, batch: seq<Op>, key: string, item: Item<V>,
                          ghost q0: seq<Key>, ghost m0: set<Key>, ghost l: Load<V>)
    returns (b: seq<Op>)
    requires q.Sound() && !item.Broken? && (item.Item? ==> item.values != []) && !l.broken
    requires Grown(q.queue.queue, q.Waiting(), q0, m0, l, q.hash) && Commit(store, batch) == store - l.keys
    modifies q, q.queue
    ensures q.Sound() && (old(q.Valid()) && Matches(item, q.hash) ==> q.Valid())
    ensures Grown(q.queue.queue, q.Waiting(), q0, m0, LoadRow(l, Row(key, item)), q.hash)
    ensures Commit(store, b) == store - LoadRow(l, Row(key, item)).keys
  {
    if item.Skipped? { return batch; }
    GrowMore(q.queue.queue, q.Waiting(), q0, m0, l, q.hash, Row(key, item));
    q.Enqueue(item.prefix, item.values);
    DeleteMore(store, batch, l.keys, key);
    b := batch + [Delete(key)];
  }

  /** The queue and the batch after the first `i` rows. */
  ghost predicate Progress<V>(now: seq<Key>, waiting: set<Key>, store: Store, batch: seq<Op>, q0: seq<Key>,
                              m0: set<Key>, rows: seq<Row<V>>, i: nat, hash: V -> Key)
    requires i <= |rows|
  {
    var l := Loaded(rows[..i]);
    !l.broken && Grown(now, waiting, q0, m0, l, hash) && Commit(store, batch) == store - l.keys
  }

  lemma NoneLoaded<V(!new)>(q: seq<Key>, store: Store, m: set<Key>, rows: seq<Row<V>>, hash: V -> Key)
    ensures Progress(q, m, store, [], q, m, rows, 0, hash)
  {
  }

  lemma AllLoaded<V(!new)>(now: seq<Key>, waiting: set<Key>, store: Store, batch: seq<Op>, q0: seq<Key>, m0: set<Key>,
                           rows: seq<Row<V>>, hash: V -> Key)
    requires Progress(now, waiting, store, batch, q0, m0, rows, |rows|, hash)
    ensures !Loaded(rows).broken && Grown(now, waiting, q0, m0, Loaded(rows), hash)
    ensures Commit(store, batch) == store - Loaded(rows).keys
  {
    assert rows[..|rows|] == rows;
  }

  /** Reads one entry and adds it, unless it cannot be decoded. */
  method DrainOne<V(!new)>(q: ProvideQueue<V>, store: Store, batch: seq<Op>, key: string, parse: Bytes -> Parse<V>,
                           ghost q0: seq<Key>, ghost m0: set<Key>, ghost rows: seq<Row<V>>, ghost i: nat)
    returns (b: seq<Op>, broken: bool)
    requires q.Sound() && Consuming(parse) && key in store && i < |rows|
    requires rows[i] == Row(key, ItemOf(key, store[key], parse))
    requires Progress(q.queue.queue, q.Waiting(), store, batch, q0, m0, rows, i, q.hash)
    modifies q, q.queue
    ensures q.Sound() && (old(q.Valid()) && AllMatch(rows, q.hash) ==> q.Valid())
    ensures !broken ==> Progress(q.queue.queue, q.Waiting(), store, b, q0, m0, rows, i + 1, q.hash)
    ensures broken ==> Loaded(rows).broken && Grown(q.queue.queue, q.Waiting(), q0, m0, Loaded(rows), q.hash)
  {
    var item := ReadItem(key, store[key], parse);
    broken := item.Broken?;
    b := batch;
    if broken { BrokenAt(rows, i, Loaded(rows[..i])); return; }
    LoadMore(rows, i);
    b := AddItem(q, store, batch, key, item, q0, m0, Loaded(rows[..i]));
  }

  ghost predicate AllMatch<V>(rows: seq<Row<V>>, hash: V -> Key) {
    forall i :: 0 <= i < |rows| ==> Matches(rows[i].item, hash)
  }

  /** Adds the saved entries to a queue in the order of their keys and deletes the ones it added. An entry that
      cannot be decoded ends the loading: what came before it stays queued, and nothing is deleted. */
  method Drain<V(!new)>(q: ProvideQueue<V>, store: Store, ks: seq<string>, parse: Bytes -> Parse<V>)
    returns (r: Store, failed: bool)
    requires q.Sound() && Consuming(parse) && Ascending(ks) && forall k :: k in ks <==> k in store
    modifies q, q.queue
    ensures q.Sound() && (old(q.Valid()) && AllMatch(Rows(store, ks, parse), q.hash) ==> q.Valid())
    ensures failed == Loaded(Rows(store, ks, parse)).broken
    ensures Grown(q.queue.queue, q.Waiting(), old(q.queue.queue), old(q.Waiting()), Loaded(Rows(store, ks, parse)),
                  q.hash)
    ensures r == if failed then store else store - Loaded(Rows(store, ks, parse)).keys
  {
    var batch := [];
    ghost var rows := Rows(store, ks, parse);
    ghost var q0, m0, good := q.queue.queue, q.Waiting(), q.Valid() && AllMatch(rows, q.hash);
    NoneLoaded(q0, store, m0, rows, q.hash);
    for i := 0 to |ks|
      invariant q.Sound() && (good ==> q.Valid())
      invariant Progress(q.queue.queue, q.Waiting(), store, batch, q0, m0, rows, i, q.hash)
    {
      batch, failed := DrainOne(q, store, batch, ks[i], parse, q0, m0, rows, i);
      if failed { return store, true; }
    }
    AllLoaded(q.queue.queue, q.Waiting(), store, batch, q0, m0, rows, q.hash);
    r, failed := Commit(store, batch), false;
  }

  // ---------------------------------------------------------------- the round trip

  lemma DsKeysAscend(ps: seq<Key>)
    requires |ps| <= POSITIONS
    ensures Ascending(DsKeys(ps))
  {
    var ks := DsKeys(ps);
    forall i, j | 0 <= i < j < |ks| ensures LexLess(ks[i], ks[j]) { DsKeysSort(ps, i, j); }
  }

  lemma DsKeysSort(ps: seq<Key>, i: nat, j: nat)
    requires |ps| <= POSITIONS && i < j < |ps|
    ensures LexLess(DsKeys(ps)[i], DsKeys(ps)[j])
  {
    KeysSortByPosition(i, j, ps[i], ps[j]);
  }

  lemma {:induction false} PackKeys<V>(ks: seq<string>, lists: seq<seq<V>>, encode: V -> Bytes)
    requires |ks| == |lists|
    ensures forall k :: k in Pack(ks, lists, encode) <==> k in ks
  {
    if ks == [] {
    } else {
      PackKeys(ks[..|ks| - 1], lists[..|ks| - 1], encode);
      assert ks == ks[..|ks| - 1] + [ks[|ks| - 1]];
    }
  }

  lemma {:induction false} PackAt<V>(ks: seq<string>, lists: seq<seq<V>>, encode: V -> Bytes, i: nat)
    requires |lists| == |ks| && i < |ks| && forall j :: i < j < |ks| ==> ks[j] != ks[i]
    ensures ks[i] in Pack(ks, lists, encode) && Pack(ks, lists, encode)[ks[i]] == Concat(lists[i], encode)
  {
    var n := |ks| - 1;
    if i >= n {
    } else {
      PackAt(ks[..n], lists[..n], encode, i);
    }
  }

  lemma ImageKeys<V>(ps: seq<Key>, lists: seq<seq<V>>, encode: V -> Bytes)
    requires |ps| == |lists|
    ensures forall k :: k in Image(ps, lists, encode) <==> k in DsKeys(ps)
  {
    PackKeys(DsKeys(ps), lists, encode);
  }

  lemma ImageAt<V>(ps: seq<Key>, lists: seq<seq<V>>, encode: V -> Bytes, i: nat)
    requires |lists| == |ps| <= POSITIONS && i < |ps|
    ensures DsKey(i, ps[i]) in Image(ps, lists, encode)
    ensures Image(ps, lists, encode)[DsKey(i, ps[i])] == Concat(lists[i], encode)
  {
    var ks := DsKeys(ps);
    DsKeysAscend(ps);
    forall j | i < j < |ks| ensures ks[j] != ks[i] { LexIrreflexive(ks[i], ks[j]); }
    PackAt(ks, lists, encode, i);
  }

  /** The ordered query of a saved queue returns the prefixes in the order of the queue. */
  lemma QueryIsOrdered<V>(ps: seq<Key>, lists: seq<seq<V>>, encode: V -> Bytes, ks: seq<string>)
    requires |lists| == |ps| <= POSITIONS
    requires Ascending(ks) && forall k :: k in ks <==> k in Image(ps, lists, encode)
    ensures ks == DsKeys(ps)
  {
    DsKeysAscend(ps);
    ImageKeys(ps, lists, encode);
    AscendingIsUnique(ks, DsKeys(ps));
  }

  /** Every saved entry reads back as the prefix and the values it was written for, except for the empty prefix. */
  lemma EntryRoundTrip<V(!new)>(ps: seq<Key>, lists: seq<seq<V>>, encode: V -> Bytes, parse: Bytes -> Parse<V>, i: nat)
    requires Coding(encode, parse) && |lists| == |ps| <= POSITIONS && i < |ps| && lists[i] != []
    ensures DsKey(i, ps[i]) in Image(ps, lists, encode)
    ensures ItemOf(DsKey(i, ps[i]), Image(ps, lists, encode)[DsKey(i, ps[i])], parse)
         == if ps[i] == [] then Skipped else Item(ps[i], lists[i])
  {
    ImageAt(ps, lists, encode, i);
    KeyRoundTrip(i, ps[i]);
    DecodeConcat(lists[i], encode, parse);
  }

  function Flatten<V>(lists: seq<seq<V>>): seq<V> {
    if lists == [] then [] else Flatten(lists[..|lists| - 1]) + lists[|lists| - 1]
  }

  lemma {:induction false} FlattenMembers<V>(lists: seq<seq<V>>, h: V)
    ensures h in Flatten(lists) <==> exists i :: 0 <= i < |lists| && h in lists[i]
  {
    if lists == [] {
    } else {
      var n := |lists| - 1;
      FlattenMembers(lists[..n], h);
      forall i | 0 <= i < |lists| && h in lists[i] ensures h in Flatten(lists) {
        assert i < n ==> h in lists[..n][i];
      }
    }
  }

  ghost predicate Filled<V>(lists: seq<seq<V>>) {
    forall i :: 0 <= i < |lists| ==> lists[i] != []
  }

  /** The rows that stand for the prefixes `ps` with the values `lists`. */
  ghost predicate Reads<V>(rows: seq<Row<V>>, ks: seq<string>, ps: seq<Key>, lists: seq<seq<V>>) {
    && |rows| == |ks| == |ps| == |lists|
    && forall i :: 0 <= i < |rows| ==> rows[i] == Row(ks[i], Item(ps[i], lists[i]))
  }

  function Members(ks: seq<string>): set<string> {
    set k | k in ks
  }

  ghost function LoadOf<V>(ks: seq<string>, ps: seq<Key>, lists: seq<seq<V>>, n: nat): Load<V>
    requires |ks| == |ps| == |lists| && n <= |ks|
  {
    Load(ps[..n], Flatten(lists[..n]), Members(ks[..n]), false)
  }

  lemma LoadOfMore<V>(ks: seq<string>, ps: seq<Key>, lists: seq<seq<V>>, n: nat)
    requires |ks| == |ps| == |lists| && n < |ks|
    ensures LoadOf(ks, ps, lists, n + 1) == LoadRow(LoadOf(ks, ps, lists, n), Row(ks[n], Item(ps[n], lists[n])))
  {
    assert ks[..n + 1] == ks[..n] + [ks[n]] && ps[..n + 1] == ps[..n] + [ps[n]];
    assert lists[..n + 1][..n] == lists[..n];
  }

  /** Loading entries that all read well yields their prefixes and values in order and accounts for every entry. */
  lemma {:induction false} LoadInOrder<V>(rows: seq<Row<V>>, ks: seq<string>, ps: seq<Key>, lists: seq<seq<V>>, n: nat)
    requires Reads(rows, ks, ps, lists) && n <= |ks|
    ensures Loaded(rows[..n]) == LoadOf(ks, ps, lists, n)
  {
    if n == 0 {
    } else {
      LoadInOrder(rows, ks, ps, lists, n - 1);
      LoadMore(rows, n - 1);
      LoadOfMore(ks, ps, lists, n - 1);
    }
  }

  lemma LoadAll<V>(rows: seq<Row<V>>, ks: seq<string>, ps: seq<Key>, lists: seq<seq<V>>)
    requires Reads(rows, ks, ps, lists)
    ensures Loaded(rows) == Load(ps, Flatten(lists), Members(ks), false)
  {
    LoadInOrder(rows, ks, ps, lists, |ks|);
    assert rows[..|ks|] == rows && ks[..|ks|] == ks && ps[..|ps|] == ps && lists[..|lists|] == lists;
  }

  lemma ImageReads<V(!new)>(ps: seq<Key>, lists: seq<seq<V>>, encode: V -> Bytes, parse: Bytes -> Parse<V>)
    requires Coding(encode, parse) && |lists| == |ps| <= POSITIONS && Filled(lists) && [] !in ps
    ensures Reads(Rows(Image(ps, lists, encode), DsKeys(ps), parse), DsKeys(ps), ps, lists)
  {
    var store, ks := Image(ps, lists, encode), DsKeys(ps);
    var rows := Rows(store, ks, parse);
    forall i | 0 <= i < |ps| ensures rows[i] == Row(ks[i], Item(ps[i], lists[i])) {
      assert ps[i] in ps;
      ImageRow(ps, lists, encode, parse, i);
    }
  }

  lemma ImageRow<V(!new)>(ps: seq<Key>, lists: seq<seq<V>>, encode: V -> Bytes, parse: Bytes -> Parse<V>, i: nat)
    requires Coding(encode, parse) && |lists| == |ps| <= POSITIONS && i < |ps| && lists[i] != [] && ps[i] != []
    ensures Rows(Image(ps, lists, encode), DsKeys(ps), parse)[i] == Row(DsKeys(ps)[i], Item(ps[i], lists[i]))
  {
    var store, ks := Image(ps, lists, encode), DsKeys(ps);
    assert ks[i] in store && ItemOf(ks[i], store[ks[i]], parse) == Item(ps[i], lists[i]) by {
      EntryRoundTrip(ps, lists, encode, parse, i);
    }
  }

  /** A queue prefix by prefix: pushing non-overlapping prefixes keeps their order. */
  lemma {:induction false} PushedInOrder(ps: seq<Key>, t: Trie<()>, n: nat)
    requires Indexed(ps, t) && n <= |ps|
    ensures PushedAll([], ps[..n]) == ps[..n]
  {
    if n == 0 {
    } else {
      var m := n - 1;
      PushedInOrder(ps, t, m);
      assert ps[..n][..m] == ps[..m] && ps[..n] == ps[..m] + [ps[m]];
      forall k | k in ps[..m] ensures !Comparable(k, ps[m]) { KeysDoNotOverlap(t, [], k, ps[m]); }
      assert Extensions(ps[..m], ps[m]) == {};
    }
  }

  /** The empty prefix overlaps every other one, so it is queued alone. */
  lemma EmptyIsAlone(ps: seq<Key>, t: Trie<()>)
    requires Indexed(ps, t) && [] in ps
    ensures ps == [[]]
  {
    assert |ps| > 1 ==> ps[0] != ps[1];
    forall i | 0 <= i < |ps| ensures ps[i] == [] {
      assert ps[i] in ps;
      if ps[i] != [] { KeysDoNotOverlap(t, [], [], ps[i]); }
    }
  }

  lemma KeyIsListed<V(!new)>(lists: seq<seq<V>>, ps: seq<Key>, m: set<Key>, hash: V -> Key, h: V)
    requires Batches(lists, ps, m, hash) && hash(h) in m && Holds(ps, hash(h))
    ensures h in Flatten(lists)
  {
    var p :| p in ps && p <= hash(h);
    var i :| 0 <= i < |ps| && ps[i] == p;
    assert Batch(lists[i], ps[i], m, hash);
    FlattenMembers(lists, h);
  }

  lemma ListedIsKey<V(!new)>(lists: seq<seq<V>>, ps: seq<Key>, m: set<Key>, hash: V -> Key, h: V)
    requires Batches(lists, ps, m, hash) && h in Flatten(lists)
    ensures hash(h) in m
  {
    FlattenMembers(lists, h);
    var i :| 0 <= i < |lists| && h in lists[i];
    assert Batch(lists[i], ps[i], m, hash);
  }

  /** The values of all prefixes are the values that wait. */
  lemma BatchesAreComplete<V(!new)>(lists: seq<seq<V>>, ps: seq<Key>, t: Trie<V>, hash: V -> Key, unhash: Key -> V,
                                    bits: nat)
    requires Stored(t, hash, unhash, bits) && Batches(lists, ps, Content(t).Keys, hash) && Queued(ps, Content(t).Keys)
    ensures Hashes(Flatten(lists), hash) == Content(t).Keys
  {
    var m := Content(t).Keys;
    forall k | k in m ensures k in Hashes(Flatten(lists), hash) {
      assert hash(Content(t)[k]) == k;
      KeyIsListed(lists, ps, m, hash, Content(t)[k]);
    }
    forall h | h in Flatten(lists) ensures hash(h) in m { ListedIsKey(lists, ps, m, hash, h); }
  }

  lemma BatchesAreFilled<V(!new)>(lists: seq<seq<V>>, ps: seq<Key>, t: Trie<V>, hash: V -> Key, unhash: Key -> V,
                                  bits: nat)
    requires Stored(t, hash, unhash, bits) && Batches(lists, ps, Content(t).Keys, hash) && Used(ps, Content(t).Keys)
    ensures Filled(lists)
  {
    forall i | 0 <= i < |lists| ensures lists[i] != [] {
      assert HasKey(Content(t).Keys, ps[i]) && Batch(lists[i], ps[i], Content(t).Keys, hash);
      var k :| k in Content(t) && ps[i] <= k;
      assert hash(Content(t)[k]) == k && Content(t)[k] in lists[i];
    }
  }

  /** What a saved queue loads as: everything, unless its only prefix is the empty one. */
  ghost function Reload<V>(ps: seq<Key>, lists: seq<seq<V>>, store: Store): Load<V> {
    if [] in ps then Load([], [], {}, false) else Load(ps, Flatten(lists), store.Keys, false)
  }

  lemma EmptyLoads<V(!new)>(lists: seq<seq<V>>, encode: V -> Bytes, parse: Bytes -> Parse<V>)
    requires |lists| == 1 && Filled(lists) && Coding(encode, parse)
    ensures Loaded(Rows(Image([[]], lists, encode), DsKeys([[]]), parse)) == Load([], [], {}, false)
  {
    var rows := Rows(Image([[]], lists, encode), DsKeys([[]]), parse);
    EntryRoundTrip([[]], lists, encode, parse, 0);
    assert |rows| == 1 && rows[0].item == Skipped && rows[..0] == [];
  }

  lemma OthersLoad<V(!new)>(ps: seq<Key>, lists: seq<seq<V>>, encode: V -> Bytes, parse: Bytes -> Parse<V>)
    requires |lists| == |ps| <= POSITIONS && Filled(lists) && Coding(encode, parse) && [] !in ps
    ensures Loaded(Rows(Image(ps, lists, encode), DsKeys(ps), parse))
         == Load(ps, Flatten(lists), Image(ps, lists, encode).Keys, false)
  {
    ImageReads(ps, lists, encode, parse);
    LoadAll(Rows(Image(ps, lists, encode), DsKeys(ps), parse), DsKeys(ps), ps, lists);
    ImageKeys(ps, lists, encode);
    assert Members(DsKeys(ps)) == Image(ps, lists, encode).Keys;
  }

  /** What the ordered query of a saved queue loads. */
  lemma SavedLoads<V(!new)>(ps: seq<Key>, t: Trie<()>, lists: seq<seq<V>>, encode: V -> Bytes, parse: Bytes -> Parse<V>,
                            ks: seq<string>)
    requires Indexed(ps, t) && |lists| == |ps| <= POSITIONS && Filled(lists) && Coding(encode, parse)
    requires Ascending(ks) && forall k :: k in ks <==> k in Image(ps, lists, encode)
    ensures Loaded(Rows(Image(ps, lists, encode), ks, parse)) == Reload(ps, lists, Image(ps, lists, encode))
  {
    QueryIsOrdered(ps, lists, encode, ks);
    if [] in ps {
      EmptyIsAlone(ps, t);
      EmptyLoads(lists, encode, parse);
    } else {
      OthersLoad(ps, lists, encode, parse);
    }
  }

  lemma SavedMatches<V(!new)>(ps: seq<Key>, lists: seq<seq<V>>, encode: V -> Bytes, parse: Bytes -> Parse<V>,
                              m: set<Key>, hash: V -> Key, ks: seq<string>)
    requires Batches(lists, ps, m, hash) && |ps| <= POSITIONS && Filled(lists) && Coding(encode, parse)
    requires Ascending(ks) && forall k :: k in ks <==> k in Image(ps, lists, encode)
    ensures AllMatch(Rows(Image(ps, lists, encode), ks, parse), hash)
  {
    QueryIsOrdered(ps, lists, encode, ks);
    forall i | 0 <= i < |ps| ensures Matches(Rows(Image(ps, lists, encode), ks, parse)[i].item, hash) {
      EntryRoundTrip(ps, lists, encode, parse, i);
      assert Batch(lists[i], ps[i], m, hash);
    }
  }

  /** A new queue that has been loaded with a saved one. */
  lemma ReloadedQueue<V(!new)>(ps: seq<Key>, t: Trie<()>, lists: seq<seq<V>>, store: Store, hash: V -> Key,
                               now: seq<Key>, waiting: set<Key>)
    requires Indexed(ps, t) && Grown(now, waiting, [], {}, Reload(ps, lists, store), hash)
    ensures now == (if [] in ps then [] else ps) && waiting == (if [] in ps then {} else Hashes(Flatten(lists), hash))
  {
    PushedInOrder(ps, t, |ps|);
    assert ps[..|ps|] == ps;
  }

  /** Loads a saved queue into a new one. */
  method LoadSaved<V(!new)>(
    saved: Store, parse: Bytes -> Parse<V>, hash: V -> Key, ghost unhash: Key -> V, ghost bits: nat,
    ghost encode: V -> Bytes, ghost ps: seq<Key>, ghost t: Trie<()>, ghost lists: seq<seq<V>>, ghost m: set<Key>)
    returns (restored: ProvideQueue<V>, r: Store)
    requires Hashing(hash, unhash, bits) && Coding(encode, parse) && Indexed(ps, t) && |ps| <= POSITIONS
    requires Batches(lists, ps, m, hash) && Filled(lists) && saved == Image(ps, lists, encode)
    ensures fresh(restored) && restored.Valid() && restored.hash == hash
    ensures Grown(restored.queue.queue, restored.Waiting(), [], {}, Reload(ps, lists, saved), hash)
    ensures r == if [] in ps then saved else map[]
  {
    var ks := OrderByKey(saved.Keys);
    restored := new ProvideQueue(hash, unhash, bits);
    SavedRows(saved, ps, t, lists, encode, parse, m, hash, ks);
    var failed;
    r, failed := Drain(restored, saved, ks, parse);
  }

  lemma SavedRows<V(!new)>(saved: Store, ps: seq<Key>, t: Trie<()>, lists: seq<seq<V>>, encode: V -> Bytes,
                           parse: Bytes -> Parse<V>, m: set<Key>, hash: V -> Key, ks: seq<string>)
    requires Indexed(ps, t) && |ps| <= POSITIONS && Coding(encode, parse)
    requires Batches(lists, ps, m, hash) && Filled(lists) && saved == Image(ps, lists, encode)
    requires Ascending(ks) && forall k :: k in ks <==> k in saved
    ensures Loaded(Rows(saved, ks, parse)) == Reload(ps, lists, saved) && AllMatch(Rows(saved, ks, parse), hash)
    ensures saved - Reload(ps, lists, saved).keys == if [] in ps then saved else map[]
  {
    SavedLoads(ps, t, lists, encode, parse, ks);
    SavedMatches(ps, lists, encode, parse, m, hash, ks);
  }

  /** Saving a queue and loading it into a new one restores the prefixes in their order and all keys and leaves
      the datastore empty, if and only if the empty prefix is not queued; otherwise nothing is restored. */
  method Restart<V(!new)>(q: ProvideQueue<V>, store: Store, keys: seq<string>, batchSize: nat,
                          encode: V -> Bytes, parse: Bytes -> Parse<V>)
    returns (restored: ProvideQueue<V>, r: Store)
    requires q.Valid() && |q.queue.queue| <= POSITIONS && Coding(encode, parse)
    requires batchSize > 0 && forall k :: k in keys <==> k in store
    ensures fresh(restored) && restored.Valid() && restored.hash == q.hash
    ensures [] !in q.queue.queue ==>
      restored.queue.queue == q.queue.queue && restored.Waiting() == q.Waiting() && r == map[]
    ensures [] in q.queue.queue ==> restored.queue.queue == [] && restored.Waiting() == {} != q.Waiting() && r != map[]
  {
    ghost var ps, t := q.queue.queue, q.queue.prefixes;
    var saved := Persist(q, store, keys, batchSize, encode);
    ghost var lists :| Batches(lists, ps, q.Waiting(), q.hash) && saved == Image(ps, lists, encode);
    BatchesAreFilled(lists, ps, q.keys, q.hash, q.unhash, q.bits);
    BatchesAreComplete(lists, ps, q.keys, q.hash, q.unhash, q.bits);
    SavedIsNotEmpty(ps, lists, encode, q.Waiting());
    restored, r := LoadSaved(saved, parse, q.hash, q.unhash, q.bits, encode, ps, t, lists, q.Waiting());
    ReloadedQueue(ps, t, lists, saved, q.hash, restored.queue.queue, restored.Waiting());
  }

  lemma SavedIsNotEmpty<V>(ps: seq<Key>, lists: seq<seq<V>>, encode: V -> Bytes, m: set<Key>)
    requires |lists| == |ps| && Used(ps, m)
    ensures ps != [] ==> Image(ps, lists, encode) != map[] && m != {}
  {
    if ps != [] {
      assert HasKey(m, ps[0]);
      ImageKeys(ps, lists, encode);
      assert DsKeys(ps)[0] in Image(ps, lists, encode);
    }
  }
}
