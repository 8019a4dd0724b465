/** Datastore keys of persisted queue entries: `/{position:012x}/{prefix}`, which must sort by position. */
module DatastoreKeys {
  import opened Keys
  import opened Sequences

  // ---------------------------------------------------------------- strings

  /** Lexicographic order, as the datastore sorts its keys. */
  predicate LexLess(a: string, b: string) {
    if b == [] then false
    else if a == [] then true
    else a[0] < b[0] || (a[0] == b[0] && LexLess(a[1..], b[1..]))
  }

  lemma {:induction false} LexIrreflexive(a: string, b: string)
    ensures LexLess(a, b) ==> a != b && !LexLess(b, a)
  {
    if a != [] && b != [] { LexIrreflexive(a[1..], b[1..]); }
  }

  lemma {:induction false} LexTransitive(a: string, b: string, c: string)
    requires LexLess(a, b) && LexLess(b, c)
    ensures LexLess(a, c)
  {
    if a != [] && a[0] == b[0] == c[0] { LexTransitive(a[1..], b[1..], c[1..]); }
  }

  lemma {:induction false} LexTotal(a: string, b: string)
    ensures a == b || LexLess(a, b) || LexLess(b, a)
  {
    if a != [] && b != [] && a[0] == b[0] {
      LexTotal(a[1..], b[1..]);
      assert a == [a[0]] + a[1..] && b == [b[0]] + b[1..];
    }
  }

  /** Strings that differ at a common position are ordered by it. */
  lemma {:induction false} LexAt(a: string, b: string, i: nat)
    requires i < |a| && i < |b| && a[..i] == b[..i] && a[i] < b[i]
    ensures LexLess(a, b)
  {
    if i == 0 {
    } else {
      assert a[0] == a[..i][0] == b[..i][0] == b[0];
      assert a[1..][..i - 1] == a[..i][1..] == b[..i][1..] == b[1..][..i - 1];
      LexAt(a[1..], b[1..], i - 1);
    }
  }

  /** The parts of a string between slashes. */
  function Split(s: string): (parts: seq<string>)
    ensures parts != []
  {
    if s == [] then [""]
    else
      var rest := Split(s[1..]);
      if s[0] == '/' then [""] + rest else [[s[0]] + rest[0]] + rest[1..]
  }

  lemma {:induction false} SplitPlain(a: string)
    requires '/' !in a
    ensures Split(a) == [a]
  {
    if a == [] {
    } else {
      SplitPlain(a[1..]);
      assert a == [a[0]] + a[1..];
    }
  }

  lemma {:induction false} SplitOnce(a: string, b: string)
    requires '/' !in a && '/' !in b
    ensures Split(a + "/" + b) == [a, b]
  {
    var s := a + "/" + b;
    if a == [] {
      assert s[1..] == b;
      SplitPlain(b);
    } else {
      assert s[1..] == a[1..] + "/" + b;
      SplitOnce(a[1..], b);
      assert a == [a[0]] + a[1..];
      assert [a[1..], b][1..] == [b];
    }
  }

  // ---------------------------------------------------------------- positions

  const HEX: string := "0123456789abcdef"

  function Pow16(n: nat): (p: nat)
    ensures p >= 1
  {
    if n == 0 then 1 else 16 * Pow16(n - 1)
  }

  /** The number of positions that twelve digits can tell apart. */
  const POSITIONS: nat := 0x1_0000_0000_0000

  lemma TwelveDigits()
    ensures Pow16(12) == POSITIONS
  {
  }

  /** `i` in hexadecimal, padded with zeros to `n` digits. */
  function HexDigits(i: nat, n: nat): (s: string)
    ensures |s| == n && '/' !in s
  {
    if n == 0 then "" else HexDigits(i / 16, n - 1) + [HEX[i % 16]]
  }

  lemma HexOrder(a: nat, b: nat)
    requires a < b < 16
    ensures HEX[a] < HEX[b]
  {
  }

  /** Padded positions sort like numbers, as long as they fit. */
  lemma {:induction false} HexGrows(i: nat, j: nat, n: nat) returns (k: nat)
    requires i < j < Pow16(n)
    ensures k < n && HexDigits(i, n)[..k] == HexDigits(j, n)[..k] && HexDigits(i, n)[k] < HexDigits(j, n)[k]
  {
    if i / 16 < j / 16 {
      k := HexGrows(i / 16, j / 16, n - 1);
    } else {
      k := n - 1;
      HexOrder(i % 16, j % 16);
    }
    HexPrefix(i, n, k);
    HexPrefix(j, n, k);
  }

  lemma HexPrefix(i: nat, n: nat, k: nat)
    requires k < n
    ensures HexDigits(i, n)[..k] == HexDigits(i / 16, n - 1)[..k]
    ensures HexDigits(i, n)[k] == if k < n - 1 then HexDigits(i / 16, n - 1)[k] else HEX[i % 16]
  {
  }

  // ---------------------------------------------------------------- prefixes

  function BitString(k: Key): (s: string)
    ensures |s| == |k| && '/' !in s
  {
    if k == [] then "" else [if k[0] then '1' else '0'] + BitString(k[1..])
  }

  function ParseBits(s: string): Key {
    if s == [] then [] else [s[0] == '1'] + ParseBits(s[1..])
  }

  lemma {:induction false} BitsRoundTrip(k: Key)
    ensures ParseBits(BitString(k)) == k
  {
    if k == [] {
    } else {
      BitsRoundTrip(k[1..]);
      assert BitString(k)[1..] == BitString(k[1..]);
    }
  }

  // ---------------------------------------------------------------- keys

  /** The key of a persisted prefix. Datastore keys are cleaned like paths: a trailing slash is dropped. */
  function DsKey(i: nat, prefix: Key): string {
    "/" + HexDigits(i, 12) + if prefix == [] then "" else "/" + BitString(prefix)
  }

  datatype Parsed = Invalid | Prefix(prefix: Key)

  /** Reading a key back: exactly two parts after the leading slash. */
  function ParseKey(key: string): Parsed {
    var parts := Split(if key != [] && key[0] == '/' then key[1..] else key);
    if |parts| == 2 then Prefix(ParseBits(parts[1])) else Invalid
  }

  /** A key reads back as its prefix, except for the empty prefix. */
  lemma KeyRoundTrip(i: nat, prefix: Key)
    ensures ParseKey(DsKey(i, prefix)) == if prefix == [] then Invalid else Prefix(prefix)
  {
    var digits := HexDigits(i, 12);
    if prefix == [] {
      assert DsKey(i, prefix)[1..] == digits;
      SplitPlain(digits);
    } else {
      assert DsKey(i, prefix)[1..] == digits + "/" + BitString(prefix);
      SplitOnce(digits, BitString(prefix));
      BitsRoundTrip(prefix);
    }
  }

  /** Keys sort by position while positions fit into twelve digits. */
  lemma KeysSortByPosition(i: nat, j: nat, p: Key, q: Key)
    requires i < j < POSITIONS
    ensures LexLess(DsKey(i, p), DsKey(j, q))
  {
    TwelveDigits();
    var k := HexGrows(i, j, 12);
    var a, b := DsKey(i, p), DsKey(j, q);
    assert a[..k + 1] == "/" + HexDigits(i, 12)[..k] && b[..k + 1] == "/" + HexDigits(j, 12)[..k];
    LexAt(a, b, k + 1);
  }

  // ---------------------------------------------------------------- sorted lists of keys

  ghost predicate Ascending(s: seq<string>) {
    forall i, j :: 0 <= i < j < |s| ==> LexLess(s[i], s[j])
  }

  /** Two ascending lists of the same keys are equal. */
  lemma {:induction false} AscendingIsUnique(a: seq<string>, b: seq<string>)
    requires Ascending(a) && Ascending(b) && forall k :: k in a <==> k in b
    ensures a == b
  {
    assert a != [] ==> a[0] in a;
    assert b != [] ==> b[0] in b;
    if a != [] && b != [] {
      SameFirst(a, b);
      forall k ensures k in a[1..] <==> k in b[1..] { InTail(a, k); InTail(b, k); }
      AscendingIsUnique(a[1..], b[1..]);
      assert a == [a[0]] + a[1..] && b == [b[0]] + b[1..];
    }
  }

  lemma SameFirst(a: seq<string>, b: seq<string>)
    requires Ascending(a) && Ascending(b) && a != [] && b != [] && forall k :: k in a <==> k in b
    ensures a[0] == b[0]
  {
    assert a[0] in b && b[0] in a;
    var i :| 0 <= i < |b| && b[i] == a[0];
    var j :| 0 <= j < |a| && a[j] == b[0];
    LexIrreflexive(a[0], b[0]);
  }

  lemma InTail(a: seq<string>, k: string)
    requires Ascending(a) && a != []
    ensures k in a[1..] <==> k in a && k != a[0]
  {
    assert a == [a[0]] + a[1..];
    forall j | 0 <= j < |a[1..]| ensures a[1..][j] != a[0] { LexIrreflexive(a[0], a[j + 1]); }
  }

  lemma InsertAscending(s: seq<string>, i: nat, k: string)
    requires Ascending(s) && i <= |s|
    requires forall j :: 0 <= j < i ==> LexLess(s[j], k)
    requires i < |s| ==> LexLess(k, s[i])
    ensures Ascending(s[..i] + [k] + s[i..])
  {
    forall j | i <= j < |s| ensures LexLess(k, s[j]) {
      if i < j { LexTransitive(k, s[i], s[j]); }
    }
  }

  /** The position of `k` in an ascending list that does not hold it. */
  method PlaceOf(s: seq<string>, k: string) returns (i: nat)
    requires Ascending(s) && k !in s
    ensures i <= |s| && Ascending(s[..i] + [k] + s[i..])
  {
    i := 0;
    while i < |s| && LexLess(s[i], k)
      invariant i <= |s| && forall j :: 0 <= j < i ==> LexLess(s[j], k)
    {
      i := i + 1;
    }
    if i < |s| { LexTotal(s[i], k); }
    InsertAscending(s, i, k);
  }

  /** All keys of a datastore in ascending order. */
  method OrderByKey(keys: set<string>) returns (s: seq<string>)
    ensures Ascending(s) && forall k :: k in s <==> k in keys
  {
    s := [];
    var rest := keys;
    while rest != {}
      invariant rest <= keys && Ascending(s) && forall k :: k in s <==> k in keys - rest
      decreases rest
    {
      var k :| k in rest;
      var i := PlaceOf(s, k);
      InsertedMembers(s, i, k);
      s, rest := s[..i] + [k] + s[i..], rest - {k};
    }
  }
}
