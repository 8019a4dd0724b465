/** Bit strings of the Kademlia keyspace: full 256-bit identifiers and their prefixes.
    A prefix test is Dafny's own `a <= b` on sequences. */
module Keys {

  /** A bit string, most significant bit first; `true` is the bit 1. */
  type Key = seq<bool>

  /** Bit `i` of `k`. Callers only look past the end of `k` where the source would not look at all. */
  function Bit(k: Key, i: nat): bool {
    i < |k| && k[i]
  }

  predicate Comparable(a: Key, b: Key) {
    a <= b || b <= a
  }

  /** The number of leading bits `a` and `b` share. */
  function CommonPrefixLength(a: Key, b: Key): (n: nat)
    ensures n <= |a| && n <= |b| && a[..n] == b[..n]
    ensures n < |a| && n < |b| ==> a[n] != b[n]
  {
    if a == [] || b == [] || a[0] != b[0] then 0
    else
      var m := CommonPrefixLength(a[1..], b[1..]);
      assert a[..m + 1] == [a[0]] + a[1..][..m];
      assert b[..m + 1] == [b[0]] + b[1..][..m];
      m + 1
  }

  lemma CommonPrefixLengthIs(a: Key, b: Key, n: nat)
    requires n <= |a| && n <= |b| && a[..n] == b[..n]
    requires n == |a| || n == |b| || a[n] != b[n]
    ensures CommonPrefixLength(a, b) == n
  {
    var m := CommonPrefixLength(a, b);
    assert forall i {:trigger a[i]} :: 0 <= i < m || 0 <= i < n ==> a[i] == b[i] by {
      assert forall i {:trigger a[i]} :: 0 <= i < m ==> a[i] == a[..m][i] && b[i] == b[..m][i];
      assert forall i {:trigger a[i]} :: 0 <= i < n ==> a[i] == a[..n][i] && b[i] == b[..n][i];
    }
  }

  /** `a` comes before `b` around `order`: at the first bit where they part, `a` agrees with `order`. */
  predicate Before(order: Key, a: Key, b: Key) {
    var c := CommonPrefixLength(a, b);
    c < |a| && c < |b| && a[c] == Bit(order, c)
  }

  ghost predicate Sorted(order: Key, ks: seq<Key>) {
    forall i, j :: 0 <= i < j < |ks| ==> Before(order, ks[i], ks[j])
  }

  /** Some prefix in the list is a prefix of `f`. */
  ghost predicate Holds(ks: seq<Key>, f: Key) {
    exists k :: k in ks && k <= f
  }

  /** Some key of the set lies under `p`. */
  predicate HasKey(m: set<Key>, p: Key) {
    exists k :: k in m && p <= k
  }

  /** Two keys that part at the end of `path` compare by that bit alone. */
  lemma BeforeAtFork(order: Key, path: Key, a: Key, b: Key, bit: bool)
    requires path + [bit] <= a && path + [!bit] <= b
    ensures CommonPrefixLength(a, b) == |path|
    ensures Before(order, a, b) <==> bit == Bit(order, |path|)
    ensures !Comparable(a, b)
  {
    var d := |path|;
    assert a[..d] == (path + [bit])[..d] == path == (path + [!bit])[..d] == b[..d];
    assert a[d] == (path + [bit])[d] && b[d] == (path + [!bit])[d];
    CommonPrefixLengthIs(a, b, d);
  }

  lemma BeforeIrreflexive(order: Key, a: Key, b: Key)
    ensures Before(order, a, b) ==> a != b && !Comparable(a, b) && !Before(order, b, a)
    ensures !Comparable(a, b) ==> Before(order, a, b) || Before(order, b, a)
  {
    var n := CommonPrefixLength(a, b);
    CommonPrefixLengthIs(b, a, n);
    if n == |a| { assert a == a[..n] == b[..n]; assert a <= b; }
    if n == |b| { assert b == b[..n] == a[..n]; assert b <= a; }
  }

  /** Two prefixes of one key are comparable. */
  lemma PrefixesOfOneKey(a: Key, b: Key, k: Key)
    requires a <= k && b <= k
    ensures Comparable(a, b)
  {
    if |a| <= |b| { assert a == k[..|a|] == b[..|a|]; } else { assert b == k[..|b|] == a[..|b|]; }
  }

  function Pow2(n: nat): (p: nat)
    ensures p >= 1
  {
    if n == 0 then 1 else 2 * Pow2(n - 1)
  }

  lemma {:induction false} Pow2Grows(m: nat, n: nat)
    requires m <= n
    ensures Pow2(m) <= Pow2(n)
    ensures m < n ==> Pow2(m) < Pow2(n)
  {
    if m >= n {
    } else {
      Pow2Grows(m, n - 1);
    }
  }

  /** XOR distance of two identifiers of one length, read as a big-endian integer. */
  function Distance(a: Key, b: Key): (d: nat)
    requires |a| == |b|
    ensures d < Pow2(|a|)
  {
    if a == [] then 0
    else (if a[0] != b[0] then Pow2(|a| - 1) else 0) + Distance(a[1..], b[1..])
  }

  /** XOR order is decided by the first bit where the two candidates part. */
  lemma {:induction false} CloserAtFork(target: Key, a: Key, b: Key, n: nat)
    requires |target| == |a| == |b| && n < |a|
    requires a[..n] == b[..n] && a[n] != b[n]
    ensures Distance(target, a) < Distance(target, b) <==> a[n] == target[n]
  {
    if n == 0 {
    } else {
      assert a[0] == a[..n][0] == b[..n][0] == b[0];
      assert a[1..][..n - 1] == a[..n][1..] == b[..n][1..] == b[1..][..n - 1];
      CloserAtFork(target[1..], a[1..], b[1..], n - 1);
    }
  }

  lemma {:induction false} DistanceToSelf(x: Key)
    ensures Distance(x, x) == 0
  {
    if x == [] {
    } else {
      DistanceToSelf(x[1..]);
    }
  }

  function FlipLastBit(k: Key): Key {
    if k == [] then k else k[..|k| - 1] + [!k[|k| - 1]]
  }
}
