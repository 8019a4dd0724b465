/** When a region is reprovided: offsets in the reprovide cycle, in 64-bit nanoseconds. */
module ReprovideTimes {
  import opened Keys

  const MAX_PREFIX_SIZE: nat := 24
  const TWO63: int := 0x8000_0000_0000_0000

  // ---------------------------------------------------------------- Go arithmetic

  /** The value an `int64` holds after a computation with mathematical result `x`. */
  function Int64(x: int): int {
    (x + TWO63) % (2 * TWO63) - TWO63
  }

  /** Division and remainder truncate towards zero. */
  function Quotient(a: int, b: int): int
    requires b > 0
  {
    if a >= 0 then a / b else -((-a) / b)
  }

  function Remainder(a: int, b: int): int
    requires b > 0
  {
    if a >= 0 then a % b else -((-a) % b)
  }

  lemma AtLeast(k: int, b: int)
    requires k >= 1 && b > 0
    ensures k * b >= b
  {
    assert k * b == (k - 1) * b + b;
  }

  lemma Minus(p: int, q: int, b: int)
    ensures (p - q) * b == p * b - q * b
  {
  }

  /** Two multiples of `b` less than `b` apart have ordered factors. */
  lemma FactorsOrdered(p: int, q: int, b: int)
    requires b > 0 && p * b < q * b + b
    ensures p <= q
  {
    Minus(p, q, b);
    if p > q { AtLeast(p - q, b); }
  }

  lemma DivisionIs(a: int, b: int, q: int, r: int)
    requires b > 0 && a == q * b + r && 0 <= r < b
    ensures a / b == q && a % b == r
  {
    var q' := a / b;
    assert a == q' * b + a % b;
    FactorsOrdered(q, q', b);
    FactorsOrdered(q', q, b);
  }

  lemma DivisionGrows(x: int, y: int, d: int)
    requires d > 0 && x <= y
    ensures x / d <= y / d
  {
    var a, b := x / d, y / d;
    assert x == a * d + x % d;
    assert y == b * d + y % d;
    FactorsOrdered(a, b, d);
  }

  /** A quotient lies between the bounds its dividend lies between. */
  lemma DivisionBounded(x: int, d: int, hi: int)
    requires d > 0 && 0 <= x < hi * d
    ensures 0 <= x / d < hi
  {
    var q := x / d;
    assert x == q * d + x % d;
    assert (q + 1) * d == q * d + d;
    FactorsOrdered(q + 1, hi, d);
    if q < 0 { AtLeast(-q, d); }
  }

  lemma DivisionScales(x: int, y: int, k: int)
    requires y > 0 && k > 0
    ensures y * k > 0 && (x * k) / (y * k) == x / y
  {
    var q, r := x / y, x % y;
    assert x == q * y + r;
    assert x * k == q * (y * k) + r * k by {
      assert (q * y + r) * k == q * y * k + r * k;
      assert q * y * k == q * (y * k);
    }
    assert 0 <= r * k < y * k;
    DivisionIs(x * k, y * k, q, r * k);
  }

  // ---------------------------------------------------------------- reprovide times

  function Cut(prefix: Key): (p: Key)
    ensures |p| <= MAX_PREFIX_SIZE && p <= prefix
  {
    if |prefix| > MAX_PREFIX_SIZE then prefix[..MAX_PREFIX_SIZE] else prefix
  }

  /** The offset at which the region of `prefix` is reprovided. */
  function ReprovideTime(prefix: Key, order: Key, interval: int): int
    requires |order| >= MAX_PREFIX_SIZE
  {
    if prefix == [] then 0
    else
      var p := Cut(prefix);
      Quotient(Int64(interval * Distance(p, order[..|p|])), Pow2(|p|))
  }

  /** The product with the largest index of this prefix length does not overflow. */
  predicate NoOverflow(length: nat, interval: int) {
    interval * (Pow2(if length > MAX_PREFIX_SIZE then MAX_PREFIX_SIZE else length) - 1) < TWO63
  }

  lemma Product(interval: int, v: int, w: int)
    requires interval > 0 && 0 <= v <= w
    ensures 0 <= interval * v <= interval * w
  {
    assert interval * w - interval * v == interval * (w - v);
  }

  /** Without overflow the offset is the exact fraction of the interval, rounded down. */
  lemma TimeInRange(prefix: Key, order: Key, interval: int)
    requires |order| >= MAX_PREFIX_SIZE && interval > 0 && NoOverflow(|prefix|, interval)
    ensures var p := Cut(prefix);
      ReprovideTime(prefix, order, interval) == interval * Distance(p, order[..|p|]) / Pow2(|p|)
    ensures 0 <= ReprovideTime(prefix, order, interval) < interval
  {
    var p := Cut(prefix);
    var v, m := Distance(p, order[..|p|]), Pow2(|p|);
    FractionInRange(interval, v, m);
    if prefix == [] { assert p == [] && v == 0; }
  }

  lemma FractionInRange(interval: int, v: int, m: int)
    requires interval > 0 && 0 <= v < m && interval * (m - 1) < TWO63
    ensures 0 <= interval * v < TWO63 && 0 <= interval * v / m < interval
    ensures Quotient(Int64(interval * v), m) == interval * v / m
  {
    Product(interval, v, m - 1);
    var x := interval * v;
    assert x < interval * m by {
      Minus(m, v, interval);
      AtLeast(m - v, interval);
    }
    DivisionBounded(x, m, interval);
    Wraps(x, 0, x);
  }

  lemma QuotientBelow(x: int, m: int, interval: int)
    requires m > 0 && interval > 0 && x < TWO63 <= interval * (m - 1)
    ensures Quotient(x, m) < interval
  {
    Minus(m, 1, interval);
    if x >= 0 { DivisionBounded(x, m, interval); } else { DivisionGrows(0, -x, m); }
  }

  /** Overflow can make an offset negative, but never too large. */
  lemma TimeBelowInterval(prefix: Key, order: Key, interval: int)
    requires |order| >= MAX_PREFIX_SIZE && interval > 0
    ensures ReprovideTime(prefix, order, interval) < interval
  {
    if NoOverflow(|prefix|, interval) {
      TimeInRange(prefix, order, interval);
    } else if prefix != [] {
      var p := Cut(prefix);
      QuotientBelow(Int64(interval * Distance(p, order[..|p|])), Pow2(|p|), interval);
    }
  }

  // ---------------------------------------------------------------- times follow the schedule order

  /** `prefix` as a string of the maximal length: cut, or continued along `order`. */
  function Stretch(prefix: Key, order: Key): (s: Key)
    requires |order| >= MAX_PREFIX_SIZE
    ensures |s| == MAX_PREFIX_SIZE
  {
    Cut(prefix) + order[|Cut(prefix)|..MAX_PREFIX_SIZE]
  }

  lemma {:induction false} DistanceOfExtension(p: Key, q: Key, x: Key)
    requires |p| == |q|
    ensures Distance(p + x, q + x) == Distance(p, q) * Pow2(|x|)
  {
    if p == [] {
      assert p + x == x && q + x == x;
      DistanceToSelf(x);
    } else {
      assert (p + x)[1..] == p[1..] + x && (q + x)[1..] == q[1..] + x;
      DistanceOfExtension(p[1..], q[1..], x);
      Pow2Sum(|p| - 1, |x|);
      var d := Distance(p[1..], q[1..]);
      assert (Pow2(|p| - 1) + d) * Pow2(|x|) == Pow2(|p| - 1) * Pow2(|x|) + d * Pow2(|x|);
    }
  }

  lemma {:induction false} Pow2Sum(a: nat, b: nat)
    ensures Pow2(a + b) == Pow2(a) * Pow2(b)
  {
    if a == 0 {
    } else {
      Pow2Sum(a - 1, b);
      assert 2 * Pow2(a - 1) * Pow2(b) == 2 * (Pow2(a - 1) * Pow2(b));
    }
  }

  /** All offsets are fractions with one common denominator. */
  lemma TimeOfStretch(prefix: Key, order: Key, interval: int)
    requires |order| >= MAX_PREFIX_SIZE && interval > 0 && NoOverflow(|prefix|, interval)
    ensures ReprovideTime(prefix, order, interval) ==
            interval * Distance(Stretch(prefix, order), order[..MAX_PREFIX_SIZE]) / Pow2(MAX_PREFIX_SIZE)
  {
    TimeInRange(prefix, order, interval);
    var p := Cut(prefix);
    StretchedDistance(p, order, MAX_PREFIX_SIZE);
    SameFraction(interval, Distance(p, order[..|p|]), Pow2(|p|), Pow2(MAX_PREFIX_SIZE - |p|));
  }

  lemma StretchedDistance(p: Key, order: Key, size: nat)
    requires |p| <= size <= |order|
    ensures Distance(p + order[|p|..size], order[..size]) == Distance(p, order[..|p|]) * Pow2(size - |p|)
    ensures Pow2(size) == Pow2(|p|) * Pow2(size - |p|)
  {
    var rest := order[|p|..size];
    assert order[..size] == order[..|p|] + rest;
    DistanceOfExtension(p, order[..|p|], rest);
    Pow2Sum(|p|, |rest|);
  }

  lemma SameFraction(interval: int, v: int, m: int, k: int)
    requires m > 0 && k > 0
    ensures m * k > 0 && interval * v / m == interval * (v * k) / (m * k)
  {
    DivisionScales(interval * v, m, k);
    assert interval * v * k == interval * (v * k);
  }

  lemma StretchFollowsOrder(order: Key, a: Key, b: Key)
    requires |order| >= MAX_PREFIX_SIZE && Before(order, a, b)
    ensures Distance(Stretch(a, order), order[..MAX_PREFIX_SIZE]) <=
            Distance(Stretch(b, order), order[..MAX_PREFIX_SIZE])
  {
    var o := order[..MAX_PREFIX_SIZE];
    var x, y, c := Stretch(a, order), Stretch(b, order), CommonPrefixLength(a, b);
    DistanceCommutes(x, o);
    DistanceCommutes(y, o);
    if c < MAX_PREFIX_SIZE {
      assert x[..c] == a[..c] == b[..c] == y[..c];
      assert x[c] == a[c] && y[c] == b[c] && o[c] == Bit(order, c);
      CloserAtFork(o, x, y, c);
    } else {
      assert x == a[..MAX_PREFIX_SIZE] == a[..c][..MAX_PREFIX_SIZE] == b[..c][..MAX_PREFIX_SIZE] == y;
    }
  }

  lemma {:induction false} DistanceCommutes(a: Key, b: Key)
    requires |a| == |b|
    ensures Distance(a, b) == Distance(b, a)
  {
    if a == [] {
    } else {
      DistanceCommutes(a[1..], b[1..]);
    }
  }

  /** Regions that come first around `order` are never reprovided later. */
  lemma TimesFollowOrder(order: Key, a: Key, b: Key, interval: int)
    requires |order| >= MAX_PREFIX_SIZE && interval > 0 && Before(order, a, b)
    requires NoOverflow(|a|, interval) && NoOverflow(|b|, interval)
    ensures ReprovideTime(a, order, interval) <= ReprovideTime(b, order, interval)
  {
    TimeOfStretch(a, order, interval);
    TimeOfStretch(b, order, interval);
    StretchFollowsOrder(order, a, b);
    var o := order[..MAX_PREFIX_SIZE];
    Product(interval, Distance(Stretch(a, order), o), Distance(Stretch(b, order), o));
    DivisionGrows(interval * Distance(Stretch(a, order), o), interval * Distance(Stretch(b, order), o),
                  Pow2(MAX_PREFIX_SIZE));
  }

  // ---------------------------------------------------------------- exactly when offsets are in range

  /** Every index below 2^n belongs to some prefix of length n. */
  lemma {:induction false} PrefixWithIndex(order: Key, n: nat, v: nat) returns (p: Key)
    requires n <= |order| && v < Pow2(n)
    ensures |p| == n && Distance(p, order[..n]) == v
  {
    if n == 0 {
      p := [];
    } else {
      var high := v >= Pow2(n - 1);
      var p' := PrefixWithIndex(order[1..], n - 1, if high then v - Pow2(n - 1) else v);
      p := [if high then !order[0] else order[0]] + p';
      assert p[1..] == p' && order[..n][1..] == order[1..][..n - 1];
    }
  }

  /** The longest interval an `int64` can hold. */
  const LONGEST: int := TWO63 - 1

  /** All offsets for prefixes of one length lie in the cycle exactly if the largest product does not overflow, or
      the interval is the longest possible one. */
  lemma TimesInRangeIff(order: Key, n: nat, interval: int)
    requires |order| >= n && |order| >= MAX_PREFIX_SIZE && 0 < interval < TWO63
    ensures NoOverflow(n, interval) || interval == LONGEST <==>
      forall prefix: Key :: |prefix| == n ==> 0 <= ReprovideTime(prefix, order, interval) < interval
  {
    if NoOverflow(n, interval) {
      forall prefix: Key | |prefix| == n ensures 0 <= ReprovideTime(prefix, order, interval) < interval {
        TimeInRange(prefix, order, interval);
      }
    } else if interval == LONGEST {
      forall prefix: Key | |prefix| == n ensures 0 <= ReprovideTime(prefix, order, interval) < interval {
        LongestIsInRange(prefix, order);
      }
    } else {
      var prefix := OverflowingPrefix(order, n, interval);
    }
  }

  lemma Wraps(x: int, k: int, r: int)
    requires x == k * (2 * TWO63) + r && -TWO63 <= r < TWO63
    ensures Int64(x) == r
  {
    DivisionIs(x + TWO63, 2 * TWO63, k, r + TWO63);
  }

  lemma NegativeQuotient(x: int, p: int)
    requires p > 0 && x <= -p
    ensures Quotient(x, p) < 0
  {
    DivisionGrows(p, -x, p);
    DivisionIs(p, p, 1, 0);
  }

  /** With the longest interval every product wraps to a small negative number, which is rounded to zero, or to
      something below the interval. */
  lemma LongestProduct(v: int, m: int)
    requires 0 <= v < m <= 0x100_0000
    ensures 0 <= Quotient(Int64(LONGEST * v), m) < LONGEST
  {
    if v % 2 == 0 { EvenProduct(v / 2, m); } else { OddProduct(v / 2, m); }
  }

  lemma EvenProduct(h: int, m: int)
    requires 0 <= 2 * h < m <= 0x100_0000
    ensures 0 <= Quotient(Int64(LONGEST * (2 * h)), m) < LONGEST
  {
    Wraps(LONGEST * (2 * h), h, -2 * h);
    RoundsToZero(-2 * h, m);
  }

  lemma RoundsToZero(x: int, m: int)
    requires -m < x <= 0
    ensures Quotient(x, m) == 0
  {
    DivisionIs(-x, m, 0, -x);
  }

  lemma OddProduct(h: int, m: int)
    requires 0 <= 2 * h + 1 < m <= 0x100_0000
    ensures 0 <= Quotient(Int64(LONGEST * (2 * h + 1)), m) < LONGEST
  {
    Wraps(LONGEST * (2 * h + 1), h, TWO63 - (2 * h + 1));
    DivisionBounded(TWO63 - (2 * h + 1), m, LONGEST);
  }

  lemma LongestIsInRange(prefix: Key, order: Key)
    requires |order| >= MAX_PREFIX_SIZE
    ensures 0 <= ReprovideTime(prefix, order, LONGEST) < LONGEST
  {
    var p := Cut(prefix);
    SmallPow2(|p|);
    LongestProduct(Distance(p, order[..|p|]), Pow2(|p|));
  }

  /** A prefix of length `n` for every index of that many bits, up to where prefixes are cut. */
  lemma PrefixOfIndex(order: Key, n: nat, m: nat, v: nat) returns (prefix: Key)
    requires |order| >= n && |order| >= MAX_PREFIX_SIZE && m == (if n > MAX_PREFIX_SIZE then MAX_PREFIX_SIZE else n)
    requires 0 < v < Pow2(m)
    ensures |prefix| == n
    ensures forall interval :: ReprovideTime(prefix, order, interval) == Quotient(Int64(interval * v), Pow2(m))
  {
    var p := PrefixWithIndex(order, m, v);
    prefix := p + order[..n - m];
    assert Cut(prefix) == p by { assert prefix[..m] == p; }
  }

  /** The first index whose product overflows. */
  lemma FirstOverflow(interval: int, top: int) returns (v: int)
    requires 0 < interval <= TWO63 / 2 && interval * top >= TWO63
    ensures 0 < v <= top && TWO63 <= interval * v < TWO63 + interval
  {
    v := (TWO63 + interval - 1) / interval;
    assert v * interval == TWO63 + interval - 1 - (TWO63 + interval - 1) % interval;
    if v > top {
      Product(interval, top, v - 1);
      Minus(v, 1, interval);
    }
    if v < 1 { Product(interval, 0, 1 - v); }
  }

  lemma NegativeForShort(interval: int, p: int) returns (v: int)
    requires 0 < interval <= TWO63 / 2 && interval * (p - 1) >= TWO63 && 0 < p <= 0x100_0000
    ensures 0 < v < p && Quotient(Int64(interval * v), p) < 0
  {
    v := FirstOverflow(interval, p - 1);
    Wraps(interval * v, 1, interval * v - 2 * TWO63);
    NegativeQuotient(interval * v - 2 * TWO63, p);
  }

  lemma LongTimesTwo(e: int, p: int)
    requires 0 < p <= 2 * e <= TWO63
    ensures Quotient(Int64((TWO63 - e) * 2), p) < 0
  {
    Wraps((TWO63 - e) * 2, 1, -2 * e);
    NegativeQuotient(-2 * e, p);
  }

  lemma LongTimesEven(e: int, h: int)
    requires 2 <= e <= 0x100_0000 && 1 <= h <= 0x100_0000
    ensures Quotient(Int64((TWO63 - e) * (2 * h)), 2 * h + 2) < 0
  {
    var x := h * e;
    Product(h, 2, e);
    Product(h, e, 0x100_0000);
    assert (TWO63 - e) * (2 * h) == h * (2 * TWO63) - 2 * x by { Minus(TWO63, e, 2 * h); }
    Wraps((TWO63 - e) * (2 * h), h, -2 * x);
    NegativeQuotient(-2 * x, 2 * h + 2);
  }

  lemma NegativeForLong(interval: int, p: int) returns (v: int)
    requires TWO63 / 2 < interval < LONGEST && 4 <= p <= 0x100_0000 && p % 2 == 0
    ensures 0 < v < p && Quotient(Int64(interval * v), p) < 0
  {
    var e := TWO63 - interval;
    if 2 * e >= p {
      v := 2;
      LongTimesTwo(e, p);
    } else {
      v := p - 2;
      LongTimesEven(e, p / 2 - 1);
    }
  }

  /** An overflow needs at least two bits. */
  lemma OverflowNeedsBits(m: nat, interval: int)
    requires 0 < interval < TWO63 && interval * (Pow2(m) - 1) >= TWO63
    ensures Pow2(m) >= 4 && Pow2(m) % 2 == 0
  {
    if m >= 2 {
      assert Pow2(m) == 2 * Pow2(m - 1) && Pow2(m - 1) == 2 * Pow2(m - 2);
    }
  }

  lemma OverflowingPrefix(order: Key, n: nat, interval: int) returns (prefix: Key)
    requires |order| >= n && |order| >= MAX_PREFIX_SIZE && 0 < interval < LONGEST && !NoOverflow(n, interval)
    ensures |prefix| == n && ReprovideTime(prefix, order, interval) < 0
  {
    var m := if n > MAX_PREFIX_SIZE then MAX_PREFIX_SIZE else n;
    SmallPow2(m);
    OverflowNeedsBits(m, interval);
    var v;
    if interval <= TWO63 / 2 {
      v := NegativeForShort(interval, Pow2(m));
    } else {
      v := NegativeForLong(interval, Pow2(m));
    }
    prefix := PrefixOfIndex(order, n, m, v);
  }

  lemma Pow2Values()
    ensures Pow2(16) == 0x1_0000 && Pow2(17) == 0x2_0000 && Pow2(24) == 0x100_0000
  {
    assert Pow2(2) == 4;
    Pow2Sum(2, 2);
    Pow2Sum(4, 4);
    Pow2Sum(8, 8);
    Pow2Sum(16, 8);
  }

  lemma {:induction false} SmallPow2(m: nat)
    requires m <= MAX_PREFIX_SIZE
    ensures Pow2(m) <= 0x100_0000
  {
    Pow2Values();
    Pow2Grows(m, 24);
  }

  /** With the default interval of 22 hours the offsets overflow from 17 bits on, although prefixes are only
      cut at 24 bits. */
  lemma DefaultIntervalLimit(n: nat)
    ensures NoOverflow(n, 79_200_000_000_000) <==> n <= 16
  {
    Pow2Values();
    if n <= 16 {
      Pow2Grows(n, 16);
    } else {
      Pow2Grows(17, if n > MAX_PREFIX_SIZE then MAX_PREFIX_SIZE else n);
    }
  }
}
