/** Lists without repetition, inserting into a list, and counting. */
module Sequences {

  ghost predicate NoRepeats<T>(s: seq<T>) {
    forall i, j :: 0 <= i < j < |s| ==> s[i] != s[j]
  }

  function Members<T(==)>(s: seq<T>): set<T> {
    set x | x in s
  }

  lemma JoinedMembers<T>(a: seq<T>, b: seq<T>)
    ensures forall x :: x in a + b <==> x in a || x in b
    ensures NoRepeats(a) && NoRepeats(b) && (forall x :: x in a ==> x !in b) ==> NoRepeats(a + b)
  {
    forall i, j | 0 <= i < |a| && 0 <= j < |b| && (forall x :: x in a ==> x !in b) ensures a[i] != b[j] {
      assert a[i] in a;
    }
  }

  lemma InsertedMembers<T>(s: seq<T>, i: nat, x: T)
    requires i <= |s|
    ensures forall y :: y in s[..i] + [x] + s[i..] <==> y == x || y in s
    ensures NoRepeats(s) && x !in s ==> NoRepeats(s[..i] + [x] + s[i..])
  {
    assert s == s[..i] + s[i..];
  }

  lemma SubsetCount<T>(a: set<T>, b: set<T>)
    requires a <= b
    ensures |a| <= |b|
  {
    assert b == a + (b - a);
  }

  lemma {:induction false} DistinctCount<T>(r: seq<T>)
    requires NoRepeats(r)
    ensures |set x | x in r| == |r|
    decreases |r|
  {
    if r == [] {
    } else {
      var init, last := r[..|r| - 1], r[|r| - 1];
      DistinctCount(init);
      assert (set x | x in r) == (set x | x in init) + {last};
    }
  }
}
