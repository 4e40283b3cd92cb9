/** The neighbour list of `knnClassify` and `sortBy { it.first }` on it.

    Kotlin's `sortBy` is stable: entries at equal distance keep their
    relative order. The reference here is an insertion sort on values,
    `StableSort`; it is proved sorted, a permutation, order-preserving among
    equal distances, and the only sequence with those three properties, so
    it is what any stable sort (TimSort included) yields. */
module Neighbours {

  /** `Pair(distance, labels[i])` */
  datatype Neighbour = Neighbour(distance: real, category: int)

  predicate Sorted(s: seq<Neighbour>) {
    forall i, j :: 0 <= i < j < |s| ==> s[i].distance <= s[j].distance
  }

  /** `x` placed after every entry of `s` whose distance is not larger. */
  function Insert(s: seq<Neighbour>, x: Neighbour): (r: seq<Neighbour>)
    ensures |r| == |s| + 1
  {
    if s == [] || s[|s| - 1].distance <= x.distance then s + [x]
    else Insert(s[..|s| - 1], x) + [s[|s| - 1]]
  }

  function StableSort(s: seq<Neighbour>): (r: seq<Neighbour>)
    ensures |r| == |s|
  {
    if s == [] then [] else Insert(StableSort(s[..|s| - 1]), s[|s| - 1])
  }

  /** The entries at distance `d`, in their order in `s`. */
  function WithDistance(s: seq<Neighbour>, d: real): seq<Neighbour> {
    if s == [] then []
    else WithDistance(s[..|s| - 1], d) + (if s[|s| - 1].distance == d then [s[|s| - 1]] else [])
  }

  /** `sortBy { it.first }` on the list, in place. */
  method SortByDistance(a: array<Neighbour>)
    modifies a
    ensures a[..] == StableSort(old(a[..]))
  {
    ghost var original := a[..];
    for i := 0 to a.Length
      invariant a[..i] == StableSort(original[..i])
      invariant a[i..] == original[i..]
    {
      assert original[..i + 1][..i] == original[..i];
      assert a[i] == original[i];
      InsertAt(a, i);
      assert a[i + 1..] == original[i + 1..];
    }
    assert original[..a.Length] == original;
  }

  /** One insertion step: `a[i]` shifted down into the sorted prefix `a[..i]`. */
  method InsertAt(a: array<Neighbour>, i: nat)
    requires i < a.Length
    modifies a
    ensures a[..i + 1] == Insert(old(a[..i]), old(a[i]))
    ensures a[i + 1..] == old(a[i + 1..])
  {
    ghost var sorted := a[..i];
    var x := a[i];
    var j := i;
    assert sorted[..j] == sorted && sorted[j..] == [];
    while j > 0 && a[j - 1].distance > x.distance
      invariant 0 <= j <= i
      invariant forall k :: 0 <= k < j ==> a[k] == sorted[k]
      invariant forall k :: j < k <= i ==> a[k] == sorted[k - 1]
      invariant a[i + 1..] == old(a[i + 1..])
      invariant Insert(sorted, x) == Insert(sorted[..j], x) + sorted[j..]
      decreases j
    {
      InsertShift(sorted, j, x);
      a[j] := a[j - 1];
      j := j - 1;
    }
    a[j] := x;
    InsertStop(sorted, j, x);
    assert a[..i + 1] == sorted[..j] + [x] + sorted[j..];
  }

  lemma InsertShift(s: seq<Neighbour>, j: nat, x: Neighbour)
    requires 0 < j <= |s| && s[j - 1].distance > x.distance
    ensures Insert(s[..j], x) + s[j..] == Insert(s[..j - 1], x) + s[j - 1..]
  {
    assert s[..j][..j - 1] == s[..j - 1];
    assert [s[j - 1]] + s[j..] == s[j - 1..];
  }

  lemma InsertStop(s: seq<Neighbour>, j: nat, x: Neighbour)
    requires j <= |s| && (j == 0 || s[j - 1].distance <= x.distance)
    ensures Insert(s[..j], x) == s[..j] + [x]
  {
  }

  // ---------------------------------------------------------------------
  // Properties of the reference sort

  lemma {:induction false} InsertPermutes(s: seq<Neighbour>, x: Neighbour)
    ensures multiset(Insert(s, x)) == multiset(s) + multiset{x}
  {
    if s != [] && s[|s| - 1].distance > x.distance {
      var n := |s| - 1;
      InsertPermutes(s[..n], x);
      assert s == s[..n] + [s[n]];
    }
  }

  /** Everything in `Insert(s, x)` is `x` or comes from `s`. */
  lemma {:induction false} InsertElements(s: seq<Neighbour>, x: Neighbour, e: Neighbour)
    requires e in Insert(s, x)
    ensures e == x || e in s
  {
    if s != [] && s[|s| - 1].distance > x.distance {
      var n := |s| - 1;
      var t := Insert(s[..n], x);
      assert e in t + [s[n]];
      if e in t {
        InsertElements(s[..n], x, e);
      }
    }
  }

  lemma SortedAppend(t: seq<Neighbour>, y: Neighbour)
    requires Sorted(t)
    requires forall i :: 0 <= i < |t| ==> t[i].distance <= y.distance
    ensures Sorted(t + [y])
  {
  }

  lemma {:induction false} InsertSorted(s: seq<Neighbour>, x: Neighbour)
    requires Sorted(s)
    ensures Sorted(Insert(s, x))
  {
    if s == [] || s[|s| - 1].distance <= x.distance {
      SortedAppend(s, x);
    } else {
      var n := |s| - 1;
      var y := s[n];
      assert Sorted(s[..n]);
      InsertSorted(s[..n], x);
      var t := Insert(s[..n], x);
      forall i | 0 <= i < |t|
        ensures t[i].distance <= y.distance
      {
        InsertElements(s[..n], x, t[i]);
      }
      SortedAppend(t, y);
    }
  }

  lemma WithDistanceAppend(s: seq<Neighbour>, x: Neighbour, d: real)
    ensures WithDistance(s + [x], d) == WithDistance(s, d) + (if x.distance == d then [x] else [])
  {
    assert (s + [x])[..|s|] == s;
  }

  /** Inserting `x` appends it to the entries of its own distance and leaves
      the others' order alone. */
  lemma {:induction false} InsertStable(s: seq<Neighbour>, x: Neighbour, d: real)
    ensures WithDistance(Insert(s, x), d) == WithDistance(s, d) + (if x.distance == d then [x] else [])
  {
    if s == [] || s[|s| - 1].distance <= x.distance {
      WithDistanceAppend(s, x, d);
    } else {
      var n := |s| - 1;
      InsertStable(s[..n], x, d);
      var t := Insert(s[..n], x);
      WithDistanceAppend(t, s[n], d);
      WithDistanceAppend(s[..n], s[n], d);
      assert s[..n] + [s[n]] == s;
    }
  }

  /** The reference sort orders by distance ... */
  lemma {:induction false} StableSortSorted(s: seq<Neighbour>)
    ensures Sorted(StableSort(s))
  {
    if s != [] {
      StableSortSorted(s[..|s| - 1]);
      InsertSorted(StableSort(s[..|s| - 1]), s[|s| - 1]);
    }
  }

  /** ... keeps every entry exactly as often as it occurs ... */
  lemma {:induction false} StableSortPermutes(s: seq<Neighbour>)
    ensures multiset(StableSort(s)) == multiset(s)
  {
    if s != [] {
      var n := |s| - 1;
      StableSortPermutes(s[..n]);
      InsertPermutes(StableSort(s[..n]), s[n]);
      assert s == s[..n] + [s[n]];
    }
  }

  /** ... and keeps the input order among entries at equal distance. */
  lemma {:induction false} StableSortStable(s: seq<Neighbour>, d: real)
    ensures WithDistance(StableSort(s), d) == WithDistance(s, d)
  {
    if s != [] {
      var n := |s| - 1;
      StableSortStable(s[..n], d);
      InsertStable(StableSort(s[..n]), s[n], d);
    }
  }

  /** Those three properties fix the result: a sorted permutation of `s`
      that keeps the order among equal distances is `StableSort(s)`. */
  lemma StableSortUnique(s: seq<Neighbour>, t: seq<Neighbour>)
    requires Sorted(t) && multiset(t) == multiset(s)
    requires forall d :: WithDistance(t, d) == WithDistance(s, d)
    ensures t == StableSort(s)
  {
    var r := StableSort(s);
    StableSortSorted(s);
    StableSortPermutes(s);
    forall d
      ensures WithDistance(t, d) == WithDistance(r, d)
    {
      StableSortStable(s, d);
    }
    SortedUnique(t, r);
  }

  lemma {:induction false} LastIsFarthest(s: seq<Neighbour>, e: Neighbour)
    requires Sorted(s) && e in multiset(s)
    ensures e.distance <= s[|s| - 1].distance
  {
    assert e in s;
    var i :| 0 <= i < |s| && s[i] == e;
  }

  lemma WithDistanceOfLast(s: seq<Neighbour>)
    requires s != []
    ensures WithDistance(s, s[|s| - 1].distance)
            == WithDistance(s[..|s| - 1], s[|s| - 1].distance) + [s[|s| - 1]]
  {
  }

  lemma SortedPrefix(s: seq<Neighbour>)
    requires s != [] && Sorted(s)
    ensures Sorted(s[..|s| - 1])
  {
  }

  lemma SameLength(a: seq<Neighbour>, b: seq<Neighbour>)
    requires multiset(a) == multiset(b)
    ensures |a| == |b|
  {
    assert |multiset(a)| == |a| && |multiset(b)| == |b|;
  }

  /** Two sorted arrangements of the same entries, with the same order among
      equal distances, end in the same entry. */
  lemma SameLast(a: seq<Neighbour>, b: seq<Neighbour>)
    requires a != [] && Sorted(a) && Sorted(b) && multiset(a) == multiset(b)
    requires forall d :: WithDistance(a, d) == WithDistance(b, d)
    ensures b != [] && a[|a| - 1] == b[|b| - 1]
  {
    SameLength(a, b);
    var x, y := a[|a| - 1], b[|b| - 1];
    LastIsFarthest(b, x);
    LastIsFarthest(a, y);
    SameLastAtDistance(a, b, x.distance);
  }

  lemma SameLastAtDistance(a: seq<Neighbour>, b: seq<Neighbour>, d: real)
    requires a != [] && b != [] && a[|a| - 1].distance == d == b[|b| - 1].distance
    requires WithDistance(a, d) == WithDistance(b, d)
    ensures a[|a| - 1] == b[|b| - 1]
  {
    WithDistanceOfLast(a);
    WithDistanceOfLast(b);
    var w := WithDistance(a, d);
    assert w[|w| - 1] == a[|a| - 1];
  }

  /** Removing the same last entry from both keeps them arrangements of the
      same entries with the same order among equal distances. */
  lemma DropLast(a: seq<Neighbour>, b: seq<Neighbour>, x: Neighbour)
    requires multiset(a + [x]) == multiset(b + [x])
    requires forall d :: WithDistance(a + [x], d) == WithDistance(b + [x], d)
    ensures multiset(a) == multiset(b)
    ensures forall d :: WithDistance(a, d) == WithDistance(b, d)
  {
    assert multiset(a) == multiset(a + [x]) - multiset{x};
    assert multiset(b) == multiset(b + [x]) - multiset{x};
    forall d
      ensures WithDistance(a, d) == WithDistance(b, d)
    {
      DropLastAt(a, b, x, d);
    }
  }

  lemma DropLastAt(a: seq<Neighbour>, b: seq<Neighbour>, x: Neighbour, d: real)
    requires WithDistance(a + [x], d) == WithDistance(b + [x], d)
    ensures WithDistance(a, d) == WithDistance(b, d)
  {
    WithDistanceAppend(a, x, d);
    WithDistanceAppend(b, x, d);
    var w := WithDistance(a + [x], d);
    if x.distance == d {
      assert WithDistance(a, d) == w[..|w| - 1];
      assert WithDistance(b, d) == w[..|w| - 1];
    }
  }

  lemma {:induction false} SortedUnique(a: seq<Neighbour>, b: seq<Neighbour>)
    requires Sorted(a) && Sorted(b) && multiset(a) == multiset(b)
    requires forall d :: WithDistance(a, d) == WithDistance(b, d)
    ensures a == b
    decreases |a|
  {
    if a == [] {
      assert |multiset(b)| == 0;
    } else {
      SameLast(a, b);
      var a', b', x := a[..|a| - 1], b[..|b| - 1], a[|a| - 1];
      assert a == a' + [x] && b == b' + [x];
      DropLast(a', b', x);
      SortedPrefix(a);
      SortedPrefix(b);
      SortedUnique(a', b');
    }
  }
}
