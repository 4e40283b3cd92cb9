/** The vote among the nearest neighbours in `knnClassify`.

    `labelVotes` is a `mutableMapOf`, a map that remembers the order in which
    its keys were first inserted, and `maxByOrNull` walks it in that order,
    replacing its candidate only on a strictly larger count. The winner is
    therefore the most frequent category, ties going to the category that
    occurs first among the neighbours; with no neighbours it is 0. */
module Votes {
  import opened Neighbours

  /** The categories of the neighbours, in order. */
  function Categories(s: seq<Neighbour>): (cs: seq<int>)
    ensures |cs| == |s| && forall i :: 0 <= i < |s| ==> cs[i] == s[i].category
  {
    seq(|s|, i requires 0 <= i < |s| => s[i].category)
  }

  /** How many times `c` occurs in `cs`. */
  function Count(cs: seq<int>, c: int): (n: nat)
    ensures n <= |cs|
  {
    if cs == [] then 0 else (if cs[0] == c then 1 else 0) + Count(cs[1..], c)
  }

  /** Where `c` first occurs in `cs`. */
  function FirstIndex(cs: seq<int>, c: int): (i: nat)
    requires c in cs
    ensures i < |cs| && cs[i] == c && c !in cs[..i]
  {
    if cs[0] == c then 0 else 1 + FirstIndex(cs[1..], c)
  }

  /** The distinct categories in order of first occurrence: the key order of
      `labelVotes`. */
  function Distinct(cs: seq<int>): (ks: seq<int>)
    ensures |ks| <= |cs|
    ensures cs != [] ==> ks != []
    ensures forall i :: 0 <= i < |ks| ==> ks[i] in cs
  {
    if cs == [] then []
    else
      var ks := Distinct(cs[..|cs| - 1]);
      if cs[|cs| - 1] in cs[..|cs| - 1] then ks else ks + [cs[|cs| - 1]]
  }

  /** The position in `keys` that `maxByOrNull { it.value }` settles on when
      each key's value is its count in `cs`: the running candidate is
      replaced only by a strictly larger count. */
  function BestAt(keys: seq<int>, cs: seq<int>): (b: nat)
    requires keys != []
    ensures b < |keys|
  {
    if |keys| == 1 then 0
    else
      var b := BestAt(keys[..|keys| - 1], cs);
      if Count(cs, keys[b]) < Count(cs, keys[|keys| - 1]) then |keys| - 1 else b
  }

  /** `labelVotes.maxByOrNull { it.value }?.key ?: 0` */
  function Vote(cs: seq<int>): (w: int)
    ensures cs == [] ==> w == 0
    ensures cs != [] ==> w in cs
  {
    var keys := Distinct(cs);
    if keys == [] then 0 else keys[BestAt(keys, cs)]
  }

  /** The vote loop over the nearest neighbours, then `maxByOrNull`. */
  method PredictCategory(nearest: seq<Neighbour>) returns (predicted: int)
    ensures predicted == Vote(Categories(nearest))
  {
    var votes, order := TallyVotes(nearest);
    if order == [] {
      return 0;
    }
    forall c | c in order
      ensures c in Categories(nearest)
    {
      DistinctHas(Categories(nearest), c);
    }
    predicted := MaxByVotes(order, votes, Categories(nearest));
  }

  /** `labelVotes[label] = labelVotes.getOrDefault(label, 0) + 1` for each
      neighbour. The map's keys in insertion order are `order`. */
  method TallyVotes(nearest: seq<Neighbour>) returns (votes: map<int, nat>, order: seq<int>)
    ensures order == Distinct(Categories(nearest))
    ensures forall c :: c in votes <==> c in Categories(nearest)
    ensures forall c :: c in votes ==> votes[c] == Count(Categories(nearest), c)
  {
    ghost var cs := Categories(nearest);
    votes, order := map[], [];
    for n := 0 to |nearest|
      invariant order == Distinct(cs[..n])
      invariant forall c :: c in votes <==> c in cs[..n]
      invariant forall c :: c in votes ==> votes[c] == Count(cs[..n], c)
    {
      var c := nearest[n].category;
      assert cs[..n + 1] == cs[..n] + [c];
      assert cs[..n + 1][..n] == cs[..n];
      forall k
        ensures Count(cs[..n + 1], k) == Count(cs[..n], k) + (if k == c then 1 else 0)
      {
        CountAppend(cs[..n], c, k);
      }
      CountPositive(cs[..n], c);
      if c !in votes {
        order := order + [c];
      }
      votes := votes[c := (if c in votes then votes[c] else 0) + 1];
    }
    assert cs[..|nearest|] == cs;
  }

  /** `maxByOrNull { it.value }` over the entries in key order. */
  method MaxByVotes(order: seq<int>, votes: map<int, nat>, ghost cs: seq<int>) returns (best: int)
    requires order != []
    requires forall c :: c in order ==> c in votes && votes[c] == Count(cs, c)
    ensures best == order[BestAt(order, cs)]
  {
    best := order[0];
    var bestVotes := votes[best];
    for i := 1 to |order|
      invariant best == order[BestAt(order[..i], cs)]
      invariant bestVotes == Count(cs, best)
    {
      assert order[..i + 1][..i] == order[..i];
      var key := order[i];
      if bestVotes < votes[key] {
        best := key;
        bestVotes := votes[key];
      }
    }
    assert order[..|order|] == order;
  }

  // ---------------------------------------------------------------------
  // Counting and first occurrences

  lemma {:induction false} CountAppend(cs: seq<int>, x: int, c: int)
    ensures Count(cs + [x], c) == Count(cs, c) + (if x == c then 1 else 0)
  {
    if cs != [] {
      assert (cs + [x])[1..] == cs[1..] + [x];
      CountAppend(cs[1..], x, c);
    }
  }

  lemma {:induction false} CountPositive(cs: seq<int>, c: int)
    ensures Count(cs, c) > 0 <==> c in cs
  {
    if cs != [] {
      CountPositive(cs[1..], c);
      assert cs == [cs[0]] + cs[1..];
    }
  }

  lemma {:induction false} FirstIndexAppend(cs: seq<int>, x: int, c: int)
    requires c in cs
    ensures FirstIndex(cs + [x], c) == FirstIndex(cs, c)
  {
    if cs[0] != c {
      assert (cs + [x])[1..] == cs[1..] + [x];
      FirstIndexAppend(cs[1..], x, c);
    }
  }

  lemma {:induction false} FirstIndexOfNew(cs: seq<int>, x: int)
    requires x !in cs
    ensures FirstIndex(cs + [x], x) == |cs|
  {
    if cs != [] {
      assert (cs + [x])[1..] == cs[1..] + [x];
      FirstIndexOfNew(cs[1..], x);
    }
  }

  /** The key order of the map holds exactly the categories that occur ... */
  lemma {:induction false} DistinctHas(cs: seq<int>, c: int)
    ensures c in Distinct(cs) <==> c in cs
  {
    if cs != [] {
      var n := |cs| - 1;
      DistinctHas(cs[..n], c);
      assert cs == cs[..n] + [cs[n]];
    }
  }

  /** ... each once, in the order of their first occurrence. */
  lemma {:induction false} DistinctOrdered(cs: seq<int>, i: nat, j: nat)
    requires i < j < |Distinct(cs)|
    ensures Distinct(cs)[i] in cs && Distinct(cs)[j] in cs
    ensures FirstIndex(cs, Distinct(cs)[i]) < FirstIndex(cs, Distinct(cs)[j])
  {
    var n := |cs| - 1;
    var prefix, x := cs[..n], cs[n];
    assert cs == prefix + [x];
    var ks := Distinct(prefix);
    DistinctHas(prefix, ks[i]);
    FirstIndexAppend(prefix, x, ks[i]);
    if j < |ks| {
      DistinctOrdered(prefix, i, j);
      FirstIndexAppend(prefix, x, ks[j]);
    } else {
      FirstIndexOfNew(prefix, x);
    }
  }

  // ---------------------------------------------------------------------
  // What maxByOrNull settles on

  /** The candidate has the largest count, and every key before it has a
      strictly smaller one. */
  lemma {:induction false} BestIsFirstMaximum(keys: seq<int>, cs: seq<int>)
    requires keys != []
    ensures forall i :: 0 <= i < |keys| ==> Count(cs, keys[i]) <= Count(cs, keys[BestAt(keys, cs)])
    ensures forall i :: 0 <= i < BestAt(keys, cs) ==> Count(cs, keys[i]) < Count(cs, keys[BestAt(keys, cs)])
  {
    if |keys| > 1 {
      var prefix := keys[..|keys| - 1];
      BestIsFirstMaximum(prefix, cs);
      assert forall i :: 0 <= i < |prefix| ==> prefix[i] == keys[i];
    }
  }

  /** No neighbours, no votes: the result falls back to 0. */
  lemma VoteOfNone()
    ensures Vote([]) == 0
  {
  }

  /** The winner occurs among the neighbours, and no category occurs more
      often. */
  lemma {:induction false} VoteIsPlurality(cs: seq<int>)
    requires cs != []
    ensures Vote(cs) in cs
    ensures forall c :: c in cs ==> Count(cs, c) <= Count(cs, Vote(cs))
  {
    var keys := Distinct(cs);
    DistinctHas(cs, cs[0]);
    BestIsFirstMaximum(keys, cs);
    var w := keys[BestAt(keys, cs)];
    DistinctHas(cs, w);
    forall c | c in cs
      ensures Count(cs, c) <= Count(cs, w)
    {
      DistinctHas(cs, c);
      var i :| 0 <= i < |keys| && keys[i] == c;
    }
  }

  /** Among the categories with the winning count, the winner is the one
      that occurs first. */
  lemma {:induction false} VoteTieBreak(cs: seq<int>, c: int)
    requires c in cs && Count(cs, c) == Count(cs, Vote(cs))
    ensures Vote(cs) in cs && FirstIndex(cs, Vote(cs)) <= FirstIndex(cs, c)
  {
    var keys := Distinct(cs);
    DistinctHas(cs, c);
    BestIsFirstMaximum(keys, cs);
    var b := BestAt(keys, cs);
    var i :| 0 <= i < |keys| && keys[i] == c;
    if b < i {
      DistinctOrdered(cs, b, i);
    }
  }

  /** Plurality and the tie-break pin the winner down: no other category
      has both. */
  lemma {:induction false} VoteUnique(cs: seq<int>, w: int)
    requires w in cs
    requires forall c :: c in cs ==> Count(cs, c) <= Count(cs, w)
    requires forall c :: c in cs && Count(cs, c) == Count(cs, w) ==> FirstIndex(cs, w) <= FirstIndex(cs, c)
    ensures w == Vote(cs)
  {
    VoteIsPlurality(cs);
    var v := Vote(cs);
    VoteTieBreak(cs, w);
    var i, j := FirstIndex(cs, w), FirstIndex(cs, v);
    assert i == j;
  }

  /** Three neighbours labelled 0, 0, 1: the majority wins. */
  lemma MajorityExample()
    ensures Vote([0, 0, 1]) == 0
  {
    VoteIsPlurality([0, 0, 1]);
    assert Count([0, 0, 1], 1) == 1 && Count([0, 0, 1], 0) == 2;
  }

  /** A tie between two categories goes to the one met first, not to the
      smaller code. */
  lemma TieExample()
    ensures Vote([0, 1]) == 0
    ensures Vote([1, 0]) == 1
  {
    TieGoesFirst(0, 1);
    TieGoesFirst(1, 0);
  }

  /** Two different categories once each: the first one wins. */
  lemma TieGoesFirst(a: int, b: int)
    requires a != b
    ensures Vote([a, b]) == a
  {
    var cs := [a, b];
    assert Count(cs, a) == 1 && Count(cs, b) == 1;
    VoteIsPlurality(cs);
    VoteTieBreak(cs, a);
  }

  /** Three categories once each: the first one wins. */
  lemma TieBreakOfThree()
    ensures Vote([0, 1, 2]) == 0
  {
    var cs := [0, 1, 2];
    assert Count(cs, 0) == Count(cs, 1) == Count(cs, 2) == 1;
    VoteIsPlurality(cs);
    VoteTieBreak(cs, 0);
  }

  // ---------------------------------------------------------------------
  // Votes over a sorted list

  lemma {:induction false} CountOfInsert(s: seq<Neighbour>, x: Neighbour, c: int)
    ensures Count(Categories(Insert(s, x)), c) == Count(Categories(s), c) + (if x.category == c then 1 else 0)
  {
    if s == [] || s[|s| - 1].distance <= x.distance {
      assert Categories(s + [x]) == Categories(s) + [x.category];
      CountAppend(Categories(s), x.category, c);
    } else {
      var n := |s| - 1;
      var t := Insert(s[..n], x);
      CountOfInsert(s[..n], x, c);
      assert Categories(t + [s[n]]) == Categories(t) + [s[n].category];
      assert Categories(s) == Categories(s[..n]) + [s[n].category];
      CountAppend(Categories(t), s[n].category, c);
      CountAppend(Categories(s[..n]), s[n].category, c);
    }
  }

  /** Sorting moves neighbours but leaves every category's count alone. */
  lemma {:induction false} CountOfSorted(s: seq<Neighbour>, c: int)
    ensures Count(Categories(StableSort(s)), c) == Count(Categories(s), c)
  {
    if s != [] {
      var n := |s| - 1;
      CountOfSorted(s[..n], c);
      CountOfInsert(StableSort(s[..n]), s[n], c);
      assert Categories(s) == Categories(s[..n]) + [s[n].category];
      CountAppend(Categories(s[..n]), s[n].category, c);
    }
  }
}
