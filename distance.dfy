/** `calculateEuclideanDistance`: squared differences summed over the indices
    of the first vector, then the square root. Floating point is modelled by
    `real`, and `Math.sqrt` is the parameter `sqrt`. */
module Distance {
  import opened Outcomes

  /** The sum of `(a[i] - b[i])^2` over the indices of `a`, accumulated in
      index order. */
  function SquaredDistance(a: seq<real>, b: seq<real>): (r: real)
    requires |a| <= |b|
    ensures r >= 0.0
  {
    if a == [] then 0.0
    else
      var n := |a| - 1;
      SquaredDistance(a[..n], b) + (a[n] - b[n]) * (a[n] - b[n])
  }

  /** The loop of `calculateEuclideanDistance`. Reading `b` past its end
      throws; that happens exactly when `b` is shorter than `a`, at index `|b|`. */
  method EuclideanDistance(a: array<real>, b: seq<real>, sqrt: real -> real) returns (r: Result<real>)
    ensures a.Length <= |b| ==> r == Ok(sqrt(SquaredDistance(a[..], b)))
    ensures |b| < a.Length ==> r == Err(IndexOutOfBounds(|b|, |b|))
  {
    var sum := 0.0;
    for i := 0 to a.Length
      invariant i <= |b|
      invariant sum == SquaredDistance(a[..i], b)
    {
      if i >= |b| {
        return Err(IndexOutOfBounds(i, |b|));
      }
      var diff := a[i] - b[i];
      assert a[..i + 1][..i] == a[..i];
      sum := sum + diff * diff;
    }
    assert a[..a.Length] == a[..];
    return Ok(sqrt(sum));
  }

  /** A vector that agrees with `b` on all of its indices is at squared
      distance zero from it. */
  lemma {:induction false} SquaredDistanceToSelf(a: seq<real>, b: seq<real>)
    requires |a| <= |b| && a == b[..|a|]
    ensures SquaredDistance(a, b) == 0.0
    decreases |a|
  {
    if a != [] {
      var n := |a| - 1;
      assert a[..n] == b[..n];
      SquaredDistanceToSelf(a[..n], b);
      assert a[n] - b[n] == 0.0;
    }
  }

  /** For vectors of equal length the argument order does not matter. */
  lemma {:induction false} SquaredDistanceSymmetric(a: seq<real>, b: seq<real>)
    requires |a| == |b|
    ensures SquaredDistance(a, b) == SquaredDistance(b, a)
    decreases |a|
  {
    if a != [] {
      var n := |a| - 1;
      SquaredDistanceSymmetric(a[..n], b[..n]);
      SquaredDistanceOnPrefix(a[..n], b, n);
      SquaredDistanceOnPrefix(b[..n], a, n);
      assert (a[n] - b[n]) * (a[n] - b[n]) == (b[n] - a[n]) * (b[n] - a[n]);
    }
  }

  /** Only the first `|a|` entries of `b` take part. */
  lemma {:induction false} SquaredDistanceOnPrefix(a: seq<real>, b: seq<real>, n: nat)
    requires |a| <= n <= |b|
    ensures SquaredDistance(a, b) == SquaredDistance(a, b[..n])
    decreases |a|
  {
    if a != [] {
      SquaredDistanceOnPrefix(a[..|a| - 1], b, n);
    }
  }
}
