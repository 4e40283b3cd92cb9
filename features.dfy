/** `extractFeatures`: a bag-of-words count over the vocabulary's columns,
    then rescaled by its Euclidean magnitude when that magnitude is positive.
    `Math.sqrt` is the parameter `sqrt`. */
module Features {
  import opened Outcomes
  import Tokenizer

  /** Token to column, as read from the vocabulary file. Nothing checks that
      the columns lie in `0 .. |vocabulary| - 1`. */
  type Vocabulary = map<string, int>

  /** The token has a column, and that column is an index of a vector of
      `size` entries. */
  predicate Fits(vocabulary: Vocabulary, size: nat, t: string) {
    t in vocabulary && 0 <= vocabulary[t] < size
  }

  /** The token has a column outside the vector: `features[index] += 1.0` throws. */
  predicate Misplaced(vocabulary: Vocabulary, size: nat, t: string) {
    t in vocabulary && !(0 <= vocabulary[t] < size)
  }

  function Zeros(size: nat): seq<real> {
    seq(size, _ => 0.0)
  }

  /** The count vector as the token loop builds it, one token at a time. */
  function Tally(tokens: seq<string>, vocabulary: Vocabulary, size: nat): (v: seq<real>)
    ensures |v| == size
    ensures forall j :: 0 <= j < size ==> v[j] >= 0.0
  {
    if tokens == [] then Zeros(size)
    else
      var v := Tally(tokens[..|tokens| - 1], vocabulary, size);
      var t := tokens[|tokens| - 1];
      if Fits(vocabulary, size, t) then v[vocabulary[t] := v[vocabulary[t]] + 1.0] else v
  }

  /** How many tokens have column `j`. */
  function Occurrences(tokens: seq<string>, vocabulary: Vocabulary, j: int): nat {
    if tokens == [] then 0
    else (if tokens[0] in vocabulary && vocabulary[tokens[0]] == j then 1 else 0)
         + Occurrences(tokens[1..], vocabulary, j)
  }

  /** How many tokens have a column that fits. */
  function Fitting(tokens: seq<string>, vocabulary: Vocabulary, size: nat): nat {
    if tokens == [] then 0
    else (if Fits(vocabulary, size, tokens[0]) then 1 else 0) + Fitting(tokens[1..], vocabulary, size)
  }

  /** The tokens the vocabulary knows, in order. */
  function Known(tokens: seq<string>, vocabulary: Vocabulary): seq<string> {
    if tokens == [] then []
    else (if tokens[0] in vocabulary then [tokens[0]] else []) + Known(tokens[1..], vocabulary)
  }

  /** The column of the first token whose column does not fit, if any. */
  function FirstMisplaced(tokens: seq<string>, vocabulary: Vocabulary, size: nat): (r: Option<int>)
    ensures r.Some? ==> r.value in vocabulary.Values && !(0 <= r.value < size)
    ensures r.Some? ==> exists i :: 0 <= i < |tokens| && Misplaced(vocabulary, size, tokens[i])
                          && r.value == vocabulary[tokens[i]]
                          && forall j :: 0 <= j < i ==> !Misplaced(vocabulary, size, tokens[j])
    ensures r.None? <==> forall i :: 0 <= i < |tokens| ==> !Misplaced(vocabulary, size, tokens[i])
  {
    if tokens == [] then None
    else if Misplaced(vocabulary, size, tokens[0]) then Some(vocabulary[tokens[0]])
    else FirstMisplaced(tokens[1..], vocabulary, size)
  }

  function Sum(v: seq<real>): real {
    if v == [] then 0.0 else v[0] + Sum(v[1..])
  }

  /** `features.sumOf { it * it }` */
  function SumSquares(v: seq<real>): real {
    if v == [] then 0.0 else v[0] * v[0] + SumSquares(v[1..])
  }

  function Scale(v: seq<real>, magnitude: real): seq<real>
    requires magnitude != 0.0
  {
    seq(|v|, i requires 0 <= i < |v| => v[i] / magnitude)
  }

  /** Divide every entry by the magnitude, but only when it is positive. */
  function Normalise(v: seq<real>, sqrt: real -> real): (r: seq<real>)
    ensures |r| == |v|
    ensures forall i :: 0 <= i < |v| && v[i] == 0.0 ==> r[i] == 0.0
  {
    var magnitude := sqrt(SumSquares(v));
    if magnitude > 0.0 then Scale(v, magnitude) else v
  }

  /** What `extractFeatures` returns, or the exception it throws, for the
      tokens of its text. */
  function FeatureVector(tokens: seq<string>, vocabulary: Vocabulary, sqrt: real -> real): (r: Result<seq<real>>)
    ensures r.Ok? ==> |r.value| == |vocabulary|
    ensures r.Err? ==> r.failure.IndexOutOfBounds? && r.failure.length == |vocabulary|
                       && !(0 <= r.failure.index < |vocabulary|)
  {
    var size := |vocabulary|;
    match FirstMisplaced(tokens, vocabulary, size)
    case Some(index) => Err(IndexOutOfBounds(index, size))
    case None => Ok(Normalise(Tally(tokens, vocabulary, size), sqrt))
  }

  /** `extractFeatures(text)`: a zero array of `|vocabulary|` entries, one
      added at the column of every token the vocabulary knows, then the
      rescaling. */
  method ExtractFeatures(text: string, vocabulary: Vocabulary, sqrt: real -> real) returns (r: Result<array<real>>)
    ensures var spec := FeatureVector(Tokenizer.Tokens(text), vocabulary, sqrt);
            r.Ok? == spec.Ok? &&
            (r.Ok? ==> r.value.Length == |vocabulary| && r.value[..] == spec.value) &&
            (r.Err? ==> r.failure == spec.failure)
  {
    var tokens := Tokenizer.Tokens(text);
    var size := |vocabulary|;
    var features := new real[size](_ => 0.0);
    var failure := CountTokens(tokens, vocabulary, features);
    if failure.Some? {
      return Err(IndexOutOfBounds(failure.value, size));
    }
    Rescale(features, sqrt);
    return Ok(features);
  }

  /** The token loop: one added at the token's column, or the column that
      throws. */
  method CountTokens(tokens: seq<string>, vocabulary: Vocabulary, features: array<real>) returns (failure: Option<int>)
    requires features[..] == Zeros(features.Length)
    modifies features
    ensures failure == FirstMisplaced(tokens, vocabulary, features.Length)
    ensures failure.None? ==> features[..] == Tally(tokens, vocabulary, features.Length)
  {
    var size := features.Length;
    for n := 0 to |tokens|
      invariant features[..] == Tally(tokens[..n], vocabulary, size)
      invariant FirstMisplaced(tokens, vocabulary, size) == FirstMisplaced(tokens[n..], vocabulary, size)
    {
      var token := tokens[n];
      FirstMisplacedFrom(tokens, vocabulary, size, n);
      assert tokens[..n + 1][..n] == tokens[..n];
      if token in vocabulary {
        var index := vocabulary[token];
        if !(0 <= index < size) {
          return Some(index);
        }
        features[index] := features[index] + 1.0;
      }
    }
    assert tokens[..|tokens|] == tokens;
    return None;
  }

  /** The search for a misplaced token, resumed at position `n`. */
  lemma FirstMisplacedFrom(tokens: seq<string>, vocabulary: Vocabulary, size: nat, n: nat)
    requires n < |tokens|
    ensures FirstMisplaced(tokens[n..], vocabulary, size)
            == if Misplaced(vocabulary, size, tokens[n]) then Some(vocabulary[tokens[n]])
               else FirstMisplaced(tokens[n + 1..], vocabulary, size)
  {
    assert tokens[n..][0] == tokens[n] && tokens[n..][1..] == tokens[n + 1..];
  }

  /** The division by the magnitude, skipped when the magnitude is not positive. */
  method Rescale(features: array<real>, sqrt: real -> real)
    modifies features
    ensures features[..] == Normalise(old(features[..]), sqrt)
  {
    ghost var counts := features[..];
    var magnitude := sqrt(SumSquares(features[..]));
    if magnitude > 0.0 {
      for i := 0 to features.Length
        invariant forall j :: 0 <= j < i ==> features[j] == counts[j] / magnitude
        invariant forall j :: i <= j < features.Length ==> features[j] == counts[j]
      {
        features[i] := features[i] / magnitude;
      }
      assert features[..] == Scale(counts, magnitude);
    }
  }

  // ---------------------------------------------------------------------
  // The counts

  lemma {:induction false} OccurrencesAppend(tokens: seq<string>, t: string, vocabulary: Vocabulary, j: int)
    ensures Occurrences(tokens + [t], vocabulary, j)
            == Occurrences(tokens, vocabulary, j) + (if t in vocabulary && vocabulary[t] == j then 1 else 0)
  {
    if tokens != [] {
      assert (tokens + [t])[1..] == tokens[1..] + [t];
      OccurrencesAppend(tokens[1..], t, vocabulary, j);
    }
  }

  /** Entry `j` of the count vector is the number of tokens whose column is `j`. */
  lemma {:induction false} TallyCountsTokens(tokens: seq<string>, vocabulary: Vocabulary, size: nat)
    ensures forall j :: 0 <= j < size ==> Tally(tokens, vocabulary, size)[j] == Occurrences(tokens, vocabulary, j) as real
  {
    if tokens != [] {
      var prefix := tokens[..|tokens| - 1];
      var t := tokens[|tokens| - 1];
      TallyCountsTokens(prefix, vocabulary, size);
      assert prefix + [t] == tokens;
      forall j | 0 <= j < size
        ensures Tally(tokens, vocabulary, size)[j] == Occurrences(tokens, vocabulary, j) as real
      {
        OccurrencesAppend(prefix, t, vocabulary, j);
      }
    }
  }

  lemma {:induction false} OccurrencesOfKnown(tokens: seq<string>, vocabulary: Vocabulary, j: int)
    ensures Occurrences(Known(tokens, vocabulary), vocabulary, j) == Occurrences(tokens, vocabulary, j)
  {
    if tokens != [] {
      OccurrencesOfKnown(tokens[1..], vocabulary, j);
      var rest := Known(tokens[1..], vocabulary);
      if tokens[0] in vocabulary {
        assert ([tokens[0]] + rest)[1..] == rest;
      } else {
        assert Known(tokens, vocabulary) == rest;
      }
    }
  }

  /** Tokens the vocabulary does not know change nothing: counting only the
      known tokens gives the same vector. */
  lemma TallyIgnoresUnknown(tokens: seq<string>, vocabulary: Vocabulary, size: nat)
    ensures Tally(tokens, vocabulary, size) == Tally(Known(tokens, vocabulary), vocabulary, size)
  {
    var known := Known(tokens, vocabulary);
    TallyCountsTokens(tokens, vocabulary, size);
    TallyCountsTokens(known, vocabulary, size);
    forall j | 0 <= j < size
      ensures Tally(tokens, vocabulary, size)[j] == Tally(known, vocabulary, size)[j]
    {
      OccurrencesOfKnown(tokens, vocabulary, j);
    }
  }

  lemma {:induction false} SumIncrement(v: seq<real>, j: nat)
    requires j < |v|
    ensures Sum(v[j := v[j] + 1.0]) == Sum(v) + 1.0
  {
    if j > 0 {
      SumIncrement(v[1..], j - 1);
      assert v[j := v[j] + 1.0][1..] == v[1..][j - 1 := v[j] + 1.0];
    } else {
      assert v[j := v[j] + 1.0][1..] == v[1..];
    }
  }

  lemma {:induction false} SumZeros(size: nat)
    ensures Sum(Zeros(size)) == 0.0
  {
    if size > 0 {
      SumZeros(size - 1);
      assert Zeros(size)[1..] == Zeros(size - 1);
    }
  }

  lemma {:induction false} FittingAppend(tokens: seq<string>, t: string, vocabulary: Vocabulary, size: nat)
    ensures Fitting(tokens + [t], vocabulary, size)
            == Fitting(tokens, vocabulary, size) + (if Fits(vocabulary, size, t) then 1 else 0)
  {
    if tokens != [] {
      assert (tokens + [t])[1..] == tokens[1..] + [t];
      FittingAppend(tokens[1..], t, vocabulary, size);
    }
  }

  /** Every token whose column fits adds exactly one to the total. */
  lemma {:induction false} TallyTotal(tokens: seq<string>, vocabulary: Vocabulary, size: nat)
    ensures Sum(Tally(tokens, vocabulary, size)) == Fitting(tokens, vocabulary, size) as real
  {
    if tokens == [] {
      SumZeros(size);
    } else {
      var prefix := tokens[..|tokens| - 1];
      var t := tokens[|tokens| - 1];
      TallyTotal(prefix, vocabulary, size);
      assert prefix + [t] == tokens;
      FittingAppend(prefix, t, vocabulary, size);
      if Fits(vocabulary, size, t) {
        SumIncrement(Tally(prefix, vocabulary, size), vocabulary[t]);
      }
    }
  }

  // ---------------------------------------------------------------------
  // The zero-magnitude guard

  /** Rescaling never touches the all-zero vector, whatever `sqrt` yields. */
  lemma NormaliseZeros(size: nat, sqrt: real -> real)
    ensures Normalise(Zeros(size), sqrt) == Zeros(size)
  {
    var magnitude := sqrt(SumSquares(Zeros(size)));
    if magnitude > 0.0 {
      assert Scale(Zeros(size), magnitude) == Zeros(size);
    }
  }

  lemma {:induction false} TallyOfUnknown(tokens: seq<string>, vocabulary: Vocabulary, size: nat)
    requires forall i :: 0 <= i < |tokens| ==> tokens[i] !in vocabulary
    ensures Tally(tokens, vocabulary, size) == Zeros(size)
  {
    if tokens != [] {
      TallyOfUnknown(tokens[..|tokens| - 1], vocabulary, size);
    }
  }

  lemma {:induction false} NoneMisplaced(tokens: seq<string>, vocabulary: Vocabulary, size: nat)
    requires forall i :: 0 <= i < |tokens| ==> !Misplaced(vocabulary, size, tokens[i])
    ensures FirstMisplaced(tokens, vocabulary, size) == None
  {
    if tokens != [] {
      NoneMisplaced(tokens[1..], vocabulary, size);
    }
  }

  /** When no token is in the vocabulary, extraction succeeds and the feature
      vector is all zero: the count stays zero and the guard skips the
      division. */
  lemma FeatureVectorOfUnknown(tokens: seq<string>, vocabulary: Vocabulary, sqrt: real -> real)
    requires forall i :: 0 <= i < |tokens| ==> tokens[i] !in vocabulary
    ensures FeatureVector(tokens, vocabulary, sqrt) == Ok(Zeros(|vocabulary|))
  {
    NoneMisplaced(tokens, vocabulary, |vocabulary|);
    TallyOfUnknown(tokens, vocabulary, |vocabulary|);
    NormaliseZeros(|vocabulary|, sqrt);
  }

  /** Extraction fails exactly when some token's column is outside the
      vector; with columns inside `0 .. |vocabulary| - 1` it never fails. */
  lemma {:induction false} FeatureVectorFails(tokens: seq<string>, vocabulary: Vocabulary, sqrt: real -> real)
    ensures FeatureVector(tokens, vocabulary, sqrt).Err?
            <==> exists i :: 0 <= i < |tokens| && Misplaced(vocabulary, |vocabulary|, tokens[i])
  {
    if tokens != [] {
      FeatureVectorFails(tokens[1..], vocabulary, sqrt);
      if Misplaced(vocabulary, |vocabulary|, tokens[0]) {
      } else {
        assert forall i :: 1 <= i < |tokens| ==> tokens[i] == tokens[1..][i - 1];
        if exists i :: 0 <= i < |tokens| && Misplaced(vocabulary, |vocabulary|, tokens[i]) {
          var i :| 0 <= i < |tokens| && Misplaced(vocabulary, |vocabulary|, tokens[i]);
          assert tokens[1..][i - 1] == tokens[i];
        }
      }
    }
  }
}
