/** `knnClassify` and `classifyText`: the k-nearest-neighbour vote over the
    training rows, and the entry point that turns every exception into an
    error string.

    The three trained tables are `lateinit` properties of the activity, so
    each is `None` until the start-up loaders have filled it; reading one
    that is still `None` throws. The tables are never changed by the
    classifier, so they are passed in as a value. */
module Classifier {
  import opened Outcomes
  import Tokenizer
  import Features
  import Distance
  import opened Neighbours
  import Votes

  /** `vocabulary`, `featureMatrix` and `labels`. */
  datatype Tables = Tables(
    vocabulary: Option<Features.Vocabulary>,
    featureMatrix: Option<seq<seq<real>>>,
    labels: Option<seq<int>>)

  /** Every string `knnClassify` can return. */
  const ClassNames: set<string> := {"Kelas 1", "Kelas 2", "Kelas 3", "Unknown"}

  /** The neighbour count `classifyText` passes to `knnClassify`. */
  const K: int := 3

  /** The display string of a category code: codes 0, 1 and 2 are shown
      one-based as "Kelas 1" to "Kelas 3", anything else as "Unknown". */
  function DisplayName(code: int): (name: string)
    ensures 0 <= code < 3 ==> name == "Kelas " + [DigitChar(code + 1)]
    ensures !(0 <= code < 3) ==> name == "Unknown"
  {
    match code
    case 0 => "Kelas 1"
    case 1 => "Kelas 2"
    case 2 => "Kelas 3"
    case _ => "Unknown"
  }

  /** The pair for training row `i`, or the exception raised while forming
      it: first the distance (reading past the end of a short row), then
      `labels` (not loaded, or shorter than the matrix). */
  function Row(features: seq<real>, rows: seq<seq<real>>, labels: Option<seq<int>>, i: nat, sqrt: real -> real): (r: Result<Neighbour>)
    requires i < |rows|
    ensures r.Ok? <==> |features| <= |rows[i]| && labels.Some? && i < |labels.value|
    ensures r.Ok? ==> r.value.category == labels.value[i]
    ensures r.Err? ==> r.failure.IndexOutOfBounds? || r.failure == Uninitialized("labels")
  {
    var row := rows[i];
    if |row| < |features| then Err(IndexOutOfBounds(|row|, |row|))
    else
      match labels
      case None => Err(Uninitialized("labels"))
      case Some(ls) =>
        if i < |ls| then Ok(Neighbour(sqrt(Distance.SquaredDistance(features, row)), ls[i]))
        else Err(IndexOutOfBounds(i, |ls|))
  }

  /** The `distances` list after the first `n` rows, or the first exception. */
  function Pairs(features: seq<real>, rows: seq<seq<real>>, labels: Option<seq<int>>, sqrt: real -> real, n: nat): (r: Result<seq<Neighbour>>)
    requires n <= |rows|
    ensures r.Ok? ==> |r.value| == n
    ensures r.Err? ==> r.failure.IndexOutOfBounds? || r.failure == Uninitialized("labels")
  {
    if n == 0 then Ok([])
    else
      match Pairs(features, rows, labels, sqrt, n - 1)
      case Err(f) => Err(f)
      case Ok(ps) =>
        match Row(features, rows, labels, n - 1, sqrt)
        case Err(f) => Err(f)
        case Ok(p) => Ok(ps + [p])
  }

  /** `distances.take(k)` after the stable sort: the first `k` pairs, or all
      of them when there are fewer. */
  function Nearest(ps: seq<Neighbour>, k: nat): (nearest: seq<Neighbour>)
    ensures |nearest| == if k < |ps| then k else |ps|
  {
    var sorted := StableSort(ps);
    if k < |sorted| then sorted[..k] else sorted
  }

  /** What `knnClassify(features, k)` returns or throws. */
  function Knn(features: seq<real>, featureMatrix: Option<seq<seq<real>>>, labels: Option<seq<int>>, k: int, sqrt: real -> real): (r: Result<string>)
    ensures r.Ok? ==> r.value in ClassNames
    ensures featureMatrix.None? ==> r == Err(Uninitialized("featureMatrix"))
    ensures r.Err? && r.failure.NegativeCount? ==> k < 0
  {
    match featureMatrix
    case None => Err(Uninitialized("featureMatrix"))
    case Some(rows) =>
      match Pairs(features, rows, labels, sqrt, |rows|)
      case Err(f) => Err(f)
      case Ok(ps) =>
        if k < 0 then Err(NegativeCount(k))
        else Ok(DisplayName(Votes.Vote(Votes.Categories(Nearest(ps, k)))))
  }

  /** What `classifyText(text)` computes before its `catch`. */
  function Classification(text: string, tables: Tables, sqrt: real -> real): (r: Result<string>)
    ensures r.Ok? ==> r.value in ClassNames
    ensures tables.vocabulary.None? ==> r == Err(Uninitialized("vocabulary"))
  {
    match tables.vocabulary
    case None => Err(Uninitialized("vocabulary"))
    case Some(vocabulary) =>
      match Features.FeatureVector(Tokenizer.Tokens(text), vocabulary, sqrt)
      case Err(f) => Err(f)
      case Ok(features) => Knn(features, tables.featureMatrix, tables.labels, K, sqrt)
  }

  /** The `catch` of `classifyText`: an exception becomes "Error: " and its
      message. */
  function Report(r: Result<string>): (reply: string)
    ensures r.Ok? ==> reply == r.value
    ensures r.Err? ==> |reply| > 7 && reply[..7] == "Error: "
  {
    match r
    case Ok(name) => name
    case Err(f) => "Error: " + Message(f)
  }

  /** The first loop of `knnClassify`: one `(distance, label)` pair per
      training row, in row order. */
  method BuildNeighbours(features: array<real>, rows: seq<seq<real>>, labels: Option<seq<int>>, sqrt: real -> real)
    returns (r: Result<array<Neighbour>>)
    ensures var spec := Pairs(features[..], rows, labels, sqrt, |rows|);
            r.Ok? == spec.Ok? &&
            (r.Ok? ==> fresh(r.value) && r.value[..] == spec.value) &&
            (r.Err? ==> r.failure == spec.failure)
  {
    var distances := new Neighbour[|rows|](_ => Neighbour(0.0, 0));
    for i := 0 to |rows|
      invariant Pairs(features[..], rows, labels, sqrt, i) == Ok(distances[..i])
    {
      var distance := Distance.EuclideanDistance(features, rows[i], sqrt);
      if distance.Err? {
        PairsKeepFailure(features[..], rows, labels, sqrt, i + 1, |rows|);
        return Err(distance.failure);
      }
      if labels.None? {
        PairsKeepFailure(features[..], rows, labels, sqrt, i + 1, |rows|);
        return Err(Uninitialized("labels"));
      }
      var ls := labels.value;
      if i >= |ls| {
        PairsKeepFailure(features[..], rows, labels, sqrt, i + 1, |rows|);
        return Err(IndexOutOfBounds(i, |ls|));
      }
      distances[i] := Neighbour(distance.value, ls[i]);
      assert distances[..i + 1] == distances[..i] + [distances[i]];
    }
    assert distances[..|rows|] == distances[..];
    return Ok(distances);
  }

  /** `knnClassify(features, k)` */
  method KnnClassify(features: array<real>, featureMatrix: Option<seq<seq<real>>>, labels: Option<seq<int>>, k: int, sqrt: real -> real)
    returns (r: Result<string>)
    ensures r == Knn(features[..], featureMatrix, labels, k, sqrt)
  {
    if featureMatrix.None? {
      return Err(Uninitialized("featureMatrix"));
    }
    var built := BuildNeighbours(features, featureMatrix.value, labels, sqrt);
    if built.Err? {
      return Err(built.failure);
    }
    var distances := built.value;
    SortByDistance(distances);
    if k < 0 {
      return Err(NegativeCount(k));
    }
    var nearest := if k < distances.Length then distances[..k] else distances[..];
    var predicted := Votes.PredictCategory(nearest);
    return Ok(DisplayName(predicted));
  }

  /** `classifyText(text)` */
  method ClassifyText(text: string, tables: Tables, sqrt: real -> real) returns (message: string)
    ensures message == Report(Classification(text, tables, sqrt))
  {
    if tables.vocabulary.None? {
      return "Error: " + Message(Uninitialized("vocabulary"));
    }
    var features := Features.ExtractFeatures(text, tables.vocabulary.value, sqrt);
    if features.Err? {
      return "Error: " + Message(features.failure);
    }
    var result := KnnClassify(features.value, tables.featureMatrix, tables.labels, K, sqrt);
    return Report(result);
  }

  // ---------------------------------------------------------------------
  // The neighbour list

  /** The first exception ends the loop: later rows are never looked at. */
  lemma {:induction false} PairsKeepFailure(features: seq<real>, rows: seq<seq<real>>, labels: Option<seq<int>>, sqrt: real -> real, n: nat, m: nat)
    requires n <= m <= |rows| && Pairs(features, rows, labels, sqrt, n).Err?
    ensures Pairs(features, rows, labels, sqrt, m) == Pairs(features, rows, labels, sqrt, n)
    decreases m
  {
    if n < m {
      PairsKeepFailure(features, rows, labels, sqrt, n, m - 1);
    }
  }

  /** The list succeeds exactly when every row is at least as long as the
      feature vector and `labels` is loaded and long enough, and then pair
      `i` is row `i`'s distance with label `i`. */
  lemma {:induction false} PairsMeaning(features: seq<real>, rows: seq<seq<real>>, labels: Option<seq<int>>, sqrt: real -> real, n: nat)
    requires n <= |rows|
    ensures Pairs(features, rows, labels, sqrt, n).Ok? <==>
              (forall i :: 0 <= i < n ==> |features| <= |rows[i]|) &&
              (n == 0 || (labels.Some? && n <= |labels.value|))
    ensures Pairs(features, rows, labels, sqrt, n).Ok? ==>
              var ps := Pairs(features, rows, labels, sqrt, n).value;
              |ps| == n &&
              forall i :: 0 <= i < n ==>
                ps[i] == Neighbour(sqrt(Distance.SquaredDistance(features, rows[i])), labels.value[i])
  {
    if n > 0 {
      PairsMeaning(features, rows, labels, sqrt, n - 1);
    }
  }

  /** The selected neighbours are the closest: none of the pairs left out is
      nearer than any pair taken. */
  lemma NearestAreClosest(ps: seq<Neighbour>, k: nat)
    ensures multiset(Nearest(ps, k)) <= multiset(ps)
    ensures forall x, y :: x in Nearest(ps, k) && y in multiset(ps) - multiset(Nearest(ps, k)) ==>
              x.distance <= y.distance
  {
    var sorted := StableSort(ps);
    StableSortSorted(ps);
    StableSortPermutes(ps);
    var nearest := Nearest(ps, k);
    var rest := sorted[|nearest|..];
    assert sorted == nearest + rest;
    SplitDifference(ps, nearest, rest);
    SortedSplit(nearest, rest);
  }

  /** What a split of a permutation of `ps` leaves after its first part. */
  lemma SplitDifference(ps: seq<Neighbour>, front: seq<Neighbour>, back: seq<Neighbour>)
    requires multiset(front + back) == multiset(ps)
    ensures multiset(front) <= multiset(ps)
    ensures forall y :: y in multiset(ps) - multiset(front) ==> y in back
  {
    assert multiset(ps) == multiset(front) + multiset(back);
    assert multiset(ps) - multiset(front) == multiset(back);
  }

  /** In a sorted sequence every entry of a front part is no farther than
      every entry of the back part. */
  lemma SortedSplit(front: seq<Neighbour>, back: seq<Neighbour>)
    requires Sorted(front + back)
    ensures forall x, y :: x in front && y in back ==> x.distance <= y.distance
  {
    forall x, y | x in front && y in back
      ensures x.distance <= y.distance
    {
      var i :| 0 <= i < |front| && front[i] == x;
      var j :| 0 <= j < |back| && back[j] == y;
      assert (front + back)[i] == x && (front + back)[|front| + j] == y;
    }
  }

  /** When `k` covers every row, the winner is a label of most training rows. */
  lemma VoteOverAllRows(ps: seq<Neighbour>, k: nat)
    requires ps != [] && |ps| <= k
    ensures var w := Votes.Vote(Votes.Categories(Nearest(ps, k)));
            w in Votes.Categories(ps) &&
            forall c :: c in Votes.Categories(ps) ==>
              Votes.Count(Votes.Categories(ps), c) <= Votes.Count(Votes.Categories(ps), w)
  {
    var cs := Votes.Categories(Nearest(ps, k));
    StableSortPermutes(ps);
    assert |StableSort(ps)| == |multiset(StableSort(ps))| == |ps|;
    assert Nearest(ps, k) == StableSort(ps);
    Votes.VoteIsPlurality(cs);
    var w := Votes.Vote(cs);
    Votes.CountOfSorted(ps, w);
    Votes.CountPositive(cs, w);
    Votes.CountPositive(Votes.Categories(ps), w);
    forall c | c in Votes.Categories(ps)
      ensures Votes.Count(Votes.Categories(ps), c) <= Votes.Count(Votes.Categories(ps), w)
    {
      Votes.CountOfSorted(ps, c);
      Votes.CountPositive(Votes.Categories(ps), c);
      Votes.CountPositive(cs, c);
    }
  }

  /** With an empty training matrix there is nothing to vote on: the result
      is the fallback code 0, shown as "Kelas 1", and `labels` is never read. */
  lemma EmptyMatrixYieldsFirstClass(features: seq<real>, labels: Option<seq<int>>, k: nat, sqrt: real -> real)
    ensures Knn(features, Some([]), labels, k, sqrt) == Ok("Kelas 1")
  {
    assert Nearest([], k) == [];
    assert Votes.Distinct([]) == [];
  }

  // ---------------------------------------------------------------------
  // The whole classification

  /** The reply of `classifyText` is one of the four display strings when
      classification succeeds, and it starts with "Error: " exactly when an
      exception was caught. */
  lemma ClassifyTextReply(text: string, tables: Tables, sqrt: real -> real)
    ensures var r := Classification(text, tables, sqrt);
            (r.Ok? ==> Report(r) in ClassNames) &&
            (r.Err? <==> |Report(r)| >= 7 && Report(r)[..7] == "Error: ")
  {
    var r := Classification(text, tables, sqrt);
    if r.Ok? {
      assert Report(r)[0] != 'E';
    }
  }

  /** Loaded, consistent tables never make classification fail: every
      vocabulary column fits the feature vector, every training row is at
      least that long, and there is a label for every row. */
  lemma WellFormedTablesNeverFail(text: string, tables: Tables, sqrt: real -> real)
    requires tables.vocabulary.Some? && tables.featureMatrix.Some? && tables.labels.Some?
    requires forall t :: t in tables.vocabulary.value ==> 0 <= tables.vocabulary.value[t] < |tables.vocabulary.value|
    requires forall i :: 0 <= i < |tables.featureMatrix.value| ==> |tables.vocabulary.value| <= |tables.featureMatrix.value[i]|
    requires |tables.featureMatrix.value| <= |tables.labels.value|
    ensures Classification(text, tables, sqrt).Ok?
  {
    var vocabulary := tables.vocabulary.value;
    var tokens := Tokenizer.Tokens(text);
    Features.FeatureVectorFails(tokens, vocabulary, sqrt);
    var features := Features.FeatureVector(tokens, vocabulary, sqrt).value;
    var rows := tables.featureMatrix.value;
    PairsMeaning(features, rows, tables.labels, sqrt, |rows|);
  }

  /** A worked example: a three-word vocabulary, one training row per word
      with labels 0, 1 and 2, and the query "good". Its feature vector is
      already of unit length and equal to row 0, so row 0 comes first and
      the three-way tie among the labels goes to label 0. */
  lemma GoodExample(sqrt: real -> real)
    requires sqrt(0.0) == 0.0 && sqrt(1.0) == 1.0 && sqrt(2.0) > 0.0
    ensures Classification(
              "good",
              Tables(
                Some(map["good" := 0, "bad" := 1, "ok" := 2]),
                Some([[1.0, 0.0, 0.0], [0.0, 1.0, 0.0], [0.0, 0.0, 1.0]]),
                Some([0, 1, 2])),
              sqrt) == Ok("Kelas 1")
  {
    GoodFeatures(sqrt);
    var features := [1.0, 0.0, 0.0];
    var rows := [[1.0, 0.0, 0.0], [0.0, 1.0, 0.0], [0.0, 0.0, 1.0]];
    GoodPairs(sqrt);
    var ps := [Neighbour(0.0, 0), Neighbour(sqrt(2.0), 1), Neighbour(sqrt(2.0), 2)];
    GoodVote(ps);
  }

  lemma GoodFeatures(sqrt: real -> real)
    requires sqrt(1.0) == 1.0
    ensures Features.FeatureVector(Tokenizer.Tokens("good"), map["good" := 0, "bad" := 1, "ok" := 2], sqrt)
            == Ok([1.0, 0.0, 0.0])
  {
    var vocabulary := map["good" := 0, "bad" := 1, "ok" := 2];
    GoodTokens();
    assert |vocabulary| == 3;
    GoodCounts(vocabulary);
    GoodNormalise(sqrt);
  }

  lemma GoodNormalise(sqrt: real -> real)
    requires sqrt(1.0) == 1.0
    ensures Features.Normalise([1.0, 0.0, 0.0], sqrt) == [1.0, 0.0, 0.0]
  {
    var counts := [1.0, 0.0, 0.0];
    assert counts[1..][1..][1..] == [];
    assert Features.SumSquares(counts[1..][1..]) == 0.0;
    assert Features.SumSquares(counts) == 1.0;
    assert Features.Scale(counts, 1.0) == counts;
  }

  lemma GoodTokens()
    ensures Tokenizer.Tokens("good") == ["good"]
  {
    assert Tokenizer.IsToken("good");
    Tokenizer.TokensOfJoin(["good"]);
  }

  lemma GoodCounts(vocabulary: Features.Vocabulary)
    requires vocabulary == map["good" := 0, "bad" := 1, "ok" := 2]
    ensures Features.FirstMisplaced(["good"], vocabulary, 3) == None
    ensures Features.Tally(["good"], vocabulary, 3) == [1.0, 0.0, 0.0]
  {
    assert ["good"][..0] == [];
    assert Features.Tally([], vocabulary, 3) == [0.0, 0.0, 0.0];
  }

  lemma GoodPairs(sqrt: real -> real)
    requires sqrt(0.0) == 0.0
    ensures Pairs([1.0, 0.0, 0.0], [[1.0, 0.0, 0.0], [0.0, 1.0, 0.0], [0.0, 0.0, 1.0]], Some([0, 1, 2]), sqrt, 3)
            == Ok([Neighbour(0.0, 0), Neighbour(sqrt(2.0), 1), Neighbour(sqrt(2.0), 2)])
  {
    var features := [1.0, 0.0, 0.0];
    var rows := [[1.0, 0.0, 0.0], [0.0, 1.0, 0.0], [0.0, 0.0, 1.0]];
    Distance.SquaredDistanceToSelf(features, rows[0]);
    assert features[..2][..1][..0] == [];
    assert Distance.SquaredDistance(features[..2][..1], rows[1]) == 1.0;
    assert Distance.SquaredDistance(features[..2], rows[1]) == 2.0;
    assert Distance.SquaredDistance(features, rows[1]) == 2.0;
    assert Distance.SquaredDistance(features[..2][..1], rows[2]) == 1.0;
    assert Distance.SquaredDistance(features[..2], rows[2]) == 1.0;
    assert Distance.SquaredDistance(features, rows[2]) == 2.0;
    var labels := Some([0, 1, 2]);
    PairsMeaning(features, rows, labels, sqrt, 3);
    assert forall i :: 0 <= i < 3 ==> |features| <= |rows[i]|;
    var ps := Pairs(features, rows, labels, sqrt, 3).value;
    assert ps[0] == Neighbour(0.0, 0);
    assert ps[1] == Neighbour(sqrt(2.0), 1);
    assert ps[2] == Neighbour(sqrt(2.0), 2);
    assert ps == [Neighbour(0.0, 0), Neighbour(sqrt(2.0), 1), Neighbour(sqrt(2.0), 2)];
  }

  lemma GoodVote(ps: seq<Neighbour>)
    requires |ps| == 3 && ps[0] == Neighbour(0.0, 0) && ps[1].distance > 0.0 && ps[2].distance == ps[1].distance
    requires ps[1].category == 1 && ps[2].category == 2
    ensures DisplayName(Votes.Vote(Votes.Categories(Nearest(ps, 3)))) == "Kelas 1"
  {
    assert ps[..2][..1][..0] == [];
    assert StableSort(ps[..2][..1]) == ps[..1];
    assert StableSort(ps[..2]) == ps[..2];
    assert StableSort(ps) == ps;
    assert Nearest(ps, 3) == ps;
    assert Votes.Categories(ps) == [0, 1, 2];
    Votes.TieBreakOfThree();
  }
}
