/** The ranking of `problem_2b`: W is normalised so that every column sums to one,
    and each column (topic) reports its 10 largest weights, largest first, together
    with the rows (words) they belong to. */
module Topics {
  import opened Outcome
  import opened Matrices
  import opened Sorting
  import Divergence

  /** How many words each topic reports: the `[-10:]` applied to both sort results. */
  const TopCount: nat := 10

  function Min(a: nat, b: nat): nat {
    if a <= b then a else b
  }

  /** `W / np.sum(W, axis=0)`: each column divided by its own sum. A zero
      column sum would make numpy produce nan; the model reports it instead. */
  function Normalise(W: Mat): (r: Result<Mat, NumericError>)
    ensures r.Ok? <==> NoZero(ColSums(W))
    ensures r.Ok? ==> SameShape(r.value, W)
    ensures r.Ok? && NonNeg(W) ==> NonNeg(r.value)
  {
    if NoZero(ColSums(W)) then
      NormalisedNonNeg(W);
      Ok(DivByRow(W, ColSums(W)))
    else Err(ZeroNormaliser)
  }

  /** Dividing a non-negative W by its (then non-negative) column sums keeps it
      non-negative. */
  lemma NormalisedNonNeg(W: Mat)
    requires NoZero(ColSums(W))
    ensures NonNeg(W) ==> NonNeg(DivByRow(W, ColSums(W)))
  {
    if NonNeg(W) {
      DivByRowNonNeg(W, ColSums(W));
    }
  }

  /** After normalising, column `j` is column `j` of W scaled by its sum, and it sums
      to one. */
  lemma NormalisedColumnSumsToOne(W: Mat, j: nat)
    requires Normalise(W).Ok? && j < W.cols
    ensures var N := Normalise(W).value;
      && (forall i :: 0 <= i < W.rows ==> N.at[i][j] == W.at[i][j] / Sum(Column(W, j)))
      && Sum(Column(N, j)) == 1.0
  {
    var N := Normalise(W).value;
    var d := Sum(Column(W, j));
    assert ColSums(W)[j] == d;
    assert N == DivByRow(W, ColSums(W));
    forall i | 0 <= i < W.rows ensures N.at[i][j] == W.at[i][j] / d {
    }
    SumScale(Column(W, j), Column(N, j), d);
    DivSelf(d);
  }

  lemma DivSelf(d: real)
    requires d != 0.0
    ensures d / d == 1.0
  {
  }

  /** Normalised weights of a non-negative W lie between zero and one. */
  lemma NormalisedWithinUnit(W: Mat, i: nat, j: nat)
    requires Normalise(W).Ok? && NonNeg(W) && i < W.rows && j < W.cols
    ensures 0.0 <= Normalise(W).value.at[i][j] <= 1.0
  {
    var N := Normalise(W).value;
    NormalisedColumnSumsToOne(W, j);
    TermAtMostSum(Column(N, j), i);
  }

  // ------------------------------------------------------------- top ten

  /** Python's `s[-k:]` for k > 0: the last k entries, or all of them when there
      are fewer. */
  function Last<T>(s: seq<T>, k: nat): (r: seq<T>)
    ensures |r| == Min(k, |s|)
  {
    s[|s| - Min(k, |s|)..]
  }

  /** Python's `s[::-1]`. */
  function Reverse<T>(s: seq<T>): (r: seq<T>)
    ensures |r| == |s|
  {
    seq(|s|, i requires 0 <= i < |s| => s[|s| - 1 - i])
  }

  /** Entry `t` of `s[-10:][::-1]` is entry `t` counted from the end of `s`. */
  lemma TopEntry<T>(s: seq<T>, t: nat)
    requires t < Min(TopCount, |s|)
    ensures |Reverse(Last(s, TopCount))| == Min(TopCount, |s|)
    ensures Reverse(Last(s, TopCount))[t] == s[|s| - 1 - t]
  {
    var k := Min(TopCount, |s|);
    assert Last(s, TopCount)[k - 1 - t] == s[|s| - k + (k - 1 - t)];
  }

  /** The word indices of one topic: `np.argsort(c)[-10:][::-1]`. */
  function TopWords(c: seq<real>): (words: seq<nat>)
    ensures |words| == Min(TopCount, |c|)
    ensures InRange(words, |c|) && Distinct(words)
  {
    TopOfDistinct(ArgSort(c), |c|);
    Reverse(Last(ArgSort(c), TopCount))
  }

  /** The weights of one topic: `np.sort(c)[-10:][::-1]`. */
  function TopWeights(c: seq<real>): (weights: seq<real>)
    ensures |weights| == Min(TopCount, |c|)
    ensures Descending(weights)
  {
    TopOfAscending(Sort(c));
    Reverse(Last(Sort(c), TopCount))
  }

  /** Non-increasing order. */
  predicate Descending(s: seq<real>) {
    forall i, j :: 0 <= i < j < |s| ==> s[i] >= s[j]
  }

  /** Both lists hold min(10, |c|) entries, the words are distinct rows of the
      column, and the t-th weight is the weight of the t-th word. */
  lemma TopPairs(c: seq<real>)
    ensures |TopWords(c)| == |TopWeights(c)| == Min(TopCount, |c|)
    ensures InRange(TopWords(c), |c|) && Distinct(TopWords(c))
    ensures forall t :: 0 <= t < |TopWords(c)| ==> TopWeights(c)[t] == c[TopWords(c)[t]]
  {
    var p := ArgSort(c);
    var v := Sort(c);
    ArgSortMatchesSort(c);
    assert forall i :: 0 <= i < |p| ==> v[i] == Values(c, p)[i];
    forall t | 0 <= t < Min(TopCount, |c|) ensures TopWeights(c)[t] == c[TopWords(c)[t]] {
      TopsAgree(c, p, v, t);
    }
  }

  /** Taking the last ten of an index order and of the values it names, both
      reversed, keeps each value next to its index. */
  lemma TopsAgree(c: seq<real>, p: seq<nat>, v: seq<real>, t: nat)
    requires |p| == |v| == |c| && InRange(p, |c|)
    requires forall i :: 0 <= i < |p| ==> v[i] == c[p[i]]
    requires t < Min(TopCount, |c|)
    ensures Reverse(Last(v, TopCount))[t] == c[Reverse(Last(p, TopCount))[t]]
  {
    TopEntry(p, t);
    TopEntry(v, t);
  }

  /** The last ten of distinct valid indices, reversed, are distinct valid indices. */
  lemma TopOfDistinct(p: seq<nat>, n: nat)
    requires InRange(p, n) && Distinct(p)
    ensures InRange(Reverse(Last(p, TopCount)), n) && Distinct(Reverse(Last(p, TopCount)))
  {
    var words := Reverse(Last(p, TopCount));
    forall t | 0 <= t < |words| ensures words[t] == p[|p| - 1 - t] {
      TopEntry(p, t);
    }
    forall s, t | 0 <= s < t < |words| ensures words[s] != words[t] {
      assert p[|p| - 1 - t] != p[|p| - 1 - s];
    }
  }

  /** The last ten of an ascending sequence, reversed, are in non-increasing order. */
  lemma TopOfAscending(v: seq<real>)
    requires Ascending(v)
    ensures Descending(Reverse(Last(v, TopCount)))
  {
    var n := |v|;
    var weights := Reverse(Last(v, TopCount));
    forall s, t | 0 <= s < t < |weights| ensures weights[s] >= weights[t] {
      TopEntry(v, s);
      TopEntry(v, t);
      assert v[n - 1 - t] <= v[n - 1 - s];
    }
  }

  /** A row that is not reported weighs no more than any reported word. */
  lemma TopAreLargest(c: seq<real>, j: nat, t: nat)
    requires j < |c| && j !in TopWords(c) && t < |TopWeights(c)|
    ensures c[j] <= TopWeights(c)[t]
  {
    var p := ArgSort(c);
    var n := |c|;
    var k := Min(TopCount, n);
    TopPairs(c);
    ArgSortCovers(c, j);
    var i :| 0 <= i < n && p[i] == j;
    if i >= n - k {
      TopEntry(p, n - 1 - i);
      assert false;
    }
    TopEntry(p, t);
    assert Values(c, p)[i] <= Values(c, p)[n - 1 - t];
  }

  // ------------------------------------------------------------ the table

  /** The words and weights one topic reports. */
  datatype Topic = Topic(words: seq<nat>, weights: seq<real>)

  /** The ranking of `problem_2b`: normalise W, then rank every column (`.T` makes the columns
      of W the rows of the two index tables). */
  function TopicTable(W: Mat): (r: Result<seq<Topic>, NumericError>)
    ensures r.Ok? <==> NoZero(ColSums(W))
    ensures r.Ok? ==> |r.value| == W.cols
  {
    var N :- Normalise(W);
    Ok(seq(N.cols, k requires 0 <= k < N.cols =>
      Topic(TopWords(Column(N, k)), TopWeights(Column(N, k)))))
  }

  /** Topic `k` lists min(10, N) distinct words in order of falling normalised
      weight, each with its own normalised weight, and no unlisted word outweighs a
      listed one. */
  lemma TopicTableSpec(W: Mat, k: nat)
    requires TopicTable(W).Ok? && k < W.cols
    ensures var N := Normalise(W).value;
      var topic := TopicTable(W).value[k];
      && |topic.words| == |topic.weights| == Min(TopCount, W.rows)
      && InRange(topic.words, W.rows) && Distinct(topic.words)
      && (forall t :: 0 <= t < |topic.words| ==> topic.weights[t] == N.at[topic.words[t]][k])
      && (forall s, t :: 0 <= s < t < |topic.weights| ==> topic.weights[s] >= topic.weights[t])
      && (forall j, t :: 0 <= j < W.rows && j !in topic.words && 0 <= t < |topic.weights| ==>
            N.at[j][k] <= topic.weights[t])
  {
    var N := Normalise(W).value;
    var c := Column(N, k);
    TopPairs(c);
    forall j, t | 0 <= j < W.rows && j !in TopWords(c) && 0 <= t < |TopWeights(c)|
      ensures N.at[j][k] <= TopWeights(c)[t]
    {
      TopAreLargest(c, j, t);
    }
  }

  /** The factor W of a supported run, from counts with a positive entry, has no
      zero column, so its topics are well defined. */
  lemma SupportedFactorHasTopics(X: Mat, W: Mat, H: Mat)
    requires Divergence.Supported(X, W, H) && Divergence.HasPositiveEntry(X)
    ensures TopicTable(W).Ok?
  {
    var n0, m0 :| 0 <= n0 < X.rows && 0 <= m0 < X.cols && X.at[n0][m0] > 0.0;
    assert Divergence.RowActive(X, n0);
    forall j | 0 <= j < W.cols ensures ColSums(W)[j] != 0.0 {
      SumPositive(Column(W, j), n0);
    }
  }

  /** `train` from strictly positive factors, on counts with a positive entry,
      hands `problem_2b` a W whose topic table is defined after any number of
      updates. */
  lemma TrainedFactorHasTopics(X: Mat, W0: Mat, H0: Mat, t: nat)
    requires Divergence.Conformable(X, W0, H0) && W0.cols > 0
    requires NonNeg(X) && Positive(W0) && Positive(H0)
    requires Divergence.HasPositiveEntry(X)
    ensures Divergence.Run(X, W0, H0, t).Ok?
    ensures TopicTable(Divergence.Run(X, W0, H0, t).value.w).Ok?
  {
    Divergence.RunSupported(X, W0, H0, t);
    var f := Divergence.Run(X, W0, H0, t).value;
    SupportedFactorHasTopics(X, f.w, f.h);
  }
}
