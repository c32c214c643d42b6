/** The script's main block: read the counts, train, rank. The decoded integer
    counts become the real matrix `train` works on, and the facts the training
    and ranking lemmas assume about that matrix are derived from the input. */
module Pipeline {
  import opened Outcome
  import opened Matrices
  import NytData
  import Divergence
  import Topics

  /** The decoded counts as the float array numpy holds (`np.zeros` is a float
      array, so each stored `int(cnt)` becomes a float). */
  function CountMatrix(X: seq<seq<int>>): (A: Mat)
    requires NytData.IsGrid(X, NytData.NumWords, NytData.NumDocuments)
    ensures A.rows == NytData.NumWords && A.cols == NytData.NumDocuments
    ensures forall r, c :: 0 <= r < A.rows && 0 <= c < A.cols ==> A.at[r][c] == X[r][c] as real
  {
    Matrix(NytData.NumWords, NytData.NumDocuments,
      seq(NytData.NumWords, r requires 0 <= r < NytData.NumWords =>
        seq(NytData.NumDocuments, c requires 0 <= c < NytData.NumDocuments => X[r][c] as real)))
  }

  /** Every count in the input is non-negative. */
  predicate CountsNonNeg(lines: seq<NytData.Line>) {
    forall d, p :: 0 <= d < |lines| && 0 <= p < |lines[d]| && lines[d][p].Pair? ==> lines[d][p].count >= 0
  }

  /** Non-negative counts decode to a non-negative matrix, as the updates need. */
  lemma DecodedCountsNonNeg(lines: seq<NytData.Line>)
    requires NytData.Decode(lines).Ok? && CountsNonNeg(lines)
    ensures NonNeg(CountMatrix(NytData.Decode(lines).value))
  {
    NytData.DecodeNonNeg(lines);
  }

  /** A positive count at index 1..3012 that no later token of its line overrides
      leaves a positive entry in the matrix. */
  lemma DecodedHasPositiveEntry(lines: seq<NytData.Line>, j: nat, k: nat)
    requires NytData.Decode(lines).Ok?
    requires j < |lines| && k < |lines[j]| && lines[j][k].Pair?
    requires 1 <= lines[j][k].index <= NytData.NumWords && lines[j][k].count > 0
    requires forall q :: k < q < |lines[j]| ==>
      NytData.TargetRow(lines[j][q], NytData.NumWords) != Some(lines[j][k].index - 1)
    ensures Divergence.HasPositiveEntry(CountMatrix(NytData.Decode(lines).value))
  {
    NytData.DecodeSetsEntry(lines, j, k);
    var A := CountMatrix(NytData.Decode(lines).value);
    assert A.at[lines[j][k].index - 1][j] > 0.0;
  }

  /** Why the script stops: the read fails, or numpy would divide by zero. */
  datatype ScriptError = ReadFailed(read: NytData.DecodeError) | Numeric(numeric: NumericError)

  /** `X = get_nyt_data(...)`, `objectives, W = train(X)`, then the topic table of
      `problem_2b`, with the random starting factors as parameters. */
  method Script(lines: seq<NytData.Line>, W0: Mat, H0: Mat, log: real -> real)
    returns (r: Result<(seq<real>, seq<Topics.Topic>), ScriptError>)
    requires CountsNonNeg(lines)
    requires W0.rows == NytData.NumWords && W0.cols == Divergence.Rank && Positive(W0)
    requires H0.rows == Divergence.Rank && H0.cols == NytData.NumDocuments && Positive(H0)
    ensures NytData.Decode(lines).Err? ==> r == Err(ReadFailed(NytData.Decode(lines).error))
    ensures NytData.Decode(lines).Ok? && Divergence.HasPositiveEntry(CountMatrix(NytData.Decode(lines).value)) ==>
      r.Ok?
    ensures r.Err? && r.error.ReadFailed? <==> NytData.Decode(lines).Err?
    ensures r.Ok? ==> |r.value.0| == Divergence.Iterations && |r.value.1| == Divergence.Rank
    ensures r.Ok? ==>
      var X := CountMatrix(NytData.Decode(lines).value);
      Divergence.Admissible(X, W0, H0) && Divergence.Run(X, W0, H0, Divergence.Iterations).Ok? &&
      r.value.0 == Divergence.Trace(X, W0, H0, Divergence.Iterations, log) &&
      Topics.TopicTable(Divergence.Run(X, W0, H0, Divergence.Iterations).value.w) == Ok(r.value.1)
  {
    var decoded := NytData.Decode(lines);
    if decoded.Err? {
      return Err(ReadFailed(decoded.error));
    }
    var X := CountMatrix(decoded.value);
    DecodedCountsNonNeg(lines);
    var trained := Divergence.Train(X, W0, H0, log);
    if trained.Err? {
      if Divergence.HasPositiveEntry(X) {
        Divergence.RunSupported(X, W0, H0, Divergence.Iterations);
      }
      return Err(Numeric(trained.error));
    }
    var table := Topics.TopicTable(trained.value.w);
    if table.Err? {
      if Divergence.HasPositiveEntry(X) {
        Topics.TrainedFactorHasTopics(X, W0, H0, Divergence.Iterations);
      }
      return Err(Numeric(table.error));
    }
    r := Ok((trained.value.objectives, table.value));
  }
}
