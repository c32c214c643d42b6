/** The divergence-penalty NMF of `train`: one multiplicative update of H and then W,
    repeated a fixed 100 times with the objective recorded after each update.
    Where numpy would divide by zero (and carry inf or nan on), the model stops
    with `ZeroNormaliser`. */
module Divergence {
  import opened Outcome
  import opened Matrices

  /** Number of topics: the inner dimension of W·H. */
  const Rank: nat := 25
  /** Number of updates `train` performs. */
  const Iterations: nat := 100
  /** `err = 1e-16`, added to the reconstruction before X is divided by it. */
  const Eps: real := 0.0000000000000001

  /** X is N×M, W is N×K and H is K×M. */
  predicate Conformable(X: Mat, W: Mat, H: Mat) {
    W.rows == X.rows && W.cols == H.rows && H.cols == X.cols
  }

  /** Shapes agree with at least one topic, and every entry is non-negative, as
      counts and the positive initial factors make them. With no topic at all,
      `np.sum(W, axis=0)` is empty and `row_to_col_matrix` returns a flat empty
      array instead of a column, which H cannot be divided by. */
  predicate Admissible(X: Mat, W: Mat, H: Mat) {
    Conformable(X, W, H) && W.cols > 0 && NonNeg(X) && NonNeg(W) && NonNeg(H)
  }

  /** `np.dot(W, H) + err`. */
  function Shifted(W: Mat, H: Mat): (D: Mat)
    requires W.cols == H.rows && NonNeg(W) && NonNeg(H)
    ensures D.rows == W.rows && D.cols == H.cols && NoZeroEntry(D)
    ensures forall n, m :: 0 <= n < D.rows && 0 <= m < D.cols ==> D.at[n][m] > 0.0
  {
    MatMulNonNeg(W, H);
    AddPositiveNoZero(MatMul(W, H), Eps);
    AddScalar(MatMul(W, H), Eps)
  }

  /** The ratio factor of the H update, `np.dot(W.T, X / (np.dot(W, H) + err))`. */
  function HRatio(X: Mat, W: Mat, H: Mat): (A: Mat)
    requires Admissible(X, W, H)
    ensures SameShape(A, H) && NonNeg(A)
  {
    var D := Shifted(W, H);
    DivNonNeg(X, D);
    MatMulNonNeg(Transpose(W), Div(X, D));
    MatMul(Transpose(W), Div(X, D))
  }

  /** The ratio factor of the W update, `(X / (np.dot(W, H) + err)).dot(H.T)`. */
  function WRatio(X: Mat, W: Mat, H: Mat): (B: Mat)
    requires Admissible(X, W, H)
    ensures SameShape(B, W) && NonNeg(B)
  {
    var D := Shifted(W, H);
    DivNonNeg(X, D);
    MatMulNonNeg(Div(X, D), Transpose(H));
    MatMul(Div(X, D), Transpose(H))
  }

  /** The H update of `train` as numpy evaluates it:
      `H * (W.T · (X / (W·H + err))) / row_to_col_matrix(np.sum(W, axis=0))`. */
  function HMatrixForm(X: Mat, W: Mat, H: Mat): (H1: Mat)
    requires Admissible(X, W, H) && NoZero(ColSums(W))
    ensures SameShape(H1, H) && NonNeg(H1)
  {
    var C := RowToColMatrix(ColSums(W));
    MulNonNeg(H, HRatio(X, W, H));
    DivByColumnNonNeg(Mul(H, HRatio(X, W, H)), C);
    DivByColumn(Mul(H, HRatio(X, W, H)), C)
  }

  /** The W update of `train` as numpy evaluates it:
      `W * ((X / (W·H + err)) · H.T) / np.sum(H, axis=1)`. */
  function WMatrixForm(X: Mat, W: Mat, H: Mat): (W1: Mat)
    requires Admissible(X, W, H) && NoZero(RowSums(H))
    ensures SameShape(W1, W) && NonNeg(W1)
  {
    MulNonNeg(W, WRatio(X, W, H));
    DivByRowNonNeg(Mul(W, WRatio(X, W, H)), RowSums(H));
    DivByRow(Mul(W, WRatio(X, W, H)), RowSums(H))
  }

  /** The H update, entry by entry (`HRule`); `UpdateHIsMatrixForm` shows it is
      the matrix expression `HMatrixForm`. */
  function UpdateH(X: Mat, W: Mat, H: Mat): (H1: Mat)
    requires Admissible(X, W, H) && NoZero(ColSums(W))
    ensures SameShape(H1, H) && NonNeg(H1)
  {
    HRulesNonNeg(X, W, H);
    Matrix(H.rows, H.cols,
      seq(H.rows, k requires 0 <= k < H.rows =>
        seq(H.cols, m requires 0 <= m < H.cols => HRule(X, W, H, k, m))))
  }

  /** The W update, entry by entry (`WRule`); `UpdateWIsMatrixForm` shows it is
      the matrix expression `WMatrixForm`. */
  function UpdateW(X: Mat, W: Mat, H: Mat): (W1: Mat)
    requires Admissible(X, W, H) && NoZero(RowSums(H))
    ensures SameShape(W1, W) && NonNeg(W1)
  {
    WRulesNonNeg(X, W, H);
    Matrix(W.rows, W.cols,
      seq(W.rows, n requires 0 <= n < W.rows =>
        seq(W.cols, k requires 0 <= k < W.cols => WRule(X, W, H, n, k))))
  }

  datatype Factors = Factors(w: Mat, h: Mat)

  /** One pass of the loop body of `train`: H first, then W from the new H. Either
      normaliser (a column sum of W, a row sum of the new H) is a bare sum with no
      `err` added; when one is zero numpy would yield nan, and the model stops. */
  function Step(X: Mat, W: Mat, H: Mat): (r: Result<Factors, NumericError>)
    requires Admissible(X, W, H)
    ensures r.Ok? ==> SameShape(r.value.w, W) && SameShape(r.value.h, H)
    ensures r.Ok? ==> NonNeg(r.value.w) && NonNeg(r.value.h)
    ensures r.Err? <==> !NoZero(ColSums(W)) || !NoZero(RowSums(UpdateH(X, W, H)))
  {
    if !NoZero(ColSums(W)) then Err(ZeroNormaliser)
    else
      var H1 := UpdateH(X, W, H);
      if !NoZero(RowSums(H1)) then Err(ZeroNormaliser)
      else Ok(Factors(UpdateW(X, W, H1), H1))
  }

  // ------------------------------------------------ the update, entry by entry

  /** (W·H)[n, m] as a sum over topics. */
  function Recon(W: Mat, H: Mat, n: nat, m: nat): (v: real)
    requires W.cols == H.rows && n < W.rows && m < H.cols
    ensures NonNeg(W) && NonNeg(H) ==> v >= 0.0
  {
    ReconTermsNonNeg(W, H, n, m);
    Sum(ReconTerms(W, H, n, m))
  }

  function ReconTerms(W: Mat, H: Mat, n: nat, m: nat): (t: seq<real>)
    requires W.cols == H.rows && n < W.rows && m < H.cols
    ensures |t| == W.cols
  {
    seq(W.cols, l requires 0 <= l < W.cols => W.at[n][l] * H.at[l][m])
  }

  lemma ReconTermsNonNeg(W: Mat, H: Mat, n: nat, m: nat)
    requires W.cols == H.rows && n < W.rows && m < H.cols
    ensures NonNeg(W) && NonNeg(H) ==> Sum(ReconTerms(W, H, n, m)) >= 0.0
  {
    var terms := ReconTerms(W, H, n, m);
    if NonNeg(W) && NonNeg(H) {
      forall l | 0 <= l < W.cols ensures terms[l] >= 0.0 {
        assert W.at[n][l] >= 0.0 && H.at[l][m] >= 0.0;
      }
      SumNonNeg(terms);
    }
  }

  /** The terms Σₙ W[n,k]·X[n,m] / ((W·H)[n,m] + ε) of the H update. */
  function HTerms(X: Mat, W: Mat, H: Mat, k: nat, m: nat): (t: seq<real>)
    requires Admissible(X, W, H) && k < W.cols && m < X.cols
    ensures |t| == X.rows
  {
    seq(X.rows, n requires 0 <= n < X.rows => W.at[n][k] * (X.at[n][m] / (Recon(W, H, n, m) + Eps)))
  }

  /** The terms Σₘ X[n,m] / ((W·H)[n,m] + ε) · H[k,m] of the W update. */
  function WTerms(X: Mat, W: Mat, H: Mat, n: nat, k: nat): (t: seq<real>)
    requires Admissible(X, W, H) && n < X.rows && k < W.cols
    ensures |t| == X.cols
  {
    seq(X.cols, m requires 0 <= m < X.cols => X.at[n][m] / (Recon(W, H, n, m) + Eps) * H.at[k][m])
  }

  /** The H rule: H[k,m] · (Σₙ W[n,k]·X[n,m]/((W·H)[n,m]+ε)) / Σₙ W[n,k]. */
  function HRule(X: Mat, W: Mat, H: Mat, k: nat, m: nat): real
    requires Admissible(X, W, H) && k < H.rows && m < H.cols
    requires Sum(Column(W, k)) != 0.0
  {
    H.at[k][m] * Sum(HTerms(X, W, H, k, m)) / Sum(Column(W, k))
  }

  /** The W rule: W[n,k] · (Σₘ X[n,m]/((W·H)[n,m]+ε)·H[k,m]) / Σₘ H[k,m]. */
  function WRule(X: Mat, W: Mat, H: Mat, n: nat, k: nat): real
    requires Admissible(X, W, H) && n < W.rows && k < W.cols
    requires Sum(H.at[k]) != 0.0
  {
    W.at[n][k] * Sum(WTerms(X, W, H, n, k)) / Sum(H.at[k])
  }

  lemma ShiftedIsRecon(W: Mat, H: Mat, n: nat, m: nat)
    requires W.cols == H.rows && NonNeg(W) && NonNeg(H) && n < W.rows && m < H.cols
    ensures Shifted(W, H).at[n][m] == Recon(W, H, n, m) + Eps
  {
    var u := W.at[n];
    var v := Column(H, m);
    var terms := seq(|u|, i requires 0 <= i < |u| => u[i] * v[i]);
    var ref := ReconTerms(W, H, n, m);
    assert |u| == W.cols;
    forall i | 0 <= i < |terms| ensures terms[i] == ref[i] {
      assert v[i] == H.at[i][m];
    }
    assert terms == ref;
    assert MatMul(W, H).at[n][m] == Sum(terms);
  }

  /** The H ratio factor at (k, m) is the sum of the H-update terms. */
  lemma HRatioEntry(X: Mat, W: Mat, H: Mat, k: nat, m: nat)
    requires Admissible(X, W, H) && k < H.rows && m < H.cols
    ensures HRatio(X, W, H).at[k][m] == Sum(HTerms(X, W, H, k, m))
  {
    var Q := Div(X, Shifted(W, H));
    var Wt := Transpose(W);
    var u := Wt.at[k];
    var v := Column(Q, m);
    forall n | 0 <= n < X.rows ensures v[n] == X.at[n][m] / (Recon(W, H, n, m) + Eps) {
      ShiftedIsRecon(W, H, n, m);
    }
    var terms := seq(|u|, i requires 0 <= i < |u| => u[i] * v[i]);
    var ref := HTerms(X, W, H, k, m);
    assert |u| == X.rows;
    forall i | 0 <= i < |terms| ensures terms[i] == ref[i] {
      assert u[i] == W.at[i][k];
    }
    assert terms == ref;
    assert MatMul(Wt, Q).at[k][m] == Sum(terms);
  }

  /** The W ratio factor at (n, k) is the sum of the W-update terms. */
  lemma WRatioEntry(X: Mat, W: Mat, H: Mat, n: nat, k: nat)
    requires Admissible(X, W, H) && n < W.rows && k < W.cols
    ensures WRatio(X, W, H).at[n][k] == Sum(WTerms(X, W, H, n, k))
  {
    var Q := Div(X, Shifted(W, H));
    var Ht := Transpose(H);
    var u := Q.at[n];
    var v := Column(Ht, k);
    forall m | 0 <= m < X.cols ensures u[m] == X.at[n][m] / (Recon(W, H, n, m) + Eps) {
      ShiftedIsRecon(W, H, n, m);
    }
    var terms := seq(|u|, i requires 0 <= i < |u| => u[i] * v[i]);
    var ref := WTerms(X, W, H, n, k);
    assert |u| == X.cols;
    forall i | 0 <= i < |terms| ensures terms[i] == ref[i] {
      assert v[i] == H.at[k][i];
    }
    assert terms == ref;
    assert MatMul(Q, Ht).at[n][k] == Sum(terms);
  }

  /** The matrix form of the H update, entry by entry:
      H′[k,m] = H[k,m] · (Σₙ W[n,k]·X[n,m]/((W·H)[n,m]+ε)) / Σₙ W[n,k]. */
  lemma HMatrixFormEntry(X: Mat, W: Mat, H: Mat, k: nat, m: nat)
    requires Admissible(X, W, H) && NoZero(ColSums(W))
    requires k < H.rows && m < H.cols
    ensures Sum(Column(W, k)) != 0.0
    ensures HMatrixForm(X, W, H).at[k][m] == HRule(X, W, H, k, m)
  {
    assert ColSums(W)[k] == Sum(Column(W, k));
    HRatioEntry(X, W, H, k, m);
    var C := RowToColMatrix(ColSums(W));
    assert C.at[k][0] == Column(C, 0)[k];
  }

  /** The matrix form of the W update, entry by entry:
      W′[n,k] = W[n,k] · (Σₘ X[n,m]/((W·H)[n,m]+ε)·H[k,m]) / Σₘ H[k,m]. */
  lemma WMatrixFormEntry(X: Mat, W: Mat, H: Mat, n: nat, k: nat)
    requires Admissible(X, W, H) && NoZero(RowSums(H))
    requires n < W.rows && k < W.cols
    ensures Sum(H.at[k]) != 0.0
    ensures WMatrixForm(X, W, H).at[n][k] == WRule(X, W, H, n, k)
  {
    assert RowSums(H)[k] == Sum(H.at[k]);
    WRatioEntry(X, W, H, n, k);
  }

  /** The entrywise H update is exactly the matrix expression numpy evaluates. */
  lemma UpdateHIsMatrixForm(X: Mat, W: Mat, H: Mat)
    requires Admissible(X, W, H) && NoZero(ColSums(W))
    ensures UpdateH(X, W, H) == HMatrixForm(X, W, H)
  {
    var A := UpdateH(X, W, H);
    var B := HMatrixForm(X, W, H);
    forall k | 0 <= k < H.rows ensures A.at[k] == B.at[k] {
      forall m | 0 <= m < H.cols ensures A.at[k][m] == B.at[k][m] {
        HMatrixFormEntry(X, W, H, k, m);
      }
    }
  }

  /** The entrywise W update is exactly the matrix expression numpy evaluates. */
  lemma UpdateWIsMatrixForm(X: Mat, W: Mat, H: Mat)
    requires Admissible(X, W, H) && NoZero(RowSums(H))
    ensures UpdateW(X, W, H) == WMatrixForm(X, W, H)
  {
    var A := UpdateW(X, W, H);
    var B := WMatrixForm(X, W, H);
    forall n | 0 <= n < W.rows ensures A.at[n] == B.at[n] {
      forall k | 0 <= k < W.cols ensures A.at[n][k] == B.at[n][k] {
        WMatrixFormEntry(X, W, H, n, k);
      }
    }
  }

  /** Every entry the H rule produces is non-negative. */
  lemma HRulesNonNeg(X: Mat, W: Mat, H: Mat)
    requires Admissible(X, W, H) && NoZero(ColSums(W))
    ensures forall k, m :: 0 <= k < H.rows && 0 <= m < H.cols ==>
      Sum(Column(W, k)) != 0.0 && HRule(X, W, H, k, m) >= 0.0
  {
    forall k, m | 0 <= k < H.rows && 0 <= m < H.cols
      ensures Sum(Column(W, k)) != 0.0 && HRule(X, W, H, k, m) >= 0.0
    {
      HMatrixFormEntry(X, W, H, k, m);
    }
  }

  /** Every entry the W rule produces is non-negative. */
  lemma WRulesNonNeg(X: Mat, W: Mat, H: Mat)
    requires Admissible(X, W, H) && NoZero(RowSums(H))
    ensures forall n, k :: 0 <= n < W.rows && 0 <= k < W.cols ==>
      Sum(H.at[k]) != 0.0 && WRule(X, W, H, n, k) >= 0.0
  {
    forall n, k | 0 <= n < W.rows && 0 <= k < W.cols
      ensures Sum(H.at[k]) != 0.0 && WRule(X, W, H, n, k) >= 0.0
    {
      WMatrixFormEntry(X, W, H, n, k);
    }
  }

  /** A successful step replaces H first, by the H rule computed from the
      reconstruction W·H. The normaliser Σₙ W[n,k] has no ε. */
  lemma StepNewH(X: Mat, W: Mat, H: Mat, k: nat, m: nat)
    requires Admissible(X, W, H) && Step(X, W, H).Ok?
    requires k < H.rows && m < H.cols
    ensures Sum(Column(W, k)) != 0.0
    ensures Step(X, W, H).value.h.at[k][m] == HRule(X, W, H, k, m)
  {
    assert Step(X, W, H).value.h == UpdateH(X, W, H);
    HMatrixFormEntry(X, W, H, k, m);
  }

  /** A successful step then replaces W by the W rule computed from the
      reconstruction W·H′ with the already-updated H′, which also supplies the
      normaliser Σₘ H′[k,m]; again that normaliser has no ε. */
  lemma StepNewW(X: Mat, W: Mat, H: Mat, n: nat, k: nat)
    requires Admissible(X, W, H) && Step(X, W, H).Ok?
    requires n < W.rows && k < W.cols
    ensures var H1 := Step(X, W, H).value.h;
      && Admissible(X, W, H1)
      && Sum(H1.at[k]) != 0.0
      && Step(X, W, H).value.w.at[n][k] == WRule(X, W, H1, n, k)
  {
    var H1 := UpdateH(X, W, H);
    var r := Step(X, W, H);
    assert r.value.h == H1 && r.value.w == UpdateW(X, W, H1);
    WMatrixFormEntry(X, W, H1, n, k);
  }

  // ------------------------------------------------------- where factors vanish

  /** Word `n` occurs in some document. */
  predicate RowActive(X: Mat, n: nat)
    requires n < X.rows
  {
    exists m :: 0 <= m < X.cols && X.at[n][m] > 0.0
  }

  /** Document `m` contains some word. */
  predicate ColActive(X: Mat, m: nat)
    requires m < X.cols
  {
    exists n :: 0 <= n < X.rows && X.at[n][m] > 0.0
  }

  predicate HasPositiveEntry(X: Mat) {
    exists n, m :: 0 <= n < X.rows && 0 <= m < X.cols && X.at[n][m] > 0.0
  }

  /** The invariant the updates keep: factors are non-negative, and positive in
      every row of W whose word occurs and every column of H whose document is
      non-empty. */
  predicate Supported(X: Mat, W: Mat, H: Mat) {
    && Admissible(X, W, H)
    && (forall n, k :: 0 <= n < W.rows && 0 <= k < W.cols && RowActive(X, n) ==> W.at[n][k] > 0.0)
    && (forall k, m :: 0 <= k < H.rows && 0 <= m < H.cols && ColActive(X, m) ==> H.at[k][m] > 0.0)
  }

  /** The H rule is positive wherever the current H entry is and some word `n` of
      document `m` carries a positive W weight for topic `k`. */
  lemma HRulePositive(X: Mat, W: Mat, H: Mat, k: nat, m: nat, n: nat)
    requires Admissible(X, W, H) && k < H.rows && m < H.cols && n < X.rows
    requires X.at[n][m] > 0.0 && W.at[n][k] > 0.0 && H.at[k][m] > 0.0
    requires Sum(Column(W, k)) != 0.0
    ensures HRule(X, W, H, k, m) > 0.0
  {
    var t := HTerms(X, W, H, k, m);
    HTermsNonNeg(X, W, H, k, m);
    RatioTerm(X.at[n][m], Recon(W, H, n, m), W.at[n][k]);
    SumPositive(t, n);
    SumNonNeg(Column(W, k));
    ScaledQuotientPositive(H.at[k][m], Sum(t), Sum(Column(W, k)));
  }

  lemma HTermsNonNeg(X: Mat, W: Mat, H: Mat, k: nat, m: nat)
    requires Admissible(X, W, H) && k < W.cols && m < X.cols
    ensures AllNonNeg(HTerms(X, W, H, k, m))
  {
    var t := HTerms(X, W, H, k, m);
    forall i | 0 <= i < |t| ensures t[i] >= 0.0 {
      RatioTerm(X.at[i][m], Recon(W, H, i, m), W.at[i][k]);
    }
  }

  /** The W rule is positive wherever the current W entry is and some document
      `m` containing word `n` carries a positive H weight for topic `k`. */
  lemma WRulePositive(X: Mat, W: Mat, H: Mat, n: nat, k: nat, m: nat)
    requires Admissible(X, W, H) && n < W.rows && k < W.cols && m < X.cols
    requires X.at[n][m] > 0.0 && W.at[n][k] > 0.0 && H.at[k][m] > 0.0
    requires Sum(H.at[k]) != 0.0
    ensures WRule(X, W, H, n, k) > 0.0
  {
    var t := WTerms(X, W, H, n, k);
    WTermsNonNeg(X, W, H, n, k);
    RatioTerm(X.at[n][m], Recon(W, H, n, m), H.at[k][m]);
    SumPositive(t, m);
    SumNonNeg(H.at[k]);
    ScaledQuotientPositive(W.at[n][k], Sum(t), Sum(H.at[k]));
  }

  lemma WTermsNonNeg(X: Mat, W: Mat, H: Mat, n: nat, k: nat)
    requires Admissible(X, W, H) && n < X.rows && k < W.cols
    ensures AllNonNeg(WTerms(X, W, H, n, k))
  {
    var t := WTerms(X, W, H, n, k);
    forall i | 0 <= i < |t| ensures t[i] >= 0.0 {
      RatioTerm(X.at[n][i], Recon(W, H, n, i), H.at[k][i]);
    }
  }

  /** A count over a shifted reconstruction, weighted by a factor entry, is
      non-negative, and positive when the count and the entry are. */
  lemma RatioTerm(x: real, r: real, f: real)
    requires x >= 0.0 && r >= 0.0 && f >= 0.0
    ensures f * (x / (r + Eps)) >= 0.0 && x / (r + Eps) * f >= 0.0
    ensures x > 0.0 && f > 0.0 ==> f * (x / (r + Eps)) > 0.0 && x / (r + Eps) * f > 0.0
  {
    var q := x / (r + Eps);
    assert q >= 0.0;
    assert x > 0.0 ==> q > 0.0;
  }

  lemma ScaledQuotientPositive(a: real, s: real, d: real)
    requires a > 0.0 && s > 0.0 && d >= 0.0 && d != 0.0
    ensures a * s / d > 0.0
  {
    assert a * s > 0.0;
  }

  /** When some count is positive, an update from supported factors never meets a
      zero normaliser and keeps the factors supported. */
  lemma StepKeepsSupport(X: Mat, W: Mat, H: Mat)
    requires Supported(X, W, H) && HasPositiveEntry(X)
    ensures Step(X, W, H).Ok?
    ensures Supported(X, Step(X, W, H).value.w, Step(X, W, H).value.h)
  {
    var n0, m0 :| 0 <= n0 < X.rows && 0 <= m0 < X.cols && X.at[n0][m0] > 0.0;
    assert RowActive(X, n0) && ColActive(X, m0);
    forall k | 0 <= k < W.cols ensures ColSums(W)[k] != 0.0 {
      SumPositive(Column(W, k), n0);
    }
    var H1 := UpdateH(X, W, H);
    UpdateHKeepsSupport(X, W, H);
    forall k | 0 <= k < H1.rows ensures RowSums(H1)[k] != 0.0 {
      SumPositive(H1.at[k], m0);
    }
    var W1 := UpdateW(X, W, H1);
    UpdateWKeepsSupport(X, W, H1);
    assert Step(X, W, H) == Ok(Factors(W1, H1));
  }

  lemma UpdateHKeepsSupport(X: Mat, W: Mat, H: Mat)
    requires Supported(X, W, H) && NoZero(ColSums(W))
    ensures Supported(X, W, UpdateH(X, W, H))
  {
    var H1 := UpdateH(X, W, H);
    forall k, m | 0 <= k < H1.rows && 0 <= m < H1.cols && ColActive(X, m)
      ensures H1.at[k][m] > 0.0
    {
      HMatrixFormEntry(X, W, H, k, m);
      var n :| 0 <= n < X.rows && X.at[n][m] > 0.0;
      assert RowActive(X, n);
      HRulePositive(X, W, H, k, m, n);
    }
  }

  lemma UpdateWKeepsSupport(X: Mat, W: Mat, H: Mat)
    requires Supported(X, W, H) && NoZero(RowSums(H))
    ensures Supported(X, UpdateW(X, W, H), H)
  {
    var W1 := UpdateW(X, W, H);
    forall n, k | 0 <= n < W1.rows && 0 <= k < W1.cols && RowActive(X, n)
      ensures W1.at[n][k] > 0.0
    {
      WMatrixFormEntry(X, W, H, n, k);
      var m :| 0 <= m < X.cols && X.at[n][m] > 0.0;
      assert ColActive(X, m);
      WRulePositive(X, W, H, n, k, m);
    }
  }

  /** Strict positivity is not kept: a word that occurs in no document gets an
      all-zero row of W after one update, however positive W and H were. */
  lemma StepZeroesUnusedWord(X: Mat, W: Mat, H: Mat, n: nat, k: nat)
    requires Admissible(X, W, H) && Step(X, W, H).Ok?
    requires n < X.rows && k < W.cols && !RowActive(X, n)
    ensures Step(X, W, H).value.w.at[n][k] == 0.0
  {
    StepNewW(X, W, H, n, k);
    var H1 := Step(X, W, H).value.h;
    WTermsVanish(X, W, H1, n, k);
    ZeroNumerator(W.at[n][k], Sum(WTerms(X, W, H1, n, k)), Sum(H1.at[k]));
  }

  lemma WTermsVanish(X: Mat, W: Mat, H: Mat, n: nat, k: nat)
    requires Admissible(X, W, H) && n < X.rows && k < W.cols && !RowActive(X, n)
    ensures Sum(WTerms(X, W, H, n, k)) == 0.0
  {
    var t := WTerms(X, W, H, n, k);
    forall i | 0 <= i < |t| ensures t[i] == 0.0 {
      assert X.at[n][i] == 0.0;
      ZeroNumerator(H.at[k][i], X.at[n][i], Recon(W, H, n, i) + Eps);
      assert t[i] == X.at[n][i] / (Recon(W, H, n, i) + Eps) * H.at[k][i];
    }
    SumZero(t);
  }

  lemma HTermsVanish(X: Mat, W: Mat, H: Mat, k: nat, m: nat)
    requires Admissible(X, W, H) && k < W.cols && m < X.cols && !ColActive(X, m)
    ensures Sum(HTerms(X, W, H, k, m)) == 0.0
  {
    var t := HTerms(X, W, H, k, m);
    forall i | 0 <= i < |t| ensures t[i] == 0.0 {
      assert X.at[i][m] == 0.0;
    }
    SumZero(t);
  }

  /** Likewise an empty document gets an all-zero column of H. */
  lemma StepZeroesEmptyDocument(X: Mat, W: Mat, H: Mat, k: nat, m: nat)
    requires Admissible(X, W, H) && Step(X, W, H).Ok?
    requires k < H.rows && m < X.cols && !ColActive(X, m)
    ensures Step(X, W, H).value.h.at[k][m] == 0.0
  {
    StepNewH(X, W, H, k, m);
    HTermsVanish(X, W, H, k, m);
    ZeroNumerator(H.at[k][m], Sum(HTerms(X, W, H, k, m)), Sum(Column(W, k)));
  }

  lemma ZeroNumerator(a: real, s: real, d: real)
    requires s == 0.0 && d != 0.0
    ensures a * s / d == 0.0
  {
  }

  // ------------------------------------------------------------- objective

  /** The entries `get_objective` adds up, `X * np.log(I / (W·H + 1e-16)) + W·H`
      with `I` all ones: each is the log part at (n, m) plus the reconstruction
      `np.dot(W, H)` at (n, m). */
  function ObjectiveTerms(X: Mat, W: Mat, H: Mat, log: real -> real): (O: Mat)
    requires Conformable(X, W, H) && NonNeg(W) && NonNeg(H)
    ensures O == Add(LogPart(X, W, H, log), MatMul(W, H))
  {
    var O: Mat := Matrix(X.rows, X.cols,
      seq(X.rows, n requires 0 <= n < X.rows =>
        seq(X.cols, m requires 0 <= m < X.cols =>
          X.at[n][m] * log(1.0 / (Recon(W, H, n, m) + Eps)) + Recon(W, H, n, m))));
    var S := Add(LogPart(X, W, H, log), MatMul(W, H));
    forall n | 0 <= n < X.rows ensures O.at[n] == S.at[n] {
      forall m | 0 <= m < X.cols ensures O.at[n][m] == S.at[n][m] {
        ShiftedIsRecon(W, H, n, m);
      }
    }
    O
  }

  /** The entries `X[n,m] · log(1 / ((W·H)[n,m] + ε))` of the log part. */
  function LogPart(X: Mat, W: Mat, H: Mat, log: real -> real): (L: Mat)
    requires Conformable(X, W, H) && NonNeg(W) && NonNeg(H)
    ensures SameShape(L, X)
  {
    Matrix(X.rows, X.cols,
      seq(X.rows, n requires 0 <= n < X.rows =>
        seq(X.cols, m requires 0 <= m < X.cols => X.at[n][m] * log(1.0 / (Recon(W, H, n, m) + Eps)))))
  }

  /** `get_objective`: the sum of `ObjectiveTerms`. It is Σ X·log(1/(W·H+ε)) plus
      Σ W·H, the generalised KL divergence without its `X·log X − X` terms. The
      logarithm is a parameter; nothing about its values is assumed. */
  function Objective(X: Mat, W: Mat, H: Mat, log: real -> real): (r: real)
    requires Conformable(X, W, H) && NonNeg(W) && NonNeg(H)
    ensures r == Total(LogPart(X, W, H, log)) + Total(MatMul(W, H))
  {
    TotalAdd(LogPart(X, W, H, log), MatMul(W, H));
    Total(ObjectiveTerms(X, W, H, log))
  }

  // ------------------------------------------------------------- training

  /** The factors after `t` updates from (W, H), or the failure that stopped them:
      the first update is applied to the starting factors, the rest to its result. */
  function Run(X: Mat, W: Mat, H: Mat, t: nat): (r: Result<Factors, NumericError>)
    requires Admissible(X, W, H)
    ensures r.Ok? ==> SameShape(r.value.w, W) && SameShape(r.value.h, H)
    ensures r.Ok? ==> NonNeg(r.value.w) && NonNeg(r.value.h)
    decreases t
  {
    if t == 0 then Ok(Factors(W, H))
    else
      var f :- Step(X, W, H);
      Run(X, f.w, f.h, t - 1)
  }

  /** Update `t + 1` is applied to the factors the first `t` updates produced. */
  lemma {:induction false} RunNext(X: Mat, W: Mat, H: Mat, t: nat)
    requires Admissible(X, W, H) && Run(X, W, H, t).Ok?
    ensures Run(X, W, H, t + 1) == Step(X, Run(X, W, H, t).value.w, Run(X, W, H, t).value.h)
    decreases t
  {
    if t > 0 {
      var f := Step(X, W, H).value;
      RunNext(X, f.w, f.h, t - 1);
    }
  }

  /** Once an update fails, every later count of updates fails too. */
  lemma {:induction false} RunErrPersists(X: Mat, W: Mat, H: Mat, t: nat, u: nat)
    requires Admissible(X, W, H) && t <= u && Run(X, W, H, t).Err?
    ensures Run(X, W, H, u).Err?
    decreases t
  {
    if t > 0 && Step(X, W, H).Ok? {
      var f := Step(X, W, H).value;
      RunErrPersists(X, f.w, f.h, t - 1, u - 1);
    }
  }

  /** From supported factors, and with a positive count somewhere, no update meets
      a zero normaliser and every update keeps the factors supported. */
  lemma {:induction false} RunKeepsSupport(X: Mat, W: Mat, H: Mat, t: nat)
    requires Supported(X, W, H) && HasPositiveEntry(X)
    ensures Run(X, W, H, t).Ok?
    ensures Supported(X, Run(X, W, H, t).value.w, Run(X, W, H, t).value.h)
    decreases t
  {
    if t > 0 {
      StepKeepsSupport(X, W, H);
      var f := Step(X, W, H).value;
      RunKeepsSupport(X, f.w, f.h, t - 1);
    }
  }

  /** Strictly positive starting factors, as `train` draws them, and a count matrix
      with a positive entry never meet a zero normaliser, for any number of updates. */
  lemma RunSupported(X: Mat, W: Mat, H: Mat, t: nat)
    requires Conformable(X, W, H) && W.cols > 0 && NonNeg(X) && Positive(W) && Positive(H)
    requires HasPositiveEntry(X)
    ensures Run(X, W, H, t).Ok?
    ensures Supported(X, Run(X, W, H, t).value.w, Run(X, W, H, t).value.h)
  {
    assert Supported(X, W, H);
    RunKeepsSupport(X, W, H, t);
  }

  /** The objective recorded after update `t` (counting from 1). */
  function ObjectiveAfter(X: Mat, W: Mat, H: Mat, t: nat, log: real -> real): real
    requires Admissible(X, W, H) && Run(X, W, H, t).Ok?
  {
    Objective(X, Run(X, W, H, t).value.w, Run(X, W, H, t).value.h, log)
  }

  /** A run of `t` updates that succeeded succeeded at every earlier count. */
  lemma RunOkEarlier(X: Mat, W: Mat, H: Mat, s: nat, t: nat)
    requires Admissible(X, W, H) && s <= t && Run(X, W, H, t).Ok?
    ensures Run(X, W, H, s).Ok?
  {
    if Run(X, W, H, s).Err? {
      RunErrPersists(X, W, H, s, t);
    }
  }

  /** The objectives recorded during `t` updates, in iteration order: entry `s` is
      the objective after update `s + 1`. */
  function Trace(X: Mat, W: Mat, H: Mat, t: nat, log: real -> real): (r: seq<real>)
    requires Admissible(X, W, H) && Run(X, W, H, t).Ok?
    ensures |r| == t
  {
    seq(t, s requires 0 <= s < t => RunOkEarlier(X, W, H, s + 1, t); ObjectiveAfter(X, W, H, s + 1, log))
  }

  /** A trace only grows: the trace of `t + 1` updates is the trace of `t` updates
      followed by the objective after update `t + 1`. */
  lemma TraceSnoc(X: Mat, W: Mat, H: Mat, t: nat, log: real -> real)
    requires Admissible(X, W, H) && Run(X, W, H, t + 1).Ok?
    ensures Run(X, W, H, t).Ok?
    ensures Trace(X, W, H, t + 1, log) == Trace(X, W, H, t, log) + [ObjectiveAfter(X, W, H, t + 1, log)]
  {
    RunOkEarlier(X, W, H, t, t + 1);
    var a := Trace(X, W, H, t + 1, log);
    var b := Trace(X, W, H, t, log) + [ObjectiveAfter(X, W, H, t + 1, log)];
    forall s | 0 <= s < t + 1 ensures a[s] == b[s] {
      TraceAt(X, W, H, t + 1, s, log);
      if s < t {
        TraceAt(X, W, H, t, s, log);
      }
    }
  }

  lemma TraceAt(X: Mat, W: Mat, H: Mat, t: nat, s: nat, log: real -> real)
    requires Admissible(X, W, H) && Run(X, W, H, t).Ok? && s < t
    ensures Run(X, W, H, s + 1).Ok?
    ensures Trace(X, W, H, t, log)[s] == ObjectiveAfter(X, W, H, s + 1, log)
  {
    RunOkEarlier(X, W, H, s + 1, t);
  }

  /** What `train` hands back: the objective trace and W. */
  datatype Trained = Trained(objectives: seq<real>, w: Mat)

  /** One pass of the loop body of `train`: update H and W, then append the
      objective of the new factors to the trace. */
  method Iterate(X: Mat, W0: Mat, H0: Mat, t: nat, W: Mat, H: Mat, objectives: seq<real>, log: real -> real)
    returns (r: Result<(Factors, seq<real>), NumericError>)
    requires Admissible(X, W0, H0)
    requires Run(X, W0, H0, t) == Ok(Factors(W, H)) && objectives == Trace(X, W0, H0, t, log)
    ensures r.Err? <==> Run(X, W0, H0, t + 1).Err?
    ensures r.Ok? ==> Run(X, W0, H0, t + 1) == Ok(r.value.0)
    ensures r.Ok? ==> r.value.1 == Trace(X, W0, H0, t + 1, log)
  {
    var next := Step(X, W, H);
    RunNext(X, W0, H0, t);
    if next.Err? {
      return Err(next.error);
    }
    var W1, H1 := next.value.w, next.value.h;
    assert ObjectiveAfter(X, W0, H0, t + 1, log) == Objective(X, W1, H1, log);
    TraceSnoc(X, W0, H0, t, log);
    r := Ok((Factors(W1, H1), objectives + [Objective(X, W1, H1, log)]));
  }

  /** `train` with its random start as parameters (`np.random.uniform(1, 2, …)` draws
      strictly positive W of shape N×25 and H of shape 25×M): exactly 100 updates,
      the objective after each appended in order, and the final W returned. */
  method Train(X: Mat, W0: Mat, H0: Mat, log: real -> real) returns (r: Result<Trained, NumericError>)
    requires W0.rows == X.rows && W0.cols == Rank && H0.rows == Rank && H0.cols == X.cols
    requires NonNeg(X) && Positive(W0) && Positive(H0)
    ensures r.Ok? <==> Run(X, W0, H0, Iterations).Ok?
    ensures r.Ok? ==> |r.value.objectives| == Iterations
    ensures r.Ok? ==> r.value.objectives == Trace(X, W0, H0, Iterations, log)
    ensures r.Ok? ==> r.value.w == Run(X, W0, H0, Iterations).value.w
  {
    var W, H := W0, H0;
    var objectives: seq<real> := [];
    var t := 0;
    while t < Iterations
      invariant 0 <= t <= Iterations
      invariant Run(X, W0, H0, t) == Ok(Factors(W, H))
      invariant objectives == Trace(X, W0, H0, t, log)
    {
      var next := Iterate(X, W0, H0, t, W, H, objectives, log);
      if next.Err? {
        RunErrPersists(X, W0, H0, t + 1, Iterations);
        return Err(next.error);
      }
      W, H := next.value.0.w, next.value.0.h;
      objectives := next.value.1;
      t := t + 1;
    }
    r := Ok(Trained(objectives, W));
  }
}
