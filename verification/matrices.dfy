/** Dense real matrices and the handful of numpy operations the factorisation uses:
    products, transposes, elementwise arithmetic, axis sums and broadcasting divisions.
    Arithmetic is exact; IEEE rounding is not modelled. */
module Matrices {

  /** A matrix with its shape, like a two-dimensional numpy array. */
  datatype Matrix = Matrix(rows: nat, cols: nat, at: seq<seq<real>>)

  predicate WellShaped(A: Matrix) {
    |A.at| == A.rows && forall i :: 0 <= i < A.rows ==> |A.at[i]| == A.cols
  }

  /** Matrices whose entries really have the shape they announce. */
  type Mat = A: Matrix | WellShaped(A) witness Matrix(0, 0, [])

  /** The outcome where numpy would divide by zero and produce inf or nan. */
  datatype NumericError = ZeroNormaliser

  predicate SameShape(A: Mat, B: Mat) {
    A.rows == B.rows && A.cols == B.cols
  }

  predicate NonNeg(A: Mat) {
    forall i, j :: 0 <= i < A.rows && 0 <= j < A.cols ==> A.at[i][j] >= 0.0
  }

  predicate Positive(A: Mat) {
    forall i, j :: 0 <= i < A.rows && 0 <= j < A.cols ==> A.at[i][j] > 0.0
  }

  predicate NoZeroEntry(A: Mat) {
    forall i, j :: 0 <= i < A.rows && 0 <= j < A.cols ==> A.at[i][j] != 0.0
  }

  predicate NoZero(v: seq<real>) {
    forall i :: 0 <= i < |v| ==> v[i] != 0.0
  }

  predicate AllNonNeg(v: seq<real>) {
    forall i :: 0 <= i < |v| ==> v[i] >= 0.0
  }

  // ---------------------------------------------------------------- sums

  /** The sum of a vector, `np.sum` over one axis. */
  function Sum(s: seq<real>): real
    decreases |s|
  {
    if |s| == 0 then 0.0 else s[0] + Sum(s[1..])
  }

  lemma {:induction false} SumNonNeg(s: seq<real>)
    requires AllNonNeg(s)
    ensures Sum(s) >= 0.0
    decreases |s|
  {
    if |s| > 0 {
      SumNonNeg(s[1..]);
    }
  }

  /** A sum of non-negative terms is positive as soon as one term is. */
  lemma {:induction false} SumPositive(s: seq<real>, k: nat)
    requires AllNonNeg(s)
    requires k < |s| && s[k] > 0.0
    ensures Sum(s) > 0.0
    decreases |s|
  {
    if k == 0 {
      SumNonNeg(s[1..]);
    } else {
      SumPositive(s[1..], k - 1);
    }
  }

  /** Each term of a sum of non-negative terms is at most the sum. */
  lemma {:induction false} TermAtMostSum(s: seq<real>, k: nat)
    requires AllNonNeg(s) && k < |s|
    ensures s[k] <= Sum(s)
    decreases |s|
  {
    if k == 0 {
      SumNonNeg(s[1..]);
    } else {
      TermAtMostSum(s[1..], k - 1);
    }
  }

  /** A sum of zero terms is zero. */
  lemma {:induction false} SumZero(s: seq<real>)
    requires forall i :: 0 <= i < |s| ==> s[i] == 0.0
    ensures Sum(s) == 0.0
    decreases |s|
  {
    if |s| > 0 {
      SumZero(s[1..]);
    }
  }

  /** Dividing every term by `d` divides the sum by `d`. */
  lemma {:induction false} SumScale(s: seq<real>, t: seq<real>, d: real)
    requires d != 0.0 && |t| == |s|
    requires forall i :: 0 <= i < |s| ==> t[i] == s[i] / d
    ensures Sum(t) == Sum(s) / d
    decreases |s|
  {
    if |s| > 0 {
      SumScale(s[1..], t[1..], d);
      assert Sum(t) == s[0] / d + Sum(s[1..]) / d;
    }
  }

  /** The sum of a pointwise sum is the sum of the sums. */
  lemma {:induction false} SumAdd(a: seq<real>, b: seq<real>, c: seq<real>)
    requires |a| == |b| == |c|
    requires forall i :: 0 <= i < |c| ==> c[i] == a[i] + b[i]
    ensures Sum(c) == Sum(a) + Sum(b)
    decreases |a|
  {
    if |a| > 0 {
      SumAdd(a[1..], b[1..], c[1..]);
    }
  }

  // ---------------------------------------------------------- projections

  function Column(A: Mat, j: nat): (c: seq<real>)
    requires j < A.cols
    ensures |c| == A.rows
    ensures forall i :: 0 <= i < A.rows ==> c[i] == A.at[i][j]
  {
    seq(A.rows, i requires 0 <= i < A.rows => A.at[i][j])
  }

  /** `np.sum(A, axis=0)`: one sum per column. */
  function ColSums(A: Mat): (v: seq<real>)
    ensures |v| == A.cols
    ensures forall j :: 0 <= j < A.cols ==> v[j] == Sum(Column(A, j))
    ensures NonNeg(A) ==> AllNonNeg(v)
  {
    ColumnSumsNonNeg(A);
    seq(A.cols, j requires 0 <= j < A.cols => Sum(Column(A, j)))
  }

  lemma ColumnSumsNonNeg(A: Mat)
    ensures NonNeg(A) ==> forall j :: 0 <= j < A.cols ==> Sum(Column(A, j)) >= 0.0
  {
    if NonNeg(A) {
      forall j | 0 <= j < A.cols ensures Sum(Column(A, j)) >= 0.0 {
        SumNonNeg(Column(A, j));
      }
    }
  }

  /** `np.sum(A, axis=1)`: one sum per row. */
  function RowSums(A: Mat): (v: seq<real>)
    ensures |v| == A.rows
    ensures forall i :: 0 <= i < A.rows ==> v[i] == Sum(A.at[i])
    ensures NonNeg(A) ==> AllNonNeg(v)
  {
    RowTotalsNonNeg(A);
    seq(A.rows, i requires 0 <= i < A.rows => Sum(A.at[i]))
  }

  lemma RowTotalsNonNeg(A: Mat)
    ensures NonNeg(A) ==> forall i :: 0 <= i < A.rows ==> Sum(A.at[i]) >= 0.0
  {
    if NonNeg(A) {
      forall i | 0 <= i < A.rows ensures Sum(A.at[i]) >= 0.0 {
        SumNonNeg(A.at[i]);
      }
    }
  }

  // ---------------------------------------------------------- products

  function Dot(u: seq<real>, v: seq<real>): real
    requires |u| == |v|
  {
    Sum(seq(|u|, i requires 0 <= i < |u| => u[i] * v[i]))
  }

  lemma DotNonNeg(u: seq<real>, v: seq<real>)
    requires |u| == |v| && AllNonNeg(u) && AllNonNeg(v)
    ensures Dot(u, v) >= 0.0
  {
    SumNonNeg(seq(|u|, i requires 0 <= i < |u| => u[i] * v[i]));
  }

  /** `np.dot(A, B)` for two matrices. */
  function MatMul(A: Mat, B: Mat): (C: Mat)
    requires A.cols == B.rows
    ensures C.rows == A.rows && C.cols == B.cols
  {
    Matrix(A.rows, B.cols,
      seq(A.rows, i requires 0 <= i < A.rows =>
        seq(B.cols, j requires 0 <= j < B.cols => Dot(A.at[i], Column(B, j)))))
  }

  /** The product of non-negative matrices is non-negative. */
  lemma MatMulNonNeg(A: Mat, B: Mat)
    requires A.cols == B.rows && NonNeg(A) && NonNeg(B)
    ensures NonNeg(MatMul(A, B))
  {
    forall i, j | 0 <= i < A.rows && 0 <= j < B.cols
      ensures MatMul(A, B).at[i][j] >= 0.0
    {
      DotNonNeg(A.at[i], Column(B, j));
    }
  }

  /** `A.T`. */
  function Transpose(A: Mat): (T: Mat)
    ensures T.rows == A.cols && T.cols == A.rows
    ensures forall i, j :: 0 <= i < A.rows && 0 <= j < A.cols ==> T.at[j][i] == A.at[i][j]
  {
    Matrix(A.cols, A.rows, seq(A.cols, j requires 0 <= j < A.cols => Column(A, j)))
  }

  // -------------------------------------------------- elementwise operations

  /** `A * B` on two arrays of one shape. */
  function Mul(A: Mat, B: Mat): (C: Mat)
    requires SameShape(A, B)
    ensures SameShape(C, A)
  {
    Matrix(A.rows, A.cols,
      seq(A.rows, i requires 0 <= i < A.rows =>
        seq(A.cols, j requires 0 <= j < A.cols => A.at[i][j] * B.at[i][j])))
  }

  /** `A / B` on two arrays of one shape; a zero divisor is excluded. */
  function Div(A: Mat, B: Mat): (C: Mat)
    requires SameShape(A, B) && NoZeroEntry(B)
    ensures SameShape(C, A)
  {
    Matrix(A.rows, A.cols,
      seq(A.rows, i requires 0 <= i < A.rows =>
        seq(A.cols, j requires 0 <= j < A.cols => A.at[i][j] / B.at[i][j])))
  }

  /** `A + c` for a scalar `c`, broadcast to every entry. */
  function AddScalar(A: Mat, c: real): (C: Mat)
    ensures SameShape(C, A)
  {
    Matrix(A.rows, A.cols,
      seq(A.rows, i requires 0 <= i < A.rows =>
        seq(A.cols, j requires 0 <= j < A.cols => A.at[i][j] + c)))
  }

  /** A non-negative matrix plus a positive scalar has no zero entry,
      so it is safe as a divisor. */
  lemma AddPositiveNoZero(A: Mat, c: real)
    requires NonNeg(A) && c > 0.0
    ensures NoZeroEntry(AddScalar(A, c))
    ensures forall i, j :: 0 <= i < A.rows && 0 <= j < A.cols ==> AddScalar(A, c).at[i][j] > 0.0
  {
  }

  // ------------------------------------------------------- broadcasting

  /** `np.array([[x] for x in v])`: a length-K vector as a K×1 column matrix. For
      an empty vector numpy builds a flat array of shape (0,), not a 0×1 matrix,
      so the vector must not be empty. */
  function RowToColMatrix(v: seq<real>): (C: Mat)
    requires |v| > 0
    ensures C.rows == |v| && C.cols == 1
    ensures Column(C, 0) == v
    ensures NoZero(v) ==> NoZeroEntry(C)
  {
    var C := Matrix(|v|, 1, seq(|v|, i requires 0 <= i < |v| => [v[i]]));
    assert Column(C, 0) == v;
    C
  }

  /** `A / c` where `c` is a K×1 column matrix: row `i` of `A` is divided by `c[i][0]`. */
  function DivByColumn(A: Mat, c: Mat): (C: Mat)
    requires c.rows == A.rows && c.cols == 1 && NoZeroEntry(c)
    ensures SameShape(C, A)
  {
    Matrix(A.rows, A.cols,
      seq(A.rows, i requires 0 <= i < A.rows =>
        seq(A.cols, j requires 0 <= j < A.cols => A.at[i][j] / c.at[i][0])))
  }

  /** `A / v` where `v` is a one-dimensional array of length `A.cols`: numpy
      broadcasts it across rows, so column `j` of `A` is divided by `v[j]`. */
  function DivByRow(A: Mat, v: seq<real>): (C: Mat)
    requires |v| == A.cols && NoZero(v)
    ensures SameShape(C, A)
  {
    Matrix(A.rows, A.cols,
      seq(A.rows, i requires 0 <= i < A.rows =>
        seq(A.cols, j requires 0 <= j < A.cols => A.at[i][j] / v[j])))
  }

  /** The column-matrix division runs along rows: multiplying row `i` of the
      quotient back by `c[i][0]` restores `A`. */
  lemma DivByColumnUndone(A: Mat, c: Mat)
    requires c.rows == A.rows && c.cols == 1 && NoZeroEntry(c)
    ensures forall i, j :: 0 <= i < A.rows && 0 <= j < A.cols ==>
      DivByColumn(A, c).at[i][j] * c.at[i][0] == A.at[i][j]
  {
  }

  /** The one-dimensional division runs along columns: multiplying column `j` of
      the quotient back by `v[j]` restores `A`. */
  lemma DivByRowUndone(A: Mat, v: seq<real>)
    requires |v| == A.cols && NoZero(v)
    ensures forall i, j :: 0 <= i < A.rows && 0 <= j < A.cols ==>
      DivByRow(A, v).at[i][j] * v[j] == A.at[i][j]
  {
  }

  lemma MulNonNeg(A: Mat, B: Mat)
    requires SameShape(A, B) && NonNeg(A) && NonNeg(B)
    ensures NonNeg(Mul(A, B))
  {
    forall i, j | 0 <= i < A.rows && 0 <= j < A.cols
      ensures Mul(A, B).at[i][j] >= 0.0
    {
      assert A.at[i][j] >= 0.0 && B.at[i][j] >= 0.0;
    }
  }

  lemma DivNonNeg(A: Mat, B: Mat)
    requires SameShape(A, B) && NoZeroEntry(B) && NonNeg(A) && NonNeg(B)
    ensures NonNeg(Div(A, B))
  {
    forall i, j | 0 <= i < A.rows && 0 <= j < A.cols
      ensures Div(A, B).at[i][j] >= 0.0
    {
      assert A.at[i][j] >= 0.0 && B.at[i][j] > 0.0;
    }
  }

  lemma DivByColumnNonNeg(A: Mat, c: Mat)
    requires c.rows == A.rows && c.cols == 1 && NoZeroEntry(c) && NonNeg(A) && NonNeg(c)
    ensures NonNeg(DivByColumn(A, c))
  {
    forall i, j | 0 <= i < A.rows && 0 <= j < A.cols
      ensures DivByColumn(A, c).at[i][j] >= 0.0
    {
      assert A.at[i][j] >= 0.0 && c.at[i][0] > 0.0;
    }
  }

  lemma DivByRowNonNeg(A: Mat, v: seq<real>)
    requires |v| == A.cols && NoZero(v) && NonNeg(A) && AllNonNeg(v)
    ensures NonNeg(DivByRow(A, v))
  {
    forall i, j | 0 <= i < A.rows && 0 <= j < A.cols
      ensures DivByRow(A, v).at[i][j] >= 0.0
    {
      assert A.at[i][j] >= 0.0 && v[j] > 0.0;
    }
  }

  /** `A + B` on two arrays of one shape. */
  function Add(A: Mat, B: Mat): (C: Mat)
    requires SameShape(A, B)
    ensures SameShape(C, A)
  {
    Matrix(A.rows, A.cols,
      seq(A.rows, i requires 0 <= i < A.rows =>
        seq(A.cols, j requires 0 <= j < A.cols => A.at[i][j] + B.at[i][j])))
  }

  /** `np.sum(A)`: the sum of every entry, row by row. */
  function Total(A: Mat): real
  {
    Sum(RowSums(A))
  }

  /** The total of a sum of matrices is the sum of their totals. */
  lemma TotalAdd(A: Mat, B: Mat)
    requires SameShape(A, B)
    ensures Total(Add(A, B)) == Total(A) + Total(B)
  {
    var C := Add(A, B);
    var a := RowSums(A);
    var b := RowSums(B);
    forall i | 0 <= i < A.rows ensures RowSums(C)[i] == a[i] + b[i] {
      SumAdd(A.at[i], B.at[i], C.at[i]);
    }
    SumAdd(a, b, RowSums(C));
  }
}
