# Non-negative matrix factorisation of NYT word counts, in Dafny

This project models the computational core of `nonnegative_matrix_factorization/nmf.py`.
The script factorises a 3012×8447 word-by-document count matrix X into a 3012×25
matrix W and a 25×8447 matrix H using the multiplicative updates for the
divergence penalty. It then reports, for each of the 25 topics (columns of W),
the ten heaviest words.

The model has five parts, one module each, plus two support modules:

- `NytData` (nyt_data.dfy) is the decoding loop of `get_nyt_data`. Document lines,
  already split into `idx:cnt` tokens, are written into a zero matrix of fixed
  shape. Line `j` fills column `j`, and the cell is `X[int(idx) - 1][j]` under
  numpy's indexing rules. The decoder is checked against a reference semantics,
  `Expected`: each cell holds the last count written to it, or zero.
- `Divergence` (divergence.dfy) covers one update (nmf.py:68, then nmf.py:69) and
  the 100-step loop of `train` with its objective trace. Each update is stated
  twice: as the matrix expression the line writes and entry by entry. A lemma
  shows the two agree.
- `Sorting` (sorting.dfy) models `np.sort` and `np.argsort` on one column.
- `Topics` (topics.dfy) is `problem_2b`'s normalisation and top-ten ranking.
- `Pipeline` (pipeline.dfy) is the script's main block. It turns the decoded
  counts into the matrix `train` works on, then trains and ranks.
- `Matrices` (matrices.dfy) holds the dense real matrices and the numpy
  operations used: products, transposes, elementwise arithmetic, axis sums and
  the two broadcasting divisions.
- `Outcome` (outcome.dfy) holds `Option` and `Result`.

Arithmetic is exact (`real`). Where numpy would divide by zero and continue
with `inf`/`nan`, the model stops with `Err(ZeroNormaliser)`. Two lemmas show
this cannot happen in a run of `train`:
- `Divergence.RunSupported`: starting from strictly positive factors, with a
  count matrix that has a positive entry, no normaliser is ever zero.
- `Topics.TrainedFactorHasTopics`: the same holds for the final normalisation.

Three behaviours of the code are easy to misread, and the model follows the code in each:

- The W update (nmf.py:69) recomputes W·H from the H that the H update (nmf.py:68) has just produced. It does not
  use the W·H of the start of the iteration. `Divergence.StepNewW` states this.
- The updates do not keep W and H strictly positive:
  - A word that occurs in no document gets an all-zero row of W after one
    update (`Divergence.StepZeroesUnusedWord`).
  - An empty document gets an all-zero column of H
    (`Divergence.StepZeroesEmptyDocument`).

  What is kept is non-negativity, plus positivity on the words and documents
  that occur (`Divergence.Supported`).
- Index `0` in the count file is not rejected. `X[-1]` writes the last row,
  and indices from `-3011` to `0` wrap the same way
  (`NytData.NonPositiveIndexWraps`). Only indices above 3012 or below -3011
  fail.

## Model

| member | source | states |
|---|---|---|
| `NytData.NumpyIndex` | nonnegative_matrix_factorization/nmf.py:30 | A row index is accepted exactly when it lies in [-n, n). The row used is the index itself, or the index plus n when negative. |
| `NytData.Zeros` | nonnegative_matrix_factorization/nmf.py:24 | `np.zeros((3012, 8447))` is a grid of the requested shape whose every cell is 0. |
| `NytData.Store` | nonnegative_matrix_factorization/nmf.py:29-30 | One assignment succeeds exactly when the token splits into two integers, its row is accepted and the document is among the first 8447. It keeps the 3012×8447 shape. |
| `NytData.Decode` | nonnegative_matrix_factorization/nmf.py:22-31 | A successful decode is always a 3012×8447 grid, however many lines there are. |
| `NytData.DecodeLineSpec` | nonnegative_matrix_factorization/nmf.py:28-30 | Decoding one line changes only that document's column. There, the last token naming a row wins. The line fails exactly when one of its tokens fails. |
| `NytData.DecodeLinesSpec` | nonnegative_matrix_factorization/nmf.py:26-30 | Decoding lines from `doc` on leaves earlier columns untouched. Each later column is filled from its own line. Failure happens exactly when some remaining token fails. |
| `NytData.DecodeCorrect` | nonnegative_matrix_factorization/nmf.py:22-30 | Decoding succeeds exactly when every token is storable. Each cell then equals the reference value: the last count written there by its document's line, or 0. |
| `NytData.LastCountIsLastWriter` | nonnegative_matrix_factorization/nmf.py:28-30 | The last token of a line that names a row decides that row's value for the line. |
| `NytData.DecodeSetsEntry` | nonnegative_matrix_factorization/nmf.py:20-30 | Take a pair `i:c` on line j with 1 ≤ i ≤ 3012, not overridden later on its line. It leaves c at row i-1, column j, and then j < 8447. |
| `NytData.DecodeUntouchedIsZero` | nonnegative_matrix_factorization/nmf.py:24-30 | A cell that no token names stays 0. |
| `NytData.DecodeNonNeg` | nonnegative_matrix_factorization/nmf.py:24-30 | Non-negative counts yield a non-negative matrix. |
| `NytData.DuplicateIndexOverwrites` | nonnegative_matrix_factorization/nmf.py:28-30 | Two tokens of one line that name the same row: the later one's count is stored, not the sum, unless a still later token names that row. |
| `NytData.NonPositiveIndexWraps` | nonnegative_matrix_factorization/nmf.py:30 | An index i from -3011 to 0 is accepted. Its count lands in row i + 3011, so index 0 writes the last row. |
| `NytData.IndexAboveVocabularyFails` | nonnegative_matrix_factorization/nmf.py:22-30 | Any index above 3012 makes the whole read fail. |
| `NytData.TooManyDocumentsFails` | nonnegative_matrix_factorization/nmf.py:23-30 | A file of more than 8447 lines cannot be read: the first token of line 8448 has no column. |
| `NytData.DecodeErrorIsFirst` | nonnegative_matrix_factorization/nmf.py:26-30 | A failed read reports the first failing token in reading order. Every earlier token was storable. The error kind follows the order in which the assignment fails: split, then row, then column. |
| `Matrices.RowToColMatrix` | nonnegative_matrix_factorization/nmf.py:41-42 | A length-K vector becomes a K×1 matrix whose single column is the vector. A vector without zeros gives a safe divisor. |
| `Matrices.ColSums` | nonnegative_matrix_factorization/nmf.py:68 | `np.sum(W, axis=0)` has one entry per column. Entry j is the sum of column j, and it is non-negative for a non-negative matrix. |
| `Matrices.RowSums` | nonnegative_matrix_factorization/nmf.py:69 | `np.sum(H, axis=1)` has one entry per row. Entry k is the sum of row k, and it is non-negative for a non-negative matrix. |
| `Matrices.MatMul` | nonnegative_matrix_factorization/nmf.py:68-69 | `np.dot(A, B)` of an N×K and a K×M matrix is N×M. |
| `Matrices.Transpose` | nonnegative_matrix_factorization/nmf.py:68-69 | `A.T` swaps the shape and moves entry (i, j) to (j, i). |
| `Matrices.MatMulNonNeg` | nonnegative_matrix_factorization/nmf.py:68-69 | The product of non-negative matrices is non-negative. |
| `Matrices.AddPositiveNoZero` | nonnegative_matrix_factorization/nmf.py:68-69 | A non-negative W·H plus `err` > 0 is strictly positive everywhere, so it can divide X. |
| `Matrices.DivByColumnUndone` | nonnegative_matrix_factorization/nmf.py:68 | Dividing by the K×1 column matrix scales each row: row i of the quotient times c[i][0] gives row i of A back. |
| `Matrices.DivByRowUndone` | nonnegative_matrix_factorization/nmf.py:69 | Dividing by a one-dimensional array broadcasts along rows and scales each column: column j of the quotient times v[j] gives column j of A back. |
| `Matrices.TotalAdd` | nonnegative_matrix_factorization/nmf.py:37-38 | `np.sum` of a sum of two arrays is the sum of their `np.sum`s. |
| `Divergence.Shifted` | nonnegative_matrix_factorization/nmf.py:59-69 | `W·H + err` has the shape of X and only positive entries when W and H are non-negative. |
| `Divergence.HMatrixForm` | nonnegative_matrix_factorization/nmf.py:68 | Line 68's expression returns a matrix of H's shape (K×M). It is non-negative when X, W and H are. |
| `Divergence.WMatrixForm` | nonnegative_matrix_factorization/nmf.py:69 | Line 69's expression returns a matrix of W's shape (N×K). It is non-negative when X, W and H are. |
| `Divergence.HMatrixFormEntry` | nonnegative_matrix_factorization/nmf.py:68 | Entry (k, m) of line 68 is H[k,m] · Σₙ W[n,k]·X[n,m]/((W·H)[n,m]+ε), divided by Σₙ W[n,k]. That normaliser is a bare column sum, with no ε. |
| `Divergence.WMatrixFormEntry` | nonnegative_matrix_factorization/nmf.py:69 | Entry (n, k) of line 69 is W[n,k] · Σₘ X[n,m]/((W·H)[n,m]+ε)·H[k,m], divided by Σₘ H[k,m]. That normaliser is a bare row sum, with no ε. |
| `Divergence.UpdateH` | nonnegative_matrix_factorization/nmf.py:68 | The H update keeps H's shape (K×M) and keeps H non-negative. |
| `Divergence.UpdateW` | nonnegative_matrix_factorization/nmf.py:69 | The W update keeps W's shape (N×K) and keeps W non-negative. |
| `Divergence.UpdateHIsMatrixForm` | nonnegative_matrix_factorization/nmf.py:68 | The entry-by-entry H rule equals the matrix expression of the H update. |
| `Divergence.UpdateWIsMatrixForm` | nonnegative_matrix_factorization/nmf.py:69 | The entry-by-entry W rule equals the matrix expression of the W update. |
| `Divergence.Step` | nonnegative_matrix_factorization/nmf.py:68-69 | An update keeps W N×K and H K×M and keeps both non-negative. It fails exactly when a column sum of W or a row sum of the new H is zero, and numpy would divide by zero. |
| `Divergence.StepNewH` | nonnegative_matrix_factorization/nmf.py:68 | A successful update sets H by the line-68 rule, computed from the old W and H. |
| `Divergence.StepNewW` | nonnegative_matrix_factorization/nmf.py:69 | A successful update then sets W by the line-69 rule, computed from the old W and the new H. That includes the reconstruction W·H′ and the normaliser Σₘ H′[k,m]. |
| `Divergence.HRulePositive` | nonnegative_matrix_factorization/nmf.py:68 | The new H[k,m] is positive when H[k,m] is positive and some word of document m has positive weight W[n,k]. |
| `Divergence.WRulePositive` | nonnegative_matrix_factorization/nmf.py:69 | The new W[n,k] is positive when W[n,k] is positive and some document containing word n has positive weight H[k,m]. |
| `Divergence.StepKeepsSupport` | nonnegative_matrix_factorization/nmf.py:68-69 | From supported factors, with a positive count somewhere, an update succeeds and the result is supported again. |
| `Divergence.UpdateHKeepsSupport` | nonnegative_matrix_factorization/nmf.py:68 | From supported factors with no zero column sum of W, the new H is positive on every document that occurs. |
| `Divergence.UpdateWKeepsSupport` | nonnegative_matrix_factorization/nmf.py:69 | From supported factors with no zero row sum of H, the new W is positive on every word that occurs. |
| `Divergence.StepZeroesUnusedWord` | nonnegative_matrix_factorization/nmf.py:69 | A word that occurs in no document gets weight 0 in every topic after an update. |
| `Divergence.StepZeroesEmptyDocument` | nonnegative_matrix_factorization/nmf.py:68 | An empty document gets weight 0 in every topic after an update. |
| `Divergence.ObjectiveTerms` | nonnegative_matrix_factorization/nmf.py:35-37 | Each entry that `get_objective` sums is the log part X·log(1/(W·H+ε)) at that cell plus (W·H) at that cell. |
| `Divergence.Objective` | nonnegative_matrix_factorization/nmf.py:34-38 | The objective is Σ X·log(1/(W·H+ε)) plus Σ W·H. The two parts add up separately. |
| `Divergence.Run` | nonnegative_matrix_factorization/nmf.py:60-70 | After any number of successful updates, W and H keep their shapes and stay non-negative. |
| `Divergence.RunNext` | nonnegative_matrix_factorization/nmf.py:60-70 | Update t+1 is applied to the factors that the first t updates produced. |
| `Divergence.RunErrPersists` | nonnegative_matrix_factorization/nmf.py:60-70 | Once an update fails, every run of more updates fails too. |
| `Divergence.RunKeepsSupport` | nonnegative_matrix_factorization/nmf.py:60-70 | From supported factors, with a positive count somewhere, every number of updates succeeds and stays supported. |
| `Divergence.RunSupported` | nonnegative_matrix_factorization/nmf.py:55-70 | Strictly positive starting factors, as the uniform draw on [1, 2) gives, never meet a zero normaliser. This holds when some count is positive. |
| `Divergence.Trace` | nonnegative_matrix_factorization/nmf.py:58-72 | The trace of t successful updates holds exactly t objectives. |
| `Divergence.TraceAt` | nonnegative_matrix_factorization/nmf.py:71-72 | Entry s of the trace of t updates is the objective of the factors after update s+1, and those updates succeeded. |
| `Divergence.TraceSnoc` | nonnegative_matrix_factorization/nmf.py:71-72 | The trace after t+1 updates is the trace after t updates followed by the objective of the new factors. |
| `Divergence.Iterate` | nonnegative_matrix_factorization/nmf.py:67-72 | One loop pass fails exactly when update t+1 fails. Otherwise it yields the factors of t+1 updates and appends their objective, giving the trace of t+1 updates. |
| `Divergence.Train` | nonnegative_matrix_factorization/nmf.py:55-73 | `train` performs exactly 100 updates. It returns exactly 100 objectives: entry s is the objective after update s+1. It also returns the W of the 100th update. It fails exactly when one of the 100 updates would divide by zero. |
| `Sorting.InsertValue` | nonnegative_matrix_factorization/nmf.py:116 | Inserting into an ascending sequence keeps it ascending. The result holds the old values plus the new one. |
| `Sorting.Sort` | nonnegative_matrix_factorization/nmf.py:116 | `np.sort` of a column rearranges its values into ascending order. |
| `Sorting.AscendingUnique` | nonnegative_matrix_factorization/nmf.py:116 | Two ascending arrangements of the same values are equal, so the sorted column does not depend on tie-breaking. |
| `Sorting.InsertIndexValues` | nonnegative_matrix_factorization/nmf.py:119 | Inserting an index by value and then reading the values is inserting the value. |
| `Sorting.ArgSort` | nonnegative_matrix_factorization/nmf.py:119 | `np.argsort` of a column lists every row index exactly once, in an order under which the column's values ascend. |
| `Sorting.ArgSortMatchesSort` | nonnegative_matrix_factorization/nmf.py:116-119 | Reading a column through its arg-sort gives exactly its sort. |
| `Sorting.ArgSortCovers` | nonnegative_matrix_factorization/nmf.py:119 | Every row of the column appears in its arg-sort. |
| `Topics.Normalise` | nonnegative_matrix_factorization/nmf.py:113 | Normalising succeeds exactly when no column of W sums to zero. It keeps W's shape and non-negativity. |
| `Topics.NormalisedColumnSumsToOne` | nonnegative_matrix_factorization/nmf.py:113 | Each normalised entry is W[i,j] divided by the sum of column j. Every normalised column sums to 1. |
| `Topics.NormalisedWithinUnit` | nonnegative_matrix_factorization/nmf.py:113 | Normalised weights of a non-negative W lie in [0, 1]. |
| `Topics.TopEntry` | nonnegative_matrix_factorization/nmf.py:116 | Entry t of `s[-10:][::-1]` is the (t+1)-th entry from the end of s. The result has min(10, length of s) entries. |
| `Topics.TopWords` | nonnegative_matrix_factorization/nmf.py:119 | `np.argsort(c)[-10:][::-1]` gives min(10, N) distinct row indices of the column. |
| `Topics.TopWeights` | nonnegative_matrix_factorization/nmf.py:116 | `np.sort(c)[-10:][::-1]` gives min(10, N) weights in non-increasing order. |
| `Topics.TopPairs` | nonnegative_matrix_factorization/nmf.py:116-119 | A topic reports min(10, N) weights and as many words. The words are distinct rows, and weight t is the column's value at word t. |
| `Topics.TopOfDistinct` | nonnegative_matrix_factorization/nmf.py:119 | The last ten of distinct valid indices, reversed, are distinct valid indices. |
| `Topics.TopOfAscending` | nonnegative_matrix_factorization/nmf.py:116 | The last ten of an ascending sequence, reversed, are in non-increasing order. |
| `Topics.TopAreLargest` | nonnegative_matrix_factorization/nmf.py:116-119 | No unreported row outweighs any reported word: the reported words carry the largest weights. |
| `Topics.TopicTable` | nonnegative_matrix_factorization/nmf.py:113-119 | The ranking succeeds exactly when no column of W sums to zero. It yields one topic per column. |
| `Topics.TopicTableSpec` | nonnegative_matrix_factorization/nmf.py:113-119 | Topic k lists min(10, N) distinct words, each paired with its normalised weight, heaviest first. No unlisted word outweighs a listed one. |
| `Topics.SupportedFactorHasTopics` | nonnegative_matrix_factorization/nmf.py:113 | A supported W from counts with a positive entry has no zero column sum, so its topic table is defined. |
| `Topics.TrainedFactorHasTopics` | nonnegative_matrix_factorization/nmf.py:113-119 | The W that any number of updates produces from positive starting factors has a well-defined topic table. |
| `Pipeline.CountMatrix` | nonnegative_matrix_factorization/nmf.py:24-30 | The decoded counts become a 3012×8447 real matrix. Each cell holds its decoded count, as a real. |
| `Pipeline.DecodedCountsNonNeg` | nonnegative_matrix_factorization/nmf.py:24-30 | Non-negative counts in the file give a non-negative count matrix, as the updates need. |
| `Pipeline.DecodedHasPositiveEntry` | nonnegative_matrix_factorization/nmf.py:24-30 | A positive count at index 1..3012 that no later token of its line overrides leaves a positive entry in the count matrix. |
| `Pipeline.Script` | nonnegative_matrix_factorization/nmf.py:149-152 | The main block fails with a read error exactly when the read fails, and reports that error. When the count matrix has a positive entry, it trains and ranks without error. On success it returns the 100-entry objective trace of training on the decoded counts, and the 25 topics of the topic table of the trained W. |

## Left out

- File handling in `get_nyt_data` (`open`, `readlines`, splitting lines at `,` and `:`) is input. The model starts from lines already cut into tokens. A piece that does not split into exactly two integer literals is one `Malformed` token, which aborts the read.
- `get_vocab`, the pandas table and CSV output of `problem_2b`, the plot in `problem_2a` and the `print` in the loop are I/O only.
- The random starting factors of `train` (`np.random.uniform(1, 2, …)`) are parameters of `Divergence.Train`.
- The value of the logarithm in `get_objective` is a parameter (`log`). Nothing is assumed about it, and nothing is claimed about convergence or monotonicity of the objective.
- IEEE rounding, `inf` and `nan` are not modelled. Arithmetic is exact over `real`, and a zero normaliser is reported as `Err(ZeroNormaliser)` instead of propagating `nan`.
- The commented-out squared-error update is not modelled: it is not executed.
- `Divergence.Train`: requires a non-negative count matrix and strictly positive starting factors of the shapes `train` draws (N×25 and 25×M). The script works on whatever `get_nyt_data` returns and on its random draw, which satisfy these when counts are non-negative.
- `Topics.TopicTable`: ranks every column of W. The script's `range(25)` table assumes exactly 25 columns, which is what `train` produces.
- `Matrices.RowToColMatrix`: requires a non-empty vector. numpy turns an empty one into a flat array of shape (0,), not a column matrix, and the next division then broadcasts differently. `train` always has 25 topics.
- `Divergence.Step`: requires at least one topic (`Admissible` asks for W with a column). With no topics the normalisers are empty and numpy's broadcasting gives degenerate shapes. `train` fixes 25 topics.
- `Pipeline.Script`: requires non-negative counts in the file, as the updates assume. The counts are occurrence counts, so the script never sees a negative one. It also takes already-tokenised lines: a line is never an empty token list, since splitting a string at `,` always gives at least one piece.
- `Sorting.ArgSort`: puts each index before the earlier indices of equal value, so ties come out in decreasing index order (`[1.0, 1.0]` gives `[1, 0]`), and after `[-10:][::-1]` tied words are reported in increasing index order. numpy's default `argsort` (quicksort) guarantees no tie order. The weights reported are unaffected (`Sorting.AscendingUnique`). Which of several equal-weight words is reported is not modelled.
