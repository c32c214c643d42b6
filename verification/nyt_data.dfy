/** The pure part of `get_nyt_data`: the document lines of the NYT count file, already
    split at commas and colons, are written into a fixed 3012×8447 matrix of zeros,
    line `j` filling column `j`. Every token `idx:cnt` stores `cnt` at row `idx - 1`
    with numpy's indexing rules, so a later token for the same cell overwrites an
    earlier one and an index that numpy rejects aborts the whole read. */
module NytData {
  import opened Outcome

  /** Vocabulary size: the number of rows of the count matrix. */
  const NumWords: nat := 3012
  /** Number of documents: the number of columns of the count matrix. */
  const NumDocuments: nat := 8447

  /** One comma-separated piece of a line: either it splits at `:` into two integer
      literals, or it does not (the unpacking or `int` raises ValueError). */
  datatype Token = Pair(index: int, count: int) | Malformed

  /** The tokens of one line. `row.split(",")` never returns an empty list (an
      empty line gives one empty piece, which does not split at `:`), so a line
      has at least one token. */
  type Line = l: seq<Token> | |l| > 0 witness [Malformed]

  /** Why the read stops; `doc` is the line number, `pos` the token's place in it. */
  datatype DecodeError =
    | Unsplittable(doc: nat, pos: nat)
    | WordIndexOutOfRange(doc: nat, pos: nat, index: int)
    | DocumentOutOfRange(doc: nat, pos: nat)

  /** numpy's rule for `a[i]` on an axis of length `n`: a negative `i` counts from the
      end, anything outside `-n <= i < n` raises IndexError. */
  function NumpyIndex(i: int, n: nat): (r: Option<nat>)
    ensures r.Some? <==> 0 - n <= i < n
    ensures r.Some? ==> r.value < n && (r.value == i || r.value == i + n)
  {
    if 0 <= i < n then Some(i)
    else if 0 - n <= i < 0 then Some(i + n)
    else None
  }

  /** The row a token writes to: `int(idx) - 1` resolved by numpy. */
  function TargetRow(t: Token, rows: nat): Option<nat>
  {
    if t.Pair? then NumpyIndex(t.index - 1, rows) else None
  }

  predicate IsGrid(X: seq<seq<int>>, rows: nat, cols: nat) {
    |X| == rows && forall r :: 0 <= r < rows ==> |X[r]| == cols
  }

  /** `np.zeros((rows, cols))`. */
  function Zeros(rows: nat, cols: nat): (X: seq<seq<int>>)
    ensures IsGrid(X, rows, cols)
    ensures forall r, c :: 0 <= r < rows && 0 <= c < cols ==> X[r][c] == 0
  {
    seq(rows, r requires 0 <= r < rows => seq(cols, c requires 0 <= c < cols => 0))
  }

  /** Whether token `pos` of line `doc` gets through `X[int(idx) - 1][doc] = int(cnt)`. */
  predicate TokenOk(t: Token, doc: nat, rows: nat, cols: nat) {
    TargetRow(t, rows).Some? && doc < cols
  }

  /** The error `X[int(idx) - 1][doc] = int(cnt)` raises for a failing token:
      the split first, then the row index, then the column index. */
  function TokenError(t: Token, doc: nat, pos: nat, rows: nat): DecodeError
  {
    if t.Malformed? then Unsplittable(doc, pos)
    else if NumpyIndex(t.index - 1, rows).None? then WordIndexOutOfRange(doc, pos, t.index)
    else DocumentOutOfRange(doc, pos)
  }

  /** One assignment `X[int(idx) - 1][doc] = int(cnt)`. */
  function Store(X: seq<seq<int>>, t: Token, doc: nat, pos: nat, rows: nat, cols: nat)
    : (res: Result<seq<seq<int>>, DecodeError>)
    requires IsGrid(X, rows, cols)
    ensures res.Ok? <==> TokenOk(t, doc, rows, cols)
    ensures res.Ok? ==> IsGrid(res.value, rows, cols)
  {
    if !TokenOk(t, doc, rows, cols) then Err(TokenError(t, doc, pos, rows))
    else
      var r := TargetRow(t, rows).value;
      Ok(X[r := X[r][doc := t.count]])
  }

  /** The inner loop over the tokens of line `doc`, from position `pos` on. */
  function DecodeLine(X: seq<seq<int>>, line: Line, doc: nat, pos: nat, rows: nat, cols: nat)
    : (res: Result<seq<seq<int>>, DecodeError>)
    requires IsGrid(X, rows, cols) && pos <= |line|
    ensures res.Ok? ==> IsGrid(res.value, rows, cols)
    decreases |line| - pos
  {
    if pos == |line| then Ok(X)
    else
      var X1 :- Store(X, line[pos], doc, pos, rows, cols);
      DecodeLine(X1, line, doc, pos + 1, rows, cols)
  }

  /** The outer loop over the lines, from line `doc` on. */
  function DecodeLines(X: seq<seq<int>>, lines: seq<Line>, doc: nat, rows: nat, cols: nat)
    : (res: Result<seq<seq<int>>, DecodeError>)
    requires IsGrid(X, rows, cols) && doc <= |lines|
    ensures res.Ok? ==> IsGrid(res.value, rows, cols)
    decreases |lines| - doc
  {
    if doc == |lines| then Ok(X)
    else
      var X1 :- DecodeLine(X, lines[doc], doc, 0, rows, cols);
      DecodeLines(X1, lines, doc + 1, rows, cols)
  }

  /** `get_nyt_data` without the file: the count matrix of the whole input. */
  function Decode(lines: seq<Line>): (res: Result<seq<seq<int>>, DecodeError>)
    ensures res.Ok? ==> IsGrid(res.value, NumWords, NumDocuments)
  {
    DecodeLines(Zeros(NumWords, NumDocuments), lines, 0, NumWords, NumDocuments)
  }

  // ------------------------------------------------------ reference semantics

  /** The count of the last token of `line`, at or after `pos`, that writes to row `r`. */
  function LastCount(line: Line, pos: nat, r: nat, rows: nat): Option<int>
    requires pos <= |line|
    decreases |line| - pos
  {
    if pos == |line| then None
    else match LastCount(line, pos + 1, r, rows)
      case Some(v) => Some(v)
      case None => if TargetRow(line[pos], rows) == Some(r) then Some(line[pos].count) else None
  }

  /** The value cell (r, c) holds after the whole input: the last count written
      there by line `c`, or zero. */
  function Expected(lines: seq<Line>, r: nat, c: nat, rows: nat): int
  {
    if c < |lines| && LastCount(lines[c], 0, r, rows).Some?
    then LastCount(lines[c], 0, r, rows).value
    else 0
  }

  /** Every token of every line from `doc` on gets through. */
  predicate LinesOk(lines: seq<Line>, doc: nat, rows: nat, cols: nat) {
    forall d, p :: doc <= d < |lines| && 0 <= p < |lines[d]| ==> TokenOk(lines[d][p], d, rows, cols)
  }

  predicate LineOkFrom(line: Line, pos: nat, doc: nat, rows: nat, cols: nat) {
    forall p :: pos <= p < |line| ==> TokenOk(line[p], doc, rows, cols)
  }

  /** Decoding the rest of a line touches only column `doc`, where the last token
      naming a row wins, and fails exactly when one of the remaining tokens fails. */
  lemma {:induction false} DecodeLineSpec(X: seq<seq<int>>, line: Line, doc: nat, pos: nat, rows: nat, cols: nat)
    requires IsGrid(X, rows, cols) && pos <= |line|
    ensures DecodeLine(X, line, doc, pos, rows, cols).Ok? <==> LineOkFrom(line, pos, doc, rows, cols)
    ensures DecodeLine(X, line, doc, pos, rows, cols).Ok? ==>
      forall r, c :: 0 <= r < rows && 0 <= c < cols ==>
        DecodeLine(X, line, doc, pos, rows, cols).value[r][c] ==
          (if c == doc && LastCount(line, pos, r, rows).Some? then LastCount(line, pos, r, rows).value else X[r][c])
    decreases |line| - pos
  {
    if pos < |line| {
      var s := Store(X, line[pos], doc, pos, rows, cols);
      if s.Ok? {
        DecodeLineSpec(s.value, line, doc, pos + 1, rows, cols);
      }
    }
  }

  /** Decoding lines `doc..` leaves earlier columns alone and fills each later column
      from its own line, failing exactly when some remaining token fails. */
  lemma {:induction false} DecodeLinesSpec(X: seq<seq<int>>, lines: seq<Line>, doc: nat, rows: nat, cols: nat)
    requires IsGrid(X, rows, cols) && doc <= |lines|
    ensures DecodeLines(X, lines, doc, rows, cols).Ok? <==> LinesOk(lines, doc, rows, cols)
    ensures DecodeLines(X, lines, doc, rows, cols).Ok? ==>
      forall r, c :: 0 <= r < rows && 0 <= c < cols ==>
        DecodeLines(X, lines, doc, rows, cols).value[r][c] ==
          (if doc <= c < |lines| && LastCount(lines[c], 0, r, rows).Some?
           then LastCount(lines[c], 0, r, rows).value else X[r][c])
    decreases |lines| - doc
  {
    if doc < |lines| {
      DecodeLineSpec(X, lines[doc], doc, 0, rows, cols);
      var s := DecodeLine(X, lines[doc], doc, 0, rows, cols);
      if s.Ok? {
        DecodeLinesSpec(s.value, lines, doc + 1, rows, cols);
      }
    }
  }

  /** The decoder succeeds exactly when every token names a row numpy accepts and
      every line is one of the first 8447; then every cell holds the count of the
      last token that named it in its document's line, and zero if none did. */
  lemma DecodeCorrect(lines: seq<Line>)
    ensures Decode(lines).Ok? <==> LinesOk(lines, 0, NumWords, NumDocuments)
    ensures Decode(lines).Ok? ==>
      forall r, c :: 0 <= r < NumWords && 0 <= c < NumDocuments ==>
        Decode(lines).value[r][c] == Expected(lines, r, c, NumWords)
  {
    DecodeLinesSpec(Zeros(NumWords, NumDocuments), lines, 0, NumWords, NumDocuments);
  }

  /** The last token naming row `r` decides `LastCount`. */
  lemma {:induction false} LastCountIsLastWriter(line: Line, pos: nat, k: nat, r: nat, rows: nat)
    requires pos <= k < |line| && TargetRow(line[k], rows) == Some(r)
    requires forall q :: k < q < |line| ==> TargetRow(line[q], rows) != Some(r)
    ensures LastCount(line, pos, r, rows) == Some(line[k].count)
    decreases |line| - pos
  {
    if pos < k {
      LastCountIsLastWriter(line, pos + 1, k, r, rows);
    } else {
      LastCountNoWriter(line, pos + 1, r, rows);
    }
  }

  /** With no token naming row `r`, `LastCount` is empty. */
  lemma {:induction false} LastCountNoWriter(line: Line, pos: nat, r: nat, rows: nat)
    requires pos <= |line|
    requires forall q :: pos <= q < |line| ==> TargetRow(line[q], rows) != Some(r)
    ensures LastCount(line, pos, r, rows).None?
    decreases |line| - pos
  {
    if pos < |line| {
      LastCountNoWriter(line, pos + 1, r, rows);
    }
  }

  /** A token `i:c` on line `j` with `1 <= i <= 3012` that no later token of the same
      line overrides leaves `c` at row `i - 1`, column `j`: later pairs overwrite,
      counts are never summed. A later token overrides it when it names the same
      row, which besides `i` itself includes the wrapped index `i - 3012`. */
  lemma DecodeSetsEntry(lines: seq<Line>, j: nat, k: nat)
    requires Decode(lines).Ok?
    requires j < |lines| && k < |lines[j]| && lines[j][k].Pair?
    requires 1 <= lines[j][k].index <= NumWords
    requires forall q :: k < q < |lines[j]| ==> TargetRow(lines[j][q], NumWords) != Some(lines[j][k].index - 1)
    ensures j < NumDocuments
    ensures Decode(lines).value[lines[j][k].index - 1][j] == lines[j][k].count
  {
    DecodeCorrect(lines);
    assert TokenOk(lines[j][k], j, NumWords, NumDocuments);
    LastCountIsLastWriter(lines[j], 0, k, lines[j][k].index - 1, NumWords);
  }

  /** A cell that no token names stays zero. */
  lemma DecodeUntouchedIsZero(lines: seq<Line>, r: nat, c: nat)
    requires Decode(lines).Ok?
    requires r < NumWords && c < NumDocuments
    requires c < |lines| ==> forall q :: 0 <= q < |lines[c]| ==> TargetRow(lines[c][q], NumWords) != Some(r)
    ensures Decode(lines).value[r][c] == 0
  {
    DecodeCorrect(lines);
    if c < |lines| {
      LastCountNoWriter(lines[c], 0, r, NumWords);
    }
  }

  /** Counts that are all non-negative give a non-negative matrix. */
  lemma DecodeNonNeg(lines: seq<Line>)
    requires Decode(lines).Ok?
    requires forall d, p :: 0 <= d < |lines| && 0 <= p < |lines[d]| && lines[d][p].Pair? ==> lines[d][p].count >= 0
    ensures forall r, c :: 0 <= r < NumWords && 0 <= c < NumDocuments ==> Decode(lines).value[r][c] >= 0
  {
    DecodeCorrect(lines);
    forall r, c | 0 <= r < NumWords && 0 <= c < NumDocuments
      ensures Decode(lines).value[r][c] >= 0
    {
      if c < |lines| {
        LastCountNonNeg(lines[c], 0, r, NumWords);
      }
    }
  }

  lemma {:induction false} LastCountNonNeg(line: Line, pos: nat, r: nat, rows: nat)
    requires pos <= |line|
    requires forall p :: 0 <= p < |line| && line[p].Pair? ==> line[p].count >= 0
    ensures LastCount(line, pos, r, rows).Some? ==> LastCount(line, pos, r, rows).value >= 0
    decreases |line| - pos
  {
    if pos < |line| {
      LastCountNonNeg(line, pos + 1, r, rows);
    }
  }

  /** Two tokens of one line that name the same row: the later one's count is
      stored, not the sum of the two, unless a still later token names that row. */
  lemma DuplicateIndexOverwrites(lines: seq<Line>, j: nat, p: nat, q: nat, r: nat)
    requires Decode(lines).Ok?
    requires j < |lines| && p < q < |lines[j]| && r < NumWords
    requires TargetRow(lines[j][p], NumWords) == Some(r) && TargetRow(lines[j][q], NumWords) == Some(r)
    requires forall k :: q < k < |lines[j]| ==> TargetRow(lines[j][k], NumWords) != Some(r)
    ensures j < NumDocuments
    ensures Decode(lines).value[r][j] == lines[j][q].count
  {
    DecodeCorrect(lines);
    assert TokenOk(lines[j][q], j, NumWords, NumDocuments);
    LastCountIsLastWriter(lines[j], 0, q, r, NumWords);
  }

  /** Indices from -3011 to 0 are not rejected: numpy reads `X[i - 1]` with a
      negative `i - 1` from the end, so the count lands in row `i + 3011`;
      index 0 writes the last row. */
  lemma NonPositiveIndexWraps(lines: seq<Line>, j: nat, k: nat)
    requires Decode(lines).Ok?
    requires j < |lines| && k < |lines[j]| && lines[j][k].Pair?
    requires 1 - NumWords <= lines[j][k].index <= 0
    requires forall q :: k < q < |lines[j]| ==>
      TargetRow(lines[j][q], NumWords) != Some(lines[j][k].index + NumWords - 1)
    ensures j < NumDocuments
    ensures Decode(lines).value[lines[j][k].index + NumWords - 1][j] == lines[j][k].count
  {
    DecodeCorrect(lines);
    assert TokenOk(lines[j][k], j, NumWords, NumDocuments);
    LastCountIsLastWriter(lines[j], 0, k, lines[j][k].index + NumWords - 1, NumWords);
  }

  /** An index above 3012 aborts the read. */
  lemma IndexAboveVocabularyFails(lines: seq<Line>, d: nat, p: nat)
    requires d < |lines| && p < |lines[d]| && lines[d][p].Pair? && lines[d][p].index > NumWords
    ensures Decode(lines).Err?
  {
    DecodeCorrect(lines);
    assert !TokenOk(lines[d][p], d, NumWords, NumDocuments);
  }

  /** A file of more than 8447 lines cannot be read: the first token of line 8448
      has no column to go to. */
  lemma TooManyDocumentsFails(lines: seq<Line>)
    requires |lines| > NumDocuments
    ensures Decode(lines).Err?
  {
    DecodeCorrect(lines);
    assert !TokenOk(lines[NumDocuments][0], NumDocuments, NumWords, NumDocuments);
  }

  /** A failed line names the first failing token at or after `pos`. */
  lemma {:induction false} DecodeLineError(X: seq<seq<int>>, line: Line, doc: nat, pos: nat, rows: nat, cols: nat)
    requires IsGrid(X, rows, cols) && pos <= |line|
    requires DecodeLine(X, line, doc, pos, rows, cols).Err?
    ensures var e := DecodeLine(X, line, doc, pos, rows, cols).error;
      && e.doc == doc && pos <= e.pos < |line|
      && !TokenOk(line[e.pos], doc, rows, cols)
      && e == TokenError(line[e.pos], doc, e.pos, rows)
      && forall p :: pos <= p < e.pos ==> TokenOk(line[p], doc, rows, cols)
    decreases |line| - pos
  {
    var s := Store(X, line[pos], doc, pos, rows, cols);
    if s.Ok? {
      DecodeLineError(s.value, line, doc, pos + 1, rows, cols);
    }
  }

  /** A failed read names the first failing token in reading order. */
  lemma {:induction false} DecodeLinesError(X: seq<seq<int>>, lines: seq<Line>, doc: nat, rows: nat, cols: nat)
    requires IsGrid(X, rows, cols) && doc <= |lines|
    requires DecodeLines(X, lines, doc, rows, cols).Err?
    ensures var e := DecodeLines(X, lines, doc, rows, cols).error;
      && doc <= e.doc < |lines| && e.pos < |lines[e.doc]|
      && !TokenOk(lines[e.doc][e.pos], e.doc, rows, cols)
      && e == TokenError(lines[e.doc][e.pos], e.doc, e.pos, rows)
      && (forall d, p :: doc <= d < e.doc && 0 <= p < |lines[d]| ==> TokenOk(lines[d][p], d, rows, cols))
      && (forall p :: 0 <= p < e.pos ==> TokenOk(lines[e.doc][p], e.doc, rows, cols))
    decreases |lines| - doc
  {
    var s := DecodeLine(X, lines[doc], doc, 0, rows, cols);
    if s.Ok? {
      DecodeLineSpec(X, lines[doc], doc, 0, rows, cols);
      DecodeLinesError(s.value, lines, doc + 1, rows, cols);
    } else {
      DecodeLineError(X, lines[doc], doc, 0, rows, cols);
    }
  }

  /** The error `get_nyt_data` raises is the one of the first failing token:
      every token before it was stored, and the error kind follows the order in
      which the statement fails (split, then row index, then column index). */
  lemma DecodeErrorIsFirst(lines: seq<Line>)
    requires Decode(lines).Err?
    ensures var e := Decode(lines).error;
      && e.doc < |lines| && e.pos < |lines[e.doc]|
      && !TokenOk(lines[e.doc][e.pos], e.doc, NumWords, NumDocuments)
      && e == TokenError(lines[e.doc][e.pos], e.doc, e.pos, NumWords)
      && (forall d, p :: 0 <= d < e.doc && 0 <= p < |lines[d]| ==> TokenOk(lines[d][p], d, NumWords, NumDocuments))
      && (forall p :: 0 <= p < e.pos ==> TokenOk(lines[e.doc][p], e.doc, NumWords, NumDocuments))
  {
    DecodeLinesError(Zeros(NumWords, NumDocuments), lines, 0, NumWords, NumDocuments);
  }
}
