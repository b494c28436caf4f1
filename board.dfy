// The game board as a value: an M-by-N grid of marks, row 0 at the top and
// column 0 at the left, together with the scan order the player uses to pick
// its move (bottom row first, left to right within a row).

module Board {

  /** The three cell symbols. */
  const X: char := 'X'
  const O: char := 'O'
  const BLANK: char := ' '

  /** A grid is a sequence of rows; grid[i][j] is the cell in row i, column j. */
  type Grid = seq<seq<char>>

  datatype Cell = Cell(row: int, col: int)

  datatype Option<T> = None | Some(value: T)

  /** The grid has m rows of n cells each. */
  predicate IsRect(g: Grid, m: int, n: int)
  {
    |g| == m && forall i :: 0 <= i < |g| ==> |g[i]| == n
  }

  predicate InBounds(g: Grid, c: Cell)
  {
    0 <= c.row < |g| && 0 <= c.col < |g[c.row]|
  }

  /** Same number of rows and the same length for each row. */
  predicate SameShape(a: Grid, b: Grid)
  {
    |a| == |b| && forall i :: 0 <= i < |a| ==> |a[i]| == |b[i]|
  }

  /** Proof helper: grids of the same shape that agree on every cell are equal. */
  lemma SameCellsEqual(a: Grid, b: Grid)
    requires SameShape(a, b)
    requires forall i, j :: 0 <= i < |a| && 0 <= j < |a[i]| ==> a[i][j] == b[i][j]
    ensures a == b
  {
    forall i | 0 <= i < |a|
      ensures a[i] == b[i]
    {
      assert |a[i]| == |b[i]|;
    }
  }

  /** An m-by-n grid with every cell BLANK: the board of a new game. */
  function Blanks(m: nat, n: nat): (g: Grid)
    ensures IsRect(g, m, n)
    ensures forall i, j :: 0 <= i < m && 0 <= j < n ==> g[i][j] == BLANK
  {
    seq(m, _ => seq(n, _ => BLANK))
  }

  /** The mark recorded for the other player when the computer plays `mark`. */
  function Opponent(mark: char): (r: char)
    ensures r != mark && r != BLANK
    ensures r == X || r == O
    ensures r == O <==> mark == X
  {
    if mark == X then O else X
  }

  /** The grid with cell c overwritten by v. */
  function Put(g: Grid, c: Cell, v: char): (r: Grid)
    requires InBounds(g, c)
    ensures SameShape(r, g)
    ensures r[c.row][c.col] == v
    ensures forall i, j :: 0 <= i < |g| && 0 <= j < |g[i]| && (i != c.row || j != c.col) ==> r[i][j] == g[i][j]
  {
    g[c.row := g[c.row][c.col := v]]
  }

  predicate NoBlank(g: Grid)
  {
    forall i, j :: 0 <= i < |g| && 0 <= j < |g[i]| ==> g[i][j] != BLANK
  }

  /** Cell a is visited before cell b: rows from the bottom up, columns left to right. */
  predicate Precedes(a: Cell, b: Cell)
  {
    a.row > b.row || (a.row == b.row && a.col < b.col)
  }

  /** The scan order is a strict total order on cells: of two distinct cells exactly one comes first. */
  lemma PrecedesIsTotalOrder(a: Cell, b: Cell, c: Cell)
    ensures !Precedes(a, a)
    ensures Precedes(a, b) ==> !Precedes(b, a)
    ensures a != b ==> Precedes(a, b) || Precedes(b, a)
    ensures Precedes(a, b) && Precedes(b, c) ==> Precedes(a, c)
  {
  }

  /** c is a BLANK cell of g and every cell visited before it is not BLANK. */
  predicate IsFirstBlank(g: Grid, c: Cell): (r: bool)
    ensures r ==> !NoBlank(g)
  {
    InBounds(g, c) && g[c.row][c.col] == BLANK &&
    forall i, j :: 0 <= i < |g| && 0 <= j < |g[i]| && Precedes(Cell(i, j), c) ==> g[i][j] != BLANK
  }

  /** The first index at or after `from` whose cell is BLANK. */
  function FirstBlankInRow(row: seq<char>, from: nat): (r: Option<nat>)
    ensures r.Some? ==> from <= r.value < |row| && row[r.value] == BLANK
    decreases |row| - from
  {
    if from >= |row| then None
    else if row[from] == BLANK then Some(from)
    else FirstBlankInRow(row, from + 1)
  }

  /** The scan of rows r, r - 1, ..., 0, each left to right. */
  function ScanRows(g: Grid, r: int): (res: Option<Cell>)
    requires -1 <= r < |g|
    ensures res.Some? ==> 0 <= res.value.row <= r && InBounds(g, res.value) && g[res.value.row][res.value.col] == BLANK
    decreases r + 1
  {
    if r < 0 then None
    else match FirstBlankInRow(g[r], 0)
      case Some(j) => Some(Cell(r, j))
      case None => ScanRows(g, r - 1)
  }

  lemma {:induction false} FirstBlankInRowSpec(row: seq<char>, from: nat)
    ensures match FirstBlankInRow(row, from)
      case Some(k) =>
        from <= k < |row| && row[k] == BLANK && forall j :: from <= j < k ==> row[j] != BLANK
      case None =>
        forall j :: from <= j < |row| ==> row[j] != BLANK
    decreases |row| - from
  {
    if from < |row| && row[from] != BLANK {
      FirstBlankInRowSpec(row, from + 1);
    }
  }

  /** Scanning rows r down to 0 finds the first BLANK of the top r + 1 rows, or proves there is none. */
  lemma {:induction false} ScanRowsSpec(g: Grid, r: int)
    requires -1 <= r < |g|
    ensures match ScanRows(g, r)
      case Some(c) => c.row <= r && IsFirstBlank(g[..r + 1], c)
      case None => NoBlank(g[..r + 1])
    decreases r + 1
  {
    if r >= 0 {
      var top := g[..r + 1];
      FirstBlankInRowSpec(g[r], 0);
      match FirstBlankInRow(g[r], 0)
      case Some(j) =>
        assert top[r] == g[r];
      case None =>
        ScanRowsSpec(g, r - 1);
        assert top[..r] == g[..r];
        assert forall j :: 0 <= j < |top[r]| ==> top[r][j] != BLANK;
    }
  }

  /** The cell the player picks: the first BLANK in scan order, if any. */
  function FirstBlank(g: Grid): (r: Option<Cell>)
    ensures r.Some? ==> IsFirstBlank(g, r.value)
    ensures r.None? <==> NoBlank(g)
  {
    ScanRowsSpec(g, |g| - 1);
    assert g[..|g|] == g;
    ScanRows(g, |g| - 1)
  }

  /** The converse: any cell meeting the scan-order definition is the one FirstBlank returns. */
  lemma FirstBlankUnique(g: Grid, c: Cell)
    requires IsFirstBlank(g, c)
    ensures FirstBlank(g) == Some(c)
  {
  }

  /**
   * The picked cell rests on occupied cells: every cell below it in its
   * column is non-BLANK, so the bottom-up scan never leaves a piece floating.
   */
  lemma FirstBlankIsSupported(g: Grid, c: Cell)
    requires FirstBlank(g) == Some(c)
    ensures forall i :: c.row < i < |g| && c.col < |g[i]| ==> g[i][c.col] != BLANK
  {
    assert IsFirstBlank(g, c);
    forall i | c.row < i < |g| && c.col < |g[i]|
      ensures g[i][c.col] != BLANK
    {
      assert Precedes(Cell(i, c.col), c);
    }
  }

  /** On a new m-by-n board the first pick is the bottom-left corner. */
  lemma FreshBoardFirstBlank(m: nat, n: nat)
    requires m > 0 && n > 0
    ensures FirstBlank(Blanks(m, n)) == Some(Cell(m - 1, 0))
    ensures !NoBlank(Blanks(m, n))
  {
    var g := Blanks(m, n);
    assert IsFirstBlank(g, Cell(m - 1, 0));
    FirstBlankUnique(g, Cell(m - 1, 0));
  }

  /** The number of BLANK cells in a row. */
  function RowBlanks(row: seq<char>): nat
  {
    if row == [] then 0 else (if row[0] == BLANK then 1 else 0) + RowBlanks(row[1..])
  }

  /** The number of BLANK cells on the board: the moves still open. */
  function CountBlanks(g: Grid): nat
  {
    if g == [] then 0 else RowBlanks(g[0]) + CountBlanks(g[1..])
  }

  lemma {:induction false} RowBlanksPut(row: seq<char>, k: nat, v: char)
    requires k < |row| && row[k] == BLANK && v != BLANK
    ensures RowBlanks(row[k := v]) == RowBlanks(row) - 1
  {
    if k > 0 {
      assert row[k := v][1..] == row[1..][k - 1 := v];
      RowBlanksPut(row[1..], k - 1, v);
    }
  }

  /** Writing a mark into a BLANK cell uses up exactly one open cell. */
  lemma {:induction false} CountBlanksPut(g: Grid, c: Cell, v: char)
    requires InBounds(g, c) && g[c.row][c.col] == BLANK && v != BLANK
    ensures CountBlanks(Put(g, c, v)) == CountBlanks(g) - 1
  {
    if c.row == 0 {
      assert Put(g, c, v)[1..] == g[1..];
      RowBlanksPut(g[0], c.col, v);
    } else {
      assert Put(g, c, v)[1..] == Put(g[1..], Cell(c.row - 1, c.col), v);
      CountBlanksPut(g[1..], Cell(c.row - 1, c.col), v);
    }
  }

  lemma {:induction false} RowBlanksZero(row: seq<char>)
    ensures RowBlanks(row) == 0 <==> forall j :: 0 <= j < |row| ==> row[j] != BLANK
  {
    if row != [] {
      RowBlanksZero(row[1..]);
      assert forall j :: 1 <= j < |row| ==> row[j] == row[1..][j - 1];
    }
  }

  /** A board is full exactly when no open cell is left. */
  lemma {:induction false} CountBlanksZero(g: Grid)
    ensures CountBlanks(g) == 0 <==> NoBlank(g)
  {
    if g != [] {
      RowBlanksZero(g[0]);
      CountBlanksZero(g[1..]);
      assert forall i :: 1 <= i < |g| ==> g[i] == g[1..][i - 1];
    }
  }
}
