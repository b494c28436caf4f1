// The ConnectK player: it keeps the board of the current game, records the
// opponent's move and answers with its own, always the first BLANK cell
// found by scanning the rows from the bottom up, each from left to right.

module ConnectKPlayer {

  import opened Board

  /** What one turn leaves behind: the new board and the move reported to the caller. */
  datatype Reply = Reply(grid: Grid, move: Cell)

  /** A coordinate of -1 means there is no opponent move to record (the computer moves first). */
  predicate IsSentinel(row: int, col: int)
  {
    row == -1 || col == -1
  }

  /** The board after the opponent's move at (row, col) is recorded. */
  function RecordOpponent(g: Grid, row: int, col: int, mark: char): (r: Grid)
    requires !IsSentinel(row, col) ==> InBounds(g, Cell(row, col))
    ensures SameShape(r, g)
    ensures IsSentinel(row, col) ==> r == g
    ensures !IsSentinel(row, col) ==> r[row][col] == Opponent(mark)
    ensures forall i, j :: 0 <= i < |g| && 0 <= j < |g[i]| && Cell(i, j) != Cell(row, col) ==> r[i][j] == g[i][j]
  {
    if IsSentinel(row, col) then g else Put(g, Cell(row, col), Opponent(mark))
  }

  /** The computer's move: `mark` written into the first BLANK cell, or `none` reported on a full board. */
  function AiMove(g: Grid, mark: char, none: Cell): (r: Reply)
    ensures SameShape(r.grid, g)
    ensures NoBlank(g) ==> r.grid == g && r.move == none
    ensures !NoBlank(g) ==>
      IsFirstBlank(g, r.move) && r.grid[r.move.row][r.move.col] == mark &&
      forall i, j :: 0 <= i < |g| && 0 <= j < |g[i]| && Cell(i, j) != r.move ==> r.grid[i][j] == g[i][j]
  {
    match FirstBlank(g)
    case Some(c) => Reply(Put(g, c, mark), c)
    case None => Reply(g, none)
  }

  /** One call of nextMove: record the opponent, then move; on a full board row and col come back as passed. */
  function NextMoveReply(g: Grid, row: int, col: int, mark: char): (r: Reply)
    requires !IsSentinel(row, col) ==> InBounds(g, Cell(row, col))
    ensures SameShape(r.grid, g)
    ensures r.move == Cell(row, col) || IsFirstBlank(RecordOpponent(g, row, col, mark), r.move)
  {
    AiMove(RecordOpponent(g, row, col, mark), mark, Cell(row, col))
  }

  /** One call of getMove: move; on a full board the reply is Cell(0, 0). */
  function GetMoveReply(g: Grid, mark: char): (r: Reply)
    ensures SameShape(r.grid, g)
    ensures (r.move == Cell(0, 0) && r.grid == g) || IsFirstBlank(g, r.move)
  {
    AiMove(g, mark, Cell(0, 0))
  }

  /** Each move of the computer uses up exactly one open cell, unless the board is already full. */
  lemma AiMoveUsesOneBlank(g: Grid, mark: char, none: Cell)
    requires mark != BLANK
    ensures CountBlanks(AiMove(g, mark, none).grid) == if NoBlank(g) then CountBlanks(g) else CountBlanks(g) - 1
  {
    match FirstBlank(g)
    case Some(c) =>
      CountBlanksPut(g, c, mark);
    case None =>
  }

  /** The opponent's mark is on the board after nextMove: the computer never plays over it. */
  lemma NextMoveKeepsOpponentMark(g: Grid, row: int, col: int, mark: char)
    requires !IsSentinel(row, col) && InBounds(g, Cell(row, col))
    ensures NextMoveReply(g, row, col, mark).grid[row][col] == Opponent(mark)
    ensures NextMoveReply(g, row, col, mark).move != Cell(row, col) || NoBlank(RecordOpponent(g, row, col, mark))
  {
    var g1 := RecordOpponent(g, row, col, mark);
    assert g1[row][col] == Opponent(mark);
  }

  /** With a sentinel coordinate nothing is recorded: at most the computer's own cell changes. */
  lemma NextMoveSentinelRecordsNothing(g: Grid, row: int, col: int, mark: char)
    requires IsSentinel(row, col)
    ensures var r := NextMoveReply(g, row, col, mark);
      SameShape(r.grid, g) &&
      forall i, j :: 0 <= i < |g| && 0 <= j < |g[i]| && Cell(i, j) != r.move ==> r.grid[i][j] == g[i][j]
  {
  }

  /**
   * The computer plays the first BLANK cell, in scan order, of the board as it
   * stands after the opponent's move, and writes its own mark there.
   */
  lemma NextMovePlaysFirstBlank(g: Grid, row: int, col: int, mark: char)
    requires !IsSentinel(row, col) ==> InBounds(g, Cell(row, col))
    requires !NoBlank(RecordOpponent(g, row, col, mark))
    ensures var g1 := RecordOpponent(g, row, col, mark);
      var r := NextMoveReply(g, row, col, mark);
      IsFirstBlank(g1, r.move) && r.grid[r.move.row][r.move.col] == mark
  {
  }

  /** On a board with no BLANK cell after the opponent's move, nothing more is written and row, col come back unchanged. */
  lemma NextMoveOnFullBoard(g: Grid, row: int, col: int, mark: char)
    requires !IsSentinel(row, col) ==> InBounds(g, Cell(row, col))
    requires NoBlank(RecordOpponent(g, row, col, mark))
    ensures NextMoveReply(g, row, col, mark) == Reply(RecordOpponent(g, row, col, mark), Cell(row, col))
  {
  }

  /** Apart from the opponent's cell and the reported cell, every cell keeps its value. */
  lemma NextMoveFrame(g: Grid, row: int, col: int, mark: char)
    requires !IsSentinel(row, col) ==> InBounds(g, Cell(row, col))
    ensures var r := NextMoveReply(g, row, col, mark);
      SameShape(r.grid, g) &&
      forall i, j :: 0 <= i < |g| && 0 <= j < |g[i]| && Cell(i, j) != Cell(row, col) && Cell(i, j) != r.move ==>
        r.grid[i][j] == g[i][j]
  {
  }

  /** getMove writes the first BLANK cell in scan order and returns it. */
  lemma GetMovePlaysFirstBlank(g: Grid, mark: char)
    requires !NoBlank(g)
    ensures var r := GetMoveReply(g, mark);
      IsFirstBlank(g, r.move) && r.grid == Put(g, r.move, mark)
  {
  }

  /** On a full board getMove changes nothing and returns Cell(0, 0). */
  lemma GetMoveOnFullBoard(g: Grid, mark: char)
    requires NoBlank(g)
    ensures GetMoveReply(g, mark) == Reply(g, Cell(0, 0))
  {
  }

  /** getMove makes the same move as nextMove called with the sentinel; only the reply on a full board differs. */
  lemma GetMoveAgreesWithNextMove(g: Grid, mark: char)
    ensures GetMoveReply(g, mark).grid == NextMoveReply(g, -1, -1, mark).grid
    ensures !NoBlank(g) ==> GetMoveReply(g, mark).move == NextMoveReply(g, -1, -1, mark).move
    ensures NoBlank(g) ==> NextMoveReply(g, -1, -1, mark).move == Cell(-1, -1)
  {
  }

  /**
   * The player object. The grid is stored in `board`, which is null exactly
   * when the last new game was given a non-positive number of rows or columns.
   * K (the run length that wins) and G (gravity) are stored but never read.
   */
  class ConnectK {
    var M: int
    var N: int
    var K: int
    var G: bool
    var computerMark: char
    /** The source's `board_` (its `BoardState` member `board` is not modelled). */
    var board: array2?<char>

    ghost predicate Valid()
      reads this
    {
      (board == null <==> !(M > 0 && N > 0)) &&
      (board != null ==> board.Length0 == M && board.Length1 == N)
    }

    /** The board as a grid value; empty when there is no board. */
    ghost function Cells(): (g: Grid)
      reads this, board
      ensures board == null ==> g == []
      ensures board != null ==> IsRect(g, board.Length0, board.Length1)
      ensures board != null ==>
        forall i, j :: 0 <= i < board.Length0 && 0 <= j < board.Length1 ==> g[i][j] == board[i, j]
    {
      if board == null then []
      else
        var b := board;
        seq(b.Length0, i requires 0 <= i < b.Length0 reads b =>
          seq(b.Length1, j requires 0 <= j < b.Length1 reads b => b[i, j]))
    }

    /** Overwrites one cell of the board; the grid value changes at that cell only. */
    method SetCell(r: int, c: int, v: char)
      requires Valid() && board != null
      requires 0 <= r < M && 0 <= c < N
      modifies board
      ensures Valid()
      ensures Cells() == Put(old(Cells()), Cell(r, c), v)
    {
      board[r, c] := v;
      SameCellsEqual(Cells(), Put(old(Cells()), Cell(r, c), v));
    }

    constructor ()
      ensures Valid()
      ensures M == 0 && N == 0 && K == 0 && !G && board == null
    {
      M, N, K, G := 0, 0, 0, false;
      board := null;
    }

    /** Starts a game on a pM-by-pN board of BLANK cells; with a non-positive size there is no board. */
    method NewGame(pM: int, pN: int, pK: int, pG: bool, pmark: char)
      modifies this
      ensures Valid()
      ensures M == pM && N == pN && K == pK && G == pG && computerMark == pmark
      ensures pM > 0 && pN > 0 ==> board != null && fresh(board) && Cells() == Blanks(pM, pN)
      ensures !(pM > 0 && pN > 0) ==> board == null && Cells() == []
    {
      board := null;
      M := pM;
      N := pN;
      K := pK;
      G := pG;
      computerMark := pmark;
      if M > 0 && N > 0 {
        var b := new char[M, N];
        var i := 0;
        while i < M
          modifies b
          invariant 0 <= i <= M
          invariant forall r, c :: 0 <= r < i && 0 <= c < N ==> b[r, c] == BLANK
        {
          var j := 0;
          while j < N
            modifies b
            invariant 0 <= j <= N
            invariant forall r, c :: 0 <= r < i && 0 <= c < N ==> b[r, c] == BLANK
            invariant forall c :: 0 <= c < j ==> b[i, c] == BLANK
          {
            b[i, j] := BLANK;
            j := j + 1;
          }
          i := i + 1;
        }
        board := b;
        SameCellsEqual(Cells(), Blanks(M, N));
      }
    }

    /**
     * Records the opponent's move at (row, col) unless a coordinate is -1,
     * then writes computerMark into the first BLANK cell in scan order and
     * reports it; on a full board row and col are returned as passed.
     */
    method NextMove(row: int, col: int) returns (moveRow: int, moveCol: int)
      requires Valid()
      requires !IsSentinel(row, col) ==> board != null && 0 <= row < M && 0 <= col < N
      modifies board
      ensures Valid()
      ensures var r := NextMoveReply(old(Cells()), row, col, computerMark);
        Cells() == r.grid && moveRow == r.move.row && moveCol == r.move.col
    {
      if row != -1 && col != -1 {
        SetCell(row, col, Opponent(computerMark));
      }
      ghost var g1 := Cells();
      assert g1 == RecordOpponent(old(Cells()), row, col, computerMark);
      moveRow, moveCol := row, col;

      var rows := M - 1;
      while rows >= 0
        invariant rows == M - 1 || -1 <= rows < M
        invariant Cells() == g1
        invariant forall i, j :: 0 <= i && rows < i < |g1| && 0 <= j < |g1[i]| ==> g1[i][j] != BLANK
      {
        var cols := 0;
        while cols < N
          invariant 0 <= cols <= N || cols == 0
          invariant forall j :: 0 <= j < cols ==> g1[rows][j] != BLANK
        {
          if board[rows, cols] == BLANK {
            FirstBlankUnique(g1, Cell(rows, cols));
            SetCell(rows, cols, computerMark);
            moveRow, moveCol := rows, cols;
            return;
          }
          cols := cols + 1;
        }
        rows := rows - 1;
      }
    }

    /**
     * Writes computerMark into the first BLANK cell in scan order and returns
     * that cell; on a full board nothing changes and Cell(0, 0) is returned.
     */
    method GetMove() returns (move: Cell)
      requires Valid()
      modifies board
      ensures Valid()
      ensures var r := GetMoveReply(old(Cells()), computerMark);
        Cells() == r.grid && move == r.move
    {
      ghost var g := Cells();
      var rows := M - 1;
      while rows >= 0
        invariant rows == M - 1 || -1 <= rows < M
        invariant Cells() == g
        invariant forall i, j :: 0 <= i && rows < i < |g| && 0 <= j < |g[i]| ==> g[i][j] != BLANK
      {
        var cols := 0;
        while cols < N
          invariant 0 <= cols <= N || cols == 0
          invariant forall j :: 0 <= j < cols ==> g[rows][j] != BLANK
        {
          if board[rows, cols] == BLANK {
            FirstBlankUnique(g, Cell(rows, cols));
            SetCell(rows, cols, computerMark);
            return Cell(rows, cols);
          }
          cols := cols + 1;
        }
        rows := rows - 1;
      }
      return Cell(0, 0);
    }
  }
}
