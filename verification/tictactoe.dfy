/**
  The rules of tic-tac-toe on a 3x3 board.

  X moves first and the players alternate, so whose turn it is follows from
  the marks on the board. A move places the current player's mark on an empty
  cell; the game ends when a player fills a row, a column or a diagonal, or
  when no empty cell is left.
*/
module TicTacToe {

  /** The contents of one cell: a mark of either player, or nothing. */
  datatype Cell = X | O | Empty

  /** A board is three rows of three cells. */
  type Board = b: seq<seq<Cell>> | |b| == 3 && |b[0]| == 3 && |b[1]| == 3 && |b[2]| == 3
    witness [[Empty, Empty, Empty], [Empty, Empty, Empty], [Empty, Empty, Empty]]

  /** A row or column number. */
  type Index = i: int | 0 <= i < 3

  /** A move: the row and the column of the cell to mark. */
  datatype Action = Action(row: Index, col: Index)

  /** What a move does to a board: the new board, or a rejection when the cell is taken. */
  datatype Outcome = Moved(board: Board) | InvalidMove

  /** The board at the start of a game. */
  function InitialState(): (b: Board)
    ensures forall i: Index, j: Index :: b[i][j] == Empty
  {
    [[Empty, Empty, Empty], [Empty, Empty, Empty], [Empty, Empty, Empty]]
  }

  // ---------------------------------------------------------------------------
  // Counting marks
  // ---------------------------------------------------------------------------

  /** The number of cells in `row` that hold `c`, counted left to right. */
  function CountRow(row: seq<Cell>, c: Cell): (n: nat)
    ensures n <= |row|
  {
    if row == [] then 0 else (if row[0] == c then 1 else 0) + CountRow(row[1..], c)
  }

  /** The count of a row is the multiplicity of `c` in it. */
  lemma {:induction false} CountRowIsMultiplicity(row: seq<Cell>, c: Cell)
    ensures CountRow(row, c) == multiset(row)[c]
  {
    if row != [] {
      assert row == [row[0]] + row[1..];
      CountRowIsMultiplicity(row[1..], c);
    }
  }

  /** Every cell of a row holds exactly one of the three contents. */
  lemma {:induction false} CountRowAddsUp(row: seq<Cell>)
    ensures CountRow(row, X) + CountRow(row, O) + CountRow(row, Empty) == |row|
  {
    if row != [] {
      CountRowAddsUp(row[1..]);
    }
  }

  /** The number of cells of the board that hold `c`, counted row by row. */
  function Count(b: Board, c: Cell): (n: nat)
    ensures n <= 9
  {
    CountRow(b[0], c) + CountRow(b[1], c) + CountRow(b[2], c)
  }

  /** All nine cells in row-major order. */
  function Cells(b: Board): seq<Cell>
  {
    b[0] + b[1] + b[2]
  }

  /** The count of `c` is its multiplicity among the nine cells. */
  lemma CountIsMultiplicity(b: Board, c: Cell)
    ensures Count(b, c) == multiset(Cells(b))[c]
  {
    CountRowIsMultiplicity(b[0], c);
    CountRowIsMultiplicity(b[1], c);
    CountRowIsMultiplicity(b[2], c);
  }

  /** Every cell holds exactly one of the three contents. */
  lemma CountsAddUp(b: Board)
    ensures Count(b, X) + Count(b, O) + Count(b, Empty) == 9
  {
    CountRowAddsUp(b[0]);
    CountRowAddsUp(b[1]);
    CountRowAddsUp(b[2]);
  }

  /** Whose turn it is: X when X has no more marks than O, and O otherwise. */
  function Player(b: Board): (p: Cell)
    ensures p != Empty
    ensures p == X <==> Count(b, X) <= Count(b, O)
  {
    if Count(b, X) <= Count(b, O) then X else O
  }

  /** The mark counts of a board reachable by alternating moves from the initial state. */
  predicate Balanced(b: Board)
  {
    Count(b, X) == Count(b, O) || Count(b, X) == Count(b, O) + 1
  }

  // ---------------------------------------------------------------------------
  // Moves
  // ---------------------------------------------------------------------------

  /** The legal moves: every empty cell. */
  function Actions(b: Board): (acts: set<Action>)
    ensures forall a :: a in acts <==> b[a.row][a.col] == Empty
  {
    var acts := set i: Index, j: Index | b[i][j] == Empty :: Action(i, j);
    assert forall a: Action | b[a.row][a.col] == Empty :: a in acts by {
      forall a: Action | b[a.row][a.col] == Empty
        ensures a in acts
      {
        assert a == Action(a.row, a.col);
      }
    }
    acts
  }

  /** The empty cells of row `i` from column `j` on, left to right. */
  function RowMoves(b: Board, i: Index, j: nat): (ms: seq<Action>)
    requires j <= 3
    ensures forall a :: a in ms <==> a.row == i && a.col >= j && b[i][a.col] == Empty
    ensures |ms| == CountRow(b[i][j..], Empty)
    decreases 3 - j
  {
    if j == 3 then []
    else
      assert b[i][j..] == [b[i][j]] + b[i][j + 1..];
      (if b[i][j] == Empty then [Action(i, j)] else []) + RowMoves(b, i, j + 1)
  }

  /** Every legal move, in the order in which the loops over rows and then columns meet them. */
  function Moves(b: Board): (ms: seq<Action>)
    ensures forall a :: a in ms <==> b[a.row][a.col] == Empty
  {
    RowMoves(b, 0, 0) + RowMoves(b, 1, 0) + RowMoves(b, 2, 0)
  }

  /** One move is listed per empty cell. */
  lemma MovesCount(b: Board)
    ensures |Moves(b)| == Count(b, Empty)
  {
    assert b[0][0..] == b[0] && b[1][0..] == b[1] && b[2][0..] == b[2];
  }

  /** The columns of `ms` strictly increase. */
  predicate ColumnsIncrease(ms: seq<Action>)
  {
    forall m, n | 0 <= m < n < |ms| :: ms[m].col < ms[n].col
  }

  /** Putting a move in front of moves further right keeps the columns increasing. */
  lemma ConsIncreasing(head: Action, rest: seq<Action>)
    requires ColumnsIncrease(rest)
    requires forall a | a in rest :: a.col > head.col
    ensures ColumnsIncrease([head] + rest)
  {
    forall m, n | 0 <= m < n < |[head] + rest|
      ensures ([head] + rest)[m].col < ([head] + rest)[n].col
    {
      if m == 0 {
        assert rest[n - 1] in rest;
      }
    }
  }

  /** The moves of a row are listed in increasing column order. */
  lemma {:induction false} RowMovesOrdered(b: Board, i: Index, j: nat)
    requires j <= 3
    ensures ColumnsIncrease(RowMoves(b, i, j))
    decreases 3 - j
  {
    if j < 3 {
      RowMovesOrdered(b, i, j + 1);
      if b[i][j] == Empty {
        ConsIncreasing(Action(i, j), RowMoves(b, i, j + 1));
      }
    }
  }

  /** No element of `ms` is listed twice. */
  predicate Distinct<T(==)>(ms: seq<T>)
  {
    forall m, n | 0 <= m < n < |ms| :: ms[m] != ms[n]
  }

  /** Moves in increasing column order are distinct. */
  lemma IncreasingDistinct(ms: seq<Action>)
    requires ColumnsIncrease(ms)
    ensures Distinct(ms)
  {
  }

  /** Two lists without repetitions and with no element in common concatenate to one without repetitions. */
  lemma ConcatDistinct<T>(s: seq<T>, t: seq<T>)
    requires Distinct(s) && Distinct(t)
    requires forall a | a in s :: a !in t
    ensures Distinct(s + t)
  {
    forall m, n | 0 <= m < n < |s + t|
      ensures (s + t)[m] != (s + t)[n]
    {
      if m < |s| <= n {
        assert s[m] in s && t[n - |s|] in t;
      }
    }
  }

  /** No move is listed twice. */
  lemma MovesDistinct(b: Board)
    ensures Distinct(Moves(b))
  {
    var r0, r1, r2 := RowMoves(b, 0, 0), RowMoves(b, 1, 0), RowMoves(b, 2, 0);
    RowMovesOrdered(b, 0, 0);
    RowMovesOrdered(b, 1, 0);
    RowMovesOrdered(b, 2, 0);
    IncreasingDistinct(r0);
    IncreasingDistinct(r1);
    IncreasingDistinct(r2);
    ConcatDistinct(r1, r2);
    ConcatDistinct(r0, r1 + r2);
    assert Moves(b) == r0 + (r1 + r2);
  }

  /** There are as many legal moves as empty cells. */
  lemma ActionsCount(b: Board)
    ensures |Actions(b)| == Count(b, Empty)
  {
    MovesDistinct(b);
    MovesCount(b);
    DistinctCardinality(Moves(b), Actions(b));
  }

  /** A sequence without repetitions has as many elements as the set of its elements. */
  lemma {:induction false} DistinctCardinality<T>(ms: seq<T>, s: set<T>)
    requires Distinct(ms)
    requires forall a :: a in ms <==> a in s
    ensures |s| == |ms|
  {
    if ms != [] {
      var rest := ms[1..];
      assert forall a :: a in rest <==> a in s - {ms[0]} by {
        forall a
          ensures a in rest <==> a in s - {ms[0]}
        {
          if a in rest {
            var n :| 0 <= n < |rest| && rest[n] == a;
            assert ms[n + 1] == a;
          }
          if a in ms && a != ms[0] {
            var n :| 0 <= n < |ms| && ms[n] == a;
            assert rest[n - 1] == a;
          }
        }
      }
      DistinctCardinality(rest, s - {ms[0]});
    } else {
      assert forall a :: a !in s;
      assert s == {};
    }
  }

  /**
    The board after the current player marks the cell of `a`, or a rejection
    when that cell is already taken. The given board is left as it is.
  */
  function Result(b: Board, a: Action): (r: Outcome)
    ensures r.InvalidMove? <==> b[a.row][a.col] != Empty
    ensures r.Moved? ==> r.board[a.row][a.col] == Player(b)
    ensures r.Moved? ==> forall i: Index, j: Index | Action(i, j) != a :: r.board[i][j] == b[i][j]
    ensures r.Moved? ==>
      forall c :: Count(r.board, c) == Count(b, c) + (if c == Player(b) then 1 else 0) - (if c == Empty then 1 else 0)
  {
    if b[a.row][a.col] != Empty then InvalidMove
    else
      var next := b[a.row := b[a.row][a.col := Player(b)]];
      PlaceCounts(b, a.row, a.col, Player(b), next);
      Moved(next)
  }

  /** The board after a legal move. */
  function Play(b: Board, a: Action): (next: Board)
    requires b[a.row][a.col] == Empty
    ensures Result(b, a) == Moved(next)
    ensures Count(next, Empty) == Count(b, Empty) - 1
  {
    Result(b, a).board
  }

  /** Counting is additive over concatenation. */
  lemma {:induction false} CountRowConcat(s: seq<Cell>, t: seq<Cell>, c: Cell)
    ensures CountRow(s + t, c) == CountRow(s, c) + CountRow(t, c)
  {
    if s == [] {
      assert s + t == t;
    } else {
      assert (s + t)[1..] == s[1..] + t;
      CountRowConcat(s[1..], t, c);
    }
  }

  /** Writing `v` at position `j` of a row trades one occurrence of the old contents for one of `v`. */
  lemma CountRowUpdate(row: seq<Cell>, j: nat, v: Cell, c: Cell)
    requires j < |row|
    ensures CountRow(row[j := v], c) == CountRow(row, c) + (if c == v then 1 else 0) - (if c == row[j] then 1 else 0)
  {
    var pre, post := row[..j], row[j + 1..];
    assert row == pre + [row[j]] + post;
    assert row[j := v] == pre + [v] + post;
    CountRowConcat(pre + [row[j]], post, c);
    CountRowConcat(pre, [row[j]], c);
    CountRowConcat(pre + [v], post, c);
    CountRowConcat(pre, [v], c);
  }

  /** Writing `v` into cell `(i, j)` trades one occurrence of the old contents for one of `v`. */
  lemma PlaceCounts(b: Board, i: Index, j: Index, v: Cell, next: Board)
    requires next == b[i := b[i][j := v]]
    ensures forall c ::
      Count(next, c) == Count(b, c) + (if c == v then 1 else 0) - (if c == b[i][j] then 1 else 0)
  {
    forall c
      ensures Count(next, c) == Count(b, c) + (if c == v then 1 else 0) - (if c == b[i][j] then 1 else 0)
    {
      CountRowUpdate(b[i], j, v, c);
    }
  }

  /** On a board reached by alternating moves, a move keeps the counts balanced and passes the turn. */
  lemma ResultAlternatesPlayer(b: Board, a: Action)
    requires Balanced(b)
    requires Result(b, a).Moved?
    ensures Balanced(Result(b, a).board)
    ensures Player(Result(b, a).board) != Player(b)
  {
  }

  // ---------------------------------------------------------------------------
  // End of the game
  // ---------------------------------------------------------------------------

  /** Every cell of row `r` holds `p`. */
  predicate RowFilled(b: Board, p: Cell, r: Index)
  {
    forall c: Index :: b[r][c] == p
  }

  /** Every cell of column `c` holds `p`. */
  predicate ColumnFilled(b: Board, p: Cell, c: Index)
  {
    forall r: Index :: p == b[r][c]
  }

  /**
    The winning test for one player as the scan performs it: a full row, then
    a full column, then either diagonal.
  */
  predicate Completes(b: Board, p: Cell)
  {
    || (exists r: Index :: RowFilled(b, p, r))
    || (exists c: Index :: ColumnFilled(b, p, c))
    || (forall i: Index :: b[i][i] == p)
    || (forall i: Index :: b[i][2 - i] == p)
  }

  /** The number of winning lines. */
  const LineCount := 8

  /** Winning line `k`, as the coordinates of its three cells: three rows, three columns, two diagonals. */
  function Line(k: nat): (Action, Action, Action)
    requires k < LineCount
  {
    match k
    case 0 => (Action(0, 0), Action(0, 1), Action(0, 2))
    case 1 => (Action(1, 0), Action(1, 1), Action(1, 2))
    case 2 => (Action(2, 0), Action(2, 1), Action(2, 2))
    case 3 => (Action(0, 0), Action(1, 0), Action(2, 0))
    case 4 => (Action(0, 1), Action(1, 1), Action(2, 1))
    case 5 => (Action(0, 2), Action(1, 2), Action(2, 2))
    case 6 => (Action(0, 0), Action(1, 1), Action(2, 2))
    case _ => (Action(0, 2), Action(1, 1), Action(2, 0))
  }

  /** `p` holds all three cells of line `k`. */
  predicate Owns(b: Board, p: Cell, k: nat)
    requires k < LineCount
  {
    var line := Line(k);
    b[line.0.row][line.0.col] == p && b[line.1.row][line.1.col] == p && b[line.2.row][line.2.col] == p
  }

  /** `p` holds all three cells of some winning line. */
  predicate HasLine(b: Board, p: Cell)
  {
    exists k | 0 <= k < LineCount :: Owns(b, p, k)
  }

  /** A full row, column or diagonal found by the scan is one of the eight lines. */
  lemma CompletesHasLine(b: Board, p: Cell)
    requires Completes(b, p)
    ensures HasLine(b, p)
  {
    if RowFilled(b, p, 0) {
      assert Owns(b, p, 0);
    } else if RowFilled(b, p, 1) {
      assert Owns(b, p, 1);
    } else if RowFilled(b, p, 2) {
      assert Owns(b, p, 2);
    } else if ColumnFilled(b, p, 0) {
      assert Owns(b, p, 3);
    } else if ColumnFilled(b, p, 1) {
      assert Owns(b, p, 4);
    } else if ColumnFilled(b, p, 2) {
      assert Owns(b, p, 5);
    } else if forall i: Index :: b[i][i] == p {
      assert Owns(b, p, 6);
    } else {
      assert Owns(b, p, 7);
    }
  }

  /** Each of the eight lines is found by the scan. */
  lemma HasLineCompletes(b: Board, p: Cell)
    requires HasLine(b, p)
    ensures Completes(b, p)
  {
    var k :| 0 <= k < LineCount && Owns(b, p, k);
    if k < 3 {
      assert RowFilled(b, p, k);
    } else if k < 6 {
      assert ColumnFilled(b, p, k - 3);
    } else if k == 6 {
      assert forall i: Index :: b[i][i] == p;
    } else {
      assert forall i: Index :: b[i][2 - i] == p;
    }
  }

  /** The row, column and diagonal scan finds exactly the eight lines of the table. */
  lemma CompletesIffHasLine(b: Board, p: Cell)
    ensures Completes(b, p) <==> HasLine(b, p)
  {
    if Completes(b, p) {
      CompletesHasLine(b, p);
    }
    if HasLine(b, p) {
      HasLineCompletes(b, p);
    }
  }

  /** The winner of the game: X is looked for before O, and `Empty` stands for no winner. */
  function Winner(b: Board): (w: Cell)
    ensures w == X <==> HasLine(b, X)
    ensures w == O <==> !HasLine(b, X) && HasLine(b, O)
    ensures w == Empty <==> !HasLine(b, X) && !HasLine(b, O)
  {
    CompletesIffHasLine(b, X);
    CompletesIffHasLine(b, O);
    if Completes(b, X) then X
    else if Completes(b, O) then O
    else Empty
  }

  /** The scan in `terminal` for an empty cell. */
  predicate HasEmpty(b: Board)
  {
    exists row | row in b :: exists cell | cell in row :: cell == Empty
  }

  /** The scan finds an empty cell exactly when some move is legal. */
  lemma HasEmptyIffActions(b: Board)
    ensures HasEmpty(b) <==> Actions(b) != {}
  {
    if HasEmpty(b) {
      var row :| row in b && exists cell | cell in row :: cell == Empty;
      var i :| 0 <= i < 3 && b[i] == row;
      var j :| 0 <= j < 3 && row[j] == Empty;
      assert Action(i, j) in Actions(b);
    }
    if Actions(b) != {} {
      var a :| a in Actions(b);
      assert b[a.row] in b && b[a.row][a.col] in b[a.row];
    }
  }

  /** The game is over: someone has won, or no cell is empty. */
  function Terminal(b: Board): (t: bool)
    ensures t <==> HasLine(b, X) || HasLine(b, O) || Actions(b) == {}
    ensures t <==> HasLine(b, X) || HasLine(b, O) || Count(b, Empty) == 0
  {
    var w := Winner(b);
    ActionsCount(b);
    HasEmptyIffActions(b);
    if w == O || w == X then true
    else if HasEmpty(b) then false
    else true
  }

  /** The score of a finished game for X: 1 if X won, -1 if O won, 0 otherwise. */
  function Utility(b: Board): (u: int)
    ensures u == 1 <==> HasLine(b, X)
    ensures u == -1 <==> !HasLine(b, X) && HasLine(b, O)
    ensures u == 0 <==> !HasLine(b, X) && !HasLine(b, O)
  {
    var w := Winner(b);
    if w == X then 1
    else if w == O then -1
    else 0
  }

  /** The initial board has nine empty cells and nine legal moves, and X plays first. */
  lemma InitialStateCounts()
    ensures Count(InitialState(), Empty) == 9
    ensures Count(InitialState(), X) == 0 && Count(InitialState(), O) == 0
    ensures Balanced(InitialState())
    ensures Player(InitialState()) == X
    ensures |Actions(InitialState())| == 9
  {
    assert Cells(InitialState()) == [Empty, Empty, Empty, Empty, Empty, Empty, Empty, Empty, Empty];
    ActionsCount(InitialState());
  }

  /** Nobody has won on the initial board, so the game is not over. */
  lemma InitialStateNotTerminal()
    ensures Winner(InitialState()) == Empty
    ensures !Terminal(InitialState())
  {
    var b := InitialState();
    forall p, k | p != Empty && 0 <= k < LineCount
      ensures !Owns(b, p, k)
    {
      assert b[Line(k).0.row][Line(k).0.col] == Empty;
    }
    InitialStateCounts();
  }
}
