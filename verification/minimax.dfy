/**
  Minimax search for tic-tac-toe.

  X maximises the utility of the finished game and O minimises it. The value
  of a position is computed by folding over the legal moves from the sentinel
  -10000 (for the maximiser) or 10000 (for the minimiser), exactly as the
  search loops keep a running best; the lemmas show that this fold is the
  game-theoretic value: never below (above) any reply, and attained by one.
*/
module Minimax {
  import opened TicTacToe

  /** A move, or none on a finished board. */
  datatype Option<T> = None | Some(value: T)

  /** The running best of the maximiser before any move is considered. */
  const MaxStart: int := -10000

  /** The running best of the minimiser before any move is considered. */
  const MinStart: int := 10000

  /** The larger of two values. */
  function Max(a: int, b: int): int
  {
    if a >= b then a else b
  }

  /** The smaller of two values. */
  function Min(a: int, b: int): int
  {
    if a <= b then a else b
  }

  /** The value of `b` when X, the maximiser, is to choose. */
  function MaxValue(b: Board): (v: int)
    ensures -1 <= v <= 1
    ensures Terminal(b) ==> v == Utility(b)
    decreases Count(b, Empty), 1, 0
  {
    if Terminal(b) then Utility(b)
    else
      MovesCount(b);
      MaxOver(b, Moves(b), MaxStart)
  }

  /** The value of `b` when O, the minimiser, is to choose. */
  function MinValue(b: Board): (v: int)
    ensures -1 <= v <= 1
    ensures Terminal(b) ==> v == Utility(b)
    decreases Count(b, Empty), 1, 0
  {
    if Terminal(b) then Utility(b)
    else
      MovesCount(b);
      MinOver(b, Moves(b), MinStart)
  }

  /** The maximiser's running best after the moves `ms`, starting from `acc`. */
  function MaxOver(b: Board, ms: seq<Action>, acc: int): (v: int)
    requires forall a | a in ms :: b[a.row][a.col] == Empty
    ensures acc <= v <= Max(acc, 1)
    ensures ms != [] ==> v >= -1
    decreases Count(b, Empty), 0, |ms|
  {
    if ms == [] then acc
    else MaxOver(b, ms[1..], Max(acc, MinValue(Play(b, ms[0]))))
  }

  /** The minimiser's running best after the moves `ms`, starting from `acc`. */
  function MinOver(b: Board, ms: seq<Action>, acc: int): (v: int)
    requires forall a | a in ms :: b[a.row][a.col] == Empty
    ensures Min(acc, -1) <= v <= acc
    ensures ms != [] ==> v <= 1
    decreases Count(b, Empty), 0, |ms|
  {
    if ms == [] then acc
    else MinOver(b, ms[1..], Min(acc, MaxValue(Play(b, ms[0]))))
  }

  /** The maximiser's fold is at least the value of every reply it goes over. */
  lemma {:induction false} MaxOverAtLeast(b: Board, ms: seq<Action>, acc: int)
    requires forall a | a in ms :: b[a.row][a.col] == Empty
    ensures forall a | a in ms :: MaxOver(b, ms, acc) >= MinValue(Play(b, a))
    decreases |ms|
  {
    if ms != [] {
      var next := Max(acc, MinValue(Play(b, ms[0])));
      MaxOverAtLeast(b, ms[1..], next);
      forall a | a in ms
        ensures MaxOver(b, ms, acc) >= MinValue(Play(b, a))
      {
        if a != ms[0] {
          assert a in ms[1..];
        }
      }
    }
  }

  /** The maximiser's fold ends at its start value or at the value of one of the replies. */
  lemma {:induction false} MaxOverAttained(b: Board, ms: seq<Action>, acc: int)
    requires forall a | a in ms :: b[a.row][a.col] == Empty
    ensures MaxOver(b, ms, acc) == acc || exists a | a in ms :: MaxOver(b, ms, acc) == MinValue(Play(b, a))
    decreases |ms|
  {
    if ms != [] {
      var next := Max(acc, MinValue(Play(b, ms[0])));
      MaxOverAttained(b, ms[1..], next);
      if MaxOver(b, ms, acc) != next {
        var a :| a in ms[1..] && MaxOver(b, ms, acc) == MinValue(Play(b, a));
        assert a in ms;
      } else if next != acc {
        assert ms[0] in ms;
      }
    }
  }

  /** The minimiser's fold is at most the value of every reply it goes over. */
  lemma {:induction false} MinOverAtMost(b: Board, ms: seq<Action>, acc: int)
    requires forall a | a in ms :: b[a.row][a.col] == Empty
    ensures forall a | a in ms :: MinOver(b, ms, acc) <= MaxValue(Play(b, a))
    decreases |ms|
  {
    if ms != [] {
      var next := Min(acc, MaxValue(Play(b, ms[0])));
      MinOverAtMost(b, ms[1..], next);
      forall a | a in ms
        ensures MinOver(b, ms, acc) <= MaxValue(Play(b, a))
      {
        if a != ms[0] {
          assert a in ms[1..];
        }
      }
    }
  }

  /** The minimiser's fold ends at its start value or at the value of one of the replies. */
  lemma {:induction false} MinOverAttained(b: Board, ms: seq<Action>, acc: int)
    requires forall a | a in ms :: b[a.row][a.col] == Empty
    ensures MinOver(b, ms, acc) == acc || exists a | a in ms :: MinOver(b, ms, acc) == MaxValue(Play(b, a))
    decreases |ms|
  {
    if ms != [] {
      var next := Min(acc, MaxValue(Play(b, ms[0])));
      MinOverAttained(b, ms[1..], next);
      if MinOver(b, ms, acc) != next {
        var a :| a in ms[1..] && MinOver(b, ms, acc) == MaxValue(Play(b, a));
        assert a in ms;
      } else if next != acc {
        assert ms[0] in ms;
      }
    }
  }

  /**
    Before the game ends, the maximiser's value is the best value among the
    replies: no legal move leads to more, and some legal move leads to it.
  */
  lemma MaxValueIsBestReply(b: Board)
    requires !Terminal(b)
    ensures forall a | a in Actions(b) :: MaxValue(b) >= MinValue(Play(b, a))
    ensures exists a | a in Actions(b) :: MaxValue(b) == MinValue(Play(b, a))
  {
    MovesCount(b);
    MaxOverAtLeast(b, Moves(b), MaxStart);
    MaxOverAttained(b, Moves(b), MaxStart);
  }

  /**
    Before the game ends, the minimiser's value is the best value among the
    replies: no legal move leads to less, and some legal move leads to it.
  */
  lemma MinValueIsBestReply(b: Board)
    requires !Terminal(b)
    ensures forall a | a in Actions(b) :: MinValue(b) <= MaxValue(Play(b, a))
    ensures exists a | a in Actions(b) :: MinValue(b) == MaxValue(Play(b, a))
  {
    MovesCount(b);
    MinOverAtMost(b, Moves(b), MinStart);
    MinOverAttained(b, Moves(b), MinStart);
  }

  /**
    The scan of the maximiser's loop: each candidate's score is compared with
    the running best, which starts at `start`, and a strictly greater score
    replaces it. The result is the first candidate with the greatest score,
    or none when no score beats `start`.
  */
  method ScanMax<T>(ms: seq<T>, score: T -> int, start: int) returns (best: Option<T>, bestValue: int)
    ensures best.None? ==> bestValue == start && forall m | 0 <= m < |ms| :: score(ms[m]) <= start
    ensures best.Some? ==> bestValue == score(best.value) > start
    ensures forall m | 0 <= m < |ms| :: score(ms[m]) <= bestValue
    ensures best.Some? ==>
      exists k | 0 <= k < |ms| :: ms[k] == best.value && forall m | 0 <= m < k :: score(ms[m]) < bestValue
  {
    best, bestValue := None, start;
    var at := 0;
    var k := 0;
    while k < |ms|
      invariant 0 <= k <= |ms|
      invariant best.None? ==> bestValue == start
      invariant best.Some? ==> bestValue == score(best.value) > start
      invariant best.Some? ==> 0 <= at < k && ms[at] == best.value
      invariant best.Some? ==> forall m | 0 <= m < at :: score(ms[m]) < bestValue
      invariant forall m | 0 <= m < k :: score(ms[m]) <= bestValue
    {
      var value := score(ms[k]);
      if value > bestValue {
        best, bestValue, at := Some(ms[k]), value, k;
      }
      k := k + 1;
    }
  }

  /**
    The scan of the minimiser's loop: a strictly smaller score replaces the
    running best, which starts at `start`. The result is the first candidate
    with the least score, or none when no score is below `start`.
  */
  method ScanMin<T>(ms: seq<T>, score: T -> int, start: int) returns (best: Option<T>, bestValue: int)
    ensures best.None? ==> bestValue == start && forall m | 0 <= m < |ms| :: score(ms[m]) >= start
    ensures best.Some? ==> bestValue == score(best.value) < start
    ensures forall m | 0 <= m < |ms| :: score(ms[m]) >= bestValue
    ensures best.Some? ==>
      exists k | 0 <= k < |ms| :: ms[k] == best.value && forall m | 0 <= m < k :: score(ms[m]) > bestValue
  {
    best, bestValue := None, start;
    var at := 0;
    var k := 0;
    while k < |ms|
      invariant 0 <= k <= |ms|
      invariant best.None? ==> bestValue == start
      invariant best.Some? ==> bestValue == score(best.value) < start
      invariant best.Some? ==> 0 <= at < k && ms[at] == best.value
      invariant best.Some? ==> forall m | 0 <= m < at :: score(ms[m]) > bestValue
      invariant forall m | 0 <= m < k :: score(ms[m]) >= bestValue
    {
      var value := score(ms[k]);
      if value < bestValue {
        best, bestValue, at := Some(ms[k]), value, k;
      }
      k := k + 1;
    }
  }

  /** The value X gets by playing `a`, and the sentinel for an occupied cell. */
  function MaxScore(b: Board): Action -> int
  {
    (a: Action) => if b[a.row][a.col] == Empty then MinValue(Play(b, a)) else MaxStart
  }

  /** The value O gets by playing `a`, and the sentinel for an occupied cell. */
  function MinScore(b: Board): Action -> int
  {
    (a: Action) => if b[a.row][a.col] == Empty then MaxValue(Play(b, a)) else MinStart
  }

  /** The maximiser's choice: a legal move whose reply value is at least that of every legal move. */
  method BestMaxMove(b: Board) returns (move: Action)
    requires !Terminal(b)
    ensures move in Actions(b)
    ensures forall a | a in Actions(b) :: MinValue(Play(b, move)) >= MinValue(Play(b, a))
  {
    var ms := Moves(b);
    MovesCount(b);
    var best, bestValue := ScanMax(ms, MaxScore(b), MaxStart);
    assert MaxScore(b)(ms[0]) > MaxStart;
    move := best.value;
    forall a | a in Actions(b)
      ensures MinValue(Play(b, move)) >= MinValue(Play(b, a))
    {
      var m :| 0 <= m < |ms| && ms[m] == a;
      assert MaxScore(b)(ms[m]) <= bestValue;
    }
  }

  /** The minimiser's choice: a legal move whose reply value is at most that of every legal move. */
  method BestMinMove(b: Board) returns (move: Action)
    requires !Terminal(b)
    ensures move in Actions(b)
    ensures forall a | a in Actions(b) :: MaxValue(Play(b, move)) <= MaxValue(Play(b, a))
  {
    var ms := Moves(b);
    MovesCount(b);
    var best, bestValue := ScanMin(ms, MinScore(b), MinStart);
    assert MinScore(b)(ms[0]) < MinStart;
    move := best.value;
    forall a | a in Actions(b)
      ensures MaxValue(Play(b, move)) <= MaxValue(Play(b, a))
    {
      var m :| 0 <= m < |ms| && ms[m] == a;
      assert MinScore(b)(ms[m]) >= bestValue;
    }
  }

  /**
    The move for the player to act: none once the game is over, and otherwise
    a legal move that is best for that player, whose resulting position has
    the value of the current one.
  */
  method Minimax(b: Board) returns (move: Option<Action>)
    ensures move.None? <==> Terminal(b)
    ensures move.Some? ==> move.value in Actions(b)
    ensures move.Some? && Player(b) == X ==>
      MinValue(Play(b, move.value)) == MaxValue(b) &&
      forall a | a in Actions(b) :: MinValue(Play(b, move.value)) >= MinValue(Play(b, a))
    ensures move.Some? && Player(b) == O ==>
      MaxValue(Play(b, move.value)) == MinValue(b) &&
      forall a | a in Actions(b) :: MaxValue(Play(b, move.value)) <= MaxValue(Play(b, a))
  {
    if Terminal(b) {
      return None;
    }
    if Player(b) == X {
      var a := BestMaxMove(b);
      MaxValueIsBestReply(b);
      move := Some(a);
    } else {
      var a := BestMinMove(b);
      MinValueIsBestReply(b);
      move := Some(a);
    }
  }
}
