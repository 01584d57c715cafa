/** The game state of the component (`squares`, `xIsNext`, `winner`), the
    click handler `handleClick` as a transition on it, and the status line. */
module Game {
  import opened Board

  datatype State = State(squares: Squares, xIsNext: bool, winner: Cell)

  /** The state a fresh component starts in, and the one `resetGame` restores. */
  const Initial: State := State(EmptySquares, true, Empty)

  /** The mark the next click places. */
  function Mover(s: State): Mark
  {
    if s.xIsNext then X else O
  }

  /** `handleClick(i)`: ignored once a winner is recorded or on an occupied square;
      otherwise place the mover's mark, hand the turn over (also on a winning move)
      and record the winner if the new board has one. */
  function Click(s: State, i: int): State
    requires 0 <= i < 9
  {
    if s.winner != Empty || s.squares[i] != Empty then s
    else
      var newSquares := s.squares[i := Mover(s)];
      var newWinner := Winner(newSquares);
      State(newSquares, !s.xIsNext, if newWinner != Empty then newWinner else s.winner)
  }

  /** The click was taken: no winner yet and the square was free. */
  predicate Accepted(s: State, i: int)
    requires 0 <= i < 9
  {
    s.winner == Empty && s.squares[i] == Empty
  }

  lemma ClickIgnored(s: State, i: int)
    requires 0 <= i < 9 && !Accepted(s, i)
    ensures Click(s, i) == s
  {
  }

  /** A taken click writes the mover's mark into square i and nothing else,
      flips the turn, and leaves as winner whatever the evaluator finds on the new board. */
  lemma ClickPlaces(s: State, i: int)
    requires 0 <= i < 9 && Accepted(s, i)
    ensures Click(s, i).squares[i] == Mover(s)
    ensures forall j :: 0 <= j < 9 && j != i ==> Click(s, i).squares[j] == s.squares[j]
    ensures Click(s, i).xIsNext == !s.xIsNext
    ensures Click(s, i).winner == Winner(Click(s, i).squares)
  {
  }

  /** A click is taken exactly when it changes the board. */
  lemma AcceptedIffBoardChanges(s: State, i: int)
    requires 0 <= i < 9
    ensures Accepted(s, i) <==> Click(s, i).squares != s.squares
  {
    if Accepted(s, i) {
      assert Click(s, i).squares[i] != s.squares[i];
    }
  }

  /** Any sequence of clicks, in order. */
  function Play(s: State, moves: seq<Index>): State
    decreases |moves|
  {
    if moves == [] then s else Play(Click(s, moves[0]), moves[1..])
  }

  /** Once a winner is recorded, no click changes anything until the game is reset. */
  lemma {:induction false} WinnerIsFinal(s: State, moves: seq<Index>)
    requires s.winner != Empty
    ensures Play(s, moves) == s
    decreases |moves|
  {
    if moves != [] {
      WinnerIsFinal(Click(s, moves[0]), moves[1..]);
    }
  }

  /** No occupied square is ever emptied or overwritten by clicks. */
  lemma {:induction false} MarksStay(s: State, moves: seq<Index>)
    ensures forall j :: 0 <= j < 9 && s.squares[j] != Empty ==> Play(s, moves).squares[j] == s.squares[j]
    decreases |moves|
  {
    if moves != [] {
      MarksStay(Click(s, moves[0]), moves[1..]);
    }
  }

  /** The invariant of every state reachable by play: X has as many marks as O
      or one more, X is next exactly when the counts are equal, the recorded winner
      is the evaluator's verdict on the board, and every holding line carries it. */
  ghost predicate Consistent(s: State)
  {
    var nx, no := Count(s.squares, X), Count(s.squares, O);
    (nx == no || nx == no + 1)
    && (s.xIsNext <==> nx == no)
    && s.winner == Winner(s.squares)
    && forall j :: 0 <= j < |Lines| && Holds(s.squares, j) ==> LineMark(s.squares, j) == s.winner
  }

  /** A fresh game: empty board, no winner, X to move (only Initial is one). */
  predicate Fresh(s: State)
  {
    s.xIsNext && s.winner == Empty && forall k :: 0 <= k < 9 ==> s.squares[k] == Empty
  }

  /** A fresh game satisfies the invariant. */
  lemma FreshConsistent(s: State)
    requires Fresh(s)
    ensures Consistent(s)
  {
    CountAbsent(s.squares, X);
    CountAbsent(s.squares, O);
    forall j | 0 <= j < |Lines| ensures !Holds(s.squares, j) {
    }
    WinnerSpec(s.squares);
  }

  /** Every click preserves the invariant; a winning click wins for the player who made it. */
  lemma ClickConsistent(s: State, i: int)
    requires 0 <= i < 9 && Consistent(s)
    ensures Consistent(Click(s, i))
    ensures Accepted(s, i) && Click(s, i).winner != Empty ==> Click(s, i).winner == Mover(s)
  {
    if Accepted(s, i) {
      var m := Mover(s);
      var t := s.squares[i := m];
      CountUpdate(s.squares, i, m, X);
      CountUpdate(s.squares, i, m, O);
      forall j | 0 <= j < |Lines| && Holds(t, j)
        ensures LineMark(t, j) == m
      {
        if Holds(s.squares, j) {
          assert false;
        } else {
          NewLineCarriesMove(s.squares, i, m, j);
        }
      }
      WinnerOfUniformLines(t, m);
    }
  }

  /** Every state reachable from the initial one by clicks satisfies the invariant. */
  lemma {:induction false} PlayConsistent(s: State, moves: seq<Index>)
    requires Consistent(s)
    ensures Consistent(Play(s, moves))
    decreases |moves|
  {
    if moves != [] {
      ClickConsistent(s, moves[0]);
      PlayConsistent(Click(s, moves[0]), moves[1..]);
    }
  }

  /** Reachable states balance the marks: X leads by at most one, and it is X's
      turn exactly when the counts are equal. */
  lemma Reachable(moves: seq<Index>)
    ensures var s := Play(Initial, moves);
      var nx, no := Count(s.squares, X), Count(s.squares, O);
      (nx == no || nx == no + 1) && (s.xIsNext <==> nx == no)
  {
    FreshConsistent(Initial);
    PlayConsistent(Initial, moves);
  }

  function Symbol(m: Mark): char
  {
    if m == X then 'X' else 'O'
  }

  /** The status line: the winner takes precedence, then a full board reads as
      a draw, then the next player. */
  function Status(s: State): (r: string)
    ensures r == "It's a draw!" <==> s.winner == Empty && Full(s.squares)
  {
    if s.winner != Empty then "Winner: " + [Symbol(s.winner)]
    else if Full(s.squares) then "It's a draw!"
    else "Next player: " + [Symbol(Mover(s))]
  }

  /** A draw is not stored: in a reachable state the status reads from the board
      alone, through the evaluator and the mark counts. */
  lemma StatusOfConsistent(s: State)
    requires Consistent(s)
    ensures Status(s) == "It's a draw!" <==> Full(s.squares) && Winner(s.squares) == Empty
    ensures Status(s) == "Winner: X" <==> Winner(s.squares) == X
    ensures Status(s) == "Winner: O" <==> Winner(s.squares) == O
    ensures Status(s) == "Next player: X" <==>
              Winner(s.squares) == Empty && !Full(s.squares) && Count(s.squares, X) == Count(s.squares, O)
    ensures Status(s) == "Next player: O" <==>
              Winner(s.squares) == Empty && !Full(s.squares) && Count(s.squares, X) != Count(s.squares, O)
  {
    var r := Status(s);
    assert "Winner: X"[8] != "Winner: O"[8];
    assert "Next player: X"[13] != "Next player: O"[13];
    if s.winner != Empty {
      assert r[8] == Symbol(s.winner);
    } else if !Full(s.squares) {
      assert r[13] == Symbol(Mover(s));
    }
  }

  /** X plays 0, 1, 2 against O on 3, 4: the top row wins for X,
      and the turn has passed to O. */
  lemma TopRowScenario(s0: State)
    requires Fresh(s0)
    ensures var s := Play(s0, [0, 3, 1, 4, 2]);
      s.squares[..3] == [X, X, X] && s.winner == X && !s.xIsNext && Status(s) == "Winner: X"
  {
    var moves: seq<Index> := [0, 3, 1, 4, 2];
    var s1 := Click(s0, 0);
    var s2 := Click(s1, 3);
    var s3 := Click(s2, 1);
    var s4 := Click(s3, 4);
    assert s4.squares == s0.squares[0 := X][3 := O][1 := X][4 := O];
    assert Winner(s4.squares) == Empty by {
      forall j | 0 <= j < |Lines| ensures !Holds(s4.squares, j) {
        var (a, b, c) := Lines[j];
        assert s4.squares[a] == Empty || s4.squares[b] == Empty || s4.squares[c] == Empty
            || s4.squares[a] != s4.squares[b] || s4.squares[a] != s4.squares[c];
      }
      WinnerSpec(s4.squares);
    }
    var s5 := Click(s4, 2);
    assert FirstHolding(s5.squares, 0);
    WinnerSpec(s5.squares);
    assert moves[1..][1..][1..][1..][1..] == [];
    assert Play(s0, moves) == s5;
  }

  /** Clicks 0, 1, 2, 3, 5, 4, 6, 8, 7 fill the board with no line:
      no winner is recorded and the status reads as a draw. */
  lemma DrawScenario(s0: State)
    requires Fresh(s0)
    ensures Play(s0, DrawMoves) == Drawn
  {
    var s1, s2, s3, s4, s5, s6, s7, s8, s9 := DrawClicks(s0);
    DrawTrace(s0, s1, s2, s3, s4, s5, s6, s7, s8, s9);
  }

  /** The board the draw ends on is full, holds no line, and reads as a draw. */
  lemma DrawnIsDraw()
    ensures Full(Drawn.squares) && Winner(Drawn.squares) == Empty && Status(Drawn) == "It's a draw!"
  {
    NoLineOnDrawBoard();
    WinnerSpec(DrawBoard);
  }

  const DrawMoves: seq<Index> := [0, 1, 2, 3, 5, 4, 6, 8, 7]

  const DrawBoard: Squares := [X, O, X, O, O, X, X, X, O]

  const Drawn: State := State(DrawBoard, false, Empty)

  /** The nine clicks of the draw, one at a time. */
  lemma DrawClicks(s0: State)
    returns (s1: State, s2: State, s3: State, s4: State, s5: State, s6: State, s7: State, s8: State, s9: State)
    requires Fresh(s0)
    ensures Click(s0, 0) == s1 && Click(s1, 1) == s2 && Click(s2, 2) == s3 && Click(s3, 3) == s4
    ensures Click(s4, 5) == s5 && Click(s5, 4) == s6 && Click(s6, 6) == s7 && Click(s7, 8) == s8
    ensures Click(s8, 7) == s9 && s9 == Drawn
  {
    NoLineOnDrawBoard();
    s1 := QuietClick(s0, 0, DrawBoard);
    s2 := QuietClick(s1, 1, DrawBoard);
    s3 := QuietClick(s2, 2, DrawBoard);
    s4 := QuietClick(s3, 3, DrawBoard);
    s5 := QuietClick(s4, 5, DrawBoard);
    s6 := QuietClick(s5, 4, DrawBoard);
    s7 := QuietClick(s6, 6, DrawBoard);
    s8 := QuietClick(s7, 8, DrawBoard);
    s9 := QuietClick(s8, 7, DrawBoard);
  }

  lemma DrawTrace(s0: State, s1: State, s2: State, s3: State, s4: State,
                  s5: State, s6: State, s7: State, s8: State, s9: State)
    requires Click(s0, 0) == s1 && Click(s1, 1) == s2 && Click(s2, 2) == s3 && Click(s3, 3) == s4
    requires Click(s4, 5) == s5 && Click(s5, 4) == s6 && Click(s6, 6) == s7 && Click(s7, 8) == s8
    requires Click(s8, 7) == s9
    ensures Play(s0, DrawMoves) == s9
  {
    PlayTrace([s0, s1, s2, s3, s4, s5, s6, s7, s8, s9], DrawMoves);
  }

  /** A run of clicks visits the states of any trace that follows it click by click. */
  lemma {:induction false} PlayTrace(states: seq<State>, moves: seq<Index>)
    requires |states| == |moves| + 1
    requires forall k :: 0 <= k < |moves| ==> Click(states[k], moves[k]) == states[k + 1]
    ensures Play(states[0], moves) == states[|moves|]
    decreases |moves|
  {
    if moves != [] {
      PlayTrace(states[1..], moves[1..]);
    }
  }

  lemma NoLineOnDrawBoard()
    ensures forall j :: 0 <= j < |Lines| ==> !Holds(DrawBoard, j)
  {
    forall j | 0 <= j < |Lines| ensures !Holds(DrawBoard, j) {
      assert j == 0 || j == 1 || j == 2 || j == 3 || j == 4 || j == 5 || j == 6 || j == 7;
    }
  }

  /** Square k of n is empty or agrees with t. */
  predicate Agrees(n: Squares, t: Squares, k: Index)
  {
    n[k] == Empty || n[k] == t[k]
  }

  /** Every mark of n stands on the same square of t. */
  predicate Within(n: Squares, t: Squares)
  {
    Agrees(n, t, 0) && Agrees(n, t, 1) && Agrees(n, t, 2) && Agrees(n, t, 3) && Agrees(n, t, 4)
    && Agrees(n, t, 5) && Agrees(n, t, 6) && Agrees(n, t, 7) && Agrees(n, t, 8)
  }

  /** A taken click whose new board lies within a board t without lines records no winner. */
  lemma QuietClick(s: State, i: int, t: Squares) returns (next: State)
    requires 0 <= i < 9 && Accepted(s, i)
    requires forall j :: 0 <= j < |Lines| ==> !Holds(t, j)
    requires Within(s.squares[i := Mover(s)], t)
    ensures next == State(s.squares[i := Mover(s)], !s.xIsNext, Empty)
    ensures Click(s, i) == next
  {
    var n := s.squares[i := Mover(s)];
    forall j | 0 <= j < |Lines| ensures !Holds(n, j) {
      assert !Holds(t, j);
      var (a, b, c) := Lines[j];
      assert Agrees(n, t, a) && Agrees(n, t, b) && Agrees(n, t, c);
    }
    WinnerSpec(n);
    next := State(n, !s.xIsNext, Empty);
  }

  /** Clicking square 0 twice: the second click is ignored, square 0 keeps X, O is still to move. */
  lemma DoubleClickScenario(s0: State)
    requires Fresh(s0)
    ensures var s := Play(s0, [0, 0]);
      s == Click(s0, 0) && s.squares[0] == X && !s.xIsNext
  {
    var moves: seq<Index> := [0, 0];
    assert moves[1..] == [0];
  }
}
