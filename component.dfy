/** The `TicTacToe` component as an object: one field per `useState` hook and
    one method per handler. Each handler is proved to move the fields exactly as
    the matching function of the modules Game and Scores moves their value. */
module Component {
  import opened Board
  import Game
  import Scores

  class TicTacToe {
    var squares: Squares
    var xIsNext: bool
    var winner: Cell
    var showConfetti: bool
    var xWins: nat
    var oWins: nat
    var notices: seq<Scores.Notice>

    /** The component's state as a value. */
    function Snapshot(): Scores.Session
      reads this
    {
      Scores.Session(Game.State(squares, xIsNext, winner), showConfetti, xWins, oWins, notices)
    }

    /** Every reachable state keeps the game invariant (mark balance, turn, winner). */
    ghost predicate Valid()
      reads this
    {
      Game.Consistent(Snapshot().game)
    }

    /** The initial `useState` values. */
    constructor ()
      ensures Valid() && Snapshot() == Scores.Start
    {
      squares := EmptySquares;
      xIsNext := true;
      winner := Empty;
      showConfetti := false;
      xWins := 0;
      oWins := 0;
      notices := [];
      new;
      Game.FreshConsistent(Game.Initial);
    }

    /** `handleClick(i)`: ignored after a win or on an occupied square; otherwise
        write the mover's mark into a copy of the board, pass the turn, and
        record the winner if the new board has one. */
    method HandleClick(i: int)
      requires Valid() && 0 <= i < 9
      modifies this
      ensures Valid()
      ensures Snapshot() == old(Snapshot()).(game := Game.Click(old(Snapshot().game), i))
    {
      ghost var before := Snapshot().game;
      Game.ClickConsistent(before, i);
      if winner != Empty || squares[i] != Empty {
        return;
      }
      var newSquares := squares[i := if xIsNext then X else O];
      squares := newSquares;
      xIsNext := !xIsNext;
      var newWinner := CalculateWinner(newSquares);
      if newWinner != Empty {
        winner := newWinner;
      }
    }

    /** The effect body: celebrate and count a recorded win, or announce a full board. */
    method RunEffect()
      requires Valid()
      modifies this
      ensures Valid()
      ensures Snapshot() == Scores.Effect(old(Snapshot()))
    {
      if winner != Empty {
        showConfetti := true;
        notices := notices + [Scores.PlayerWins(winner)];
        if winner == X {
          xWins := xWins + 1;
        } else {
          oWins := oWins + 1;
        }
      } else if forall j | 0 <= j < 9 :: squares[j] != Empty {
        notices := notices + [Scores.Draw];
      }
    }

    /** A click on square i and the effect run it causes, as the component
        declares it: the effect depends on `winner` alone, so it runs only when
        the click changed the winner (and a draw is never announced). */
    method Click(i: int)
      requires Valid() && 0 <= i < 9
      modifies this
      ensures Valid()
      ensures Snapshot() == Scores.Click(old(Snapshot()), i)
    {
      var before := winner;
      HandleClick(i);
      if winner != before {
        RunEffect();
      }
    }

    /** The corrected trigger: the effect follows every click that was taken,
        so wins are counted once and draws announced once. */
    method ClickCorrected(i: int)
      requires Valid() && 0 <= i < 9
      modifies this
      ensures Valid()
      ensures Snapshot() == Scores.ClickCorrected(old(Snapshot()), i)
    {
      var before := squares;
      HandleClick(i);
      if squares != before {
        RunEffect();
      }
    }

    /** `resetGame`: a fresh board, X to move, no winner, no celebration. */
    method ResetGame()
      requires Valid()
      modifies this
      ensures Valid()
      ensures Snapshot() == Scores.ResetGame(old(Snapshot()))
    {
      squares := EmptySquares;
      xIsNext := true;
      winner := Empty;
      showConfetti := false;
      Game.FreshConsistent(Game.Initial);
    }

    /** `resetScores`: both counters back to zero, with a notice. */
    method ResetScores()
      requires Valid()
      modifies this
      ensures Valid()
      ensures Snapshot() == Scores.ResetScores(old(Snapshot()))
    {
      xWins := 0;
      oWins := 0;
      notices := notices + [Scores.ScoresReset];
    }

    /** The status line of the current state. */
    method StatusLine() returns (r: string)
      requires Valid()
      ensures r == "It's a draw!" <==> Full(squares) && Winner(squares) == Empty
      ensures r == "Winner: X" <==> Winner(squares) == X
      ensures r == "Winner: O" <==> Winner(squares) == O
      ensures r == "Next player: X" <==>
                Winner(squares) == Empty && !Full(squares) && Count(squares, X) == Count(squares, O)
      ensures r == "Next player: O" <==>
                Winner(squares) == Empty && !Full(squares) && Count(squares, X) != Count(squares, O)
    {
      r := Game.Status(Snapshot().game);
      Game.StatusOfConsistent(Snapshot().game);
    }
  }
}
