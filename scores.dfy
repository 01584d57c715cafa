/** The rest of the component's state (the celebration flag, the two win
    counters and the notifications shown), the effect that reacts to a finished
    game, and the two reset buttons. React re-runs the effect after a render in
    which one of its dependencies changed; here that is an explicit step taken
    after the click that caused the change. */
module Scores {
  import opened Board
  import Game

  /** A notification shown to the players: the toasts' messages as tags. */
  datatype Notice = PlayerWins(mark: Mark) | Draw | ScoresReset

  datatype Session = Session(
    game: Game.State,
    showConfetti: bool,
    xWins: nat,
    oWins: nat,
    notices: seq<Notice>)

  /** A freshly mounted component (with in-memory counters starting at zero). */
  const Start: Session := Session(Game.Initial, false, 0, 0, [])

  /** The effect body: on a recorded winner, celebrate, announce it and count it
      for that player; otherwise, on a full board, announce a draw. */
  function Effect(t: Session): Session
  {
    if t.game.winner != Empty then
      var w := t.game.winner;
      var shown := t.(showConfetti := true, notices := t.notices + [PlayerWins(w)]);
      if w == X then shown.(xWins := t.xWins + 1) else shown.(oWins := t.oWins + 1)
    else if Full(t.game.squares) then t.(notices := t.notices + [Draw])
    else t
  }

  /** A click followed by the effect exactly as the component declares it:
      the effect depends on `winner` alone, so it runs only when the click changed the winner. */
  function Click(t: Session, i: int): Session
    requires 0 <= i < 9
  {
    var g := Game.Click(t.game, i);
    if g.winner != t.game.winner then Effect(t.(game := g)) else t.(game := g)
  }

  /** A click followed by the effect whenever the click was taken (it changed
      the board), which is what the draw branch of the effect needs; this is the
      dependency list `[winner, squares]`. */
  function ClickCorrected(t: Session, i: int): Session
    requires 0 <= i < 9
  {
    var g := Game.Click(t.game, i);
    if g.squares != t.game.squares then Effect(t.(game := g)) else t.(game := g)
  }

  /** `resetGame`: a fresh board, X to move, no winner, no celebration; the counters stay. */
  function ResetGame(t: Session): Session
  {
    t.(game := Game.Initial, showConfetti := false)
  }

  /** `resetScores`: both counters to zero and a notice; the game is untouched. */
  function ResetScores(t: Session): Session
  {
    t.(xWins := 0, oWins := 0, notices := t.notices + [ScoresReset])
  }

  /** A run of clicks, each followed by the effect as the component declares it. */
  function Play(t: Session, moves: seq<Index>): Session
    decreases |moves|
  {
    if moves == [] then t else Play(Click(t, moves[0]), moves[1..])
  }

  /** A run of clicks, each followed by the effect whenever the click was taken. */
  function PlayCorrected(t: Session, moves: seq<Index>): Session
    decreases |moves|
  {
    if moves == [] then t else PlayCorrected(ClickCorrected(t, moves[0]), moves[1..])
  }

  /** The click that fills the board without producing a winner. */
  predicate DrawingClick(g: Game.State, i: int)
    requires 0 <= i < 9
  {
    Game.Accepted(g, i) && Full(Game.Click(g, i).squares) && Game.Click(g, i).winner == Empty
  }

  /** The game part of a session moves exactly as the game does. */
  lemma {:induction false} PlayMovesGame(t: Session, moves: seq<Index>)
    ensures PlayCorrected(t, moves).game == Game.Play(t.game, moves)
    ensures Play(t, moves).game == Game.Play(t.game, moves)
    decreases |moves|
  {
    if moves != [] {
      PlayMovesGame(ClickCorrected(t, moves[0]), moves[1..]);
      PlayMovesGame(Click(t, moves[0]), moves[1..]);
    }
  }

  /** The winning click counts one win for the winner and none for the other
      player and announces it; any other click leaves the counters alone. */
  lemma ClickTallies(t: Session, i: int)
    requires 0 <= i < 9
    ensures var r := ClickCorrected(t, i);
      r.game == Game.Click(t.game, i)
      && (t.game.winner == Empty && r.game.winner == X ==>
            r.xWins == t.xWins + 1 && r.oWins == t.oWins && r.showConfetti
            && r.notices == t.notices + [PlayerWins(X)])
      && (t.game.winner == Empty && r.game.winner == O ==>
            r.oWins == t.oWins + 1 && r.xWins == t.xWins && r.showConfetti
            && r.notices == t.notices + [PlayerWins(O)])
      && (t.game.winner != Empty || r.game.winner == Empty ==>
            r.xWins == t.xWins && r.oWins == t.oWins && r.showConfetti == t.showConfetti)
  {
    Game.AcceptedIffBoardChanges(t.game, i);
  }

  /** After a win every click is ignored, so the win is never counted again. */
  lemma {:induction false} WinCountedOnce(t: Session, moves: seq<Index>)
    requires t.game.winner != Empty
    ensures Play(t, moves) == t
    ensures PlayCorrected(t, moves) == t
    decreases |moves|
  {
    if moves != [] {
      WinCountedOnce(ClickCorrected(t, moves[0]), moves[1..]);
    }
  }

  /** Over any run of clicks from a game without a winner, each counter grows
      by one exactly when the run ends in that player's win. */
  lemma {:induction false} PlayTallies(t: Session, moves: seq<Index>)
    requires t.game.winner == Empty
    ensures var r := PlayCorrected(t, moves);
      r.xWins == t.xWins + (if r.game.winner == X then 1 else 0)
      && r.oWins == t.oWins + (if r.game.winner == O then 1 else 0)
    ensures var r := Play(t, moves);
      r.xWins == t.xWins + (if r.game.winner == X then 1 else 0)
      && r.oWins == t.oWins + (if r.game.winner == O then 1 else 0)
    decreases |moves|
  {
    TriggersAgree(t, t, moves);
    if moves != [] {
      var t1 := ClickCorrected(t, moves[0]);
      ClickTallies(t, moves[0]);
      if t1.game.winner != Empty {
        WinCountedOnce(t1, moves[1..]);
      } else {
        PlayTallies(t1, moves[1..]);
      }
    }
  }

  /** A full board takes no more clicks, with either trigger. */
  lemma {:induction false} FullIsFinal(t: Session, moves: seq<Index>)
    requires Full(t.game.squares)
    ensures Play(t, moves) == t
    ensures PlayCorrected(t, moves) == t
    decreases |moves|
  {
    if moves != [] {
      assert t.game.squares[moves[0]] != Empty;
      FullIsFinal(ClickCorrected(t, moves[0]), moves[1..]);
    }
  }

  /** A click announces a draw exactly when it fills the board without a winner. */
  lemma DrawNoticed(t: Session, i: int)
    requires 0 <= i < 9
    ensures ClickCorrected(t, i).notices == t.notices + [Draw] <==> DrawingClick(t.game, i)
  {
    Game.AcceptedIffBoardChanges(t.game, i);
    var r := ClickCorrected(t, i);
    if r.notices == t.notices + [Draw] {
      assert r.notices[|t.notices|] == Draw;
    }
  }

  /** Over a run of clicks that ends without a winner, exactly one draw is
      announced if the run filled the board, and nothing otherwise. */
  lemma {:induction false} PlayNoticesDraw(t: Session, moves: seq<Index>)
    requires Game.Play(t.game, moves).winner == Empty
    ensures PlayCorrected(t, moves).notices ==
            t.notices + (if Full(Game.Play(t.game, moves).squares) && !Full(t.game.squares) then [Draw] else [])
    decreases |moves|
  {
    if moves != [] {
      var i := moves[0];
      var t1 := ClickCorrected(t, i);
      PlayMovesGame(t1, moves[1..]);
      Game.AcceptedIffBoardChanges(t.game, i);
      if t1.game.winner != Empty {
        Game.WinnerIsFinal(t1.game, moves[1..]);
        assert false;
      }
      if Full(t1.game.squares) {
        FullIsFinal(t1, moves[1..]);
        if Full(t.game.squares) {
          assert t.game.squares[i] != Empty;
        }
      } else {
        PlayNoticesDraw(t1, moves[1..]);
      }
    }
  }

  /** As written, the effect only ever adds a win notice after a click: the
      draw branch is unreachable because a draw does not change the winner. */
  lemma AsWrittenNeverAnnouncesDraw(t: Session, i: int)
    requires 0 <= i < 9
    ensures Click(t, i).notices in
            {t.notices, t.notices + [PlayerWins(X)], t.notices + [PlayerWins(O)]}
  {
  }

  /** The declared dependency and the corrected one differ only on the click
      that draws the game, where the declared one loses the draw notice. */
  lemma AsWrittenDiffersOnlyOnDraw(t: Session, i: int)
    requires 0 <= i < 9
    ensures Click(t, i) ==
            if DrawingClick(t.game, i) then ClickCorrected(t, i).(notices := t.notices) else ClickCorrected(t, i)
  {
    Game.AcceptedIffBoardChanges(t.game, i);
  }

  /** Over any run of clicks the two triggers agree on everything but the
      notices: the game, the celebration and both counters. Sessions that
      differ only in their notices stay so. */
  lemma {:induction false} TriggersAgree(a: Session, c: Session, moves: seq<Index>)
    requires a == c.(notices := a.notices)
    ensures Play(a, moves) == PlayCorrected(c, moves).(notices := Play(a, moves).notices)
    decreases |moves|
  {
    if moves != [] {
      var i := moves[0];
      AsWrittenDiffersOnlyOnDraw(a, i);
      assert ClickCorrected(a, i) == ClickCorrected(c, i).(notices := ClickCorrected(a, i).notices);
      TriggersAgree(Click(a, i), ClickCorrected(c, i), moves[1..]);
    }
  }

  /** The draw on clicks 0, 1, 2, 3, 5, 4, 6, 8, 7, played as written: the board
      is full, the status says it is a draw, yet no draw notice is shown. */
  lemma DrawUnannouncedAsWritten(t: Session)
    requires Game.Fresh(t.game)
    ensures var r := Play(t, Game.DrawMoves);
      r.game == Game.Drawn && Game.Status(r.game) == "It's a draw!" && r.notices == t.notices
  {
    Game.DrawScenario(t.game);
    Game.DrawnIsDraw();
    PlayMovesGame(t, Game.DrawMoves);
    AsWrittenQuiet(t, Game.DrawMoves);
  }

  /** As written, a run that ends without a winner shows no notice at all. */
  lemma {:induction false} AsWrittenQuiet(t: Session, moves: seq<Index>)
    requires Game.Play(t.game, moves).winner == Empty
    ensures Play(t, moves).notices == t.notices
    decreases |moves|
  {
    if moves != [] {
      var t1 := Click(t, moves[0]);
      if t1.game.winner != Empty {
        Game.WinnerIsFinal(t1.game, moves[1..]);
        assert false;
      }
      AsWrittenQuiet(t1, moves[1..]);
    }
  }

  /** The same draw with the corrected trigger: one draw notice, no win counted. */
  lemma DrawAnnounced(t: Session)
    requires Game.Fresh(t.game)
    ensures var r := PlayCorrected(t, Game.DrawMoves);
      r.game == Game.Drawn && r.notices == t.notices + [Draw]
      && r.xWins == t.xWins && r.oWins == t.oWins
  {
    Game.DrawScenario(t.game);
    Game.DrawnIsDraw();
    PlayMovesGame(t, Game.DrawMoves);
    PlayNoticesDraw(t, Game.DrawMoves);
    PlayTallies(t, Game.DrawMoves);
  }

  /** X's top-row win on clicks 0, 3, 1, 4, 2 counts one win for X, none for O. */
  lemma TopRowTallied(t: Session)
    requires Game.Fresh(t.game)
    ensures var r := PlayCorrected(t, [0, 3, 1, 4, 2]);
      r.game.winner == X && r.xWins == t.xWins + 1 && r.oWins == t.oWins
    ensures var r := Play(t, [0, 3, 1, 4, 2]);
      r.game.winner == X && r.xWins == t.xWins + 1 && r.oWins == t.oWins
  {
    Game.TopRowScenario(t.game);
    PlayMovesGame(t, [0, 3, 1, 4, 2]);
    PlayTallies(t, [0, 3, 1, 4, 2]);
  }

  /** `resetGame` restores the fresh game whatever came before, clears the
      celebration, keeps the counters and notices, and the effect run it
      triggers adds nothing. */
  lemma ResetGameSpec(t: Session)
    ensures var r := ResetGame(t);
      Game.Fresh(r.game) && Game.Consistent(r.game) && !r.showConfetti
      && r.xWins == t.xWins && r.oWins == t.oWins && r.notices == t.notices
      && Effect(r) == r
  {
    var r := ResetGame(t);
    Game.FreshConsistent(r.game);
    assert r.game.squares[0] == Empty;
  }

  /** `resetScores` zeroes both counters and leaves the game as it was. */
  lemma ResetScoresSpec(t: Session)
    ensures var r := ResetScores(t);
      r.xWins == 0 && r.oWins == 0 && r.game == t.game && r.showConfetti == t.showConfetti
      && r.notices == t.notices + [ScoresReset]
  {
  }
}
