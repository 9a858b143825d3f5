/**
 Concrete games played from the initial state: a win on the top row, and a
 board filled without any line (a draw, which the component does not
 recognise).
 */
module Scenarios {
  import opened TicTacToe

  /** Clicks `first + rest` reach what `rest` reaches from where `first` ends.
      This is `RunAppend` with the intermediate game named by the caller:
      handing the written-out game in keeps the scenario proofs below from
      unfolding `Run` over the whole literal click list, which otherwise runs
      out of resource. */
  lemma RunFrom(g: Game, first: seq<CellIndex>, rest: seq<CellIndex>, mid: Game)
    requires |g.board| == 9 && |mid.board| == 9 && Run(g, first) == mid
    ensures Run(g, first + rest) == Run(mid, rest)
  {
    RunAppend(g, first, rest);
  }

  /** The first four clicks of the top-row game: nobody has a line yet. */
  lemma TopRowOpening()
    ensures Run(InitialGame(), [0, 3, 1, 4]) ==
      Game([Marked(X), Marked(X), Empty, Marked(O), Marked(O), Empty, Empty, Empty, Empty],
           X, NoWinner, false)
  {
  }

  /** X on 0, O on 3, X on 1, O on 4, X on 2: the top row wins for X, with
      confetti, X still the player, and a further click changes nothing. */
  lemma TopRowScenario()
    ensures var g := Run(InitialGame(), [0, 3, 1, 4, 2]);
      && g.winner == Won(X) && g.confettiActive && g.player == X
      && Run(InitialGame(), [0, 3, 1, 4, 2, 5]) == g
  {
    var e, x, o := Empty, Marked(X), Marked(O);
    var g4 := Game([x, x, e, o, o, e, e, e, e], X, NoWinner, false);
    var g5 := Game([x, x, x, o, o, e, e, e, e], X, Won(X), true);
    assert Run(g4, [2]) == g5 by {
      assert Completes(g5.board, Matches[0], X);
    }
    WonIsFinal(g5, [5]);
    TopRowOpening();
    RunFrom(InitialGame(), [0, 3, 1, 4], [2], g4);
    RunFrom(InitialGame(), [0, 3, 1, 4], [2, 5], g4);
    RunFrom(g4, [2], [5], g5);
  }

  /** The first four clicks of the drawn game. */
  lemma DrawOpening()
    ensures Run(InitialGame(), [0, 1, 2, 4]) ==
      Game([Marked(X), Marked(O), Marked(X), Empty, Marked(O), Empty, Empty, Empty, Empty],
           X, NoWinner, false)
  {
  }

  /** The last five clicks of the drawn game: the board fills up without a line. */
  lemma DrawEnding()
    ensures Run(Game([Marked(X), Marked(O), Marked(X), Empty, Marked(O), Empty, Empty, Empty, Empty],
                     X, NoWinner, false), [3, 5, 7, 6, 8]) ==
      Game([Marked(X), Marked(O), Marked(X), Marked(X), Marked(O), Marked(O), Marked(O), Marked(X), Marked(X)],
           O, NoWinner, false)
  {
  }

  /** The drawn game as a whole: all nine cells are taken, no line was
      completed, and the game is left without a winner and without confetti,
      with O to move. */
  lemma DrawnGame()
    ensures Run(InitialGame(), [0, 1, 2, 4, 3, 5, 7, 6, 8]) ==
      Game([Marked(X), Marked(O), Marked(X), Marked(X), Marked(O), Marked(O), Marked(O), Marked(X), Marked(X)],
           O, NoWinner, false)
  {
    var e, x, o := Empty, Marked(X), Marked(O);
    DrawOpening();
    DrawEnding();
    RunFrom(InitialGame(), [0, 1, 2, 4], [3, 5, 7, 6, 8],
            Game([x, o, x, e, o, e, e, e, e], X, NoWinner, false));
  }
}
