/**
 The `Board` component as an object: its four state fields, the win check,
 the click handler, the square buttons that guard it, and the reset button.
 Each method is proved to move the object exactly as the corresponding
 function of module TicTacToe moves a `Game`.
 */
module BoardComponent {
  import opened TicTacToe

  class Board {
    var board: array<Cell>
    var player: Mark
    var winner: Winner
    var confettiActive: bool

    /** The board always has nine cells. */
    ghost predicate Valid()
      reads this
    {
      board.Length == 9
    }

    /** The state fields as a `Game` value. */
    ghost function Model(): Game
      reads this, board
    {
      Game(board[..], player, winner, confettiActive)
    }

    /** A freshly mounted component: nine empty cells, X to move, no winner,
        no confetti. */
    constructor ()
      ensures Valid() && fresh(board)
      ensures Model() == InitialGame() && Inv(Model())
    {
      board := new Cell[9](_ => Empty);
      player := X;
      winner := NoWinner;
      confettiActive := false;
      new;
      assert board[..] == InitialGame().board;
      InitialInv();
    }

    /** The win check: scans the lines of the table in order and reports
        whether all three cells of one of them hold the current player's
        mark. The other mark is never looked at. */
    method CheckWinner(newBoard: array<Cell>) returns (won: bool)
      requires newBoard.Length == 9
      ensures won <==> HasLine(newBoard[..], player)
    {
      MatchesOnBoard();
      for i := 0 to |Matches|
        invariant forall k :: 0 <= k < i ==> !Completes(newBoard[..], Matches[k], player)
      {
        var t := Matches[i];
        if newBoard[t.a] == Marked(player) && newBoard[t.b] == Marked(player)
          && newBoard[t.c] == Marked(player)
        {
          assert Completes(newBoard[..], t, player);
          return true;
        }
      }
      return false;
    }

    /** The click handler for the square at `index`: copies the board, writes
        the current player's mark into the copy, stores it, and then either
        records the player as winner (with confetti) or passes the turn. It
        does not itself check that the cell is free or the game undecided. */
    method OnClick(index: CellIndex)
      requires Valid()
      modifies this
      ensures Valid() && fresh(board)
      ensures Model() == Move(old(Model()), index)
    {
      var cells := board[..];
      var newBoard := new Cell[9](i requires 0 <= i < |cells| => cells[i]);
      newBoard[index] := Marked(player);
      board := newBoard;
      assert board[..] == old(board[..])[index := Marked(player)];

      var won := CheckWinner(newBoard);
      if won {
        winner := Won(player);
        confettiActive := true;
      } else {
        player := Other(player);
      }
    }

    /** A click on the square button at `index`. The button is disabled when
        its cell is taken or the game is won, and a disabled button ignores
        the click; otherwise the handler runs. Every click keeps the
        invariant of reachable games. */
    method ClickSquare(index: CellIndex)
      requires Valid()
      modifies this
      ensures Valid()
      ensures Model() == Click(old(Model()), index)
      ensures Inv(old(Model())) ==> Inv(Model())
    {
      if Inv(Model()) {
        ClickPreservesInv(Model(), index);
      }
      if board[index] != Empty || winner != NoWinner {
        return;
      }
      OnClick(index);
    }

    /** The reset button: a new empty board, X to move, no winner, no
        confetti, whatever the state before. */
    method OnReset()
      requires Valid()
      modifies this
      ensures Valid() && fresh(board)
      ensures Model() == InitialGame() && Inv(Model())
    {
      board := new Cell[9](_ => Empty);
      player := X;
      winner := NoWinner;
      confettiActive := false;
      assert board[..] == InitialGame().board;
      InitialInv();
    }

    /** The mark shown after "Next player:" in the status line: the mark
        opposite to `player`, not `player` itself. */
    function NextPlayerShown(): (r: Mark)
      reads this
      ensures r != player
    {
      Other(player)
    }
  }
}
