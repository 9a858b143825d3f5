/**
 The tic-tac-toe game of the `Board` component, as values.

 The component's four state fields (`board`, `player`, `winner`,
 `confettiActive`) are gathered into one `Game` value, and the two ways a
 user changes them -- a click on a square and the reset button -- become
 functions from one `Game` to the next. The class in module BoardComponent
 is proved to follow these functions; the lemmas here say what any sequence
 of clicks can and cannot reach.
 */
module TicTacToe {

  /** A player's mark: the strings 'X' and 'O' of the component. */
  datatype Mark = X | O

  /** One cell of the board: `null` (Empty) or the mark written into it. */
  datatype Cell = Empty | Marked(mark: Mark)

  /** The `winner` field: the string 'None', or the mark that completed a line. */
  datatype Winner = NoWinner | Won(mark: Mark)

  /** A board position, row-major: 0 1 2 / 3 4 5 / 6 7 8. */
  type CellIndex = i: int | 0 <= i < 9

  /** Three board positions that together form a line. */
  datatype Triple = Triple(a: int, b: int, c: int)

  /** The eight winning lines, in the order the win check scans them. */
  const Matches: seq<Triple> := [
    Triple(0, 1, 2), Triple(3, 4, 5), Triple(6, 7, 8),   // rows
    Triple(0, 3, 6), Triple(1, 4, 7), Triple(2, 5, 8),   // columns
    Triple(0, 4, 8), Triple(2, 4, 6)                     // diagonals
  ]

  /** The state of one `Board` component. */
  datatype Game = Game(board: seq<Cell>, player: Mark, winner: Winner, confettiActive: bool)

  /** The mark of the other player. */
  function Other(m: Mark): (r: Mark)
    ensures r != m
  {
    if m == X then O else X
  }

  /** Every position named by the table is on the board. */
  lemma MatchesOnBoard()
    ensures |Matches| == 8
    ensures forall k :: 0 <= k < |Matches| ==>
      0 <= Matches[k].a < 9 && 0 <= Matches[k].b < 9 && 0 <= Matches[k].c < 9
  {
  }

  /** All three cells of line `t` hold mark `m`. A position off the board
      never holds a mark (reading past a JavaScript array gives `undefined`). */
  predicate Completes(board: seq<Cell>, t: Triple, m: Mark)
  {
    && 0 <= t.a < |board| && board[t.a] == Marked(m)
    && 0 <= t.b < |board| && board[t.b] == Marked(m)
    && 0 <= t.c < |board| && board[t.c] == Marked(m)
  }

  /** Some line of the table is filled with `m`: what the win check looks for. */
  predicate HasLine(board: seq<Cell>, m: Mark)
  {
    exists k :: 0 <= k < |Matches| && Completes(board, Matches[k], m)
  }

  /** Whether `m` has a line depends only on which cells hold `m`: the
      check never looks at the other mark. */
  lemma HasLineOnlyReadsOwnMark(b1: seq<Cell>, b2: seq<Cell>, m: Mark)
    requires |b1| == |b2|
    requires forall j :: 0 <= j < |b1| ==> (b1[j] == Marked(m) <==> b2[j] == Marked(m))
    ensures HasLine(b1, m) <==> HasLine(b2, m)
  {
  }

  /** The number of cells that hold mark `m`. */
  function Count(board: seq<Cell>, m: Mark): nat
  {
    if board == [] then 0
    else (if board[0] == Marked(m) then 1 else 0) + Count(board[1..], m)
  }

  /** A square's button is disabled when its cell is taken or the game is won. */
  predicate SquareDisabled(value: Cell, winner: Winner)
  {
    value != Empty || winner != NoWinner
  }

  /** The state a fresh component starts in, and the one reset restores:
      nine empty cells, X to move, no winner, no confetti. */
  function InitialGame(): Game
  {
    Game(seq(9, _ => Empty), X, NoWinner, false)
  }

  /** The click handler: write the current player's mark into `index`, then
      either declare that player the winner or hand the turn over. The
      handler itself does not look at the cell or at `winner`. */
  function Move(g: Game, index: CellIndex): (r: Game)
    requires |g.board| == 9
    ensures |r.board| == 9
    ensures r.board[index] == Marked(g.player)
    ensures forall j :: 0 <= j < 9 && j != index ==> r.board[j] == g.board[j]
    ensures HasLine(r.board, g.player) ==>
      r.winner == Won(g.player) && r.confettiActive && r.player == g.player
    ensures !HasLine(r.board, g.player) ==>
      r.winner == g.winner && r.confettiActive == g.confettiActive && r.player == Other(g.player)
  {
    var newBoard := g.board[index := Marked(g.player)];
    if HasLine(newBoard, g.player) then
      g.(board := newBoard, winner := Won(g.player), confettiActive := true)
    else
      g.(board := newBoard, player := Other(g.player))
  }

  /** A click on the square at `index`: nothing happens when its button is
      disabled, otherwise the handler runs. A click changes the game exactly
      when the square is enabled. */
  function Click(g: Game, index: CellIndex): (r: Game)
    requires |g.board| == 9
    ensures |r.board| == 9
    ensures r == g <==> SquareDisabled(g.board[index], g.winner)
    ensures r != g ==> r == Move(g, index)
  {
    if SquareDisabled(g.board[index], g.winner) then g else Move(g, index)
  }

  /** The game after the clicks `moves`, one after another. */
  function Run(g: Game, moves: seq<CellIndex>): Game
    requires |g.board| == 9
    decreases |moves|
  {
    if moves == [] then g else Run(Click(g, moves[0]), moves[1..])
  }

  /** X has made as many moves as O when `next` is X, one more when it is O. */
  predicate TurnBalance(board: seq<Cell>, next: Mark)
  {
    Count(board, X) == Count(board, O) + (if next == X then 0 else 1)
  }

  /** What holds of every game reachable from the initial one by clicks. */
  ghost predicate Inv(g: Game)
  {
    && |g.board| == 9
    && (g.confettiActive <==> g.winner != NoWinner)
    && match g.winner
       case NoWinner =>
         !HasLine(g.board, X) && !HasLine(g.board, O) && TurnBalance(g.board, g.player)
       case Won(m) =>
         g.player == m && HasLine(g.board, m) && !HasLine(g.board, Other(m))
         && TurnBalance(g.board, Other(m))
  }

  /** Writing `p` into an empty cell adds one to the count of `p` and leaves
      the count of the other mark alone. */
  lemma {:induction false} CountPlace(board: seq<Cell>, i: int, p: Mark, m: Mark)
    requires 0 <= i < |board| && board[i] == Empty
    ensures Count(board[i := Marked(p)], m) == Count(board, m) + (if m == p then 1 else 0)
  {
    var nb := board[i := Marked(p)];
    if i > 0 {
      assert nb[1..] == board[1..][i - 1 := Marked(p)];
      CountPlace(board[1..], i - 1, p, m);
    } else {
      assert nb[1..] == board[1..];
    }
  }

  /** A board where no cell holds `m` counts no `m`. */
  lemma {:induction false} CountAbsent(board: seq<Cell>, m: Mark)
    requires forall j :: 0 <= j < |board| ==> board[j] != Marked(m)
    ensures Count(board, m) == 0
  {
    if board != [] {
      CountAbsent(board[1..], m);
    }
  }

  /** Writing `p` somewhere cannot complete a line of the other mark. */
  lemma PlaceKeepsOtherLines(board: seq<Cell>, i: int, p: Mark, q: Mark)
    requires 0 <= i < |board| && q != p
    ensures HasLine(board[i := Marked(p)], q) ==> HasLine(board, q)
  {
  }

  /** The initial game satisfies the invariant. */
  lemma InitialInv()
    ensures Inv(InitialGame())
  {
    var b := InitialGame().board;
    CountAbsent(b, X);
    CountAbsent(b, O);
  }

  /** One click keeps the invariant. */
  lemma ClickPreservesInv(g: Game, index: CellIndex)
    requires Inv(g)
    ensures Inv(Click(g, index))
  {
    if !SquareDisabled(g.board[index], g.winner) {
      var p := g.player;
      var nb := g.board[index := Marked(p)];
      CountPlace(g.board, index, p, X);
      CountPlace(g.board, index, p, O);
      assert TurnBalance(nb, Other(p));
      PlaceKeepsOtherLines(g.board, index, p, Other(p));
      assert Move(g, index).board == nb;
    }
  }

  /** Any sequence of clicks keeps the invariant. */
  lemma {:induction false} RunPreservesInv(g: Game, moves: seq<CellIndex>)
    requires Inv(g)
    ensures Inv(Run(g, moves))
    decreases |moves|
  {
    if moves != [] {
      ClickPreservesInv(g, moves[0]);
      RunPreservesInv(Click(g, moves[0]), moves[1..]);
    }
  }

  /** Every game reached from the initial one by clicks: X is never behind O
      and at most one move ahead; confetti is on exactly when there is a
      winner; a winner has a full line of its own mark, none of the other
      mark, and is still the player to move. */
  lemma Reachable(moves: seq<CellIndex>)
    ensures var g := Run(InitialGame(), moves);
      && |g.board| == 9
      && (Count(g.board, X) == Count(g.board, O) || Count(g.board, X) == Count(g.board, O) + 1)
      && (g.confettiActive <==> g.winner != NoWinner)
      && (g.winner == NoWinner ==> !HasLine(g.board, X) && !HasLine(g.board, O))
      && (g.winner.Won? ==>
            HasLine(g.board, g.winner.mark) && !HasLine(g.board, Other(g.winner.mark))
            && g.player == g.winner.mark)
  {
    InitialInv();
    RunPreservesInv(InitialGame(), moves);
  }

  /** Once a game is won, no click changes it until reset. */
  lemma {:induction false} WonIsFinal(g: Game, moves: seq<CellIndex>)
    requires |g.board| == 9 && g.winner != NoWinner
    ensures Run(g, moves) == g
    decreases |moves|
  {
    if moves != [] {
      WonIsFinal(Click(g, moves[0]), moves[1..]);
    }
  }

  /** Running the clicks `first + rest` is running `first`, then `rest`. */
  lemma {:induction false} RunAppend(g: Game, first: seq<CellIndex>, rest: seq<CellIndex>)
    requires |g.board| == 9
    ensures |Run(g, first).board| == 9
    ensures Run(g, first + rest) == Run(Run(g, first), rest)
    decreases |first|
  {
    if first == [] {
      assert first + rest == rest;
    } else {
      assert (first + rest)[1..] == first[1..] + rest;
      RunAppend(Click(g, first[0]), first[1..], rest);
    }
  }

  /** Once every cell is taken, no click changes the game any more: there
      is no draw state to enter, and a game left without a winner stays so. */
  lemma {:induction false} FullBoardIsFinal(g: Game, moves: seq<CellIndex>)
    requires |g.board| == 9 && forall j :: 0 <= j < 9 ==> g.board[j] != Empty
    ensures Run(g, moves) == g
    decreases |moves|
  {
    if moves != [] {
      FullBoardIsFinal(Click(g, moves[0]), moves[1..]);
    }
  }
}
