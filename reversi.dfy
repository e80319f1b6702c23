/**
 * The state of the browser Reversi page (the board, whose turn it is, and
 * whether the game is over) and the handlers that read and change it.
 */
module Reversi {

  import opened Names
  import opened ReversiRules

  class Game {
    /** The 8x8 grid of EMPTY, BLACK and WHITE, row by row. */
    var board: Board
    var currentPlayer: int
    var gameOver: bool

    ghost predicate Valid()
      reads this
    {
      IsBoard(board) && (currentPlayer == BLACK || currentPlayer == WHITE)
    }

    /** Loading the page starts a game. */
    constructor ()
      ensures Valid()
      ensures board == Initial() && currentPlayer == BLACK && !gameOver
    {
      board := Initial();
      currentPlayer, gameOver := BLACK, false;
    }

    /** `initGame`: an empty board but for the four centre stones, BLACK to move. */
    method InitGame()
      modifies this
      ensures Valid()
      ensures board == Initial() && currentPlayer == BLACK && !gameOver
    {
      board := seq(SIZE, r => seq(SIZE, c => EMPTY));
      ghost var blank := board;
      var center := SIZE / 2;
      board := board[center - 1 := board[center - 1][center - 1 := WHITE]];
      board := board[center - 1 := board[center - 1][center := BLACK]];
      board := board[center := board[center][center - 1 := BLACK]];
      board := board[center := board[center][center := WHITE]];
      currentPlayer := BLACK;
      gameOver := false;
      InitialSetup(blank);
    }

    /** `getFlipsForMove(row, col, player)`: the eight direction scans over the board. */
    method GetFlipsForMove(row: int, col: int, player: int) returns (flips: seq<Pos>)
      requires Valid() && OnBoard(row, col)
      ensures flips == Flips(board, row, col, player)
    {
      if board[row][col] != EMPTY {
        return [];
      }
      flips := ScanDirections(row, col, player);
    }

    /** The direction loop of `getFlipsForMove`: each closed run is appended in scan order. */
    method ScanDirections(row: int, col: int, player: int) returns (flips: seq<Pos>)
      requires Valid()
      ensures flips == FlipsUpTo(board, row, col, |Directions|, player)
    {
      flips := [];
      for d := 0 to |Directions|
        invariant flips == FlipsUpTo(board, row, col, d, player)
      {
        flips := ScanDirection(row, col, d, player, flips);
      }
    }

    /** One pass of the direction loop: the run of direction `d`, if closed, joins `flips`. */
    method ScanDirection(row: int, col: int, d: nat, player: int, flips: seq<Pos>) returns (flips': seq<Pos>)
      requires Valid() && d < |Directions| && flips == FlipsUpTo(board, row, col, d, player)
      ensures flips' == FlipsUpTo(board, row, col, d + 1, player)
    {
      var dir := Directions[d];
      DirectionAt(d);
      var found, potential := ScanRun(row + dir.0, col + dir.1, dir.0, dir.1, player);
      FlipsUpToStep(board, row, col, d, player, found, potential);
      flips' := flips;
      if found {
        flips' := flips' + potential;
      }
    }

    /**
     * One direction of `getFlipsForMove`: walk from `(r0, c0)` collecting
     * opponent stones until the edge, an EMPTY cell or the player's own stone.
     */
    method ScanRun(r0: int, c0: int, dr: int, dc: int, player: int) returns (found: bool, potential: seq<Pos>)
      requires Valid() && IsDirection(dr, dc)
      ensures Run(board, r0, c0, dr, dc, player) == if found then Some(potential) else None
    {
      var opponent := Opponent(player);
      potential := [];
      var r, c := r0, c0;
      PrependNil(Run(board, r, c, dr, dc, player));
      while r >= 0 && r < SIZE && c >= 0 && c < SIZE
        invariant Run(board, r0, c0, dr, dc, player) == Prepend(potential, Run(board, r, c, dr, dc, player))
        decreases Reach(r, c, dr, dc)
      {
        if board[r][c] == opponent {
          PrependAssoc(potential, [Pos(r, c)], Run(board, r + dr, c + dc, dr, dc, player));
          potential := potential + [Pos(r, c)];
        } else if board[r][c] == player {
          assert potential + [] == potential;
          return true, potential;
        } else {
          return false, potential;
        }
        r, c := r + dr, c + dc;
      }
      return false, potential;
    }

    /** `getValidMoves(player)`: every cell, row by row, whose move flips something. */
    method GetValidMoves(player: int) returns (moves: seq<Pos>)
      requires Valid()
      ensures moves == ValidMoves(board, player)
    {
      moves := [];
      ghost var legal: seq<bool> := [];
      for row := 0 to SIZE
        invariant |legal| == SIZE * row && moves == Pick(legal)
        invariant Records(legal, Legal(board, player))
      {
        for col := 0 to SIZE
          invariant |legal| == SIZE * row + col && moves == Pick(legal)
          invariant Records(legal, Legal(board, player))
        {
          var flips := GetFlipsForMove(row, col, player);
          LegalCell(board, player, row, col, |legal|, flips);
          PickStep(legal, |flips| > 0);
          RecordsStep(legal, Legal(board, player), |flips| > 0);
          legal := legal + [|flips| > 0];
          if |flips| > 0 {
            moves := moves + [Pos(row, col)];
          }
        }
      }
      PickWhere(Legal(board, player), legal);
    }

    /**
     * The pass / game-over branch of `updateStatus`: a player without a
     * legal move passes to an opponent who has one, and when neither has
     * one the game is over.
     */
    method UpdateStatus()
      requires Valid()
      modifies this
      ensures Valid() && board == old(board)
      ensures Status(currentPlayer, gameOver) == Settle(board, old(currentPlayer), old(gameOver))
    {
      if !gameOver {
        var moves := GetValidMoves(currentPlayer);
        if |moves| == 0 {
          var opponent := Opponent(currentPlayer);
          var opponentMoves := GetValidMoves(opponent);
          if |opponentMoves| > 0 {
            currentPlayer := opponent;
          } else {
            gameOver := true;
          }
        }
      }
    }

    /** The board writes of `handleCellClick`: the placed stone, then each flip in order. */
    method PlaceStones(row: int, col: int, flips: seq<Pos>)
      requires Valid() && OnBoard(row, col) && AllOnBoard(flips)
      modifies this
      ensures Valid() && currentPlayer == old(currentPlayer) && gameOver == old(gameOver)
      ensures board == ApplyFlips(SetCell(old(board), Pos(row, col), currentPlayer), flips, currentPlayer)
    {
      board := board[row := board[row][col := currentPlayer]];
      ghost var placed := board;
      assert placed == SetCell(old(board), Pos(row, col), currentPlayer);
      for i := 0 to |flips|
        invariant currentPlayer == old(currentPlayer) && gameOver == old(gameOver)
        invariant AllOnBoard(flips[..i]) && board == ApplyFlips(placed, flips[..i], currentPlayer)
      {
        var flip := flips[i];
        assert flips[..i + 1][..i] == flips[..i];
        board := board[flip.row := board[flip.row][flip.col := currentPlayer]];
      }
      assert flips[..|flips|] == flips;
    }

    /**
     * `handleCellClick(row, col)`: ignored once the game is over or when the
     * move flips nothing; otherwise the stone is placed, the flips are made,
     * the turn passes to the opponent, and the redraw that follows applies
     * the pass / game-over rule.
     */
    method HandleCellClick(row: int, col: int)
      requires Valid() && OnBoard(row, col)
      modifies this
      ensures Valid()
      ensures old(gameOver) || |Flips(old(board), row, col, old(currentPlayer))| == 0 ==>
                board == old(board) && currentPlayer == old(currentPlayer) && gameOver == old(gameOver)
      ensures !old(gameOver) && |Flips(old(board), row, col, old(currentPlayer))| > 0 ==>
                && board == Move(old(board), row, col, old(currentPlayer))
                && Status(currentPlayer, gameOver) == Settle(board, Opponent(old(currentPlayer)), false)
    {
      if gameOver {
        return;
      }
      var flips := GetFlipsForMove(row, col, currentPlayer);
      if |flips| == 0 {
        return;
      }
      MoveApplies(board, row, col, currentPlayer, flips);
      PlaceStones(row, col, flips);
      currentPlayer := if currentPlayer == BLACK then WHITE else BLACK;
      UpdateStatus();
    }
  }
}
