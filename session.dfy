/** A stored game and the move step of update_game (lambda/game.py): validate the
    move, apply it to the board, decide who moves next and whether the game is over. */
module Session {
  import opened Checkerboard
  import opened Rules

  /** The wire values "active" and "finished". */
  datatype Status = Active | Finished

  /** The game fields the rules engine reads and writes. */
  datatype Snapshot = Snapshot(board: Board, currentPlayer: Color, status: Status, winner: Option<Color>)

  /** What update_game stores after a move, and the `hasMoreJumps` it reports. */
  datatype Outcome = Outcome(after: Snapshot, hasMoreJumps: bool)

  /** Pieces stay on the even squares, and a winner is recorded exactly when the game is finished. */
  ghost predicate Consistent(s: Snapshot)
  {
    OnEvenSquares(s.board) && (s.winner.Some? <==> s.status == Finished)
  }

  /** Lines 178-222 of update_game, on an accepted move. */
  function Play(s: Snapshot, fr: int, fc: int, tr: int, tc: int): (o: Outcome)
    requires IsValidMove(s.board, fr, fc, tr, tc, s.currentPlayer)
    ensures o.after.board == MoveBoard(s.board, fr, fc, tr, tc, s.currentPlayer)
    ensures o.hasMoreJumps <==>
              && Abs(tr - fr) == 2
              && !ReachesFarRow(s.currentPlayer, tr)
              && JumpAvailable(o.after.board, tr, tc, s.currentPlayer)
    ensures o.after.currentPlayer == if o.hasMoreJumps then s.currentPlayer else Opponent(s.currentPlayer)
    ensures var next := o.after.currentPlayer;
            if HasLegalMove(o.after.board, Opponent(next))
            then o.after.status == s.status && o.after.winner == s.winner
            else o.after.status == Finished && o.after.winner == Some(next)
  {
    var p := s.currentPlayer;
    var board := MoveBoard(s.board, fr, fc, tr, tc, p);
    var captured := Abs(tr - fr) == 2;
    var wasPromoted := ReachesFarRow(p, tr);
    var hasMoreJumps := captured && !wasPromoted && JumpAvailable(board, tr, tc, p);
    var next := if hasMoreJumps then p else Opponent(p);
    var w := CheckWinner(board, next);
    var status := if w.Some? then Finished else s.status;
    var winner := if w.Some? then w else s.winner;
    Outcome(Snapshot(board, next, status, winner), hasMoreJumps)
  }

  /** Every accepted move keeps the game consistent. */
  lemma PlayKeepsConsistent(s: Snapshot, fr: int, fc: int, tr: int, tc: int)
    requires Consistent(s)
    requires IsValidMove(s.board, fr, fc, tr, tc, s.currentPlayer)
    ensures Consistent(Play(s, fr, fc, tr, tc).after)
  {
    MoveKeepsEvenSquares(s.board, fr, fc, tr, tc, s.currentPlayer);
  }

  /** check_winner runs after the turn has switched, so when a move ends the mover's
      turn the game is declared over only if the MOVER is left without a legal move,
      and the side declared the winner is the one about to move. */
  lemma TurnEndJudgesMover(s: Snapshot, fr: int, fc: int, tr: int, tc: int)
    requires IsValidMove(s.board, fr, fc, tr, tc, s.currentPlayer)
    requires s.status == Active
    requires !Play(s, fr, fc, tr, tc).hasMoreJumps
    ensures var o := Play(s, fr, fc, tr, tc);
            o.after.status == Finished <==> !HasLegalMove(o.after.board, s.currentPlayer)
    ensures var o := Play(s, fr, fc, tr, tc);
            o.after.status == Finished ==> o.after.winner == Some(Opponent(s.currentPlayer))
  {
    assert Opponent(Opponent(s.currentPlayer)) == s.currentPlayer;
  }

  /** update_game never looks at `status`: a finished game still takes moves, and stays finished. */
  lemma FinishedGameStillMoves(s: Snapshot, fr: int, fc: int, tr: int, tc: int)
    requires s.status == Finished
    requires IsValidMove(s.board, fr, fc, tr, tc, s.currentPlayer)
    ensures var o := Play(s, fr, fc, tr, tc);
            o.after.status == Finished && o.after.board != s.board
  {
    var b' := Play(s, fr, fc, tr, tc).after.board;
    assert At(b', fr, fc) != At(s.board, fr, fc);
  }

  /** The stored game record, updated in place by update_game. */
  class Game {
    var board: array<Cell>
    var currentPlayer: Color
    var status: Status
    var winner: Option<Color>

    ghost function State(): Snapshot
      reads this, board
      requires board.Length == 64
    {
      Snapshot(board[..], currentPlayer, status, winner)
    }

    ghost predicate Valid()
      reads this, board
    {
      board.Length == 64 && Consistent(State())
    }

    /** create_game: the initial layout, red to move, active. */
    constructor ()
      ensures Valid() && fresh(board)
      ensures board[..] == InitialBoard()
      ensures currentPlayer == Red && status == Active && winner == None
    {
      board := new Cell[64](i requires 0 <= i < 64 => InitialBoard()[i]);
      currentPlayer := Red;
      status := Active;
      winner := None;
      new;
      assert board[..] == InitialBoard();
      InitialLayout();
    }

    /** Lines 178-222 of update_game: move the piece, capture, promote, pass the
        turn unless a further capture is open, and record a winner. */
    method ApplyMove(fromRow: int, fromCol: int, toRow: int, toCol: int) returns (hasMoreJumps: bool)
      requires Valid()
      requires IsValidMove(board[..], fromRow, fromCol, toRow, toCol, currentPlayer)
      modifies this, board
      ensures Valid() && board == old(board)
      ensures Outcome(State(), hasMoreJumps) == Play(old(State()), fromRow, fromCol, toRow, toCol)
    {
      ghost var before := State();
      ghost var o := Play(before, fromRow, fromCol, toRow, toCol);
      var captured, wasPromoted := MovePiece(fromRow, fromCol, toRow, toCol);
      assert board[..] == o.after.board;

      hasMoreJumps := false;
      if captured && !wasPromoted {
        hasMoreJumps := HasValidJumps(board, toRow, toCol, currentPlayer);
      }
      assert hasMoreJumps == o.hasMoreJumps;

      if !hasMoreJumps {
        currentPlayer := if currentPlayer == Red then Black else Red;
      }
      assert currentPlayer == o.after.currentPlayer;

      var w := Winner(board, currentPlayer);
      if w.Some? {
        status := Finished;
        winner := w;
      }
      assert State() == o.after;
      PlayKeepsConsistent(before, fromRow, fromCol, toRow, toCol);
    }

    /** Lines 179-200 of update_game: empty the start square, place the piece, remove
        the jumped piece and upper-case a piece that reaches the far row. */
    method MovePiece(fromRow: int, fromCol: int, toRow: int, toCol: int) returns (captured: bool, wasPromoted: bool)
      requires board.Length == 64
      requires IsValidMove(board[..], fromRow, fromCol, toRow, toCol, currentPlayer)
      modifies board
      ensures board[..] == MoveBoard(old(board[..]), fromRow, fromCol, toRow, toCol, currentPlayer)
      ensures captured == (Abs(toRow - fromRow) == 2)
      ensures wasPromoted == ReachesFarRow(currentPlayer, toRow)
    {
      ghost var b := board[..];
      var piece := board[Idx(fromRow, fromCol)];
      board[Idx(fromRow, fromCol)] := Empty;
      board[Idx(toRow, toCol)] := piece;
      ghost var moved := Put(Put(b, fromRow, fromCol, Empty), toRow, toCol, piece);
      assert board[..] == moved;

      captured := false;
      if Abs(toRow - fromRow) == 2 {
        var jumpedRow, jumpedCol := (fromRow + toRow) / 2, (fromCol + toCol) / 2;
        board[Idx(jumpedRow, jumpedCol)] := Empty;
        captured := true;
      }
      ghost var afterCapture := if captured then Put(moved, (fromRow + toRow) / 2, (fromCol + toCol) / 2, Empty) else moved;
      assert board[..] == afterCapture;

      wasPromoted := false;
      if (currentPlayer == Red && toRow == 0) || (currentPlayer == Black && toRow == 7) {
        board[Idx(toRow, toCol)] := Upper(board[Idx(toRow, toCol)]);
        wasPromoted := true;
      }
    }

    /** The move step of update_game: a move is_valid_move rejects leaves the game
        untouched; any other move is applied, whatever the game's status. */
    method Update(fromRow: int, fromCol: int, toRow: int, toCol: int) returns (accepted: bool, hasMoreJumps: bool)
      requires Valid()
      modifies this, board
      ensures Valid() && board == old(board)
      ensures accepted == IsValidMove(old(board[..]), fromRow, fromCol, toRow, toCol, old(currentPlayer))
      ensures !accepted ==> State() == old(State()) && !hasMoreJumps
      ensures accepted ==> Outcome(State(), hasMoreJumps) == Play(old(State()), fromRow, fromCol, toRow, toCol)
    {
      accepted := IsValidMove(board[..], fromRow, fromCol, toRow, toCol, currentPlayer);
      if !accepted {
        return accepted, false;
      }
      hasMoreJumps := ApplyMove(fromRow, fromCol, toRow, toCol);
    }
  }
}
