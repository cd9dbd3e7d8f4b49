/** Concrete positions showing how update_game (lambda/game.py) behaves where a
    reader of the rules might expect otherwise. */
module Scenarios {
  import opened Checkerboard
  import opened Rules
  import opened Session
  import Client

  function EmptyBoard(): (b: Board)
    ensures forall r, c :: InBounds(r, c) ==> At(b, r, c) == Empty
  {
    seq(64, _ => Empty)
  }

  const RedMan := Piece(Red, false)
  const BlackMan := Piece(Black, false)

  /** Red men on (5, 1) and (5, 5); black men on (4, 2) and (2, 4). */
  function CapturePosition(): (b: Board)
    ensures At(b, 5, 1) == RedMan && At(b, 5, 5) == RedMan
    ensures At(b, 4, 2) == BlackMan && At(b, 2, 4) == BlackMan
    ensures forall r, c :: InBounds(r, c) && (r, c) !in {(5, 1), (5, 5), (4, 2), (2, 4)} ==> At(b, r, c) == Empty
  {
    Put(Put(Put(Put(EmptyBoard(), 5, 1, RedMan), 5, 5, RedMan), 4, 2, BlackMan), 2, 4, BlackMan)
  }

  /** is_valid_move does not make capturing compulsory: with a capture open to the
      red man on (5, 1), the server still accepts a plain step of the other red man. */
  lemma NoMandatoryCapture()
    ensures JumpAvailable(CapturePosition(), 5, 1, Red)
    ensures IsValidMove(CapturePosition(), 5, 5, 4, 4, Red)
  {
    var b := CapturePosition();
    assert JumpOpen(b, 5, 1, Red, -1, 1);
  }

  /** After a capture that leaves a further capture open, the server keeps the turn with
      red and reports `hasMoreJumps`, yet it accepts a move of a different red piece:
      the chain is not enforced. */
  lemma ChainNotEnforced()
    ensures var o := Play(Snapshot(CapturePosition(), Red, Active, None), 5, 1, 3, 3);
            && o.hasMoreJumps
            && o.after.currentPlayer == Red
            && IsValidMove(o.after.board, 5, 5, 4, 4, Red)
  {
    var b := CapturePosition();
    assert IsValidMove(b, 5, 1, 3, 3, Red);
    var b' := MoveBoard(b, 5, 1, 3, 3, Red);
    assert At(b', 3, 3) == RedMan && At(b', 2, 4) == BlackMan && At(b', 1, 5) == Empty;
    assert JumpOpen(b', 3, 3, Red, -1, 1);
    assert At(b', 5, 5) == RedMan && At(b', 4, 4) == Empty;
  }

  /** A red man on (5, 1) and the last black man on (4, 2). */
  function LastBlackPosition(): (b: Board)
    ensures At(b, 5, 1) == RedMan && At(b, 4, 2) == BlackMan
    ensures forall r, c :: InBounds(r, c) && (r, c) != (5, 1) && (r, c) != (4, 2) ==> At(b, r, c) == Empty
  {
    Put(Put(EmptyBoard(), 5, 1, RedMan), 4, 2, BlackMan)
  }

  /** In this position, capturing the last black piece does not end the game:
      check_winner is asked about black, who is to move, and finds red still able to move;
      the game stays active with a side to move that has no pieces and no legal move.
      When the capture leaves red stuck instead, see LastCaptureCrownsLoser. */
  lemma LastCaptureLeavesGameActive()
    ensures var o := Play(Snapshot(LastBlackPosition(), Red, Active, None), 5, 1, 3, 3);
            && PieceCount(o.after.board, Black) == 0
            && o.after.currentPlayer == Black
            && !HasLegalMove(o.after.board, Black)
            && o.after.status == Active && o.after.winner == None
  {
    var b := LastBlackPosition();
    assert IsValidMove(b, 5, 1, 3, 3, Red);
    var b' := MoveBoard(b, 5, 1, 3, 3, Red);
    forall r, c | InBounds(r, c) ensures !Owns(At(b', r, c), Black) {
      if (r, c) != (3, 3) && !IsJumped(5, 1, 3, 3, r, c) && (r, c) != (5, 1) {
        assert At(b', r, c) == At(b, r, c);
      }
    }
    NoPiecesAnywhere(b', Black);
    assert !JumpAvailable(b', 3, 3, Red);
    assert At(b', 3, 3) == RedMan && At(b', 2, 2) == Empty;
    assert IsValidMove(b', 3, 3, 2, 2, Red);
  }

  /** Red kings on the even squares of row 0, red men on (1, 1), (1, 3), (1, 5) and
      (3, 5), and the last black man on (2, 6). */
  function CrowdedPosition(): (b: Board)
    ensures forall c :: 0 <= c < 8 ==> At(b, 0, c) == (if c % 2 == 0 then Piece(Red, true) else Empty)
    ensures At(b, 1, 1) == RedMan && At(b, 1, 3) == RedMan && At(b, 1, 5) == RedMan && At(b, 1, 7) == Empty
    ensures At(b, 3, 5) == RedMan && At(b, 2, 6) == BlackMan
    ensures forall r, c :: InBounds(r, c) && r != 0 && (r, c) !in {(1, 1), (1, 3), (1, 5), (3, 5), (2, 6)}
              ==> At(b, r, c) == Empty
  {
    var kings := Put(Put(Put(Put(EmptyBoard(), 0, 0, Piece(Red, true)), 0, 2, Piece(Red, true)),
                         0, 4, Piece(Red, true)), 0, 6, Piece(Red, true));
    Put(Put(Put(Put(Put(kings, 1, 1, RedMan), 1, 3, RedMan), 1, 5, RedMan), 3, 5, RedMan), 2, 6, BlackMan)
  }

  /** Red kings on the even squares of row 0 and red men on the odd squares of row 1:
      every red piece is boxed in by its own side. */
  ghost predicate BoxedIn(b: Board)
  {
    forall r, c :: InBounds(r, c) ==>
      At(b, r, c) == (if r == 0 && c % 2 == 0 then Piece(Red, true)
                      else if r == 1 && c % 2 == 1 then RedMan
                      else Empty)
  }

  /** A boxed-in red side has no move, and black has no piece. */
  lemma BoxedInIsStuck(b: Board)
    requires BoxedIn(b)
    ensures !HasLegalMove(b, Red) && PieceCount(b, Black) == 0
  {
    forall fr, fc, tr, tc | IsValidMove(b, fr, fc, tr, tc, Red) ensures false {
      ValidMoveIsOpen(b, fr, fc, tr, tc, Red);
    }
    NoPiecesAnywhere(b, Black);
  }

  /** The capture (3, 5) -> (1, 7) from CrowdedPosition boxes red in. */
  lemma CrowdedCaptureBoxesIn()
    ensures IsValidMove(CrowdedPosition(), 3, 5, 1, 7, Red)
    ensures BoxedIn(MoveBoard(CrowdedPosition(), 3, 5, 1, 7, Red))
  {
    var b := CrowdedPosition();
    assert IsValidMove(b, 3, 5, 1, 7, Red);
    var b' := MoveBoard(b, 3, 5, 1, 7, Red);
    forall r, c | InBounds(r, c)
      ensures At(b', r, c) == (if r == 0 && c % 2 == 0 then Piece(Red, true)
                               else if r == 1 && c % 2 == 1 then RedMan
                               else Empty)
    {
      if (r, c) != (1, 7) && !IsJumped(3, 5, 1, 7, r, c) && (r, c) != (3, 5) {
        assert At(b', r, c) == At(b, r, c);
      }
    }
  }

  /** When the capture of the last black piece leaves red without a move, check_winner,
      asked about black, finds red stuck and records BLACK, the side with no pieces left,
      as the winner. */
  lemma LastCaptureCrownsLoser()
    ensures var o := Play(Snapshot(CrowdedPosition(), Red, Active, None), 3, 5, 1, 7);
            && PieceCount(o.after.board, Black) == 0
            && o.after.currentPlayer == Black
            && o.after.status == Finished && o.after.winner == Some(Black)
  {
    CrowdedCaptureBoxesIn();
    var o := Play(Snapshot(CrowdedPosition(), Red, Active, None), 3, 5, 1, 7);
    var b' := o.after.board;
    BoxedInIsStuck(b');
    assert !JumpAvailable(b', 1, 7, Red);
    assert !o.hasMoreJumps && o.after.currentPlayer == Black;
    assert Opponent(Black) == Red;
  }

  /** A red king on (2, 0) and black men on (1, 1) and (1, 3). */
  function KingPosition(): (b: Board)
    ensures At(b, 2, 0) == Piece(Red, true) && At(b, 1, 1) == BlackMan && At(b, 1, 3) == BlackMan
    ensures forall r, c :: InBounds(r, c) && (r, c) !in {(2, 0), (1, 1), (1, 3)} ==> At(b, r, c) == Empty
  {
    Put(Put(Put(EmptyBoard(), 2, 0, Piece(Red, true)), 1, 1, BlackMan), 1, 3, BlackMan)
  }

  /** Landing on the far row counts as a promotion even for a piece that is already a
      king, and a promotion ends the capture chain: the king that jumps to (0, 2) could
      jump again over (1, 3), yet the turn passes to black. */
  lemma KingLandingEndsChain()
    ensures var o := Play(Snapshot(KingPosition(), Red, Active, None), 2, 0, 0, 2);
            && JumpAvailable(o.after.board, 0, 2, Red)
            && !o.hasMoreJumps
            && o.after.currentPlayer == Black
  {
    var b := KingPosition();
    assert IsValidMove(b, 2, 0, 0, 2, Red);
    var o := Play(Snapshot(b, Red, Active, None), 2, 0, 0, 2);
    var b' := o.after.board;
    assert ReachesFarRow(Red, 0);
    assert !o.hasMoreJumps && o.after.currentPlayer == Black;
    assert !IsJumped(2, 0, 0, 2, 1, 3) && !IsJumped(2, 0, 0, 2, 2, 4);
    assert At(b', 0, 2) == Piece(Red, true) && At(b', 1, 3) == BlackMan && At(b', 2, 4) == Empty;
    assert JumpOpen(b', 0, 2, Red, 1, 1);
  }

  /** A black man on (6, 0) and a red man on its starting square (7, 1), which blocks
      the black man's only step. */
  function BlockedPosition(): (b: Board)
    ensures At(b, 6, 0) == BlackMan && At(b, 7, 1) == RedMan
    ensures forall r, c :: InBounds(r, c) && (r, c) != (6, 0) && (r, c) != (7, 1) ==> At(b, r, c) == Empty
  {
    Put(Put(EmptyBoard(), 6, 0, BlackMan), 7, 1, RedMan)
  }

  /** The server declares a winner when the other side has no legal move, while the
      client's checkWinner only looks at piece counts and shows none. */
  lemma BlockedSideWinnerOnlyOnServer()
    ensures CheckWinner(BlockedPosition(), Red) == Some(Red)
    ensures Client.CheckWinner(Some(BlockedPosition())) == None
    ensures OnEvenSquares(BlockedPosition())
  {
    var b := BlockedPosition();
    forall fr, fc, tr, tc | IsValidMove(b, fr, fc, tr, tc, Black) ensures false {
      ValidMoveIsOpen(b, fr, fc, tr, tc, Black);
    }
    assert Owns(At(b, 7, 1), Red) && Owns(At(b, 6, 0), Black);
  }
}
