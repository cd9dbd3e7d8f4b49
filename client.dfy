/** The web client's own move generator and winner check (frontend/src/App.tsx),
    as functions of the board it last received. */
module Client {
  import opened Checkerboard

  /** A destination square offered to the player. */
  datatype Move = Move(row: int, col: int)

  /** Row directions of calculateValidMoves, taken from the piece's own colour:
      red up, black down, a king both, its own direction first. */
  function Directions(piece: Cell): (dirs: seq<int>)
    requires piece.Piece?
    ensures dirs == if piece.color == Red then (if piece.king then [-1, 1] else [-1])
                    else (if piece.king then [1, -1] else [1])
  {
    var own := if piece.color == Red then [-1] else [1];
    var withUp := if piece.king && -1 !in own then own + [-1] else own;
    if piece.king && 1 !in withUp then withUp + [1] else withUp
  }

  predicate Unit(d: int)
  {
    d == -1 || d == 1
  }

  /** `isOpponentPiece`: the jumped piece belongs to the other colour. */
  predicate IsOpponentPiece(piece: Cell, jumped: Cell)
  {
    || (Owns(piece, Red) && Owns(jumped, Black))
    || (Owns(piece, Black) && Owns(jumped, Red))
  }

  /** The jump test of calculateValidMoves along (dr, dc) from (row, col). */
  predicate JumpOk(b: Board, row: int, col: int, dr: int, dc: int)
    requires InBounds(row, col) && Unit(dr) && Unit(dc)
  {
    var newRow, newCol := row + dr * 2, col + dc * 2;
    && InBounds(newRow, newCol)
    && At(b, row + dr, col + dc).Piece?
    && At(b, newRow, newCol).Empty?
    && IsOpponentPiece(At(b, row, col), At(b, row + dr, col + dc))
    && (newRow + newCol) % 2 == 0
  }

  /** The one-step test of calculateValidMoves along (dr, dc) from (row, col). */
  predicate StepOk(b: Board, row: int, col: int, dr: int, dc: int)
    requires Unit(dr) && Unit(dc)
  {
    var newRow, newCol := row + dr, col + dc;
    InBounds(newRow, newCol) && At(b, newRow, newCol).Empty? && (newRow + newCol) % 2 == 0
  }

  /** m is the landing square of a jump along (dr, dc) that passes the jump test. */
  predicate JumpVia(b: Board, row: int, col: int, dr: int, dc: int, m: Move)
    requires InBounds(row, col) && Unit(dr)
  {
    Unit(dc) && JumpOk(b, row, col, dr, dc) && m == Move(row + dr * 2, col + dc * 2)
  }

  /** m is the square one step along (dr, dc) and passes the one-step test. */
  predicate StepVia(b: Board, row: int, col: int, dr: int, dc: int, m: Move)
    requires Unit(dr)
  {
    Unit(dc) && StepOk(b, row, col, dr, dc) && m == Move(row + dr, col + dc)
  }

  /** The landing square of the jump along (dr, dc), when it passes the jump test. */
  function JumpTo(b: Board, row: int, col: int, dr: int, dc: int): seq<Move>
    requires InBounds(row, col) && Unit(dr) && Unit(dc)
  {
    if JumpOk(b, row, col, dr, dc) then [Move(row + dr * 2, col + dc * 2)] else []
  }

  /** Jumps found for one row direction, left before right. */
  function JumpsToward(b: Board, row: int, col: int, dr: int): seq<Move>
    requires InBounds(row, col) && Unit(dr)
  {
    JumpTo(b, row, col, dr, -1) + JumpTo(b, row, col, dr, 1)
  }

  /** The jumps JumpsToward has found after trying the first j column directions. */
  function JumpsTried(b: Board, row: int, col: int, dr: int, j: int): seq<Move>
    requires InBounds(row, col) && Unit(dr)
  {
    (if j >= 1 then JumpTo(b, row, col, dr, -1) else []) + (if j >= 2 then JumpTo(b, row, col, dr, 1) else [])
  }

  /** Jumps found for the directions in `dirs`, in order. */
  function JumpsAlong(b: Board, row: int, col: int, dirs: seq<int>): seq<Move>
    requires InBounds(row, col) && forall d :: d in dirs ==> Unit(d)
  {
    if dirs == [] then []
    else JumpsAlong(b, row, col, dirs[..|dirs| - 1]) + JumpsToward(b, row, col, dirs[|dirs| - 1])
  }

  /** The square one step along (dr, dc), when it passes the one-step test. */
  function StepTo(b: Board, row: int, col: int, dr: int, dc: int): seq<Move>
    requires Unit(dr) && Unit(dc)
  {
    if StepOk(b, row, col, dr, dc) then [Move(row + dr, col + dc)] else []
  }

  /** One-step moves found for one row direction, left before right. */
  function StepsToward(b: Board, row: int, col: int, dr: int): seq<Move>
    requires Unit(dr)
  {
    StepTo(b, row, col, dr, -1) + StepTo(b, row, col, dr, 1)
  }

  /** The one-step moves StepsToward has found after trying the first j column directions. */
  function StepsTried(b: Board, row: int, col: int, dr: int, j: int): seq<Move>
    requires Unit(dr)
  {
    (if j >= 1 then StepTo(b, row, col, dr, -1) else []) + (if j >= 2 then StepTo(b, row, col, dr, 1) else [])
  }

  /** One-step moves found for the directions in `dirs`, in order. */
  function StepsAlong(b: Board, row: int, col: int, dirs: seq<int>): seq<Move>
    requires forall d :: d in dirs ==> Unit(d)
  {
    if dirs == [] then []
    else StepsAlong(b, row, col, dirs[..|dirs| - 1]) + StepsToward(b, row, col, dirs[|dirs| - 1])
  }

  /** What calculateValidMoves(row, col) returns: nothing without a game or a piece;
      else the piece's jumps when it has any, else its one-step moves. */
  function ValidMoves(game: Option<Board>, row: int, col: int): seq<Move>
    requires game.Some? ==> InBounds(row, col)
  {
    match game
    case None => []
    case Some(b) =>
      var piece := At(b, row, col);
      if piece.Empty? then []
      else
        var jumps := JumpsAlong(b, row, col, Directions(piece));
        if |jumps| > 0 then jumps else StepsAlong(b, row, col, Directions(piece))
  }

  /** calculateValidMoves as the client runs it: a pass over the directions pushing
      jumps and, only when it found none, a second pass pushing one-step moves. */
  method CalculateValidMoves(game: Option<Board>, row: int, col: int) returns (result: seq<Move>)
    requires game.Some? ==> InBounds(row, col)
    ensures result == ValidMoves(game, row, col)
  {
    if game.None? {
      return [];
    }
    var board := game.value;
    var piece := At(board, row, col);
    if piece.Empty? {
      return [];
    }
    var directions := Directions(piece);
    var jumps := CollectJumps(board, row, col, directions);
    if |jumps| > 0 {
      return jumps;
    }
    result := CollectSteps(board, row, col, directions);
  }

  /** The jump pass of calculateValidMoves. */
  method CollectJumps(board: Board, row: int, col: int, directions: seq<int>) returns (jumps: seq<Move>)
    requires InBounds(row, col) && At(board, row, col).Piece?
    requires forall d :: d in directions ==> Unit(d)
    ensures jumps == JumpsAlong(board, row, col, directions)
  {
    jumps := [];
    for i := 0 to |directions|
      invariant jumps == JumpsAlong(board, row, col, directions[..i])
    {
      assert directions[..i + 1][..i] == directions[..i];
      var found := CollectJumpsToward(board, row, col, directions[i]);
      jumps := jumps + found;
    }
    assert directions[..|directions|] == directions;
  }

  /** One turn of the jump pass: both column directions for row direction rowDir. */
  method CollectJumpsToward(board: Board, row: int, col: int, rowDir: int) returns (jumps: seq<Move>)
    requires InBounds(row, col) && At(board, row, col).Piece? && Unit(rowDir)
    ensures jumps == JumpsToward(board, row, col, rowDir)
  {
    var colDirs := [-1, 1];
    jumps := [];
    for j := 0 to 2
      invariant jumps == JumpsTried(board, row, col, rowDir, j)
    {
      var found := JumpFrom(board, row, col, rowDir, colDirs[j]);
      jumps := jumps + found;
    }
  }

  /** The body of the jump loop for one column direction: the bounds, jumped-piece,
      landing-square, colour and square-colour tests. */
  method JumpFrom(board: Board, row: int, col: int, rowDir: int, colDir: int) returns (found: seq<Move>)
    requires InBounds(row, col) && At(board, row, col).Piece? && Unit(rowDir) && Unit(colDir)
    ensures found == JumpTo(board, row, col, rowDir, colDir)
  {
    var piece := At(board, row, col);
    var newRow, newCol := row + rowDir * 2, col + colDir * 2;
    if newRow < 0 || newRow > 7 || newCol < 0 || newCol > 7 {
      return [];
    }
    var jumpedPiece := At(board, row + rowDir, col + colDir);
    if jumpedPiece.Empty? {
      return [];
    }
    if At(board, newRow, newCol).Piece? {
      return [];
    }
    var isOpponentPiece := (piece.color == Red && jumpedPiece.color == Black) ||
                           (piece.color == Black && jumpedPiece.color == Red);
    if isOpponentPiece && (newRow + newCol) % 2 == 0 {
      return [Move(newRow, newCol)];
    }
    return [];
  }

  /** The one-step pass of calculateValidMoves. */
  method CollectSteps(board: Board, row: int, col: int, directions: seq<int>) returns (moves: seq<Move>)
    requires forall d :: d in directions ==> Unit(d)
    ensures moves == StepsAlong(board, row, col, directions)
  {
    moves := [];
    for i := 0 to |directions|
      invariant moves == StepsAlong(board, row, col, directions[..i])
    {
      assert directions[..i + 1][..i] == directions[..i];
      var found := CollectStepsToward(board, row, col, directions[i]);
      moves := moves + found;
    }
    assert directions[..|directions|] == directions;
  }

  /** One turn of the one-step pass: both column directions for row direction rowDir. */
  method CollectStepsToward(board: Board, row: int, col: int, rowDir: int) returns (moves: seq<Move>)
    requires Unit(rowDir)
    ensures moves == StepsToward(board, row, col, rowDir)
  {
    var colDirs := [-1, 1];
    moves := [];
    for j := 0 to 2
      invariant moves == StepsTried(board, row, col, rowDir, j)
    {
      var found := StepFrom(board, row, col, rowDir, colDirs[j]);
      moves := moves + found;
    }
  }

  /** The body of the one-step loop for one column direction: the bounds, empty-square
      and square-colour tests. */
  method StepFrom(board: Board, row: int, col: int, rowDir: int, colDir: int) returns (found: seq<Move>)
    requires Unit(rowDir) && Unit(colDir)
    ensures found == StepTo(board, row, col, rowDir, colDir)
  {
    var newRow, newCol := row + rowDir, col + colDir;
    if newRow < 0 || newRow > 7 || newCol < 0 || newCol > 7 {
      return [];
    }
    if At(board, newRow, newCol).Piece? {
      return [];
    }
    var isBlackSquare := (newRow + newCol) % 2 == 0;
    if isBlackSquare {
      return [Move(newRow, newCol)];
    }
    return [];
  }

  /** A move is among the jumps for `dirs` exactly when some direction in `dirs`
      passes the jump test and the move lands two diagonal steps that way. */
  lemma JumpsTowardExactly(b: Board, row: int, col: int, dr: int, m: Move)
    requires InBounds(row, col) && Unit(dr)
    ensures m in JumpsToward(b, row, col, dr) <==> JumpVia(b, row, col, dr, -1, m) || JumpVia(b, row, col, dr, 1, m)
  {
    assert JumpsToward(b, row, col, dr) == JumpTo(b, row, col, dr, -1) + JumpTo(b, row, col, dr, 1);
    assert m in JumpTo(b, row, col, dr, -1) <==> JumpVia(b, row, col, dr, -1, m);
    assert m in JumpTo(b, row, col, dr, 1) <==> JumpVia(b, row, col, dr, 1, m);
  }

  lemma {:induction false} JumpsAlongExactly(b: Board, row: int, col: int, dirs: seq<int>, m: Move)
    requires InBounds(row, col) && forall d :: d in dirs ==> Unit(d)
    ensures m in JumpsAlong(b, row, col, dirs) <==>
              exists dr, dc :: dr in dirs && JumpVia(b, row, col, dr, dc, m)
  {
    if dirs != [] {
      var init, last := dirs[..|dirs| - 1], dirs[|dirs| - 1];
      JumpsAlongExactly(b, row, col, init, m);
      JumpsTowardExactly(b, row, col, last, m);
      assert JumpsAlong(b, row, col, dirs) == JumpsAlong(b, row, col, init) + JumpsToward(b, row, col, last);
      if m in JumpsAlong(b, row, col, dirs) {
        if m in JumpsAlong(b, row, col, init) {
          var dr, dc :| dr in init && JumpVia(b, row, col, dr, dc, m);
          assert dr in dirs;
        } else if JumpVia(b, row, col, last, -1, m) {
          assert last in dirs;
        } else {
          assert JumpVia(b, row, col, last, 1, m) && last in dirs;
        }
      }
      if exists dr, dc :: dr in dirs && JumpVia(b, row, col, dr, dc, m) {
        var dr, dc :| dr in dirs && JumpVia(b, row, col, dr, dc, m);
        if dr in init {
          assert m in JumpsAlong(b, row, col, init);
        } else {
          assert dr == last;
        }
      }
    }
  }

  lemma StepsTowardExactly(b: Board, row: int, col: int, dr: int, m: Move)
    requires Unit(dr)
    ensures m in StepsToward(b, row, col, dr) <==> StepVia(b, row, col, dr, -1, m) || StepVia(b, row, col, dr, 1, m)
  {
    assert StepsToward(b, row, col, dr) == StepTo(b, row, col, dr, -1) + StepTo(b, row, col, dr, 1);
    assert m in StepTo(b, row, col, dr, -1) <==> StepVia(b, row, col, dr, -1, m);
    assert m in StepTo(b, row, col, dr, 1) <==> StepVia(b, row, col, dr, 1, m);
  }

  lemma {:induction false} StepsAlongExactly(b: Board, row: int, col: int, dirs: seq<int>, m: Move)
    requires forall d :: d in dirs ==> Unit(d)
    ensures m in StepsAlong(b, row, col, dirs) <==>
              exists dr, dc :: dr in dirs && StepVia(b, row, col, dr, dc, m)
  {
    if dirs != [] {
      var init, last := dirs[..|dirs| - 1], dirs[|dirs| - 1];
      StepsAlongExactly(b, row, col, init, m);
      StepsTowardExactly(b, row, col, last, m);
      assert StepsAlong(b, row, col, dirs) == StepsAlong(b, row, col, init) + StepsToward(b, row, col, last);
      if m in StepsAlong(b, row, col, dirs) {
        if m in StepsAlong(b, row, col, init) {
          var dr, dc :| dr in init && StepVia(b, row, col, dr, dc, m);
          assert dr in dirs;
        } else if StepVia(b, row, col, last, -1, m) {
          assert last in dirs;
        } else {
          assert StepVia(b, row, col, last, 1, m) && last in dirs;
        }
      }
      if exists dr, dc :: dr in dirs && StepVia(b, row, col, dr, dc, m) {
        var dr, dc :| dr in dirs && StepVia(b, row, col, dr, dc, m);
        if dr in init {
          assert m in StepsAlong(b, row, col, init);
        } else {
          assert dr == last;
        }
      }
    }
  }

  /** No game, or an empty square: nothing to offer. */
  lemma NothingToMove(game: Option<Board>, row: int, col: int)
    requires game.Some? ==> InBounds(row, col)
    requires game.None? || At(game.value, row, col).Empty?
    ensures ValidMoves(game, row, col) == []
  {
  }

  /** What an offered jump looks like: two diagonal steps away, heading in a row
      direction of the piece's colour, onto an empty, even, on-board square, over a
      piece of the other colour. */
  predicate JumpShape(b: Board, row: int, col: int, m: Move)
    requires InBounds(row, col) && At(b, row, col).Piece?
  {
    var dr, dc := (if m.row < row then -1 else 1), (if m.col < col then -1 else 1);
    && m == Move(row + dr * 2, col + dc * 2)
    && dr in Directions(At(b, row, col))
    && InBounds(m.row, m.col)
    && At(b, m.row, m.col).Empty?
    && (m.row + m.col) % 2 == 0
    && Owns(At(b, row + dr, col + dc), Opponent(At(b, row, col).color))
  }

  /** What an offered one-step move looks like: one diagonal step away, heading in a
      row direction of the piece's colour, onto an empty, even, on-board square. */
  predicate StepShape(b: Board, row: int, col: int, m: Move)
    requires InBounds(row, col) && At(b, row, col).Piece?
  {
    var dr, dc := (if m.row < row then -1 else 1), (if m.col < col then -1 else 1);
    && m == Move(row + dr, col + dc)
    && dr in Directions(At(b, row, col))
    && InBounds(m.row, m.col)
    && At(b, m.row, m.col).Empty?
    && (m.row + m.col) % 2 == 0
  }

  lemma JumpViaShape(b: Board, row: int, col: int, dr: int, dc: int, m: Move)
    requires InBounds(row, col) && At(b, row, col).Piece?
    requires dr in Directions(At(b, row, col)) && JumpVia(b, row, col, dr, dc, m)
    ensures JumpShape(b, row, col, m)
  {
    assert (if m.row < row then -1 else 1) == dr && (if m.col < col then -1 else 1) == dc;
  }

  lemma StepViaShape(b: Board, row: int, col: int, dr: int, dc: int, m: Move)
    requires InBounds(row, col) && At(b, row, col).Piece?
    requires dr in Directions(At(b, row, col)) && StepVia(b, row, col, dr, dc, m)
    ensures StepShape(b, row, col, m)
  {
    assert (if m.row < row then -1 else 1) == dr && (if m.col < col then -1 else 1) == dc;
  }

  /** Every jump offered has the shape of a capture, and every jump that passes the
      test is offered. */
  lemma OfferedJumpsHaveShape(b: Board, row: int, col: int)
    requires InBounds(row, col) && At(b, row, col).Piece?
    ensures forall m :: m in JumpsAlong(b, row, col, Directions(At(b, row, col))) ==> JumpShape(b, row, col, m)
    ensures forall dr, dc :: dr in Directions(At(b, row, col)) && Unit(dc) && JumpOk(b, row, col, dr, dc)
              ==> Move(row + dr * 2, col + dc * 2) in JumpsAlong(b, row, col, Directions(At(b, row, col)))
  {
    var dirs := Directions(At(b, row, col));
    forall m | m in JumpsAlong(b, row, col, dirs)
      ensures JumpShape(b, row, col, m)
    {
      JumpsAlongExactly(b, row, col, dirs, m);
      var dr, dc :| dr in dirs && JumpVia(b, row, col, dr, dc, m);
      JumpViaShape(b, row, col, dr, dc, m);
    }
    forall dr, dc | dr in dirs && Unit(dc) && JumpOk(b, row, col, dr, dc)
      ensures Move(row + dr * 2, col + dc * 2) in JumpsAlong(b, row, col, dirs)
    {
      JumpsAlongExactly(b, row, col, dirs, Move(row + dr * 2, col + dc * 2));
      assert JumpVia(b, row, col, dr, dc, Move(row + dr * 2, col + dc * 2));
    }
  }

  /** Every one-step move offered has the shape of a step, and every step that passes
      the test is offered. */
  lemma OfferedStepsHaveShape(b: Board, row: int, col: int)
    requires InBounds(row, col) && At(b, row, col).Piece?
    ensures forall m :: m in StepsAlong(b, row, col, Directions(At(b, row, col))) ==> StepShape(b, row, col, m)
    ensures forall dr, dc :: dr in Directions(At(b, row, col)) && Unit(dc) && StepOk(b, row, col, dr, dc)
              ==> Move(row + dr, col + dc) in StepsAlong(b, row, col, Directions(At(b, row, col)))
  {
    var dirs := Directions(At(b, row, col));
    forall m | m in StepsAlong(b, row, col, dirs)
      ensures StepShape(b, row, col, m)
    {
      StepsAlongExactly(b, row, col, dirs, m);
      var dr, dc :| dr in dirs && StepVia(b, row, col, dr, dc, m);
      StepViaShape(b, row, col, dr, dc, m);
    }
    forall dr, dc | dr in dirs && Unit(dc) && StepOk(b, row, col, dr, dc)
      ensures Move(row + dr, col + dc) in StepsAlong(b, row, col, dirs)
    {
      StepsAlongExactly(b, row, col, dirs, Move(row + dr, col + dc));
      assert StepVia(b, row, col, dr, dc, Move(row + dr, col + dc));
    }
  }

  /** A piece with a jump is offered its jumps and nothing else: captures only, and all
      of them. */
  lemma JumpsTakePriority(b: Board, row: int, col: int)
    requires InBounds(row, col) && At(b, row, col).Piece?
    requires JumpsAlong(b, row, col, Directions(At(b, row, col))) != []
    ensures ValidMoves(Some(b), row, col) == JumpsAlong(b, row, col, Directions(At(b, row, col)))
    ensures forall m :: m in ValidMoves(Some(b), row, col) ==> JumpShape(b, row, col, m)
    ensures forall dr, dc :: dr in Directions(At(b, row, col)) && Unit(dc) && JumpOk(b, row, col, dr, dc)
              ==> Move(row + dr * 2, col + dc * 2) in ValidMoves(Some(b), row, col)
  {
    OfferedJumpsHaveShape(b, row, col);
  }

  /** A piece without a jump is offered exactly the one-step moves that pass the test. */
  lemma StepsWhenNoJump(b: Board, row: int, col: int)
    requires InBounds(row, col) && At(b, row, col).Piece?
    requires JumpsAlong(b, row, col, Directions(At(b, row, col))) == []
    ensures ValidMoves(Some(b), row, col) == StepsAlong(b, row, col, Directions(At(b, row, col)))
    ensures forall m :: m in ValidMoves(Some(b), row, col) ==> StepShape(b, row, col, m)
    ensures forall dr, dc :: dr in Directions(At(b, row, col)) && Unit(dc) && StepOk(b, row, col, dr, dc)
              ==> Move(row + dr, col + dc) in ValidMoves(Some(b), row, col)
  {
    OfferedStepsHaveShape(b, row, col);
  }

  /** countPieces(color) as the client runs it; with no game every square reads as empty. */
  method CountPieces(game: Option<Board>, color: Color) returns (count: nat)
    ensures game.None? ==> count == 0
    ensures game.Some? ==> count == PieceCount(game.value, color)
  {
    count := 0;
    for row := 0 to 8
      invariant game.None? ==> count == 0
      invariant game.Some? ==> count == CountIn(game.value[..8 * row], color)
    {
      for col := 0 to 8
        invariant game.None? ==> count == 0
        invariant game.Some? ==> count == CountIn(game.value[..8 * row + col], color)
      {
        if game.Some? {
          CountPrefix(game.value, 8 * row + col, color);
          var piece := At(game.value, row, col);
          if piece.Piece? && piece.color == color {
            count := count + 1;
          }
        }
      }
    }
    if game.Some? {
      assert game.value[..64] == game.value;
    }
  }

  /** Pieces of a colour as countPieces sees them. */
  function ClientCount(game: Option<Board>, color: Color): nat
  {
    match game
    case None => 0
    case Some(b) => PieceCount(b, color)
  }

  lemma NoneCounted(game: Option<Board>, color: Color)
    ensures ClientCount(game, color) == 0 <==>
              game.None? || forall r, c :: InBounds(r, c) ==> !Owns(At(game.value, r, c), color)
  {
    if game.Some? {
      NoPiecesAnywhere(game.value, color);
    }
  }

  /** checkWinner: black when red has no pieces, else red when black has none, else none. */
  function CheckWinner(game: Option<Board>): (w: Option<Color>)
    ensures w == Some(Black) <==> game.None? || forall r, c :: InBounds(r, c) ==> !Owns(At(game.value, r, c), Red)
    ensures w == Some(Red) <==>
              game.Some? && (exists r, c :: InBounds(r, c) && Owns(At(game.value, r, c), Red))
              && forall r, c :: InBounds(r, c) ==> !Owns(At(game.value, r, c), Black)
  {
    NoneCounted(game, Red);
    NoneCounted(game, Black);
    var redPieces := ClientCount(game, Red);
    var blackPieces := ClientCount(game, Black);
    if redPieces == 0 then Some(Black)
    else if blackPieces == 0 then Some(Red)
    else None
  }
}
