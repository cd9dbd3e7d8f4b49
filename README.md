# Checkers rules engine, modelled in Dafny

This project models the rules of the serverless checkers game in two places.

- The server's engine in `lambda/game.py` covers:
  - the starting board of `create_game`;
  - `is_valid_move`, `has_valid_jumps`, `has_any_moves`, `count_pieces` and `check_winner`;
  - the move step of `update_game`, which validates, moves, captures, promotes, keeps or passes the turn and records a winner.
- The web client in `frontend/src/App.tsx` recomputes part of these rules:
  - `calculateValidMoves`, which highlights destinations;
  - `countPieces` and `checkWinner`.

The model follows the code as written. Where the code departs from the standard rules of checkers, lemmas prove what it does instead. Some of these lemmas are about every game state, such as `Session.TurnEndJudgesMover` and `Session.FinishedGameStillMoves`. Others are about concrete positions.

Modules:

- `Checkerboard` (`board.dfy`): the cell codes `''`, `r`, `b`, `R`, `B`; the 8×8 board as a flat sequence of 64 cells, square `(r, c)` at index `r * 8 + c`; the starting layout; piece counting.
- `Rules` (`rules.dfy`): the server's rules, as specification functions.
  - `IsValidMove`, `JumpAvailable`, `AnyMoveAvailable`, `CheckWinner` and `MoveBoard`.
  - The loops of `has_valid_jumps`, `has_any_moves` and `count_pieces`, and `check_winner` which runs the last two, are methods over an `array<Cell>`, each proved equal to its specification function.
- `Session` (`session.dfy`): the stored game record.
  - `Play` is the move step on values.
  - `Game` is a class whose fields `update_game` updates in place; its methods are proved to produce what `Play` describes.
- `Client` (`client.dfy`): the client's move generator and winner check, as specification functions and as the loops the client runs.
- `Agreement` (`agreement.dfy`): how the client's hints and winner relate to what the server accepts and decides.
- `Scenarios` (`scenarios.dfy`): concrete positions exhibiting how the engine behaves:
  - capture is not compulsory;
  - a capture chain is not enforced;
  - a king landing on the far row ends its chain;
  - taking the last piece leaves the game active while the capturer can still move, and otherwise makes the side with no pieces the winner;
  - the client and server disagree on a blocked side.

The code departs from the standard rules of checkers in these ways. The model follows the code.

- Pieces start on the squares whose row + column is even, and the client offers only such squares. The server never looks at square colour; `Rules.MoveKeepsEvenSquares` shows that its moves keep pieces on even squares anyway.
- Standard checkers makes capture compulsory across the whole board. The server has no such rule (`Scenarios.NoMandatoryCapture`). The client shows only captures, but only for the selected piece (`Client.JumpsTakePriority`).
- In standard checkers a capture chain must be continued by the capturing piece. The server reports `hasMoreJumps` and keeps the turn, but accepts a move of any piece of that side (`Scenarios.ChainNotEnforced`).
- In standard checkers no move is played after the game is over. `update_game` never reads `status`, so a finished game still takes moves (`Session.FinishedGameStillMoves`).
- In standard checkers the side to move loses when it has no pieces or no moves. `update_game` passes the player who is now to move to `check_winner`, which asks about that player's opponent. So when the turn passes, it is the mover whose moves are judged (`Session.TurnEndJudgesMover`).
  - Capturing the last piece leaves the game active while the capturer can still move (`Scenarios.LastCaptureLeavesGameActive`).
  - If the capturer cannot move, the side with no pieces left is recorded as the winner (`Scenarios.LastCaptureCrownsLoser`).
- A move `is_valid_move` rejects gets the "Invalid move" answer when its coordinates can index the board. A coordinate of 8 or more, or below -8, makes the diagnostic print of the rejection raise, and the request gets the "Error processing move" answer instead. Either way the game is unchanged; both are modelled as `accepted == false`.

## Model

| member | source | states |
|---|---|---|
| Checkerboard.Decode | lambda/game.py:14-23 | a code read back is a code some cell is written as; anything else is rejected |
| Checkerboard.CodeRoundTrip | lambda/game.py:14-23 | every cell decodes back from its code, which has at most one character |
| Checkerboard.Upper | lambda/game.py:198 | upper-casing keeps an empty square empty and turns a piece into a king of the same side |
| Checkerboard.Put | lambda/game.py:180-181 | writing one square changes that square and leaves every other square as it was |
| Checkerboard.PieceCount | lambda/game.py:386-396 | the number of a side's pieces is at most 64 |
| Checkerboard.NoPiecesAnywhere | lambda/game.py:386-396 | count_pieces is zero exactly when no square holds a piece of that side |
| Checkerboard.CountUpdate | lambda/game.py:180-191 | overwriting a square changes a side's count by the piece that left and the piece that arrived |
| Checkerboard.InitialBoard | lambda/game.py:12-24 | the starting board holds the literal layout row by row |
| Checkerboard.InitialLayout | lambda/game.py:31-40 | black men on the even squares of rows 0-2, red men on the even squares of rows 5-7, all else empty, every piece on an even square |
| Checkerboard.InitialCounts | lambda/game.py:31-40 | a new game starts with twelve pieces of each side |
| Checkerboard.LaidOutCounts | lambda/game.py:14-23 | any board holding the literal layout has twelve pieces of each side |
| Checkerboard.InitialRowCount | lambda/game.py:14-23 | each of a side's three home rows holds four of its pieces; every other row holds none |
| Rules.RowDirections | lambda/game.py:91-97 | the direction list holds exactly the row directions the piece may head in: up for red or a king, down for black or a king |
| Rules.IsValidMove | lambda/game.py:255-341 | an accepted move starts on the board at a piece of the mover and ends on an empty square on the board, one or two squares away diagonally |
| Rules.ValidMoveIsOpen | lambda/game.py:286-338 | an accepted move is a one-step move or a capture over an opponent piece, in a row direction the piece may head in |
| Rules.OpenMoveIsValid | lambda/game.py:293-338 | every such one-step move or capture of the mover's piece is accepted |
| Rules.ValidMoveIffOpenMove | lambda/game.py:255-341 | is_valid_move accepts exactly the one-step moves and captures that has_any_moves and has_valid_jumps look for |
| Rules.ValidMoveKeepsParity | lambda/game.py:293-338 | an accepted move keeps the parity of row + column |
| Rules.CanMoveHasValidMove | lambda/game.py:356-382 | a square that passes has_any_moves' test has a move is_valid_move accepts |
| Rules.AnyMoveIffLegalMove | lambda/game.py:343-384 | has_any_moves holds exactly when is_valid_move accepts some move of that side |
| Rules.NoPiecesNoMoves | lambda/game.py:343-396 | a side with no pieces has no moves |
| Rules.CheckWinner | lambda/game.py:398-411 | check_winner answers the given player or nothing, and answers the player exactly when the opponent has no move is_valid_move accepts |
| Rules.MoveBoard | lambda/game.py:178-200 | the start square is emptied, the mover's piece lands on the destination and is a king if it was one or reached the far row, the jumped square is emptied, and nothing else changes |
| Rules.MoveCounts | lambda/game.py:178-193 | the mover keeps all its pieces and a capture removes exactly one opponent piece |
| Rules.MoveKeepsEvenSquares | lambda/game.py:178-200 | a board with every piece on an even square keeps that property after any accepted move |
| Rules.HasValidJumps | lambda/game.py:84-125 | the loop answers whether the piece, moving for the given side, has a capture along a direction that side may head in |
| Rules.JumpOpenAt | lambda/game.py:102-123 | the bounds, jumped-piece and landing tests for one direction answer whether a capture is open that way |
| Rules.HasAnyMoves | lambda/game.py:343-384 | the scan answers whether some square of the side passes the capture or one-step test |
| Rules.HasStepFrom | lambda/game.py:361-382 | the inner loops answer whether the piece has an open one-step move in a direction it may head in |
| Rules.CountPieces | lambda/game.py:386-396 | the counter ends equal to the number of the side's pieces on the board |
| Rules.Winner | lambda/game.py:398-411 | running the opponent's piece count and move scan gives CheckWinner: the player exactly when the opponent has no legal move |
| Session.Play | lambda/game.py:178-222 | the board after the move; more jumps exactly after a capture that did not promote and leaves a capture open; the turn kept exactly then; the game finished with the new player to move as winner exactly when that player's opponent has no legal move, otherwise status and winner unchanged |
| Session.PlayKeepsConsistent | lambda/game.py:178-217 | every accepted move keeps pieces on even squares and keeps a winner recorded exactly when the game is finished |
| Session.TurnEndJudgesMover | lambda/game.py:208-217 | when the turn passes, an active game becomes finished exactly when the mover has no legal move, and then the opponent is recorded as winner |
| Session.FinishedGameStillMoves | lambda/game.py:160-222 | a finished game still accepts a valid move, changes its board and stays finished |
| Session.Game.constructor | lambda/game.py:31-47 | a new game holds the starting layout, red to move, active and without a winner |
| Session.Game.MovePiece | lambda/game.py:178-200 | the board array ends as MoveBoard of the old board; captured exactly on a two-row move; promoted exactly on reaching the far row |
| Session.Game.ApplyMove | lambda/game.py:178-222 | the stored game and the reported hasMoreJumps are what Play gives for the old game, and the game stays consistent |
| Session.Game.Update | lambda/game.py:160-222 | the move is accepted exactly when is_valid_move accepts it; a rejected move leaves the game unchanged; an accepted one yields Play of the old game |
| Client.Directions | frontend/src/App.tsx:118-129 | red man up, black man down, a king both with its own direction first |
| Client.CalculateValidMoves | frontend/src/App.tsx:101-235 | the moves the client returns are ValidMoves: nothing without a game or piece, else the piece's jumps if any, else its one-step moves |
| Client.CollectJumps | frontend/src/App.tsx:134-183 | the jump pass collects the jumps for every direction, in order |
| Client.CollectJumpsToward | frontend/src/App.tsx:136-182 | one row direction contributes its left then its right jump |
| Client.JumpFrom | frontend/src/App.tsx:137-181 | the bounds, jumped-piece, landing, colour and square-colour tests yield the landing square exactly when the jump test passes |
| Client.CollectSteps | frontend/src/App.tsx:192-231 | the one-step pass collects the one-step moves for every direction, in order |
| Client.CollectStepsToward | frontend/src/App.tsx:193-230 | one row direction contributes its left then its right step |
| Client.StepFrom | frontend/src/App.tsx:194-229 | the bounds, empty-square and square-colour tests yield the destination exactly when the one-step test passes |
| Client.JumpsTowardExactly | frontend/src/App.tsx:136-182 | a move is found for a row direction exactly when it is two steps along a column direction whose jump test passes |
| Client.JumpsAlongExactly | frontend/src/App.tsx:134-183 | a move is among the jumps exactly when some listed row direction and some column direction pass the jump test and land on it |
| Client.StepsTowardExactly | frontend/src/App.tsx:193-230 | a move is found for a row direction exactly when it is one step along a column direction whose test passes |
| Client.StepsAlongExactly | frontend/src/App.tsx:192-231 | a move is among the one-step moves exactly when some listed row direction and some column direction pass the test and reach it |
| Client.NothingToMove | frontend/src/App.tsx:102-105 | without a game, or on an empty square, nothing is offered |
| Client.JumpViaShape | frontend/src/App.tsx:149-181 | a jump passing the test lands two diagonal steps away in an allowed direction, on an empty even square, over a piece of the other colour |
| Client.StepViaShape | frontend/src/App.tsx:203-226 | a step passing the test lands one diagonal step away in an allowed direction, on an empty even square |
| Client.OfferedJumpsHaveShape | frontend/src/App.tsx:134-183 | every jump found has the shape of a capture, and every jump that passes the test is found |
| Client.OfferedStepsHaveShape | frontend/src/App.tsx:192-231 | every one-step move found has the shape of a step, and every step that passes the test is found |
| Client.JumpsTakePriority | frontend/src/App.tsx:185-189 | a piece with a jump is offered its jumps only: every one it has, and nothing that is not a capture |
| Client.StepsWhenNoJump | frontend/src/App.tsx:191-234 | a piece without a jump is offered exactly its one-step moves that pass the test |
| Client.CountPieces | frontend/src/App.tsx:77-88 | the count is the number of pieces of the colour, and zero without a game |
| Client.NoneCounted | frontend/src/App.tsx:77-88 | the client counts zero exactly when there is no game or no piece of that colour |
| Client.CheckWinner | frontend/src/App.tsx:90-99 | black is shown exactly when there is no game or no red piece; red exactly when red has pieces and black has none |
| Agreement.DirectionsAgree | frontend/src/App.tsx:119-129 | the client's row directions for a piece are exactly those the server lets it head in |
| Agreement.OfferedJumpIsValid | frontend/src/App.tsx:149-181 | a jump the client finds is a move is_valid_move accepts |
| Agreement.OfferedStepIsValid | frontend/src/App.tsx:203-226 | a one-step move the client finds is a move is_valid_move accepts |
| Agreement.OfferedMovesAreValid | frontend/src/App.tsx:101-235 | every square the client highlights is a move the server accepts for the owner of the selected piece |
| Agreement.JumpOffered | frontend/src/App.tsx:134-183 | an open capture in an allowed direction from an even square is among the client's jumps |
| Agreement.StepOffered | frontend/src/App.tsx:192-231 | an open one-step move in an allowed direction from an even square is among the client's one-step moves |
| Agreement.OfferableAlong | lambda/game.py:293-338 | a server move along one diagonal from an even square is found by the client as a jump or a step |
| Agreement.ValidMoveIsOfferable | lambda/game.py:255-341 | with pieces on even squares, every move the server accepts is found by one of the client's two passes |
| Agreement.OfferedExactlyValid | frontend/src/App.tsx:185-189 | with pieces on even squares, the client highlights a move exactly when the server accepts it and, if the piece has a jump, it is a capture |
| Agreement.ClientWinnerAgrees | frontend/src/App.tsx:90-99 | a winner the client shows is a winner check_winner also declares for that side |
| Scenarios.NoMandatoryCapture | lambda/game.py:255-341 | with a capture open to one red man, the server still accepts a plain step of another |
| Scenarios.ChainNotEnforced | lambda/game.py:202-210 | after a capture with a further capture open, red keeps the turn and hasMoreJumps is set, yet a move of another red piece is accepted |
| Scenarios.LastCaptureLeavesGameActive | lambda/game.py:212-217 | capturing the last black piece while red can still move leaves the game active, with black to move, no black piece and no black move |
| Scenarios.BoxedInIsStuck | lambda/game.py:343-384 | red kings on row 0 and red men on the odd squares of row 1, and nothing else: red has no legal move and black has no piece |
| Scenarios.CrowdedCaptureBoxesIn | lambda/game.py:178-200 | the capture (3, 5) -> (1, 7) of the last black man is accepted and leaves red boxed in |
| Scenarios.LastCaptureCrownsLoser | lambda/game.py:202-217 | capturing the last black piece when red is then stuck finishes the game with black, which has no pieces, recorded as winner |
| Scenarios.KingLandingEndsChain | lambda/game.py:196-210 | a king jumping onto the far row counts as promoted, so its turn ends though a further capture is open |
| Scenarios.BlockedSideWinnerOnlyOnServer | lambda/game.py:407-409 | on a board with every piece on an even square, a side with a piece but no move loses on the server while the client shows no winner |

## Left out

- Storage, HTTP and bookkeeping are not modelled: DynamoDB reads and writes, the Lambda handler and its routing, CORS headers, the game id, timestamps, the `players` and statistics records, `list_games`, `get_game`, and the `print`/`console.log` tracing.
- Request parsing and the mapping of exceptions to a 400 answer are not modelled. Coordinates arrive here as integers; an unknown game id, a non-integer field and the 400 body are outside the model.
- Board cells are restricted to the five codes `''`, `r`, `b`, `R`, `B`. `create_game` writes only these and `update_game` writes only these, so other strings never reach a stored board. `Decode` rejects them.
- The board is a flat sequence of 64 cells rather than a list of eight rows. Row `r`, column `c` is element `r * 8 + c`.
- `check_winner`'s `count_pieces` call and `has_any_moves` call are specified by the functions they compute. `Rules.CountPieces` and `Rules.HasAnyMoves` are the loops themselves, proved equal to those functions. `Session.Game.ApplyMove` runs them through `Rules.Winner`, as `update_game` runs `check_winner`.
- Several methods are the bodies of the source's inline loops and blocks, pulled out one level so each can be proved on its own: `Rules.JumpOpenAt`, `Rules.HasStepFrom`, `Session.Game.MovePiece`, `Client.CollectJumps`, `Client.CollectJumpsToward`, `Client.JumpFrom`, `Client.CollectSteps`, `Client.CollectStepsToward`, `Client.StepFrom`.
- The client's winner check and counts take the board as `Option<Board>`, `None` standing for no game loaded. The rest of the React component is not modelled: state hooks, `fetch` calls, `handleSquareClick`, the `jumpingPiece` highlight and rendering.
- `frontend/app.js`, the CDK stack, `app.py` and the Selenium tests are not part of this model.
- Agreement.ValidMoveIsOfferable and Agreement.OfferedExactlyValid: stated only for boards whose pieces all stand on even squares. The client refuses odd squares, the server does not, and every board reachable from the starting layout satisfies this (`Checkerboard.InitialLayout`, `Rules.MoveKeepsEvenSquares`).
