/** The checkers board shared by the server engine and the web client:
    cell codes, coordinates, the initial layout and piece counting. */
module Checkerboard {

  datatype Option<T> = None | Some(value: T)

  /** The two sides; the wire names are "red" and "black". */
  datatype Color = Red | Black

  function Opponent(p: Color): (q: Color)
    ensures q != p
  {
    if p == Red then Black else Red
  }

  /** One square: '' is Empty, 'r'/'b' are men, 'R'/'B' are kings. */
  datatype Cell = Empty | Piece(color: Color, king: bool)

  /** The single-character code a cell is stored and sent as. */
  function Code(cell: Cell): string
  {
    match cell
    case Empty => ""
    case Piece(Red, false) => "r"
    case Piece(Red, true) => "R"
    case Piece(Black, false) => "b"
    case Piece(Black, true) => "B"
  }

  /** Reads a stored code back; anything but the five codes is rejected. */
  function Decode(s: string): (r: Option<Cell>)
    ensures r.Some? ==> Code(r.value) == s
  {
    if s == "" then Some(Empty)
    else if s == "r" then Some(Piece(Red, false))
    else if s == "R" then Some(Piece(Red, true))
    else if s == "b" then Some(Piece(Black, false))
    else if s == "B" then Some(Piece(Black, true))
    else None
  }

  lemma CodeRoundTrip(cell: Cell)
    ensures Decode(Code(cell)) == Some(cell)
    ensures |Code(cell)| <= 1
  {
  }

  /** `piece.lower() == 'r'` (resp. 'b'): the square holds a man or a king of side p. */
  predicate Owns(cell: Cell, p: Color)
  {
    cell.Piece? && cell.color == p
  }

  /** `code.upper()`: a man becomes a king of the same side; kings and '' are unchanged. */
  function Upper(cell: Cell): (u: Cell)
    ensures u.Empty? <==> cell.Empty?
    ensures u.Piece? ==> u.color == cell.color && u.king
    ensures cell.Piece? && cell.king ==> u == cell
  {
    match cell
    case Empty => Empty
    case Piece(c, _) => Piece(c, true)
  }

  /** Rows and columns both range over [0, 8). */
  predicate InBounds(r: int, c: int)
  {
    0 <= r < 8 && 0 <= c < 8
  }

  /** The 8x8 grid, row by row: square (r, c) is element r * 8 + c. */
  type Board = b: seq<Cell> | |b| == 64 witness seq(64, _ => Empty)

  function Idx(r: int, c: int): (i: nat)
    requires InBounds(r, c)
    ensures i < 64 && i / 8 == r && i % 8 == c
  {
    r * 8 + c
  }

  function At(b: Board, r: int, c: int): Cell
    requires InBounds(r, c)
  {
    b[Idx(r, c)]
  }

  /** `board[r][c] = x` on a value. */
  function Put(b: Board, r: int, c: int, x: Cell): (b': Board)
    requires InBounds(r, c)
    ensures At(b', r, c) == x
    ensures forall r', c' :: InBounds(r', c') && (r' != r || c' != c) ==> At(b', r', c') == At(b, r', c')
  {
    b[Idx(r, c) := x]
  }

  /** 1 when the cell holds a piece of side p, else 0: the term CountIn adds for one
      cell (CountPrefix). */
  function Mark(cell: Cell, p: Color): nat
  {
    if Owns(cell, p) then 1 else 0
  }

  /** Pieces of side p in s, men and kings alike. */
  function CountIn(s: seq<Cell>, p: Color): (n: nat)
    ensures n <= |s|
  {
    if s == [] then 0
    else CountIn(s[..|s| - 1], p) + (if Owns(s[|s| - 1], p) then 1 else 0)
  }

  /** `count_pieces(board, p)`. */
  function PieceCount(b: Board, p: Color): (n: nat)
    ensures n <= 64
  {
    CountIn(b, p)
  }

  lemma {:induction false} CountZero(s: seq<Cell>, p: Color)
    ensures CountIn(s, p) == 0 <==> forall i :: 0 <= i < |s| ==> !Owns(s[i], p)
  {
    if s != [] {
      var t := s[..|s| - 1];
      CountZero(t, p);
      assert forall i :: 0 <= i < |t| ==> t[i] == s[i];
    }
  }

  /** count_pieces is 0 exactly when no square holds a piece of side p. */
  lemma NoPiecesAnywhere(b: Board, p: Color)
    ensures PieceCount(b, p) == 0 <==> forall r, c :: InBounds(r, c) ==> !Owns(At(b, r, c), p)
  {
    CountZero(b, p);
    if forall r, c :: InBounds(r, c) ==> !Owns(At(b, r, c), p) {
      forall i | 0 <= i < 64 ensures !Owns(b[i], p) {
        assert Idx(i / 8, i % 8) == i;
        assert At(b, i / 8, i % 8) == b[i];
      }
    }
  }

  lemma {:induction false} CountAppend(s: seq<Cell>, t: seq<Cell>, p: Color)
    ensures CountIn(s + t, p) == CountIn(s, p) + CountIn(t, p)
  {
    if t != [] {
      var u := t[..|t| - 1];
      assert (s + t)[..|s + t| - 1] == s + u;
      CountAppend(s, u, p);
    } else {
      assert s + t == s;
    }
  }

  /** Overwriting one square changes the count by what left and what arrived. */
  lemma {:induction false} CountUpdate(s: seq<Cell>, i: int, x: Cell, p: Color)
    requires 0 <= i < |s|
    ensures CountIn(s[i := x], p)
         == CountIn(s, p) - (if Owns(s[i], p) then 1 else 0) + (if Owns(x, p) then 1 else 0)
  {
    var n := |s|;
    if i == n - 1 {
      assert s[i := x][..n - 1] == s[..n - 1];
    } else {
      assert s[i := x][..n - 1] == s[..n - 1][i := x];
      CountUpdate(s[..n - 1], i, x, p);
    }
  }

  lemma CountPrefix(s: seq<Cell>, k: nat, p: Color)
    requires k < |s|
    ensures CountIn(s[..k + 1], p) == CountIn(s[..k], p) + Mark(s[k], p)
  {
    assert s[..k + 1][..k] == s[..k];
  }

  lemma CountEight(s: seq<Cell>, p: Color)
    requires |s| == 8
    ensures CountIn(s, p) == Mark(s[0], p) + Mark(s[1], p) + Mark(s[2], p) + Mark(s[3], p)
                           + Mark(s[4], p) + Mark(s[5], p) + Mark(s[6], p) + Mark(s[7], p)
  {
    assert s[..8] == s;
    assert s[..0] == [];
    CountPrefix(s, 7, p); CountPrefix(s, 6, p); CountPrefix(s, 5, p); CountPrefix(s, 4, p);
    CountPrefix(s, 3, p); CountPrefix(s, 2, p); CountPrefix(s, 1, p); CountPrefix(s, 0, p);
  }

  /** Row r of the literal board written out in create_initial_board and create_game. */
  function InitialRow(r: int): (row: seq<Cell>)
    ensures |row| == 8
  {
    var b, r', e := Piece(Black, false), Piece(Red, false), Empty;
    match r
    case 0 => [b, e, b, e, b, e, b, e]
    case 1 => [e, b, e, b, e, b, e, b]
    case 2 => [b, e, b, e, b, e, b, e]
    case 5 => [e, r', e, r', e, r', e, r']
    case 6 => [r', e, r', e, r', e, r', e]
    case 7 => [e, r', e, r', e, r', e, r']
    case _ => [e, e, e, e, e, e, e, e]
  }

  /** The starting board of a new game. */
  function InitialBoard(): (b: Board)
    ensures LaidOut(b)
  {
    seq(64, i requires 0 <= i < 64 => InitialRow(i / 8)[i % 8])
  }

  /** What a new game holds on (r, c): black men on the even squares of rows 0-2,
      red men on the even squares of rows 5-7, nothing anywhere else. */
  function StartingCell(r: int, c: int): Cell
  {
    if (r + c) % 2 != 0 || 3 <= r <= 4 then Empty
    else if r <= 2 then Piece(Black, false)
    else Piece(Red, false)
  }

  lemma InitialLayout()
    ensures forall r, c :: InBounds(r, c) ==> At(InitialBoard(), r, c) == StartingCell(r, c)
    ensures OnEvenSquares(InitialBoard())
  {
    forall r, c | InBounds(r, c) ensures At(InitialBoard(), r, c) == StartingCell(r, c) {
      if r == 0 {} else if r == 1 {} else if r == 2 {} else if r == 3 {}
      else if r == 4 {} else if r == 5 {} else if r == 6 {} else {}
    }
  }

  /** Pieces of side p in rows k..7 of b, row by row. */
  function RowsCount(b: Board, k: nat, p: Color): nat
    requires k <= 8
    decreases 8 - k
  {
    if k == 8 then 0 else CountIn(b[8 * k..8 * k + 8], p) + RowsCount(b, k + 1, p)
  }

  /** b holds the literal starting layout square by square. */
  ghost predicate LaidOut(b: Board)
  {
    forall r, c :: InBounds(r, c) ==> At(b, r, c) == InitialRow(r)[c]
  }

  /** Elements 8k..8k+8 of a board holding the starting layout are row k of the literal. */
  lemma InitialRowSlice(b: Board, k: nat)
    requires LaidOut(b) && k < 8
    ensures b[8 * k..8 * k + 8] == InitialRow(k)
  {
    forall c | 0 <= c < 8 ensures b[8 * k..8 * k + 8][c] == InitialRow(k)[c] {
      assert b[8 * k..8 * k + 8][c] == At(b, k, c);
    }
  }

  /** Counting the squares from row k on is counting those rows one by one. */
  lemma {:induction false} SuffixCount(b: Board, k: nat, p: Color)
    requires k <= 8
    ensures CountIn(b[8 * k..], p) == RowsCount(b, k, p)
    decreases 8 - k
  {
    if k < 8 {
      assert b[8 * k..] == b[8 * k..8 * k + 8] + b[8 * (k + 1)..];
      CountAppend(b[8 * k..8 * k + 8], b[8 * (k + 1)..], p);
      SuffixCount(b, k + 1, p);
    } else {
      assert b[64..] == [];
    }
  }

  lemma InitialCounts()
    ensures PieceCount(InitialBoard(), Black) == 12
    ensures PieceCount(InitialBoard(), Red) == 12
  {
    LaidOutCounts(InitialBoard());
  }

  /** Pieces of side p in row r of the literal: four in each of its three home rows. */
  lemma InitialRowCount(r: int, p: Color)
    ensures CountIn(InitialRow(r), p)
         == if p == Black && 0 <= r <= 2 then 4 else if p == Red && 5 <= r <= 7 then 4 else 0
  {
    CountEight(InitialRow(r), p);
  }

  /** Home rows of side p among rows k..7. */
  function HomeRowsFrom(k: nat, p: Color): nat
  {
    if p == Black then (if k <= 3 then 3 - k else 0) else (if k <= 5 then 3 else if k < 8 then 8 - k else 0)
  }

  lemma {:induction false} LaidOutRowsCount(b: Board, k: nat, p: Color)
    requires LaidOut(b) && k <= 8
    ensures RowsCount(b, k, p) == 4 * HomeRowsFrom(k, p)
    decreases 8 - k
  {
    if k < 8 {
      InitialRowSlice(b, k);
      InitialRowCount(k, p);
      LaidOutRowsCount(b, k + 1, p);
    }
  }

  /** The starting layout holds twelve pieces of each side. */
  lemma LaidOutCounts(b: Board)
    requires LaidOut(b)
    ensures PieceCount(b, Black) == 12 && PieceCount(b, Red) == 12
  {
    SuffixCount(b, 0, Black);
    SuffixCount(b, 0, Red);
    LaidOutRowsCount(b, 0, Black);
    LaidOutRowsCount(b, 0, Red);
    assert b[0..] == b;
  }

  /** Every piece stands on a square whose row + column is even. */
  ghost predicate OnEvenSquares(b: Board)
  {
    forall r, c :: InBounds(r, c) && At(b, r, c).Piece? ==> (r + c) % 2 == 0
  }
}
