/** The Tic-Tac-Toe board and the rules of play: whose turn it is, the moves
    available, the board a move produces, who has won, whether the game is
    over and what it is worth. */
module Game {

  datatype Cell = X | O | Empty

  datatype Option<T> = None | Some(value: T)

  type Row = r: seq<Cell> | |r| == 3 witness [Empty, Empty, Empty]

  /** A 3x3 grid, addressed as board[row][column]. */
  type Board = b: seq<Row> | |b| == 3
    witness [[Empty, Empty, Empty], [Empty, Empty, Empty], [Empty, Empty, Empty]]

  type Index = i: int | 0 <= i < 3

  /** A move, as the pair (row, column). */
  type Action = (Index, Index)

  /** The mark that is not `m` among X and O. */
  function Opponent(m: Cell): Cell
  {
    if m == X then O else X
  }

  // ---------------------------------------------------------------------
  // Counting marks

  /** Number of cells of a row holding `m`. */
  function Occ(s: seq<Cell>, m: Cell): nat
  {
    multiset(s)[m]
  }

  /** Number of cells holding `m`, over a sequence of rows. */
  function Count(rows: seq<Row>, m: Cell): nat
  {
    if rows == [] then 0 else Count(rows[..|rows| - 1], m) + Occ(rows[|rows| - 1], m)
  }

  lemma CountByRows(b: Board, m: Cell)
    ensures Count(b, m) == Occ(b[0], m) + Occ(b[1], m) + Occ(b[2], m)
  {
    assert b[..3] == b;
    assert b[..2][..1] == b[..1];
    assert b[..1][..0] == [];
    assert Count(b[..1], m) == Occ(b[0], m);
    assert Count(b[..2], m) == Count(b[..1], m) + Occ(b[1], m);
  }

  /** The player whose turn it is: X moves first, so equal counts mean X. */
  function ToMove(b: Board): Cell
  {
    if Count(b, X) == Count(b, O) then X else O
  }

  /** The boards that alternate play from the empty board can produce. */
  predicate Balanced(b: Board)
  {
    Count(b, X) == Count(b, O) || Count(b, X) == Count(b, O) + 1
  }

  /** No cell is empty. */
  predicate Full(b: Board)
  {
    forall i: Index, j: Index :: b[i][j] != Empty
  }

  lemma FullIffNoEmpty(b: Board)
    ensures Full(b) <==> Count(b, Empty) == 0
  {
    CountByRows(b, Empty);
    if !Full(b) {
      var i: Index, j: Index :| b[i][j] == Empty;
      assert Empty in multiset(b[i]);
    } else {
      forall i: Index ensures Occ(b[i], Empty) == 0 {
        assert Empty !in b[i];
      }
    }
  }

  // ---------------------------------------------------------------------
  // initial_state

  function InitialState(): (b: Board)
    ensures forall i: Index, j: Index :: b[i][j] == Empty
    ensures Count(b, Empty) == 9 && Count(b, X) == 0 && Count(b, O) == 0
  {
    var b: Board := [[Empty, Empty, Empty], [Empty, Empty, Empty], [Empty, Empty, Empty]];
    CountByRows(b, Empty);
    CountByRows(b, X);
    CountByRows(b, O);
    b
  }

  // ---------------------------------------------------------------------
  // player

  /** Scans the board, counting X down and O up; the result is X exactly
      when the tally is zero. */
  method Player(b: Board) returns (p: Cell)
    ensures p == X <==> Count(b, X) == Count(b, O)
    ensures p != X ==> p == O
  {
    var turnOf := 0;
    for i := 0 to 3
      invariant turnOf == Count(b[..i], O) - Count(b[..i], X)
    {
      for j := 0 to 3
        invariant turnOf == Count(b[..i], O) - Count(b[..i], X) + Occ(b[i][..j], O) - Occ(b[i][..j], X)
      {
        var cell := b[i][j];
        if cell == X {
          turnOf := turnOf - 1;
        } else if cell == O {
          turnOf := turnOf + 1;
        }
        assert b[i][..j + 1] == b[i][..j] + [cell];
      }
      assert b[i][..3] == b[i];
      assert b[..i + 1][..i] == b[..i];
    }
    assert b[..3] == b;
    if turnOf == 0 {
      p := X;
    } else {
      p := O;
    }
  }

  // ---------------------------------------------------------------------
  // actions

  /** The set of empty cells, gathered row by row. */
  method Actions(b: Board) returns (acts: set<Action>)
    ensures forall a: Action :: a in acts <==> b[a.0][a.1] == Empty
    ensures |acts| == Count(b, Empty)
    ensures acts == {} <==> Full(b)
  {
    acts := {};
    for row := 0 to 3
      invariant forall a: Action :: a in acts <==> a.0 < row && b[a.0][a.1] == Empty
      invariant |acts| == Count(b[..row], Empty)
    {
      for col := 0 to 3
        invariant forall a: Action :: a in acts <==> (a.0 < row || (a.0 == row && a.1 < col)) && b[a.0][a.1] == Empty
        invariant |acts| == Count(b[..row], Empty) + Occ(b[row][..col], Empty)
      {
        assert b[row][..col + 1] == b[row][..col] + [b[row][col]];
        if b[row][col] == Empty {
          var a: Action := (row, col);
          assert a !in acts;
          acts := acts + {a};
        }
      }
      assert b[row][..3] == b[row];
      assert b[..row + 1][..row] == b[..row];
    }
    assert b[..3] == b;
    FullIffNoEmpty(b);
  }

  // ---------------------------------------------------------------------
  // result

  /** The board `b` with the cell `a` holding `m`. */
  function Place(b: Board, a: Action, m: Cell): Board
  {
    b[a.0 := b[a.0][a.1 := m]]
  }

  /** The board after the player to move marks `a`. */
  function Successor(b: Board, a: Action): Board
  {
    Place(b, a, ToMove(b))
  }

  /** Copies the board and marks `a` for the player to move. The cell is not
      checked: a marked cell is overwritten. Boards are values, so `b`
      itself is never changed. */
  method Result(b: Board, a: Action) returns (r: Board)
    ensures r == Successor(b, a)
  {
    r := b;
    var p := Player(r);
    r := r[a.0 := r[a.0][a.1 := p]];
  }

  /** The board after a move differs from the board before it in the cell
      moved to only, and that cell holds the mark of the player who moved. */
  lemma SuccessorCells(b: Board, a: Action)
    ensures Successor(b, a)[a.0][a.1] == ToMove(b) != Empty
    ensures forall i: Index, j: Index :: (i, j) != a ==> Successor(b, a)[i][j] == b[i][j]
  {
  }

  lemma CountPlace(b: Board, a: Action, m: Cell)
    requires b[a.0][a.1] == Empty && m != Empty
    ensures Count(Place(b, a, m), m) == Count(b, m) + 1
    ensures Count(Place(b, a, m), Opponent(m)) == Count(b, Opponent(m))
    ensures Count(Place(b, a, m), Empty) == Count(b, Empty) - 1
  {
    var r := Place(b, a, m);
    var i := a.0;
    assert multiset(r[i]) == multiset(b[i]) - multiset{Empty} + multiset{m} by {
      assert r[i] == b[i][a.1 := m];
    }
    forall c: Cell
      ensures Count(r, c) == Count(b, c) + (if c == m then 1 else 0) - (if c == Empty then 1 else 0)
    {
      CountByRows(b, c);
      CountByRows(r, c);
    }
  }

  /** A move on an empty cell of a balanced board keeps it balanced, uses up
      one empty cell and hands the turn to the other player. */
  lemma {:induction false} SuccessorBalance(b: Board, a: Action)
    requires Balanced(b) && b[a.0][a.1] == Empty
    ensures Balanced(Successor(b, a))
    ensures Count(Successor(b, a), Empty) == Count(b, Empty) - 1
    ensures ToMove(Successor(b, a)) == Opponent(ToMove(b))
  {
    CountPlace(b, a, ToMove(b));
  }

  // ---------------------------------------------------------------------
  // winner

  /** The eight lines of three: rows, columns and the two diagonals. */
  const Lines: seq<(Action, Action, Action)> := [
    ((0, 0), (0, 1), (0, 2)), ((1, 0), (1, 1), (1, 2)), ((2, 0), (2, 1), (2, 2)),
    ((0, 0), (1, 0), (2, 0)), ((0, 1), (1, 1), (2, 1)), ((0, 2), (1, 2), (2, 2)),
    ((0, 0), (1, 1), (2, 2)), ((0, 2), (1, 1), (2, 0))]

  predicate Holds(b: Board, line: (Action, Action, Action), m: Cell)
  {
    b[line.0.0][line.0.1] == m && b[line.1.0][line.1.1] == m && b[line.2.0][line.2.1] == m
  }

  /** Some line of the board is entirely `m`. */
  predicate HasLine(b: Board, m: Cell)
  {
    exists k :: 0 <= k < |Lines| && Holds(b, Lines[k], m)
  }

  function Three(c0: Cell, c1: Cell, c2: Cell, m: Cell): bool
  {
    c0 == m && c1 == m && c2 == m
  }

  /** Checks rows, then columns, then the two diagonals, for the mark of the
      player who moved last only (the opponent of the player to move). */
  function Winner(b: Board): (w: Option<Cell>)
    ensures w == None || w == Some(Opponent(ToMove(b)))
  {
    var last := Opponent(ToMove(b));
    if Three(b[0][0], b[0][1], b[0][2], last) then Some(last)
    else if Three(b[1][0], b[1][1], b[1][2], last) then Some(last)
    else if Three(b[2][0], b[2][1], b[2][2], last) then Some(last)
    else if Three(b[0][0], b[1][0], b[2][0], last) then Some(last)
    else if Three(b[0][1], b[1][1], b[2][1], last) then Some(last)
    else if Three(b[0][2], b[1][2], b[2][2], last) then Some(last)
    else if Three(b[0][0], b[1][1], b[2][2], last) then Some(last)
    else if Three(b[0][2], b[1][1], b[2][0], last) then Some(last)
    else None
  }

  /** `winner` reports the last mover exactly when one of the eight lines is
      theirs. */
  lemma WinnerIffLine(b: Board)
    ensures Winner(b).Some? <==> HasLine(b, Opponent(ToMove(b)))
  {
    var m := Opponent(ToMove(b));
    if Winner(b).Some? {
      if Three(b[0][0], b[0][1], b[0][2], m) { assert Holds(b, Lines[0], m); }
      else if Three(b[1][0], b[1][1], b[1][2], m) { assert Holds(b, Lines[1], m); }
      else if Three(b[2][0], b[2][1], b[2][2], m) { assert Holds(b, Lines[2], m); }
      else if Three(b[0][0], b[1][0], b[2][0], m) { assert Holds(b, Lines[3], m); }
      else if Three(b[0][1], b[1][1], b[2][1], m) { assert Holds(b, Lines[4], m); }
      else if Three(b[0][2], b[1][2], b[2][2], m) { assert Holds(b, Lines[5], m); }
      else if Three(b[0][0], b[1][1], b[2][2], m) { assert Holds(b, Lines[6], m); }
      else { assert Holds(b, Lines[7], m); }
    }
  }

  // ---------------------------------------------------------------------
  // terminal and utility

  predicate IsTerminal(b: Board)
  {
    Full(b) || Winner(b).Some?
  }

  /** Looks for an empty cell, leaving both loops at the first one, and then
      asks `winner`. */
  method Terminal(b: Board) returns (t: bool)
    ensures t <==> Full(b) || Winner(b).Some?
  {
    var emptyFlag := false;
    var i := 0;
    while i < 3
      invariant 0 <= i <= 3 && !emptyFlag
      invariant forall i': Index, j: Index :: i' < i ==> b[i'][j] != Empty
    {
      var j := 0;
      while j < 3
        invariant 0 <= j <= 3 && !emptyFlag
        invariant forall j': Index :: j' < j ==> b[i][j'] != Empty
      {
        if b[i][j] == Empty {
          emptyFlag := true;
          break;
        }
        j := j + 1;
      }
      if emptyFlag {
        break;
      }
      i := i + 1;
    }
    t := !emptyFlag || Winner(b).Some?;
  }

  /** The score of a board: 1 if X has won, -1 if O has won, 0 otherwise. */
  function Utility(b: Board): (u: int)
    ensures -1 <= u <= 1
    ensures u == 1 <==> Winner(b) == Some(X)
    ensures u == -1 <==> Winner(b) == Some(O)
    ensures u == 0 <==> Winner(b) == None
  {
    var won := Winner(b);
    if won == Some(X) then 1
    else if won == Some(O) then -1
    else 0
  }
}
