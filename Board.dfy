/** The tic-tac-toe board and its win detection (calculateWinner in
    src/components/Games.js). */
module Board {

  datatype Option<+T> = None | Some(value: T)

  /** The two marks, written "x" and "o" in the source. */
  datatype Player = X | O

  /** A square holds null (Empty) or one player's mark. */
  datatype Cell = Empty | Mark(player: Player)

  /** A square's position, 0..8, row-major on the 3x3 grid. */
  type Index = i: nat | i < 9

  /** Nine squares, row-major. */
  type Board = b: seq<Cell> | |b| == 9
    witness [Empty, Empty, Empty, Empty, Empty, Empty, Empty, Empty, Empty]

  /** Array(9).fill(null): the board every game starts from. */
  const EmptyBoard: Board := [Empty, Empty, Empty, Empty, Empty, Empty, Empty, Empty, Empty]

  /** Three squares that win when one player holds all of them. */
  datatype Line = Line(a: Index, b: Index, c: Index)

  /** The eight winning lines in the order they are checked:
      three rows, three columns, two diagonals. */
  const Lines: seq<Line> := [
    Line(0, 1, 2),
    Line(3, 4, 5),
    Line(6, 7, 8),
    Line(0, 3, 6),
    Line(1, 4, 7),
    Line(2, 5, 8),
    Line(0, 4, 8),
    Line(2, 4, 6)
  ]

  /** The line's first square is occupied and the other two hold the same mark. */
  predicate Complete(squares: Board, t: Line)
  {
    squares[t.a] != Empty && squares[t.a] == squares[t.b] && squares[t.a] == squares[t.c]
  }

  /** Line j is complete and no line listed before it is. */
  predicate FirstComplete(squares: Board, j: nat)
  {
    j < |Lines| && Complete(squares, Lines[j]) &&
    forall i :: 0 <= i < j ==> !Complete(squares, Lines[i])
  }

  /** The scan of the lines from position k on: the mark of the first complete
      line found there, or None when none of them is complete. */
  function WinnerFrom(squares: Board, k: nat): (r: Option<Player>)
    requires k <= |Lines|
    ensures r == None <==> forall j :: k <= j < |Lines| ==> !Complete(squares, Lines[j])
    ensures forall j :: k <= j < |Lines| && Complete(squares, Lines[j]) &&
                        (forall i :: k <= i < j ==> !Complete(squares, Lines[i]))
                        ==> r == Some(squares[Lines[j].a].player)
    decreases |Lines| - k
  {
    if k == |Lines| then None
    else if Complete(squares, Lines[k]) then Some(squares[Lines[k].a].player)
    else WinnerFrom(squares, k + 1)
  }

  /** calculateWinner: None exactly when no line is complete; otherwise the
      mark on the first complete line in list order. */
  function Winner(squares: Board): (r: Option<Player>)
    ensures r == None <==> forall j :: 0 <= j < |Lines| ==> !Complete(squares, Lines[j])
    ensures forall j: nat :: FirstComplete(squares, j) ==> r == Some(squares[Lines[j].a].player)
  {
    WinnerFrom(squares, 0)
  }

  /** calculateWinner as the source runs it: a loop over the lines that
      returns at the first complete one. */
  method CalculateWinner(squares: Board) returns (w: Option<Player>)
    ensures w == Winner(squares)
  {
    for k := 0 to |Lines|
      invariant forall j :: 0 <= j < k ==> !Complete(squares, Lines[j])
    {
      var t := Lines[k];
      if squares[t.a] != Empty && squares[t.a] == squares[t.b] && squares[t.a] == squares[t.c] {
        assert FirstComplete(squares, k);
        return Some(squares[t.a].player);
      }
    }
    return None;
  }

  /** Some complete line below an index that is complete is the first one. */
  lemma {:induction false} FirstCompleteExists(squares: Board, j: nat)
    requires j < |Lines| && Complete(squares, Lines[j])
    ensures exists m: nat :: FirstComplete(squares, m)
    decreases j
  {
    if !FirstComplete(squares, j) {
      var i :| 0 <= i < j && Complete(squares, Lines[i]);
      FirstCompleteExists(squares, i);
    }
  }

  /** The winner is p exactly when the first complete line carries p's mark. */
  lemma WinnerIsFirstCompleteLine(squares: Board, p: Player)
    ensures Winner(squares) == Some(p) <==>
            exists j: nat :: FirstComplete(squares, j) && squares[Lines[j].a] == Mark(p)
  {
    if Winner(squares) == Some(p) {
      var j :| 0 <= j < |Lines| && Complete(squares, Lines[j]);
      FirstCompleteExists(squares, j);
      var m: nat :| FirstComplete(squares, m);
      assert squares[Lines[m].a] == Mark(p);
    }
  }

  /** The empty board has no winner. */
  lemma EmptyBoardHasNoWinner()
    ensures Winner(EmptyBoard) == None
  {
  }

  /** The number of cells equal to c. */
  function Count(cells: seq<Cell>, c: Cell): (n: nat)
    ensures n <= |cells|
  {
    if cells == [] then 0
    else (if cells[0] == c then 1 else 0) + Count(cells[1..], c)
  }

  /** A value counted zero times occurs nowhere. */
  lemma {:induction false} CountZero(cells: seq<Cell>, c: Cell, k: nat)
    requires Count(cells, c) == 0 && k < |cells|
    ensures cells[k] != c
    decreases k
  {
    if k > 0 {
      CountZero(cells[1..], c, k - 1);
    }
  }

  /** Overwriting one cell moves one unit of count from its old value to its new one. */
  lemma {:induction false} CountUpdate(cells: seq<Cell>, i: nat, v: Cell, c: Cell)
    requires i < |cells|
    ensures Count(cells[i := v], c) ==
            Count(cells, c) - (if cells[i] == c then 1 else 0) + (if v == c then 1 else 0)
    decreases i
  {
    if i == 0 {
      assert cells[i := v][1..] == cells[1..];
    } else {
      assert cells[i := v][1..] == cells[1..][i - 1 := v];
      CountUpdate(cells[1..], i - 1, v, c);
    }
  }

  /** The empty board has nine empty squares and no marks. */
  lemma EmptyBoardCounts()
    ensures Count(EmptyBoard, Empty) == 9
    ensures Count(EmptyBoard, Mark(X)) == 0 && Count(EmptyBoard, Mark(O)) == 0
  {
    assert EmptyBoard[1..][1..][1..][1..][1..][1..][1..][1..][1..] == [];
  }
}
