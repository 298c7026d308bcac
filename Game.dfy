/** The TicTacToe component of src/components/Games.js: its state (history,
    stepNumber, xIsNext) and the two transitions handleClick and jumpTo. */
module Game {
  import opened Board

  /** The component's three state slots as one value. */
  datatype GameState = GameState(history: seq<Board>, stepNumber: nat, xIsNext: bool)

  /** The board shown: history[stepNumber]. */
  function Current(s: GameState): Board
    requires s.stepNumber < |s.history|
  {
    s.history[s.stepNumber]
  }

  /** The mark the source writes on the next click: "x" when xIsNext, else "o". */
  function ToMove(s: GameState): Player
  {
    if s.xIsNext then X else O
  }

  /** The other player. */
  function Other(p: Player): Player
  {
    if p == X then O else X
  }

  /** The player whose move turns history[step] into history[step + 1]. */
  function PlayerAt(step: nat): Player
  {
    if step % 2 == 0 then X else O
  }

  /** `after` is `before` with one more mark of p on an empty square, and
      `before` had no winner. */
  ghost predicate LegalMove(before: Board, after: Board, p: Player)
  {
    Winner(before) == None &&
    exists i: Index :: before[i] == Empty && after == before[i := Mark(p)]
  }

  /** The state invariant: stepNumber indexes history, xIsNext follows the
      parity of stepNumber, and history is a game played from the empty board
      with X and O alternating. */
  ghost predicate Inv(s: GameState)
  {
    && s.stepNumber < |s.history|
    && s.xIsNext == (s.stepNumber % 2 == 0)
    && s.history[0] == EmptyBoard
    && forall k :: 0 <= k < |s.history| - 1 ==>
         LegalMove(s.history[k], s.history[k + 1], PlayerAt(k))
  }

  /** The state at mount: one empty board, step 0, x to move. */
  function Initial(): (s: GameState)
    ensures Inv(s)
    ensures |s.history| == 1 && s.stepNumber == 0
    ensures Winner(Current(s)) == None && ToMove(s) == X
  {
    EmptyBoardHasNoWinner();
    GameState([EmptyBoard], 0, true)
  }

  /** A click on square i takes effect: the shown board has no winner and i is empty. */
  predicate Playable(s: GameState, i: Index)
    requires s.stepNumber < |s.history|
  {
    Winner(Current(s)) == None && Current(s)[i] == Empty
  }

  /** handleClick(i): on a playable square, drop the boards after the shown one,
      append the shown board with the mover's mark at i, step onto it and pass
      the turn; otherwise nothing changes. */
  function Click(s: GameState, i: Index): (r: GameState)
    requires s.stepNumber < |s.history|
    ensures r == s <==> !Playable(s, i)
    ensures Playable(s, i) ==>
      && |r.history| == s.stepNumber + 2
      && r.history[..s.stepNumber + 1] == s.history[..s.stepNumber + 1]
      && r.stepNumber == s.stepNumber + 1 == |r.history| - 1
      && r.xIsNext == !s.xIsNext
      && Current(r)[i] == Mark(ToMove(s))
      && forall j: Index :: j != i ==> Current(r)[j] == Current(s)[j]
  {
    var sliceHistory := s.history[..s.stepNumber + 1];
    var current := sliceHistory[|sliceHistory| - 1];
    if Winner(current).Some? || current[i] != Empty then s
    else GameState(sliceHistory + [current[i := Mark(ToMove(s))]], |sliceHistory|, !s.xIsNext)
  }

  /** jumpTo(move): show history[move]; the turn follows the parity of move. */
  function Jump(s: GameState, move: nat): (r: GameState)
    requires move < |s.history|
  {
    GameState(s.history, move, move % 2 == 0)
  }

  /** handleClick keeps the invariant. */
  lemma ClickPreservesInv(s: GameState, i: Index)
    requires Inv(s)
    ensures Inv(Click(s, i))
  {
    var r := Click(s, i);
    if Playable(s, i) {
      var n := s.stepNumber;
      var next := Current(s)[i := Mark(ToMove(s))];
      assert r.history == s.history[..n + 1] + [next];
      forall k | 0 <= k < |r.history| - 1
        ensures LegalMove(r.history[k], r.history[k + 1], PlayerAt(k))
      {
        if k < n {
          assert r.history[k] == s.history[k] && r.history[k + 1] == s.history[k + 1];
        } else {
          assert r.history[k] == Current(s) && r.history[k + 1] == next;
          assert ToMove(s) == PlayerAt(k);
        }
      }
    }
  }

  /** jumpTo keeps the invariant and leaves history alone. */
  lemma JumpPreservesInv(s: GameState, move: nat)
    requires Inv(s) && move < |s.history|
    ensures Inv(Jump(s, move)) && Jump(s, move).history == s.history
  {
  }

  /** Jumping twice to the same move is the same as jumping once. */
  lemma JumpIdempotent(s: GameState, move: nat)
    requires move < |s.history|
    ensures Jump(Jump(s, move), move) == Jump(s, move)
  {
  }

  /** Under the invariant, jumping to the step already shown changes nothing:
      the stored xIsNext is the one parity gives. */
  lemma JumpToCurrentIsNoop(s: GameState)
    requires Inv(s)
    ensures Jump(s, s.stepNumber) == s
  {
  }

  /** A full board makes every click a no-op (there is no draw outcome). */
  lemma FullBoardClickIsNoop(s: GameState, i: Index)
    requires s.stepNumber < |s.history|
    requires Count(Current(s), Empty) == 0
    ensures Click(s, i) == s
  {
    CountZero(Current(s), Empty, i);
  }

  /** One more mark of p: one empty square fewer, one p mark more, the other
      player's count unchanged. */
  lemma MoveCounts(before: Board, i: Index, p: Player)
    requires before[i] == Empty
    ensures Count(before[i := Mark(p)], Empty) == Count(before, Empty) - 1
    ensures Count(before[i := Mark(p)], Mark(p)) == Count(before, Mark(p)) + 1
    ensures Count(before[i := Mark(p)], Mark(Other(p))) == Count(before, Mark(Other(p)))
  {
    CountUpdate(before, i, Mark(p), Empty);
    CountUpdate(before, i, Mark(p), Mark(p));
    CountUpdate(before, i, Mark(p), Mark(Other(p)));
  }

  /** Board k of a valid history is board k - 1 with the mark of move k on a
      square that was empty, and board k - 1 had no winner. */
  lemma MoveAt(s: GameState, k: nat) returns (i: Index)
    requires Inv(s) && 0 < k < |s.history|
    ensures Winner(s.history[k - 1]) == None
    ensures s.history[k - 1][i] == Empty
    ensures s.history[k] == s.history[k - 1][i := Mark(PlayerAt(k - 1))]
  {
    assert LegalMove(s.history[k - 1], s.history[k], PlayerAt(k - 1));
    i :| s.history[k - 1][i] == Empty && s.history[k] == s.history[k - 1][i := Mark(PlayerAt(k - 1))];
  }

  /** How the x and o shares of k moves grow with move k. */
  lemma HalvesStep(k: nat)
    requires k > 0
    ensures PlayerAt(k - 1) == X ==> (k + 1) / 2 == k / 2 + 1 && k / 2 == (k - 1) / 2
    ensures PlayerAt(k - 1) == O ==> (k + 1) / 2 == k / 2 && k / 2 == (k - 1) / 2 + 1
  {
  }

  /** Board k of a valid history holds k marks: (k + 1) / 2 of x, k / 2 of o. */
  lemma {:induction false} MarkCounts(s: GameState, k: nat)
    requires Inv(s) && k < |s.history|
    ensures Count(s.history[k], Empty) == 9 - k
    ensures Count(s.history[k], Mark(X)) == (k + 1) / 2
    ensures Count(s.history[k], Mark(O)) == k / 2
  {
    if k == 0 {
      EmptyBoardCounts();
    } else {
      MarkCounts(s, k - 1);
      var i := MoveAt(s, k);
      var p := PlayerAt(k - 1);
      MoveCounts(s.history[k - 1], i, p);
      HalvesStep(k);
    }
  }

  /** A valid history holds at most ten boards: the empty one and nine moves. */
  lemma HistoryBounded(s: GameState)
    requires Inv(s)
    ensures |s.history| <= 10
  {
    MarkCounts(s, |s.history| - 1);
  }

  /** Every complete line on board k of a valid history carries the mark of
      the player who made move k, so all complete lines agree and the order in
      which they are checked does not change the winner. */
  lemma LastMoverOwnsEveryLine(s: GameState, k: nat, j: nat)
    requires Inv(s) && k < |s.history| && j < |Lines|
    requires Complete(s.history[k], Lines[j])
    ensures k > 0 && s.history[k][Lines[j].a] == Mark(PlayerAt(k - 1))
  {
    if k > 0 {
      var i := MoveAt(s, k);
      assert !Complete(s.history[k - 1], Lines[j]);
      var t := Lines[j];
      assert t.a == i || t.b == i || t.c == i;
    }
  }

  /** The winner reported for board k of a valid history is the player who
      made move k. */
  lemma WinnerIsLastMover(s: GameState, k: nat)
    requires Inv(s) && k < |s.history|
    requires Winner(s.history[k]) != None
    ensures k > 0 && Winner(s.history[k]) == Some(PlayerAt(k - 1))
  {
    var j :| 0 <= j < |Lines| && Complete(s.history[k], Lines[j]);
    FirstCompleteExists(s.history[k], j);
    var m: nat :| FirstComplete(s.history[k], m);
    LastMoverOwnsEveryLine(s, k, m);
  }

  /** The component: the three state slots are fields that the two
      transitions overwrite. */
  class TicTacToe {
    var history: seq<Board>
    var stepNumber: nat
    var xIsNext: bool

    function State(): GameState
      reads this
    {
      GameState(history, stepNumber, xIsNext)
    }

    ghost predicate Valid()
      reads this
    {
      Inv(State())
    }

    constructor ()
      ensures Valid() && State() == Initial()
    {
      history := [EmptyBoard];
      stepNumber := 0;
      xIsNext := true;
    }

    /** handleClick: works on a copy of the shown board, as the source does,
        and returns early when the click cannot be played. */
    method HandleClick(i: Index)
      requires Valid()
      modifies this
      ensures Valid()
      ensures State() == Click(old(State()), i)
    {
      ClickPreservesInv(State(), i);
      var sliceHistory := history[..stepNumber + 1];
      var current := sliceHistory[|sliceHistory| - 1];
      var squares := new Cell[9](k requires 0 <= k < 9 => current[k]);
      assert squares[..] == current;
      var winner := CalculateWinner(squares[..]);
      if winner.Some? || squares[i] != Empty {
        return;
      }
      squares[i] := if xIsNext then Mark(X) else Mark(O);
      assert squares[..] == current[i := Mark(ToMove(old(State())))];
      history := sliceHistory + [squares[..]];
      stepNumber := |sliceHistory|;
      xIsNext := !xIsNext;
    }

    /** jumpTo: `move` is an index of history, the only values the move list
        passes. */
    method JumpTo(move: nat)
      requires Valid() && move < |history|
      modifies this
      ensures Valid()
      ensures State() == Jump(old(State()), move)
    {
      JumpPreservesInv(State(), move);
      stepNumber := move;
      xIsNext := move % 2 == 0;
    }
  }

  /** A second click on the same square changes nothing (a caller's view,
      from the contracts alone). */
  method ClientRepeatedClick()
  {
    var g := new TicTacToe();
    g.HandleClick(0);
    assert g.stepNumber == 1 && |g.history| == 2 && !g.xIsNext;
    assert g.history[1][0] == Mark(X);
    var before := g.State();
    g.HandleClick(0);
    assert g.State() == before;
  }

  /** Jumping back is idempotent and keeps history; a click after it drops
      the later boards (a caller's view, from the contracts alone). */
  method ClientJumpBack()
  {
    EmptyBoardHasNoWinner();
    var g := new TicTacToe();
    g.HandleClick(0);
    g.JumpTo(0);
    var once := g.State();
    g.JumpTo(0);
    assert g.State() == once && g.xIsNext && |g.history| == 2;
    g.HandleClick(4);
    assert |g.history| == 2 && g.stepNumber == 1 && !g.xIsNext;
    assert g.history[1][4] == Mark(X) && g.history[1][0] == Empty;
  }
}
