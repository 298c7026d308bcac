/** The two strings the TicTacToe component derives from its state: the status
    line and the label of each entry in the move list. */
module Labels {
  import opened Board
  import opened Game

  /** A mark as the source writes it. */
  function PlayerName(p: Player): string
  {
    match p
    case X => "x"
    case O => "o"
  }

  /** The status line for a winner (if any) and the mark to move next. */
  function StatusText(winner: Option<Player>, next: Player): string
  {
    match winner
    case Some(w) => "Winner: " + PlayerName(w)
    case None => "Next player: " + PlayerName(next)
  }

  /** The status line: "Winner: " and the winning mark when the shown board
      has one, otherwise "Next player: " and the mark xIsNext selects. */
  function Status(s: GameState): string
    requires s.stepNumber < |s.history|
  {
    StatusText(Winner(Current(s)), ToMove(s))
  }

  /** Equal status texts come from the same winner and, when there is none,
      the same next player. */
  lemma StatusTextInjective(w1: Option<Player>, n1: Player, w2: Option<Player>, n2: Player)
    requires StatusText(w1, n1) == StatusText(w2, n2)
    ensures w1 == w2
    ensures w1 == None ==> n1 == n2
  {
    var t1, t2 := StatusText(w1, n1), StatusText(w2, n2);
    if w1.Some? && w2.Some? {
      assert t1[8] == PlayerName(w1.value)[0] && t2[8] == PlayerName(w2.value)[0];
    } else if w1.None? && w2.None? {
      assert t1[13] == PlayerName(n1)[0] && t2[13] == PlayerName(n2)[0];
    }
  }

  /** The status line tells the reader everything it is meant to: two states
      with the same status line have the same winner and, when there is none,
      the same player to move. */
  lemma StatusDeterminesOutcome(s1: GameState, s2: GameState)
    requires s1.stepNumber < |s1.history| && s2.stepNumber < |s2.history|
    requires Status(s1) == Status(s2)
    ensures Winner(Current(s1)) == Winner(Current(s2))
    ensures Winner(Current(s1)) == None ==> ToMove(s1) == ToMove(s2)
  {
    StatusTextInjective(Winner(Current(s1)), ToMove(s1), Winner(Current(s2)), ToMove(s2));
  }

  /** Under the state invariant, the player named in "Next player: " is the one
      the parity of stepNumber gives. */
  lemma StatusNamesParityPlayer(s: GameState)
    requires Inv(s) && Winner(Current(s)) == None
    ensures Status(s) == "Next player: " + PlayerName(PlayerAt(s.stepNumber))
  {
  }

  /** The decimal digit for d. */
  function DigitChar(d: nat): (c: char)
    requires d < 10
    ensures '0' <= c <= '9'
    ensures c as int - '0' as int == d
  {
    ('0' as int + d) as char
  }

  predicate IsDigits(t: string)
  {
    forall k :: 0 <= k < |t| ==> '0' <= t[k] <= '9'
  }

  /** The decimal numeral of n, as string concatenation renders a number:
      no leading zero, at least one digit. */
  function Decimal(n: nat): (t: string)
    ensures |t| >= 1 && IsDigits(t)
    ensures (|t| == 1) == (n < 10)
    ensures t[0] == '0' <==> n == 0
    decreases n
  {
    if n < 10 then [DigitChar(n)] else Decimal(n / 10) + [DigitChar(n % 10)]
  }

  /** The value of a string of decimal digits. */
  function ParseDecimal(t: string): nat
    requires IsDigits(t)
    decreases |t|
  {
    if t == [] then 0
    else 10 * ParseDecimal(t[..|t| - 1]) + (t[|t| - 1] as int - '0' as int)
  }

  /** Reading the numeral back gives the number. */
  lemma {:induction false} ParseDecimalOfDecimal(n: nat)
    ensures ParseDecimal(Decimal(n)) == n
    decreases n
  {
    var t := Decimal(n);
    if n < 10 {
      assert t[..0] == [];
    } else {
      assert t[..|t| - 1] == Decimal(n / 10);
      ParseDecimalOfDecimal(n / 10);
    }
  }

  /** The label of move list entry `move`. */
  function MoveLabel(move: nat): string
  {
    if move == 0 then "Go to game start" else "Go to move #" + Decimal(move)
  }

  /** The seventh character tells the game-start label from the others. */
  lemma MoveLabelSeventhChar(move: nat)
    ensures |MoveLabel(move)| > 6
    ensures MoveLabel(move)[6] == if move == 0 then 'g' else 'm'
  {
  }

  /** Different entries of the move list carry different labels. */
  lemma MoveLabelInjective(m1: nat, m2: nat)
    requires MoveLabel(m1) == MoveLabel(m2)
    ensures m1 == m2
  {
    var l1, l2 := MoveLabel(m1), MoveLabel(m2);
    MoveLabelSeventhChar(m1);
    MoveLabelSeventhChar(m2);
    if m1 != 0 && m2 != 0 {
      assert l1[12..] == Decimal(m1) && l2[12..] == Decimal(m2);
      ParseDecimalOfDecimal(m1);
      ParseDecimalOfDecimal(m2);
    }
  }
}
