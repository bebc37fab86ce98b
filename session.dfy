/** The turn and terminal state machine of one game: the closure variables
    `p1Board`, `p2Board`, `currentPlayer`, `p1Die`, `p2Die` and `gameActive`,
    and the handlers that update them. */
module Session {
  import opened Board
  import opened Scoring
  import opened Move
  import opened Cpu

  datatype Option<T> = None | Some(value: T)

  datatype Player = P1 | P2

  /** The result `endGame` announces. */
  datatype Outcome = P1Wins | P2Wins | Draw

  function Other(p: Player): (q: Player)
    ensures q != p
  {
    if p == P1 then P2 else P1
  }

  /** The same result seen with the two players swapped. */
  function Mirror(o: Outcome): Outcome
  {
    match o
    case P1Wins => P2Wins
    case P2Wins => P1Wins
    case Draw => Draw
  }

  /** The winner rule of `endGame`: the higher score wins, equal scores draw. */
  function Winner(p1Score: int, p2Score: int): (o: Outcome)
    ensures o == P1Wins <==> p1Score > p2Score
    ensures o == P2Wins <==> p2Score > p1Score
    ensures o == Draw <==> p1Score == p2Score
  {
    if p1Score > p2Score then P1Wins
    else if p2Score > p1Score then P2Wins
    else Draw
  }

  /** The rule favours neither player: swapping the scores swaps the result. */
  lemma WinnerSymmetric(p1Score: int, p2Score: int)
    ensures Winner(p2Score, p1Score) == Mirror(Winner(p1Score, p2Score))
  {
  }

  /** A die as the game holds it: a face 1..6, or `null` for the idle player. */
  predicate IsFace(d: Option<int>)
  {
    d.Some? && 1 <= d.value <= 6
  }

  class Game {
    const p1Board: array2<int>
    const p2Board: array2<int>
    var currentPlayer: Player
    var p1Die: Option<int>
    var p2Die: Option<int>
    var gameActive: bool
    const difficulty: Difficulty

    function DieOf(p: Player): Option<int>
      reads this
    {
      if p == P1 then p1Die else p2Die
    }

    function BoardOf(p: Player): array2<int>
    {
      if p == P1 then p1Board else p2Board
    }

    /** What holds between any two handlers: two distinct 3x3 boards whose
        cells hold 0 or a face and whose columns are packed toward row 0, and
        a rolled die for the player to move only. */
    ghost predicate Consistent()
      reads this, p1Board, p2Board
    {
      p1Board.Length0 == 3 && p1Board.Length1 == 3 &&
      p2Board.Length0 == 3 && p2Board.Length1 == 3 &&
      p1Board != p2Board &&
      Faces(Snapshot(p1Board)) && Settled(Snapshot(p1Board)) &&
      Faces(Snapshot(p2Board)) && Settled(Snapshot(p2Board)) &&
      IsFace(DieOf(currentPlayer)) && DieOf(Other(currentPlayer)) == None
    }

    /** `Consistent`, and the game is running exactly while neither board is full. */
    ghost predicate Valid()
      reads this, p1Board, p2Board
    {
      Consistent() &&
      (gameActive <==> !IsBoardFull(Snapshot(p1Board)) && !IsBoardFull(Snapshot(p2Board)))
    }

    /** `initializeGame()`: two empty boards, player 1 to move with a rolled die. */
    constructor(difficulty: Difficulty)
      ensures Valid() && fresh(p1Board) && fresh(p2Board)
      ensures Snapshot(p1Board) == Empty && Snapshot(p2Board) == Empty
      ensures gameActive && currentPlayer == P1 && IsFace(p1Die) && p2Die == None
      ensures this.difficulty == difficulty
    {
      p1Board := new int[3, 3]((r, c) => 0);
      p2Board := new int[3, 3]((r, c) => 0);
      gameActive := true;
      currentPlayer := P1;
      var d :| 1 <= d <= 6;
      p1Die := Some(d);
      p2Die := None;
      this.difficulty := difficulty;
      new;
      assert Snapshot(p1Board) == Empty && Snapshot(p2Board) == Empty;
      EmptyIsOpen();
    }

    /** `endGame()`: the game stops and the higher score wins. */
    method EndGame() returns (outcome: Outcome)
      requires Consistent()
      modifies this
      ensures !gameActive
      ensures outcome == Winner(Score(Snapshot(p1Board)), Score(Snapshot(p2Board)))
      ensures currentPlayer == old(currentPlayer) && p1Die == old(p1Die) && p2Die == old(p2Die)
      ensures Consistent()
    {
      gameActive := false;
      var p1s := Score(Snapshot(p1Board));
      var p2s := Score(Snapshot(p2Board));
      outcome := Winner(p1s, p2s);
    }

    /** `switchTurn()`: the game ends when either board is full; otherwise the
        other player moves next with a fresh die and the idle die is cleared. */
    method SwitchTurn() returns (outcome: Option<Outcome>)
      requires Consistent() && gameActive
      modifies this
      ensures Valid()
      ensures var full := IsBoardFull(Snapshot(p1Board)) || IsBoardFull(Snapshot(p2Board));
        if full then
          !gameActive && outcome == Some(Winner(Score(Snapshot(p1Board)), Score(Snapshot(p2Board)))) &&
          currentPlayer == old(currentPlayer) && p1Die == old(p1Die) && p2Die == old(p2Die)
        else
          gameActive && outcome == None && currentPlayer == Other(old(currentPlayer)) &&
          IsFace(DieOf(currentPlayer)) && DieOf(old(currentPlayer)) == None
    {
      if IsBoardFull(Snapshot(p1Board)) || IsBoardFull(Snapshot(p2Board)) {
        var o := EndGame();
        return Some(o);
      }
      currentPlayer := Other(currentPlayer);
      var d :| 1 <= d <= 6;
      if currentPlayer == P1 {
        p1Die := Some(d);
        p2Die := None;
      } else {
        p2Die := Some(d);
        p1Die := None;
      }
      outcome := None;
    }

    /** `handleColumnClick()` for column `col`, followed by the `switchTurn()`
        its timer runs: nothing happens while the game is over or when the
        column is full; otherwise the mover's die goes into the column, the
        matching dice in the opponent's column are destroyed, and the turn
        passes or the game ends. */
    method HandleColumnClick(col: int) returns (moved: bool, outcome: Option<Outcome>)
      requires Valid() && 0 <= col < 3
      modifies this, p1Board, p2Board
      ensures Valid()
      ensures moved <==> old(gameActive) && FirstEmptyRow(old(Snapshot(BoardOf(currentPlayer))), col) != -1
      ensures !moved ==>
        outcome == None && unchanged(this) &&
        Snapshot(p1Board) == old(Snapshot(p1Board)) && Snapshot(p2Board) == old(Snapshot(p2Board))
      ensures moved ==>
        var mover := old(currentPlayer);
        var die := old(DieOf(currentPlayer)).value;
        Snapshot(BoardOf(mover)) == Place(old(Snapshot(BoardOf(mover))), col, die) &&
        Snapshot(BoardOf(Other(mover))) == Destroy(old(Snapshot(BoardOf(Other(mover)))), col, die) &&
        (outcome == None <==> gameActive) &&
        (gameActive ==> currentPlayer == Other(mover)) &&
        (outcome.Some? ==> outcome.value == Winner(Score(Snapshot(p1Board)), Score(Snapshot(p2Board)))) &&
        (outcome.Some? ==> currentPlayer == mover && p1Die == old(p1Die) && p2Die == old(p2Die))
    {
      if !gameActive {
        return false, None;
      }
      var active := BoardOf(currentPlayer);
      var opponent := BoardOf(Other(currentPlayer));
      var die := DieOf(currentPlayer).value;
      ghost var activeBefore := Snapshot(active);
      ghost var opponentBefore := Snapshot(opponent);
      var row := ResolveMove(active, opponent, col, die);
      if row == -1 {
        return false, None;
      }
      PlaceKeepsSettled(activeBefore, col, die);
      DestroyKeepsSettled(opponentBefore, col, die);
      MoveKeepsFaces(activeBefore, opponentBefore, col, die);
      moved := true;
      outcome := SwitchTurn();
    }

    /** `triggerCpuLogic()`: the computer, player 2, picks a column for its die
        and plays it. The board is never full here, so a column is always found,
        and in the medium and hard tiers it is one with the highest score. */
    method CpuTurn() returns (col: int, outcome: Option<Outcome>)
      requires Valid() && gameActive && currentPlayer == P2
      modifies this, p1Board, p2Board
      ensures Valid()
      ensures 0 <= col < 3 && FirstEmptyRow(old(Snapshot(p2Board)), col) != -1
      ensures difficulty != Easy ==>
        forall c :: c in Available(old(Snapshot(p2Board))) ==>
          MoveScore(old(Snapshot(p2Board)), old(Snapshot(p1Board)), c, old(p2Die).value, difficulty) <=
          MoveScore(old(Snapshot(p2Board)), old(Snapshot(p1Board)), col, old(p2Die).value, difficulty)
      ensures Snapshot(p2Board) == Place(old(Snapshot(p2Board)), col, old(p2Die).value)
      ensures Snapshot(p1Board) == Destroy(old(Snapshot(p1Board)), col, old(p2Die).value)
      ensures outcome == None <==> gameActive
      ensures gameActive ==> currentPlayer == P1
      ensures outcome.Some? ==> outcome.value == Winner(Score(Snapshot(p1Board)), Score(Snapshot(p2Board)))
      ensures outcome.Some? ==> currentPlayer == P2 && p1Die == old(p1Die) && p2Die == old(p2Die)
    {
      var mine, theirs := Snapshot(p2Board), Snapshot(p1Board);
      // The medium tier's random fallback never applies to a rolled die.
      MediumHasPositive(mine, theirs, p2Die.value);
      col := ChooseColumn(mine, theirs, p2Die.value, difficulty);
      var moved;
      moved, outcome := HandleColumnClick(col);
    }
  }
}
