/** The computer player, `cpuChooseColumn`. Every heuristic term is scaled by
    10, so that the hard tier's `die * 0.1` and `die * 0.5` bonuses become the
    integers `die` and `5 * die`; scaling by a positive constant keeps every
    comparison between scores, and the sign test of the medium tier, as it is. */
module Cpu {
  import opened Board
  import opened Scoring
  import opened Move

  datatype Difficulty = Easy | Medium | Hard

  /** `availableCols`: the columns of `g`, in order, that still have an empty row. */
  function Available(g: Grid): (cols: seq<int>)
    ensures forall c :: c in cols <==> 0 <= c < 3 && FirstEmptyRow(g, c) != -1
    ensures forall i :: 0 <= i < |cols| ==> 0 <= cols[i] < 3
  {
    (if FirstEmptyRow(g, 0) != -1 then [0] else []) +
    (if FirstEmptyRow(g, 1) != -1 then [1] else []) +
    (if FirstEmptyRow(g, 2) != -1 then [2] else [])
  }

  /** The computer has no column to play exactly when its board is full. */
  lemma NoneAvailableIffFull(g: Grid)
    ensures Available(g) == [] <==> IsBoardFull(g)
  {
    FullIffNoEmptyRow(g);
    if Available(g) != [] {
      assert Available(g)[0] in Available(g);
    }
  }

  /** Number of cells of `g` that hold a die (`p1CellCount`). */
  function FilledCells(g: Grid): (n: nat)
    ensures n <= 9
    ensures n == 9 <==> IsBoardFull(g)
  {
    var a, b, c := Column(g, 0), Column(g, 1), Column(g, 2);
    NonZeroOfFilledLength(a);
    NonZeroOfFilledLength(b);
    NonZeroOfFilledLength(c);
    |NonZero(a)| + |NonZero(b)| + |NonZero(c)|
  }

  /** Changing one column changes the number of dice by that column's change. */
  lemma FilledCellsOfColumnChange(g: Grid, h: Grid, col: int)
    requires 0 <= col < 3
    requires forall r, c :: 0 <= r < 3 && 0 <= c < 3 && c != col ==> h[r][c] == g[r][c]
    ensures FilledCells(h) - FilledCells(g) == |NonZero(Column(h, col))| - |NonZero(Column(g, col))|
  {
    forall c | 0 <= c < 3 && c != col
      ensures Column(h, c) == Column(g, c)
    {
    }
  }

  /** A legal move puts exactly one more die on the mover's board. */
  lemma PlaceFillsOneCell(g: Grid, col: int, die: int)
    requires 0 <= col < 3 && FirstEmptyRow(g, col) != -1 && die != 0
    ensures FilledCells(Place(g, col, die)) == FilledCells(g) + 1
  {
    var h := Place(g, col, die);
    FilledCellsOfColumnChange(g, h, col);
    PlaceAddsDie(g, col, die);
    assert |multiset(NonZero(Column(h, col)))| == |multiset(NonZero(Column(g, col)))| + 1;
  }

  /** An attack takes exactly the matching dice off the opponent's board. */
  lemma DestroyEmptiesMatches(g: Grid, col: int, die: int)
    requires 0 <= col < 3 && die != 0
    ensures FilledCells(Destroy(g, col, die)) == FilledCells(g) - Count(Column(g, col), die)
  {
    var h := Destroy(g, col, die);
    DestroyRemovesMatches(g, col, die);
    FilledCellsOfColumnChange(g, h, col);
    CountNonZero(Column(g, col), die);
  }

  /** Whether any cell of `g` shows `v` (`p1Board.some(row => row.includes(v))`). */
  predicate HasValue(g: Grid, v: int)
  {
    v in g[0] || v in g[1] || v in g[2]
  }

  /** Points the computer gains by placing `die` in `col`
      (`calculateScore(tempCpuBoard) - initialCpuScore`), in closed form: the
      die's group in the column grows from `n` to `n + 1` dice.
      `ComboGainIsScoreGain` proves it equal to the difference of the scores. */
  function ComboGain(cpu: Grid, col: int, die: int): int
    requires 0 <= col < 3
  {
    die * (2 * Count(Column(cpu, col), die) + 1)
  }

  /** Points the player would lose if `die` attacked `col`
      (`p1ScoreBefore - p1ScoreAfter`), in closed form: the worth of the
      destroyed group. `AttackBenefitIsScoreLoss` proves it equal to the
      difference of the scores. */
  function AttackBenefit(opp: Grid, col: int, die: int): int
    requires 0 <= col < 3
  {
    Worth(die, Count(Column(opp, col), die))
  }

  /** The hard tier's price for an attack: destroying low dice, or emptying
      cells on a nearly full board, gives the player room. */
  function AttackCost(opp: Grid, col: int, die: int): int
    requires 0 <= col < 3
  {
    var destroyedCount := Count(Column(opp, col), die);
    (if die <= 2 then destroyedCount * 5 else 0) + (if FilledCells(opp) >= 7 then destroyedCount * 8 else 0)
  }

  /** The attack term (scaled): nothing without a matching die; for the hard
      tier the benefit minus the cost, for the medium tier `3 * count * die`. */
  function AttackScore(opp: Grid, col: int, die: int, tier: Difficulty): int
    requires 0 <= col < 3
  {
    var destroyedCount := Count(Column(opp, col), die);
    if destroyedCount == 0 then 0
    else if tier == Hard then 10 * (AttackBenefit(opp, col, die) - AttackCost(opp, col, die))
    else 30 * destroyedCount * die
  }

  /** The hard tier's extra terms (scaled): the die's own value, the bonus for
      opening a column or adding to a pair, the risk of a high die the player
      could destroy, and the bonus for a column the player has filled. */
  function HardBonus(cpu: Grid, opp: Grid, col: int, die: int): int
    requires 0 <= col < 3
  {
    var myColData := NonZero(Column(cpu, col));
    var playerCanDestroy := FirstEmptyRow(opp, col) != -1;
    die
    + (if |myColData| == 0 then 10 * die else if die in myColData then 5 * die else 0)
    + (if playerCanDestroy && die >= 5 && !HasValue(opp, die) then -20 * die else 0)
    + (if !playerCanDestroy then 20 else 0)
  }

  /** The score the medium and hard tiers give to playing `die` in `col`, times 10. */
  function MoveScore(cpu: Grid, opp: Grid, col: int, die: int, tier: Difficulty): int
    requires 0 <= col < 3
  {
    10 * ComboGain(cpu, col, die) + AttackScore(opp, col, die, tier) + (if tier == Hard then HardBonus(cpu, opp, col, die) else 0)
  }

  /** The combo term is what placing the die adds to the computer's score. */
  lemma ComboGainIsScoreGain(cpu: Grid, col: int, die: int)
    requires 0 <= col < 3 && FirstEmptyRow(cpu, col) != -1 && die != 0
    ensures ComboGain(cpu, col, die) == Score(Place(cpu, col, die)) - Score(cpu)
  {
    PlaceScoreGainClosed(cpu, col, die);
  }

  /** The attack benefit is what the attack removes from the player's score. */
  lemma AttackBenefitIsScoreLoss(opp: Grid, col: int, die: int)
    requires 0 <= col < 3 && die != 0
    ensures AttackBenefit(opp, col, die) == Score(opp) - Score(Destroy(opp, col, die))
  {
    DestroyScoreLoss(opp, col, die);
  }

  /** In the medium tier every column scores above 0, since a die always adds
      at least its own value to the computer's score and an attack only adds;
      the random fallback for a best score of at most 0 therefore never applies. */
  lemma MediumScorePositive(cpu: Grid, opp: Grid, col: int, die: int)
    requires 0 <= col < 3 && 1 <= die <= 6
    ensures MoveScore(cpu, opp, col, die, Medium) > 0
  {
    var n := Count(Column(cpu, col), die);
    var destroyedCount := Count(Column(opp, col), die);
    assert die * (2 * n + 1) >= 1 by {
      assert 2 * n + 1 >= 1;
    }
    assert 30 * destroyedCount * die >= 0 by {
      assert destroyedCount >= 0;
    }
  }

  /** On a board with room, some legal column scores above 0 in the medium
      tier, so the condition `bestScore <= 0` is never met there. */
  lemma MediumHasPositive(cpu: Grid, opp: Grid, die: int)
    requires !IsBoardFull(cpu) && 1 <= die <= 6
    ensures exists c :: c in Available(cpu) && MoveScore(cpu, opp, c, die, Medium) > 0
  {
    NoneAvailableIffFull(cpu);
    var c := Available(cpu)[0];
    assert c in Available(cpu);
    MediumScorePositive(cpu, opp, c, die);
  }

  /** One entry of `scoredMoves`. */
  datatype ScoredMove = ScoredMove(col: int, score: int)

  /** `scoredMoves[0].score` after sorting from best to worst: the highest score. */
  function BestScore(moves: seq<ScoredMove>): (best: int)
    requires |moves| > 0
    ensures forall i :: 0 <= i < |moves| ==> moves[i].score <= best
    ensures exists i :: 0 <= i < |moves| && moves[i].score == best
  {
    if |moves| == 1 then moves[0].score
    else
      var rest := BestScore(moves[1..]);
      assert forall i :: 1 <= i < |moves| ==> moves[i] == moves[1..][i - 1];
      if moves[0].score >= rest then moves[0].score else rest
  }

  /** `bestMoves`: the entries whose score equals `best`, in order. */
  function Ties(moves: seq<ScoredMove>, best: int): (r: seq<ScoredMove>)
    ensures forall m :: m in r <==> m in moves && m.score == best
  {
    if moves == [] then []
    else (if moves[0].score == best then [moves[0]] else []) + Ties(moves[1..], best)
  }

  /** Some entry always reaches the highest score, so `bestMoves` is never empty. */
  lemma TiesOfBestNonEmpty(moves: seq<ScoredMove>)
    requires |moves| > 0
    ensures |Ties(moves, BestScore(moves))| > 0
  {
    var i :| 0 <= i < |moves| && moves[i].score == BestScore(moves);
    assert moves[i] in Ties(moves, BestScore(moves));
  }

  /** `scoredMoves` after the loop has scored the first `k` columns of `cols`. */
  function ScoreMoves(cpu: Grid, opp: Grid, die: int, tier: Difficulty, cols: seq<int>, k: nat): (moves: seq<ScoredMove>)
    requires forall i :: 0 <= i < |cols| ==> 0 <= cols[i] < 3
    requires k <= |cols|
    ensures |moves| == k
  {
    if k == 0 then []
    else ScoreMoves(cpu, opp, die, tier, cols, k - 1) + [ScoredMove(cols[k - 1], MoveScore(cpu, opp, cols[k - 1], die, tier))]
  }

  /** Entry `j` of the table is column `cols[j]` with its own score. */
  lemma {:induction false} ScoreMovesAt(cpu: Grid, opp: Grid, die: int, tier: Difficulty, cols: seq<int>, k: nat, j: int)
    requires forall i :: 0 <= i < |cols| ==> 0 <= cols[i] < 3
    requires 0 <= j < k <= |cols|
    ensures ScoreMoves(cpu, opp, die, tier, cols, k)[j] == ScoredMove(cols[j], MoveScore(cpu, opp, cols[j], die, tier))
  {
    if j < k - 1 {
      ScoreMovesAt(cpu, opp, die, tier, cols, k - 1, j);
      ScoreMovesExtends(cpu, opp, die, tier, cols, k, j);
    }
  }

  /** Scoring one more column leaves the earlier entries of the table alone. */
  lemma ScoreMovesExtends(cpu: Grid, opp: Grid, die: int, tier: Difficulty, cols: seq<int>, k: nat, j: int)
    requires forall i :: 0 <= i < |cols| ==> 0 <= cols[i] < 3
    requires 0 <= j < k - 1 && k <= |cols|
    ensures ScoreMoves(cpu, opp, die, tier, cols, k)[j] == ScoreMoves(cpu, opp, die, tier, cols, k - 1)[j]
  {
  }

  /** No legal column scores above the best score of the table. */
  lemma ScoreMovesBounded(cpu: Grid, opp: Grid, die: int, tier: Difficulty, moves: seq<ScoredMove>)
    requires Available(cpu) != [] && moves == ScoreMoves(cpu, opp, die, tier, Available(cpu), |Available(cpu)|)
    ensures forall c :: c in Available(cpu) ==> MoveScore(cpu, opp, c, die, tier) <= BestScore(moves)
  {
    var cols := Available(cpu);
    forall c | c in cols
      ensures MoveScore(cpu, opp, c, die, tier) <= BestScore(moves)
    {
      var i :| 0 <= i < |cols| && cols[i] == c;
      ScoreMovesAt(cpu, opp, die, tier, cols, |cols|, i);
    }
  }

  /** When the best score of the table is at most 0, no legal column scores above 0. */
  lemma NoPositiveScore(cpu: Grid, opp: Grid, die: int, tier: Difficulty, moves: seq<ScoredMove>)
    requires Available(cpu) != [] && moves == ScoreMoves(cpu, opp, die, tier, Available(cpu), |Available(cpu)|)
    requires BestScore(moves) <= 0
    ensures !exists c :: c in Available(cpu) && MoveScore(cpu, opp, c, die, tier) > 0
  {
    ScoreMovesBounded(cpu, opp, die, tier, moves);
  }

  /** Any entry tied for the best score is a legal column that no legal column beats. */
  lemma TiedMoveIsBest(cpu: Grid, opp: Grid, die: int, tier: Difficulty, moves: seq<ScoredMove>, m: ScoredMove)
    requires Available(cpu) != [] && moves == ScoreMoves(cpu, opp, die, tier, Available(cpu), |Available(cpu)|)
    requires m in Ties(moves, BestScore(moves))
    ensures 0 <= m.col < 3 && FirstEmptyRow(cpu, m.col) != -1
    ensures forall c :: c in Available(cpu) ==> MoveScore(cpu, opp, c, die, tier) <= MoveScore(cpu, opp, m.col, die, tier)
  {
    var cols := Available(cpu);
    var i :| 0 <= i < |moves| && moves[i] == m;
    ScoreMovesAt(cpu, opp, die, tier, cols, |cols|, i);
    assert m.col in cols;
    ScoreMovesBounded(cpu, opp, die, tier, moves);
  }

  /** The loop of `cpuChooseColumn()` that scores every legal column in turn. */
  method ScoreAvailable(cpu: Grid, opp: Grid, die: int, tier: Difficulty) returns (scoredMoves: seq<ScoredMove>)
    ensures scoredMoves == ScoreMoves(cpu, opp, die, tier, Available(cpu), |Available(cpu)|)
  {
    var availableCols := Available(cpu);
    scoredMoves := [];
    var k := 0;
    while k < |availableCols|
      invariant 0 <= k <= |availableCols|
      invariant scoredMoves == ScoreMoves(cpu, opp, die, tier, availableCols, k)
    {
      var c := availableCols[k];
      scoredMoves := scoredMoves + [ScoredMove(c, MoveScore(cpu, opp, c, die, tier))];
      k := k + 1;
    }
  }

  /** `availableCols[Math.floor(Math.random() * availableCols.length)]`: any
      one of the legal columns. */
  method PickAvailable(availableCols: seq<int>) returns (col: int)
    requires |availableCols| > 0
    ensures col in availableCols
  {
    var i :| 0 <= i < |availableCols|;
    col := availableCols[i];
  }

  /** `cpuChooseColumn()`: the column the computer plays with `die`, or -1 when
      its board is full. The easy tier, and the medium tier when no column
      scores above 0, take any legal column; otherwise the result is a legal
      column of the highest score. `Math.random` is a nondeterministic choice. */
  method ChooseColumn(cpu: Grid, opp: Grid, die: int, tier: Difficulty) returns (col: int)
    ensures col == -1 <==> IsBoardFull(cpu)
    ensures col != -1 ==> 0 <= col < 3 && FirstEmptyRow(cpu, col) != -1
    ensures col != -1 && (tier == Hard || (tier == Medium && exists c :: c in Available(cpu) && MoveScore(cpu, opp, c, die, tier) > 0)) ==>
      forall c :: c in Available(cpu) ==> MoveScore(cpu, opp, c, die, tier) <= MoveScore(cpu, opp, col, die, tier)
  {
    NoneAvailableIffFull(cpu);
    var availableCols := Available(cpu);
    if |availableCols| == 0 {
      return -1;
    }
    assert !IsBoardFull(cpu);
    if tier == Easy {
      col := PickAvailable(availableCols);
      return;
    }
    var scoredMoves := ScoreAvailable(cpu, opp, die, tier);
    var bestScore := BestScore(scoredMoves);
    var bestMoves := Ties(scoredMoves, bestScore);
    if tier == Medium && bestScore <= 0 {
      NoPositiveScore(cpu, opp, die, tier, scoredMoves);
      col := PickAvailable(availableCols);
      return;
    }
    TiesOfBestNonEmpty(scoredMoves);
    var i :| 0 <= i < |bestMoves|;
    var m := bestMoves[i];
    TiedMoveIsBest(cpu, opp, die, tier, scoredMoves, m);
    col := m.col;
  }

  /** A lone 5 at the base of the player's column, attacked with a 5: the die
      is destroyed, the column is left empty and the attack is worth 5 points. */
  lemma AttackOnLoneFive()
    ensures Destroy([[5, 0, 0], [0, 0, 0], [0, 0, 0]], 0, 5) == Empty
    ensures AttackBenefit([[5, 0, 0], [0, 0, 0], [0, 0, 0]], 0, 5) == 5
  {
    var g: Grid := [[5, 0, 0], [0, 0, 0], [0, 0, 0]];
    assert Column(g, 0) == [5, 0, 0];
    assert ZeroOut([5, 0, 0], 5) == [0, 0, 0];
    var cleared := SetColumn(g, 0, [0, 0, 0]);
    GridEq(cleared, Empty);
    assert Column(Empty, 0) == [0, 0, 0];
    NonZeroOfBlank([0, 0, 0]);
    GridEq(Gravity(Empty, 0), Empty);
    assert Count([5, 0, 0], 5) == 1;
  }

  /** Two empty boards and a 6 in the hard tier: every column scores 6 (0.6
      before scaling): 6 points of combo, the die's 0.6, the 6 for opening a
      column, and the 12 taken off for a high die the player could destroy. */
  lemma OpeningSixScoresEqual(col: int)
    requires 0 <= col < 3
    ensures ComboGain(Empty, col, 6) == 6
    ensures MoveScore(Empty, Empty, col, 6, Hard) == 6
  {
    assert Column(Empty, col) == [0, 0, 0];
    assert Count([0, 0, 0], 6) == 0;
    NonZeroOfBlank([0, 0, 0]);
    assert FirstEmptyRow(Empty, col) == 0;
    assert !HasValue(Empty, 6);
  }
}
