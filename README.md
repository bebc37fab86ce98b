# Knucklebones game engine in Dafny

This project models the game engine of a browser Knucklebones game. In the
game, two players each own a 3x3 board of dice, with row 0 as the base. On
each turn, the player to move:

- rolls a die;
- drops it into the lowest empty cell of a column;
- destroys every die of the same value in the opponent's matching column, after which the survivors fall back toward the base.

Score works column by column: `n` dice showing `v` in one column are worth `v * n * n`. The game ends when either board is full, and the higher score wins.

In the original program, everything lives inside one `DOMContentLoaded` closure in `script.js`. The model keeps its logic and drops the page. It has five modules:

- `Board` holds the board primitives: `getFirstEmptyRow`, `isBoardFull` and `applyGravity`.
  - A board value is a `Grid`, a row-major `seq<seq<int>>`.
  - A live board is an `array2<int>`, which `Snapshot` turns into a `Grid`.
  - `ApplyGravity` rewrites the array in place, with the source's two loops. It is proved equal to the pure `Gravity` function.
- `Scoring` holds `calculateScore`.
  - The column tally is `GroupScore`. It takes the first remaining value `v`, adds `v * n * n` for its `n` copies, and recurses on the rest.
  - It is proved equal to the rule as players state it: each die is worth its value times the number of equal dice in its column. It is also proved independent of row order.
- `Move` holds the board part of `handleColumnClick`.
  - `ResolveMove` writes the die into the mover's array.
  - `ClearMatches` zeroes the opponent's matching cells in one pass.
  - Gravity then runs on that column if anything was destroyed.
  - The result is proved equal to the pure `Place` and `Destroy` functions. Lemmas give the exact score change of each.
- `Cpu` holds `cpuChooseColumn` with its easy, medium and hard tiers.
  - Every heuristic term is multiplied by 10, which keeps the hard tier's `die * 0.1` and `die * 0.5` in integers without changing any comparison.
  - In `MoveScore`, the two score differences the source computes on scratch copies (combo gain and attack benefit) are written in closed form. `ComboGainIsScoreGain` and `AttackBenefitIsScoreLoss` prove them equal to the source's differences of `calculateScore`.
  - `Math.random` picks become nondeterministic choices (`:|`). The contract then says which set the answer comes from.
- `Session` holds the closure state (`p1Board`, `p2Board`, `currentPlayer`, `p1Die`, `p2Die`, `gameActive`) as the class `Game`.
  - The handlers are `initializeGame` (the constructor), `handleColumnClick`, `switchTurn`, `endGame` and `triggerCpuLogic`.
  - The invariant `Valid` says four things:
    - every column is packed toward the base;
    - cells hold 0 or a face 1..6;
    - only the player to move holds a die;
    - the game is active exactly while neither board is full.

Behaviours of the source worth noting:

- A move into a full column, or a click after the game has ended, returns without effect and reports no error (script.js:238, 244).
- On two empty boards a 6 gains 6 in every column, the score of a single 6 (`OpeningSixScoresEqual`).
- The medium tier's random fallback for a best score of at most 0 (script.js:184) can never fire for a rolled die (`Cpu.MediumScorePositive`, `Cpu.MediumHasPositive`). `ChooseColumn` keeps the branch, as the source does.

## Model

| member | source | states |
|---|---|---|
| Board.NonZero | script.js:45-50 | `columnValues` and `myColData` (also script.js:78, 111): the column's non-zero values in order, never longer than the column and holding no 0 |
| Board.NonZeroMultiset | script.js:45-50 | the values `applyGravity` collects are exactly the column's dice: the column's multiset with the zeros removed |
| Board.CollectColumn | script.js:45-50 | the first loop of `applyGravity` collects the column's non-zero values from the base up, in order |
| Board.ApplyGravity | script.js:44-54 | the array afterwards holds `Gravity` of its former value: only column `col` is rewritten |
| Board.CompactSettles | script.js:51-53 | the rewritten column keeps its length and its non-zero values in their order; they sit in rows 0..k-1 with zeros above, so the column is packed |
| Board.Gravity | script.js:44-54 | the board value `applyGravity` leaves: column `col` replaced by its non-zero values from the base up with zeros above, every other column kept; `GravitySettles` states this cell by cell |
| Board.GravitySettles | script.js:44-54 | after gravity, column `col` holds its former non-zero values from the base up, in order, with zeros above; every other column is unchanged |
| Board.GravityIdempotent | script.js:44-54 | a second gravity pass on the same column changes nothing |
| Board.CompactFixedIffPacked | script.js:44-54 | gravity leaves a column as it is exactly when that column is already packed |
| Board.FirstZeroFrom | script.js:87-90 | the loop returns -1 exactly when no cell from `from` on is 0; otherwise it returns the first zero at or after `from` |
| Board.FirstEmptyRow | script.js:86-91 | -1 exactly when all three cells of the column are filled; otherwise the smallest row holding 0 |
| Board.FirstEmptyRowOfPacked | script.js:86-91 | in a packed column the first empty row is the number of dice in it, or -1 when there are three |
| Board.IsBoardFull | script.js:93-95 | a board is full when all nine cells are non-zero, the `every` over rows and cells; `FullIffNoEmptyRow` relates it to `FirstEmptyRow` |
| Board.FullIffNoEmptyRow | script.js:93-95 | a board is full (all nine cells non-zero) exactly when no column has an empty row |
| Board.EmptyIsOpen | script.js:199-200 | a new all-zero board is packed, holds only faces and is not full |
| Scoring.GroupScore | script.js:80-81 | the `counts` reduction and the `Object.entries` sum for one column: each distinct value `v` with `n` copies adds `v * n * n`; `GroupScoreIsDieValueSum` and `GroupScorePermutation` characterise it |
| Scoring.ColumnScore | script.js:75-81 | one column's score: the grouped tally of its non-zero values |
| Scoring.Score | script.js:73-84 | `calculateScore`: the sum of the three column scores; `ScoreDependsOnCounts`, `ScoreNonNegative` and `ScoreOfEmpty` characterise it |
| Scoring.CountIsMultiplicity | script.js:80 | the tally of `v` is its multiplicity in the column |
| Scoring.WithoutMultiset | script.js:80-81 | removing a value's group leaves exactly the other values |
| Scoring.GroupScorePick | script.js:80-81 | any value `v` present contributes `v * n * n` for its `n` copies, whichever group is taken first |
| Scoring.GroupScorePermutation | script.js:80-81 | the tally depends only on the multiset of values, not on their order |
| Scoring.GroupScoreAdd | script.js:80-81 | one more die `d` raises the tally from `d*n*n` to `d*(n+1)*(n+1)` for that group and leaves the rest |
| Scoring.GroupScoreIsDieValueSum | script.js:80-81 | the tally equals the sum, over the dice, of each die's value times the number of equal dice in its column |
| Scoring.ColumnScoreOrderFree | script.js:75-81 | a column's score depends only on the multiset of its values |
| Scoring.ScoreDependsOnCounts | script.js:73-84 | two boards whose columns hold the same values in any row order score the same |
| Scoring.ScoreNonNegative | script.js:73-84 | a board of faces never scores below 0 |
| Scoring.ScoreOfEmpty | script.js:73-84 | the empty board scores 0 |
| Scoring.ScoreOfThreeTwos | script.js:73-84 | three 2s in one column score 2*3*3 = 18 |
| Move.ZeroOut | script.js:248-256 | the zeroing pass as a value: same length, each cell equal to the die becomes 0 and every other cell is kept |
| Move.ZeroOutNonZero | script.js:248-256 | zeroing the opponent's matching cells removes exactly the die's group from the column's dice |
| Move.Place | script.js:243-246 | the die is written at the first empty row of `col`; every other cell is unchanged |
| Move.Destroy | script.js:247-257 | the opponent's board after the attack: the matching cells of `col` zeroed, then gravity on `col` if any matched; `DestroyRemovesMatches` and `DestroyScoreLoss` characterise it |
| Move.DestroyWithoutMatch | script.js:248-257 | with no matching die the attack changes nothing |
| Move.DestroyRemovesMatches | script.js:248-257 | after the attack, the column's dice are the former ones without the die's group; no match is left; the column is packed if anything fell; other columns are unchanged |
| Move.PlaceKeepsSettled | script.js:243-246 | placing at the first empty row keeps every column packed |
| Move.DestroyKeepsSettled | script.js:248-257 | the attack, with its gravity pass, keeps every column packed |
| Move.MoveKeepsFaces | script.js:246-257 | both boards still hold only 0 or faces after a move |
| Move.PlaceAddsDie | script.js:246 | the mover's column gains exactly one die of the placed value |
| Move.PlaceScoreGain | script.js:112-118 | placing `d` next to `n` equal dice raises the mover's score by `d*(n+1)^2 - d*n^2` |
| Move.PlaceScoreGainClosed | script.js:112-118 | the same gain in closed form, `d * (2n + 1)` |
| Move.DestroyScoreLoss | script.js:123-129 | the attack lowers the opponent's score by exactly `d * n * n` for the `n` matching dice |
| Move.ClearMatches | script.js:247-256 | the loop zeroes exactly the matching cells of column `col`, leaves every other cell, and reports whether any matched |
| Move.ResolveMove | script.js:243-257 | a full column changes neither board; otherwise the mover's board becomes `Place` and the opponent's `Destroy` of their former values |
| Cpu.Available | script.js:101 | a column is listed exactly when it is in 0..2 and has an empty row |
| Cpu.NoneAvailableIffFull | script.js:101-102 | no column is available exactly when the board is full |
| Cpu.FilledCells | script.js:134 | the number of dice on a board is at most 9, and is 9 exactly when the board is full |
| Cpu.FilledCellsOfColumnChange | script.js:134 | changing one column changes the count of dice by that column's change |
| Cpu.PlaceFillsOneCell | script.js:246 | a legal move puts exactly one more die on the mover's board |
| Cpu.DestroyEmptiesMatches | script.js:248-257 | the attack takes exactly the matching dice off the opponent's board |
| Cpu.ComboGain | script.js:114-118 | `calculateScore(tempCpuBoard) - initialCpuScore` in closed form, `die * (2n + 1)` for the `n` equal dice already in the column; `ComboGainIsScoreGain` proves it equal to the score difference |
| Cpu.AttackBenefit | script.js:124-129 | `p1ScoreBefore - p1ScoreAfter` in closed form, `die * n * n` for the `n` matching dice; `AttackBenefitIsScoreLoss` proves it equal to the score difference |
| Cpu.HasValue | script.js:163 | whether any cell of the player's board shows the value, `p1Board.some(row => row.includes(p2Die))` |
| Cpu.AttackCost | script.js:132-143 | the hard tier's cost of an attack: 5 per destroyed die when the die is 1 or 2, plus 8 per destroyed die when the player's board holds 7 or more dice |
| Cpu.AttackScore | script.js:121-146 | the attack term times 10: 0 without a matching die; in the hard tier 10 * (benefit - cost); in the medium tier 10 * 3 * count * die |
| Cpu.HardBonus | script.js:150-171 | the hard tier's extra terms times 10: `die` for `die * 0.1`; `10 * die` for opening an empty column, else `5 * die` for `die * 0.5` when the column already holds the value; `-20 * die` when the player can still attack the column, the die is 5 or 6 and the player has no die of that value; `+20` when the player's column is full |
| Cpu.MoveScore | script.js:109-172 | the score of one column times 10: the combo gain plus the attack term, plus the hard-tier terms in the hard tier; `ComboGainIsScoreGain` and `AttackBenefitIsScoreLoss` tie its score differences to `Score` |
| Cpu.ComboGainIsScoreGain | script.js:113-118 | the combo term equals the score of the board with the die placed minus the current score |
| Cpu.AttackBenefitIsScoreLoss | script.js:123-129 | the attack benefit equals the opponent's score before minus after the removal and gravity |
| Cpu.MediumScorePositive | script.js:109-147 | in the medium tier every column scores above 0 |
| Cpu.MediumHasPositive | script.js:184 | on a board with room, some legal column scores above 0 in the medium tier, so `bestScore <= 0` is never met there |
| Cpu.BestScore | script.js:178-179 | the best score bounds every entry and is reached by some entry |
| Cpu.Ties | script.js:180 | `bestMoves` holds exactly the entries whose score is the best score |
| Cpu.TiesOfBestNonEmpty | script.js:178-180 | some entry always has the best score, so `bestMoves` is never empty |
| Cpu.ScoreMoves | script.js:108-175 | `scoredMoves` after the first `k` legal columns: exactly `k` entries, entry `j` being column `cols[j]` with its `MoveScore` (`ScoreMovesAt`) |
| Cpu.ScoreMovesAt | script.js:109-174 | entry `j` of `scoredMoves` is the `j`-th legal column with its heuristic score |
| Cpu.ScoreMovesBounded | script.js:178-179 | no legal column scores above the best score |
| Cpu.NoPositiveScore | script.js:184 | a best score of at most 0 means no legal column scores above 0 |
| Cpu.TiedMoveIsBest | script.js:180-189 | any entry tied for the best is a legal column that no legal column outscores |
| Cpu.ScoreAvailable | script.js:108-175 | the loop builds `scoredMoves` for the legal columns in order |
| Cpu.PickAvailable | script.js:105 | the random pick is one of the legal columns |
| Cpu.ChooseColumn | script.js:100-190 | -1 exactly when the CPU board is full, else a legal column. The easy tier and the medium fallback may return any legal column. In the hard tier, and in the medium tier when some column scores above 0, the result has the highest heuristic score |
| Cpu.AttackOnLoneFive | script.js:121-129 | a lone 5 attacked with a 5 is destroyed, leaving an empty column, for a benefit of 5 |
| Cpu.OpeningSixScoresEqual | script.js:110-171 | on two empty boards, a 6 in the hard tier scores the same (0.6 before scaling) in every column, so every column is a best move |
| Session.Winner | script.js:323-325 | player 1 wins exactly when their score is higher, player 2 exactly when theirs is higher, a draw exactly when they are equal |
| Session.WinnerSymmetric | script.js:323-325 | the rule favours neither player: swapping the two scores swaps the outcome |
| Session.Game.constructor | script.js:193-204 | the game starts with two fresh empty boards, player 1 to move with a die in 1..6, no die for player 2, and the invariant established |
| Session.Game.EndGame | script.js:317-325 | the game stops and the outcome is the winner rule on the two boards' scores |
| Session.Game.SwitchTurn | script.js:266-282 | if either board is full, the game ends with the winner rule; otherwise the other player moves with a fresh die in 1..6 and the idle die is cleared; the invariant is kept |
| Session.Game.HandleColumnClick | script.js:237-264 | nothing changes when the game is over or the column is full. Otherwise the mover's board becomes `Place` and the opponent's `Destroy`, and the turn passes or the game ends. When it ends, the outcome is the winner rule on the two scores and the player to move and both dice are as they were. The invariant is kept |
| Session.Game.CpuTurn | script.js:308-316 | the computer plays a legal column; in the medium and hard tiers that column has the highest score of its tier, since the medium fallback cannot fire for a rolled die; the boards change as for any move; a move that ends the game reports the winner rule on the two scores, with player 2 still to move and both dice as they were |

## Left out

- DOM lookups, `createBoard`, `updateDisplay`, `switchTurnUI`, `manageEventListeners`, labels and messages are presentation only. `EndGame` returns the outcome instead of writing the message.
- `animateDieRoll` and `animateCell` are presentation only.
- The `setTimeout` callbacks are not modelled as pending events. `HandleColumnClick` runs the delayed `switchTurn` at once, and `CpuTurn` runs as soon as it is called.
  - The model does not capture timers that outlive their game. The main-menu button (script.js:348-352) cancels none of the pending `switchTurn` and `triggerCpuLogic` callbacks (script.js:261-264, 285), and every handler reads the shared closure variables.
  - A stale callback can therefore fire in the next game. A late `triggerCpuLogic` while player 1 is to move plays player 1's die in the easy tier, and throws in the other tiers, where `p2Die` is null. A late `switchTurn` can hand the first turn to player 2.
- Menu wiring (`gameMode`, the difficulty buttons, the main-menu and back buttons) is left out. `gameMode` decides whether `triggerCpuLogic` is scheduled, so `CpuTurn` is a separate entry point. It also decides whether player 2's columns accept clicks (script.js:302-306); the model's `HandleColumnClick` moves for whichever player is to move. In the model, a return to the menu discards a `Game`, and a new game is a new `Game` with no callbacks left over.
- `Math.random` is left out: dice and column picks are nondeterministic choices from the legal set. How often each value or column is picked is not modelled.
- The floating-point arithmetic of the hard tier is not modelled: scores are exact integers, scaled by 10. JavaScript doubles such as `6 * 0.1` carry rounding error. Two columns whose exact scores are equal could therefore compare unequal in the source and drop out of `bestMoves`; the model treats them as tied.
- The order `scoredMoves.sort` leaves equal entries in is not modelled, nor the order of `Object.entries` in `calculateScore`. Neither can change a result: the pick among ties is random, and the sum is order-independent (`Scoring.GroupScorePermutation`).
- The `col === -1` branch of `triggerCpuLogic` is not modelled, because it cannot be reached. The computer only moves while the game is active, which under `Valid` means its board is not full, and `ChooseColumn` then returns a legal column.
- Cpu.ComboGainIsScoreGain and Cpu.AttackBenefitIsScoreLoss require a non-zero die. The source only scores with a rolled die, 1..6.
