/** Move resolution, the board part of `handleColumnClick`: the mover's die
    lands on the lowest empty row of the chosen column, every opponent die of
    the same value in that column is destroyed, and the opponent's column
    falls back into place if anything was destroyed. */
module Move {
  import opened Board
  import opened Scoring

  /** The column after every cell equal to `v` has been set to 0. */
  function ZeroOut(s: seq<int>, v: int): (r: seq<int>)
    ensures |r| == |s|
    ensures forall i :: 0 <= i < |s| ==> r[i] == if s[i] == v then 0 else s[i]
  {
    if s == [] then [] else [if s[0] == v then 0 else s[0]] + ZeroOut(s[1..], v)
  }

  /** Clearing the cells equal to a die removes exactly that value from the
      column's dice and keeps the others in order. */
  lemma {:induction false} ZeroOutNonZero(s: seq<int>, v: int)
    requires v != 0
    ensures NonZero(ZeroOut(s, v)) == Without(NonZero(s), v)
  {
    if s != [] {
      var x, t := s[0], s[1..];
      ZeroOutNonZero(t, v);
      var z := ZeroOut(s, v);
      assert z[1..] == ZeroOut(t, v);
      assert NonZero(z) == NonZero([z[0]] + z[1..]);
      if x == 0 {
        assert NonZero(s) == NonZero(t);
      } else {
        assert NonZero(s) == [x] + NonZero(t);
        WithoutCons(x, NonZero(t), v);
      }
    }
  }

  /** The board of the mover after writing `die` into the first empty row of
      column `col` (the move is only made when that row exists). */
  function Place(g: Grid, col: int, die: int): (h: Grid)
    requires 0 <= col < 3 && FirstEmptyRow(g, col) != -1
    ensures h[FirstEmptyRow(g, col)][col] == die
    ensures forall r, c :: 0 <= r < 3 && 0 <= c < 3 && (r, c) != (FirstEmptyRow(g, col), col) ==> h[r][c] == g[r][c]
  {
    var row := FirstEmptyRow(g, col);
    g[row := g[row][col := die]]
  }

  /** The board of the opponent after the attack on column `col` with `die`. */
  function Destroy(g: Grid, col: int, die: int): Grid
    requires 0 <= col < 3
  {
    var cleared := SetColumn(g, col, ZeroOut(Column(g, col), die));
    if die in Column(g, col) then Gravity(cleared, col) else cleared
  }

  /** With no die of the attacking value in the column, the attack changes nothing. */
  lemma DestroyWithoutMatch(g: Grid, col: int, die: int)
    requires 0 <= col < 3 && die !in Column(g, col)
    ensures Destroy(g, col, die) == g
  {
    var s := Column(g, col);
    assert ZeroOut(s, die) == s;
    GridEq(Destroy(g, col, die), g);
  }

  /** The attack removes every die of the attacking value from the column,
      keeps the other dice in order, packs them from the base when anything was
      destroyed, and leaves the other columns alone. */
  lemma DestroyRemovesMatches(g: Grid, col: int, die: int)
    requires 0 <= col < 3 && die != 0
    ensures NonZero(Column(Destroy(g, col, die), col)) == Without(NonZero(Column(g, col)), die)
    ensures die !in Column(Destroy(g, col, die), col)
    ensures die in Column(g, col) ==> Packed(Column(Destroy(g, col, die), col))
    ensures forall r, c :: 0 <= r < 3 && 0 <= c < 3 && c != col ==> Destroy(g, col, die)[r][c] == g[r][c]
  {
    var s := Column(g, col);
    var cleared := SetColumn(g, col, ZeroOut(s, die));
    ZeroOutNonZero(s, die);
    var h := Destroy(g, col, die);
    if die in s {
      GravitySettles(cleared, col);
      CompactSettles(ZeroOut(s, die));
      assert Column(h, col) == Compact(ZeroOut(s, die));
      assert die !in Column(h, col);
    } else {
      DestroyWithoutMatch(g, col, die);
    }
  }

  /** A packed column stays packed when a die lands on its first empty row. */
  lemma PlaceKeepsSettled(g: Grid, col: int, die: int)
    requires 0 <= col < 3 && FirstEmptyRow(g, col) != -1
    requires Settled(g) && die != 0
    ensures Settled(Place(g, col, die))
  {
    var h := Place(g, col, die);
    var row := FirstEmptyRow(g, col);
    forall c | 0 <= c < 3
      ensures Packed(Column(h, c))
    {
      assert Packed(Column(g, c));
      if c == col {
        forall i, j | 0 <= i < j < 3 && Column(h, c)[i] == 0
          ensures Column(h, c)[j] == 0
        {
          assert i > row;
        }
      }
    }
  }

  /** The attacked board stays settled. */
  lemma DestroyKeepsSettled(g: Grid, col: int, die: int)
    requires 0 <= col < 3 && Settled(g) && die != 0
    ensures Settled(Destroy(g, col, die))
  {
    var h := Destroy(g, col, die);
    DestroyRemovesMatches(g, col, die);
    if die !in Column(g, col) {
      DestroyWithoutMatch(g, col, die);
    }
    forall c | 0 <= c < 3
      ensures Packed(Column(h, c))
    {
      assert Packed(Column(g, c));
      if c != col {
        assert Column(h, c) == Column(g, c);
      }
    }
  }

  /** Both boards keep holding die faces only. */
  lemma MoveKeepsFaces(g: Grid, o: Grid, col: int, die: int)
    requires 0 <= col < 3 && FirstEmptyRow(g, col) != -1
    requires Faces(g) && Faces(o) && 1 <= die <= 6
    ensures Faces(Place(g, col, die)) && Faces(Destroy(o, col, die))
  {
    var h := Destroy(o, col, die);
    var s := Column(o, col);
    if die in s {
      var z := ZeroOut(s, die);
      CompactSettles(z);
      NonZeroSubset(z);
      forall r | 0 <= r < 3
        ensures 0 <= h[r][col] <= 6
      {
        assert h[r][col] == Compact(z)[r];
        if r < |NonZero(z)| {
          assert NonZero(z)[r] in NonZero(z);
        }
      }
    }
  }

  /** Filling an empty cell with `x` adds one `x` to the dice of a column. */
  lemma {:induction false} NonZeroFill(s: seq<int>, i: int, x: int)
    requires 0 <= i < |s| && s[i] == 0 && x != 0
    ensures multiset(NonZero(s[i := x])) == multiset(NonZero(s)) + multiset{x}
  {
    var u := s[i := x];
    if i == 0 {
      assert u[1..] == s[1..];
    } else {
      assert u[1..] == s[1..][i - 1 := x];
      NonZeroFill(s[1..], i - 1, x);
    }
  }

  /** The placed die joins the column's dice, and nothing else does. */
  lemma PlaceAddsDie(g: Grid, col: int, die: int)
    requires 0 <= col < 3 && FirstEmptyRow(g, col) != -1 && die != 0
    ensures multiset(NonZero(Column(Place(g, col, die), col))) == multiset(NonZero(Column(g, col))) + multiset{die}
  {
    var row := FirstEmptyRow(g, col);
    var s := Column(g, col);
    assert Column(Place(g, col, die), col) == s[row := die];
    NonZeroFill(s, row, die);
  }

  /** Placing a die next to `n` equal dice raises the column's score by the
      growth of that group, from `Worth(die, n)` to `Worth(die, n + 1)`. */
  lemma PlaceColumnGain(g: Grid, col: int, die: int)
    requires 0 <= col < 3 && FirstEmptyRow(g, col) != -1 && die != 0
    ensures var n := Count(Column(g, col), die);
      ColumnScore(Column(Place(g, col, die), col)) == ColumnScore(Column(g, col)) + Worth(die, n + 1) - Worth(die, n)
  {
    var s, t := Column(g, col), Column(Place(g, col, die), col);
    PlaceAddsDie(g, col, die);
    GroupScoreAdd(NonZero(s), NonZero(t), die);
    CountNonZero(s, die);
  }

  /** The mover's score grows by exactly what the chosen column gains. */
  lemma PlaceScoreGain(g: Grid, col: int, die: int)
    requires 0 <= col < 3 && FirstEmptyRow(g, col) != -1 && die != 0
    ensures var n := Count(Column(g, col), die);
      Score(Place(g, col, die)) == Score(g) + Worth(die, n + 1) - Worth(die, n)
  {
    PlaceColumnGain(g, col, die);
    ScoreOfColumnChange(g, Place(g, col, die), col);
  }

  /** The same gain in closed form: `die * (2 * n + 1)`. */
  lemma PlaceScoreGainClosed(g: Grid, col: int, die: int)
    requires 0 <= col < 3 && FirstEmptyRow(g, col) != -1 && die != 0
    ensures Score(Place(g, col, die)) == Score(g) + die * (2 * Count(Column(g, col), die) + 1)
  {
    var n := Count(Column(g, col), die);
    var before, after := Score(g), Score(Place(g, col, die));
    assert after == before + Worth(die, n + 1) - Worth(die, n) by { PlaceScoreGain(g, col, die); }
    assert Worth(die, n + 1) - Worth(die, n) == die * (2 * n + 1) by { WorthStep(die, n); }
  }

  /** The attack takes `Worth(die, n) = die * n * n` off the opponent's score,
      `n` being the number of destroyed dice. */
  lemma DestroyScoreLoss(g: Grid, col: int, die: int)
    requires 0 <= col < 3 && die != 0
    ensures Score(Destroy(g, col, die)) == Score(g) - Worth(die, Count(Column(g, col), die))
  {
    var h := Destroy(g, col, die);
    var s := Column(g, col);
    DestroyRemovesMatches(g, col, die);
    GroupScoreWithout(NonZero(s), die);
    CountNonZero(s, die);
    ScoreOfColumnChange(g, h, col);
  }

  /** The destroying pass of `handleColumnClick`: every cell of column `col`
      equal to `die` is set to 0, and the result says whether any was. */
  method ClearMatches(opponent: array2<int>, col: int, die: int) returns (cellsDestroyed: bool)
    requires opponent.Length0 == 3 && opponent.Length1 == 3 && 0 <= col < 3
    modifies opponent
    ensures cellsDestroyed <==> die in Column(old(Snapshot(opponent)), col)
    ensures Snapshot(opponent) == SetColumn(old(Snapshot(opponent)), col, ZeroOut(Column(old(Snapshot(opponent)), col), die))
  {
    ghost var before := Column(Snapshot(opponent), col);
    cellsDestroyed := false;
    var r := 0;
    while r < 3
      invariant 0 <= r <= 3
      invariant forall i :: 0 <= i < 3 ==> opponent[i, col] == if i < r && before[i] == die then 0 else before[i]
      invariant forall i, c :: 0 <= i < 3 && 0 <= c < 3 && c != col ==> opponent[i, c] == old(opponent[i, c])
      invariant cellsDestroyed <==> die in before[..r]
    {
      assert before[..r + 1] == before[..r] + [before[r]];
      if opponent[r, col] == die {
        opponent[r, col] := 0;
        cellsDestroyed := true;
      }
      r := r + 1;
    }
    assert before[..3] == before;
    GridEq(Snapshot(opponent), SetColumn(old(Snapshot(opponent)), col, ZeroOut(before, die)));
  }

  /** The board part of `handleColumnClick`: place the mover's die, destroy the
      matching opponent dice in one pass over the column, then let the
      opponent's column fall if anything was destroyed. A full column (`row ==
      -1`) is refused and changes nothing. */
  method ResolveMove(active: array2<int>, opponent: array2<int>, col: int, die: int) returns (row: int)
    requires active.Length0 == 3 && active.Length1 == 3
    requires opponent.Length0 == 3 && opponent.Length1 == 3
    requires active != opponent && 0 <= col < 3
    modifies active, opponent
    ensures row == FirstEmptyRow(old(Snapshot(active)), col)
    ensures row == -1 ==> Snapshot(active) == old(Snapshot(active)) && Snapshot(opponent) == old(Snapshot(opponent))
    ensures row != -1 ==>
      Snapshot(active) == Place(old(Snapshot(active)), col, die) &&
      Snapshot(opponent) == Destroy(old(Snapshot(opponent)), col, die)
  {
    row := FirstEmptyRow(Snapshot(active), col);
    if row == -1 {
      return;
    }
    active[row, col] := die;
    GridEq(Snapshot(active), Place(old(Snapshot(active)), col, die));
    ghost var placed := Snapshot(active);
    var cellsDestroyed := ClearMatches(opponent, col, die);
    if cellsDestroyed {
      ApplyGravity(opponent, col);
    }
    assert Snapshot(active) == placed;
  }
}
