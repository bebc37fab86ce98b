/** Board primitives of the Knucklebones engine: a board is a 3x3 grid of die
    values, row 0 at the base of every column and 0 marking an empty cell. */
module Board {

  /** A board as the engine holds it, `board[r][c]`: three rows of three cells. */
  type Grid = g: seq<seq<int>> | |g| == 3 && |g[0]| == 3 && |g[1]| == 3 && |g[2]| == 3
    witness [[0, 0, 0], [0, 0, 0], [0, 0, 0]]

  /** The board a new game starts with. */
  const Empty: Grid := [[0, 0, 0], [0, 0, 0], [0, 0, 0]]

  /** Column `c` of `g`, read from the base upwards. */
  function Column(g: Grid, c: int): (s: seq<int>)
    requires 0 <= c < 3
    ensures |s| == 3 && forall r :: 0 <= r < 3 ==> s[r] == g[r][c]
  {
    [g[0][c], g[1][c], g[2][c]]
  }

  /** `g` with column `c` replaced by `s`. */
  function SetColumn(g: Grid, c: int, s: seq<int>): (h: Grid)
    requires 0 <= c < 3 && |s| == 3
    ensures Column(h, c) == s
    ensures forall r, k :: 0 <= r < 3 && 0 <= k < 3 && k != c ==> h[r][k] == g[r][k]
  {
    [g[0][c := s[0]], g[1][c := s[1]], g[2][c := s[2]]]
  }

  /** Two boards that agree on every cell are the same board. */
  lemma GridEq(g: Grid, h: Grid)
    requires forall r, c :: 0 <= r < 3 && 0 <= c < 3 ==> g[r][c] == h[r][c]
    ensures g == h
  {
    assert g[0] == h[0] && g[1] == h[1] && g[2] == h[2];
  }

  /** The non-zero values of `s` in their original order (`columnValues`). */
  function NonZero(s: seq<int>): (r: seq<int>)
    ensures |r| <= |s|
    ensures forall i :: 0 <= i < |r| ==> r[i] != 0
  {
    if s == [] then []
    else (if s[0] != 0 then [s[0]] else []) + NonZero(s[1..])
  }

  /** Filtering out the zeros keeps every non-zero value as often as it occurs. */
  lemma {:induction false} NonZeroMultiset(s: seq<int>)
    ensures multiset(NonZero(s)) == multiset(s)[0 := 0]
  {
    if s != [] {
      var t := s[1..];
      NonZeroMultiset(t);
      assert s == [s[0]] + t;
      assert multiset(s) == multiset{s[0]} + multiset(t);
      assert NonZero(s) == (if s[0] != 0 then [s[0]] else []) + NonZero(t);
    }
  }

  lemma {:induction false} NonZeroSubset(s: seq<int>)
    ensures forall x :: x in NonZero(s) ==> x in s
  {
    if s != [] {
      NonZeroSubset(s[1..]);
    }
  }

  function Zeros(n: nat): (z: seq<int>)
    ensures |z| == n && forall i :: 0 <= i < n ==> z[i] == 0
  {
    seq(n, _ => 0)
  }

  /** What gravity makes of a column: its non-zero values first, in order, then zeros. */
  function Compact(s: seq<int>): seq<int>
  {
    NonZero(s) + Zeros(|s| - |NonZero(s)|)
  }

  /** No empty cell lies beneath a filled one. */
  predicate Packed(s: seq<int>)
  {
    forall i, j :: 0 <= i < j < |s| && s[i] == 0 ==> s[j] == 0
  }

  lemma {:induction false} NonZeroAppend(a: seq<int>, b: seq<int>)
    ensures NonZero(a + b) == NonZero(a) + NonZero(b)
  {
    if a == [] {
      assert a + b == b;
    } else {
      assert (a + b)[1..] == a[1..] + b;
      NonZeroAppend(a[1..], b);
    }
  }

  lemma {:induction false} NonZeroOfFilled(s: seq<int>)
    requires forall i :: 0 <= i < |s| ==> s[i] != 0
    ensures NonZero(s) == s
  {
    if s != [] {
      NonZeroOfFilled(s[1..]);
    }
  }

  /** A column has all its cells filled exactly when none of its values is dropped. */
  lemma {:induction false} NonZeroOfFilledLength(s: seq<int>)
    ensures |NonZero(s)| == |s| <==> forall i :: 0 <= i < |s| ==> s[i] != 0
  {
    if s != [] {
      NonZeroOfFilledLength(s[1..]);
      if s[0] != 0 && |NonZero(s)| == |s| {
        forall i | 0 <= i < |s|
          ensures s[i] != 0
        {
          if i > 0 {
            assert s[i] == s[1..][i - 1];
          }
        }
      }
    }
  }

  lemma {:induction false} NonZeroOfBlank(s: seq<int>)
    requires forall i :: 0 <= i < |s| ==> s[i] == 0
    ensures NonZero(s) == []
  {
    if s != [] {
      NonZeroOfBlank(s[1..]);
    }
  }

  /** Gravity keeps the column's length and its non-zero values in order, and
      leaves no gap under a filled cell. */
  lemma CompactSettles(s: seq<int>)
    ensures |Compact(s)| == |s|
    ensures NonZero(Compact(s)) == NonZero(s)
    ensures Packed(Compact(s))
    ensures forall r :: 0 <= r < |NonZero(s)| ==> Compact(s)[r] == NonZero(s)[r]
    ensures forall r :: |NonZero(s)| <= r < |s| ==> Compact(s)[r] == 0
  {
    var a := NonZero(s);
    var z := Zeros(|s| - |a|);
    assert Compact(s) == a + z;
    NonZeroAppend(a, z);
    NonZeroOfFilled(a);
    NonZeroOfBlank(z);
  }

  /** A column that is already packed is left as it is by gravity. */
  lemma {:induction false} CompactOfPacked(s: seq<int>)
    requires Packed(s)
    ensures Compact(s) == s
  {
    if s == [] {
    } else if s[0] == 0 {
      NonZeroOfBlank(s);
    } else {
      assert Packed(s[1..]) by {
        forall i, j | 0 <= i < j < |s[1..]| && s[1..][i] == 0
          ensures s[1..][j] == 0
        {
          assert s[i + 1] == 0;
        }
      }
      CompactOfPacked(s[1..]);
      assert s == [s[0]] + s[1..];
    }
  }

  /** Gravity leaves a column unchanged exactly when it is packed. */
  lemma CompactFixedIffPacked(s: seq<int>)
    ensures Compact(s) == s <==> Packed(s)
  {
    CompactSettles(s);
    if Packed(s) {
      CompactOfPacked(s);
    }
  }

  lemma CompactIdempotent(s: seq<int>)
    ensures Compact(Compact(s)) == Compact(s)
  {
    CompactSettles(s);
    CompactOfPacked(Compact(s));
  }

  /** The effect of `applyGravity(board, col)` on the board's value. */
  function Gravity(g: Grid, col: int): Grid
    requires 0 <= col < 3
  {
    CompactSettles(Column(g, col));
    SetColumn(g, col, Compact(Column(g, col)))
  }

  /** After gravity, column `col` holds its former non-zero values from the base
      up, in their former order, with zeros above; no other column changes. */
  lemma GravitySettles(g: Grid, col: int)
    requires 0 <= col < 3
    ensures var s, x := Column(Gravity(g, col), col), Column(g, col);
      NonZero(s) == NonZero(x) && Packed(s) &&
      (forall r :: 0 <= r < |NonZero(x)| ==> s[r] == NonZero(x)[r]) &&
      (forall r :: |NonZero(x)| <= r < 3 ==> s[r] == 0)
    ensures forall r, c :: 0 <= r < 3 && 0 <= c < 3 && c != col ==> Gravity(g, col)[r][c] == g[r][c]
  {
    CompactSettles(Column(g, col));
  }

  /** A second gravity pass on the same column changes nothing. */
  lemma GravityIdempotent(g: Grid, col: int)
    requires 0 <= col < 3
    ensures Gravity(Gravity(g, col), col) == Gravity(g, col)
  {
    var h := Gravity(g, col);
    var s := Compact(Column(g, col));
    assert Column(h, col) == s;
    CompactIdempotent(Column(g, col));
    GridEq(Gravity(h, col), h);
  }

  /** The first index `k >= from` with `s[k] == 0`, or -1 if there is none. */
  function FirstZeroFrom(s: seq<int>, from: nat): (k: int)
    requires from <= |s|
    ensures k == -1 <==> forall i :: from <= i < |s| ==> s[i] != 0
    ensures k != -1 ==> from <= k < |s| && s[k] == 0 && forall i :: from <= i < k ==> s[i] != 0
    decreases |s| - from
  {
    if from == |s| then -1
    else if s[from] == 0 then from
    else FirstZeroFrom(s, from + 1)
  }

  /** `getFirstEmptyRow(board, col)`: the lowest empty row of column `c`, or -1. */
  function FirstEmptyRow(g: Grid, c: int): (r: int)
    requires 0 <= c < 3
    ensures -1 <= r < 3
    ensures r == -1 <==> forall i :: 0 <= i < 3 ==> g[i][c] != 0
    ensures r != -1 ==> g[r][c] == 0 && forall i :: 0 <= i < r ==> g[i][c] != 0
  {
    FirstZeroFrom(Column(g, c), 0)
  }

  /** `isBoardFull(board)`. */
  predicate IsBoardFull(g: Grid)
  {
    forall r, c :: 0 <= r < 3 && 0 <= c < 3 ==> g[r][c] != 0
  }

  /** A board is full exactly when no column has an empty row. */
  lemma FullIffNoEmptyRow(g: Grid)
    ensures IsBoardFull(g) <==> forall c :: 0 <= c < 3 ==> FirstEmptyRow(g, c) == -1
  {
    var f0, f1, f2 := FirstEmptyRow(g, 0), FirstEmptyRow(g, 1), FirstEmptyRow(g, 2);
  }

  /** In a packed column the first empty row is the number of dice in it. */
  lemma FirstEmptyRowOfPacked(g: Grid, c: int)
    requires 0 <= c < 3 && Packed(Column(g, c))
    ensures FirstEmptyRow(g, c) == if |NonZero(Column(g, c))| == 3 then -1 else |NonZero(Column(g, c))|
  {
    var s := Column(g, c);
    CompactOfPacked(s);
    var k := |NonZero(s)|;
    assert s == NonZero(s) + Zeros(3 - k);
    assert forall i :: 0 <= i < k ==> s[i] != 0;
    assert forall i :: k <= i < 3 ==> s[i] == 0;
  }

  /** Every column of the board is gravity-packed. */
  predicate Settled(g: Grid)
  {
    forall c :: 0 <= c < 3 ==> Packed(Column(g, c))
  }

  /** Every cell holds 0 or a die face. */
  predicate Faces(g: Grid)
  {
    forall r, c :: 0 <= r < 3 && 0 <= c < 3 ==> 0 <= g[r][c] <= 6
  }

  /** A new board: packed, within the die faces, and not full. */
  lemma EmptyIsOpen()
    ensures Settled(Empty) && Faces(Empty) && !IsBoardFull(Empty)
  {
    forall c | 0 <= c < 3
      ensures Packed(Column(Empty, c))
    {
      assert forall r :: 0 <= r < 3 ==> Column(Empty, c)[r] == 0;
    }
    assert Empty[0][0] == 0;
  }

  /** The value of a board held in a 3x3 array. */
  function Snapshot(b: array2<int>): (g: Grid)
    requires b.Length0 == 3 && b.Length1 == 3
    reads b
    ensures forall r, c :: 0 <= r < 3 && 0 <= c < 3 ==> g[r][c] == b[r, c]
  {
    [[b[0, 0], b[0, 1], b[0, 2]], [b[1, 0], b[1, 1], b[1, 2]], [b[2, 0], b[2, 1], b[2, 2]]]
  }

  /** The first loop of `applyGravity`: the non-zero values of column `col`,
      read from the base up. */
  method CollectColumn(b: array2<int>, col: int) returns (columnValues: seq<int>)
    requires b.Length0 == 3 && b.Length1 == 3 && 0 <= col < 3
    ensures columnValues == NonZero(Column(Snapshot(b), col))
  {
    ghost var before := Column(Snapshot(b), col);
    columnValues := [];
    var r := 0;
    while r < 3
      invariant 0 <= r <= 3
      invariant columnValues == NonZero(before[..r])
    {
      assert before[..r + 1] == before[..r] + [before[r]];
      NonZeroAppend(before[..r], [before[r]]);
      assert NonZero([before[r]]) == if before[r] != 0 then [before[r]] else [] by {
        assert [before[r]][1..] == [];
      }
      if b[r, col] != 0 {
        columnValues := columnValues + [b[r, col]];
      }
      r := r + 1;
    }
    assert before[..3] == before;
  }

  /** `applyGravity(board, col)`: collects the non-zero values of the column,
      then rewrites the column with them from the base up and zeros above. */
  method ApplyGravity(b: array2<int>, col: int)
    requires b.Length0 == 3 && b.Length1 == 3 && 0 <= col < 3
    modifies b
    ensures Snapshot(b) == Gravity(old(Snapshot(b)), col)
  {
    ghost var before := Column(Snapshot(b), col);
    var columnValues := CollectColumn(b, col);
    ghost var after := Compact(before);
    CompactSettles(before);
    var r := 0;
    while r < 3
      invariant 0 <= r <= 3
      invariant forall i :: 0 <= i < r ==> b[i, col] == after[i]
      invariant forall i, c :: 0 <= i < 3 && 0 <= c < 3 && (c != col || r <= i) ==> b[i, c] == old(b[i, c])
    {
      b[r, col] := if r < |columnValues| then columnValues[r] else 0;
      r := r + 1;
    }
    GridEq(Snapshot(b), Gravity(old(Snapshot(b)), col));
  }
}
