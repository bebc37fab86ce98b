/** The scorer: `calculateScore(board)`. In every column the dice are grouped by
    value, and a value `v` that appears `n` times is worth `v * n * n`. */
module Scoring {
  import opened Board

  /** How often `v` occurs in `s` (the per-value tally of the score). */
  function Count(s: seq<int>, v: int): (n: nat)
    ensures n <= |s|
  {
    if s == [] then 0 else (if s[0] == v then 1 else 0) + Count(s[1..], v)
  }

  /** `s` with every occurrence of `v` taken out, the others kept in order. */
  function Without(s: seq<int>, v: int): (r: seq<int>)
    ensures |r| + Count(s, v) == |s|
  {
    if s == [] then [] else (if s[0] == v then [] else [s[0]]) + Without(s[1..], v)
  }

  /** The tally agrees with the multiplicity of the value in the column. */
  lemma {:induction false} CountIsMultiplicity(s: seq<int>, v: int)
    ensures Count(s, v) == multiset(s)[v]
  {
    if s != [] {
      CountIsMultiplicity(s[1..], v);
      assert s == [s[0]] + s[1..];
    }
  }

  /** Taking out `v` removes all its copies and nothing else. */
  lemma {:induction false} WithoutMultiset(s: seq<int>, v: int)
    ensures multiset(Without(s, v)) == multiset(s)[v := 0]
  {
    if s != [] {
      var t := s[1..];
      WithoutMultiset(t, v);
      assert s == [s[0]] + t;
      assert multiset(s) == multiset{s[0]} + multiset(t);
      assert Without(s, v) == (if s[0] == v then [] else [s[0]]) + Without(t, v);
    }
  }

  /** The tally of a column's values, summed group by group: the first value
      `v` still present, with its count `n`, adds `v * n * n`. */
  function GroupScore(vals: seq<int>): int
    decreases |vals|
  {
    if vals == [] then 0
    else
      var v := vals[0];
      Worth(v, Count(vals, v)) + GroupScore(Without(vals, v))
  }

  /** What a group of `n` dice showing `v` adds to the column. */
  function Worth(v: int, n: int): int
  {
    v * n * n
  }

  /** The score of one column: its non-zero values, grouped. */
  function ColumnScore(s: seq<int>): int
  {
    GroupScore(NonZero(s))
  }

  /** `calculateScore(board)`: the column scores added up. */
  function Score(g: Grid): int
  {
    ColumnScore(Column(g, 0)) + ColumnScore(Column(g, 1)) + ColumnScore(Column(g, 2))
  }

  lemma WithoutCons(x: int, t: seq<int>, v: int)
    ensures Without([x] + t, v) == (if x == v then [] else [x]) + Without(t, v)
  {
    assert ([x] + t)[1..] == t;
  }

  lemma CountCons(x: int, t: seq<int>, v: int)
    ensures Count([x] + t, v) == (if x == v then 1 else 0) + Count(t, v)
  {
    assert ([x] + t)[1..] == t;
  }

  /** Taking out `v` leaves the tally of every other value as it was. */
  lemma {:induction false} CountWithout(s: seq<int>, v: int, x: int)
    ensures Count(Without(s, v), x) == if x == v then 0 else Count(s, x)
  {
    if s != [] {
      var y, t := s[0], s[1..];
      CountWithout(t, v, x);
      assert Count(s, x) == (if y == x then 1 else 0) + Count(t, x);
      if y != v {
        assert Without(s, v) == [y] + Without(t, v);
        CountCons(y, Without(t, v), x);
      } else {
        assert Without(s, v) == Without(t, v);
      }
    }
  }

  /** Taking out a value that does not occur changes nothing. */
  lemma {:induction false} WithoutAbsent(s: seq<int>, v: int)
    requires v !in s
    ensures Without(s, v) == s
  {
    if s != [] {
      WithoutAbsent(s[1..], v);
      assert s == [s[0]] + s[1..];
    }
  }

  lemma {:induction false} WithoutSubset(s: seq<int>, v: int)
    ensures forall x :: x in Without(s, v) ==> x in s && x != v
  {
    if s != [] {
      WithoutSubset(s[1..], v);
    }
  }

  lemma {:induction false} WithoutCommutes(s: seq<int>, a: int, b: int)
    ensures Without(Without(s, a), b) == Without(Without(s, b), a)
  {
    if s != [] {
      var x, t := s[0], s[1..];
      WithoutCommutes(t, a, b);
      var ta, tb := Without(t, a), Without(t, b);
      assert Without(s, a) == (if x == a then [] else [x]) + ta;
      assert Without(s, b) == (if x == b then [] else [x]) + tb;
      if x == a && x == b {
      } else if x == a {
        assert Without(s, a) == ta;
        WithoutCons(x, tb, a);
        assert Without(Without(s, b), a) == Without(tb, a);
      } else if x == b {
        assert Without(s, b) == tb;
        WithoutCons(x, ta, b);
        assert Without(Without(s, a), b) == Without(ta, b);
      } else {
        WithoutCons(x, ta, b);
        WithoutCons(x, tb, a);
      }
    }
  }

  /** Any value of the column may be grouped first: the score is its group's
      worth plus the score of the remaining values. */
  lemma {:induction false} GroupScorePick(s: seq<int>, v: int)
    requires v in s
    ensures GroupScore(s) == Worth(v, Count(s, v)) + GroupScore(Without(s, v))
    decreases |s|
  {
    var u := s[0];
    if u != v {
      var rest := Without(s, u);
      WithoutSubset(s, u);
      CountWithout(s, u, v);
      CountIsMultiplicity(rest, v);
      CountIsMultiplicity(s, v);
      assert v in multiset(rest);
      GroupScorePick(rest, v);
      var other := Without(s, v);
      assert other == [u] + Without(s[1..], v);
      assert other[0] == u;
      CountWithout(s, v, u);
      WithoutCommutes(s, u, v);
    }
  }

  /** The grouped score depends only on how often each value occurs. */
  lemma {:induction false} GroupScorePermutation(s: seq<int>, t: seq<int>)
    requires multiset(s) == multiset(t)
    ensures GroupScore(s) == GroupScore(t)
    decreases |s|
  {
    if s == [] {
      assert |t| == |multiset(t)| == 0;
    } else {
      var v := s[0];
      assert v in multiset(t);
      GroupScorePick(t, v);
      CountIsMultiplicity(s, v);
      CountIsMultiplicity(t, v);
      WithoutMultiset(s, v);
      WithoutMultiset(t, v);
      GroupScorePermutation(Without(s, v), Without(t, v));
    }
  }

  /** Any value's group may be split off: the grouped score is that group's
      worth plus the score of the other values. */
  lemma GroupScoreWithout(s: seq<int>, v: int)
    ensures GroupScore(s) == Worth(v, Count(s, v)) + GroupScore(Without(s, v))
  {
    if v in s {
      GroupScorePick(s, v);
    } else {
      WithoutAbsent(s, v);
    }
  }

  /** A group that grows from `n` to `n + 1` dice showing `d` gains `d * (2 * n + 1)`. */
  lemma WorthStep(d: int, n: int)
    ensures Worth(d, n + 1) == Worth(d, n) + d * (2 * n + 1)
  {
    calc {
      d * (n + 1) * (n + 1);
      d * ((n + 1) * (n + 1));
      d * (n * n + (2 * n + 1));
      d * (n * n) + d * (2 * n + 1);
    }
  }

  lemma WithoutOneMore(s: seq<int>, t: seq<int>, d: int)
    requires multiset(t) == multiset(s) + multiset{d}
    ensures multiset(Without(t, d)) == multiset(Without(s, d))
  {
    WithoutMultiset(s, d);
    WithoutMultiset(t, d);
    var ms, mt := multiset(Without(s, d)), multiset(Without(t, d));
    forall x
      ensures mt[x] == ms[x]
    {
      if x != d {
        assert mt[x] == multiset(t)[x] == multiset(s)[x] == ms[x];
      }
    }
    assert mt == ms;
  }

  lemma GroupScoreOneMore(s: seq<int>, t: seq<int>, d: int)
    requires Count(t, d) == Count(s, d) + 1
    requires GroupScore(Without(t, d)) == GroupScore(Without(s, d))
    ensures GroupScore(t) - GroupScore(s) == Worth(d, Count(t, d)) - Worth(d, Count(s, d))
  {
    GroupScoreWithout(s, d);
    GroupScoreWithout(t, d);
  }

  /** One more `d` among `n` equal values changes the grouped score by exactly
      the growth of `d`'s group, from `Worth(d, n)` to `Worth(d, n + 1)`. */
  lemma GroupScoreAdd(s: seq<int>, t: seq<int>, d: int)
    requires multiset(t) == multiset(s) + multiset{d}
    ensures GroupScore(t) == GroupScore(s) + Worth(d, Count(s, d) + 1) - Worth(d, Count(s, d))
  {
    CountIsMultiplicity(s, d);
    CountIsMultiplicity(t, d);
    WithoutOneMore(s, t, d);
    GroupScorePermutation(Without(t, d), Without(s, d));
    GroupScoreOneMore(s, t, d);
  }

  lemma MulNonNegative(v: int, n: int)
    requires v >= 0
    ensures v * n * n >= 0
  {
    assert v * n * n == v * (n * n);
  }

  /** The grouped score of dice is never negative. */
  lemma {:induction false} GroupScoreNonNegative(vals: seq<int>)
    requires forall x :: x in vals ==> x >= 0
    ensures GroupScore(vals) >= 0
    decreases |vals|
  {
    if vals != [] {
      var v := vals[0];
      assert v in vals;
      WithoutSubset(vals, v);
      GroupScoreNonNegative(Without(vals, v));
      MulNonNegative(v, Count(vals, v));
    }
  }

  /** The reference rule as players state it: every die is worth its value
      times the number of dice of that value in its column (`ctx`). */
  function DieValueSum(s: seq<int>, ctx: seq<int>): int
  {
    if s == [] then 0 else s[0] * Count(ctx, s[0]) + DieValueSum(s[1..], ctx)
  }

  lemma Distribute(v: int, k: int, c: int)
    ensures v * (k + 1) * c == v * c + v * k * c
  {
    calc {
      v * (k + 1) * c;
      (v * k + v) * c;
      v * k * c + v * c;
    }
  }

  lemma {:induction false} DieValueSumSplit(s: seq<int>, ctx: seq<int>, v: int)
    ensures DieValueSum(s, ctx) == v * Count(s, v) * Count(ctx, v) + DieValueSum(Without(s, v), ctx)
  {
    if s != [] {
      var x, t := s[0], s[1..];
      var c, k := Count(ctx, v), Count(t, v);
      DieValueSumSplit(t, ctx, v);
      assert DieValueSum(s, ctx) == x * Count(ctx, x) + DieValueSum(t, ctx);
      if x == v {
        assert Count(s, v) == k + 1;
        assert Without(s, v) == Without(t, v);
        Distribute(v, k, c);
      } else {
        assert Count(s, v) == k;
        var w := Without(t, v);
        assert Without(s, v) == [x] + w;
        assert ([x] + w)[0] == x && ([x] + w)[1..] == w;
        assert DieValueSum([x] + w, ctx) == x * Count(ctx, x) + DieValueSum(w, ctx);
      }
    }
  }

  lemma {:induction false} DieValueSumContext(s: seq<int>, a: seq<int>, b: seq<int>)
    requires forall x :: x in s ==> Count(a, x) == Count(b, x)
    ensures DieValueSum(s, a) == DieValueSum(s, b)
  {
    if s != [] {
      DieValueSumContext(s[1..], a, b);
    }
  }

  /** The grouped score (the source's tally) equals the per-die reference rule. */
  lemma {:induction false} GroupScoreIsDieValueSum(s: seq<int>)
    ensures GroupScore(s) == DieValueSum(s, s)
    decreases |s|
  {
    if s != [] {
      var v := s[0];
      var w := Without(s, v);
      GroupScoreIsDieValueSum(w);
      DieValueSumSplit(s, s, v);
      WithoutSubset(s, v);
      forall x | x in w
        ensures Count(w, x) == Count(s, x)
      {
        CountWithout(s, v, x);
      }
      DieValueSumContext(w, w, s);
    }
  }

  /** Row order does not matter: a column's score depends only on how often
      each value occurs in it. */
  lemma ColumnScoreOrderFree(s: seq<int>, t: seq<int>)
    requires multiset(s) == multiset(t)
    ensures ColumnScore(s) == ColumnScore(t)
  {
    NonZeroMultiset(s);
    NonZeroMultiset(t);
    GroupScorePermutation(NonZero(s), NonZero(t));
  }

  /** The board's score depends only on the per-column value counts. */
  lemma ScoreDependsOnCounts(g: Grid, h: Grid)
    requires forall c :: 0 <= c < 3 ==> multiset(Column(g, c)) == multiset(Column(h, c))
    ensures Score(g) == Score(h)
  {
    var g0, g1, g2 := Column(g, 0), Column(g, 1), Column(g, 2);
    var h0, h1, h2 := Column(h, 0), Column(h, 1), Column(h, 2);
    ColumnScoreOrderFree(g0, h0);
    ColumnScoreOrderFree(g1, h1);
    ColumnScoreOrderFree(g2, h2);
  }

  lemma ColumnScoreNonNegative(s: seq<int>)
    requires forall x :: x in s ==> x >= 0
    ensures ColumnScore(s) >= 0
  {
    NonZeroSubset(s);
    GroupScoreNonNegative(NonZero(s));
  }

  /** A board of dice never scores below zero. */
  lemma ScoreNonNegative(g: Grid)
    requires Faces(g)
    ensures Score(g) >= 0
  {
    var g0, g1, g2 := Column(g, 0), Column(g, 1), Column(g, 2);
    ColumnScoreNonNegative(g0);
    ColumnScoreNonNegative(g1);
    ColumnScoreNonNegative(g2);
  }

  /** The empty board scores 0. */
  lemma ScoreOfEmpty()
    ensures Score(Empty) == 0
  {
    NonZeroOfBlank(Column(Empty, 0));
  }

  /** A column of three 2s scores 2 * 3 * 3 = 18. */
  lemma ScoreOfThreeTwos()
    ensures Score([[2, 0, 0], [2, 0, 0], [2, 0, 0]]) == 18
  {
    var g: Grid := [[2, 0, 0], [2, 0, 0], [2, 0, 0]];
    NonZeroOfFilled(Column(g, 0));
    NonZeroOfBlank(Column(g, 1));
    NonZeroOfBlank(Column(g, 2));
    assert Without([2, 2, 2], 2) == [];
  }

  /** For a die value the tally over the column's dice is the tally over its cells. */
  lemma CountNonZero(s: seq<int>, v: int)
    requires v != 0
    ensures Count(NonZero(s), v) == Count(s, v)
  {
    NonZeroMultiset(s);
    CountIsMultiplicity(s, v);
    CountIsMultiplicity(NonZero(s), v);
  }

  /** Only column `c` differs, so the score moves by that column's change. */
  lemma ScoreOfColumnChange(g: Grid, h: Grid, c: int)
    requires 0 <= c < 3
    requires forall r, k :: 0 <= r < 3 && 0 <= k < 3 && k != c ==> h[r][k] == g[r][k]
    ensures Score(h) - Score(g) == ColumnScore(Column(h, c)) - ColumnScore(Column(g, c))
  {
    var g0, g1, g2 := Column(g, 0), Column(g, 1), Column(g, 2);
    var h0, h1, h2 := Column(h, 0), Column(h, 1), Column(h, 2);
    if c != 0 { assert g0 == h0; }
    if c != 1 { assert g1 == h1; }
    if c != 2 { assert g2 == h2; }
  }
}
