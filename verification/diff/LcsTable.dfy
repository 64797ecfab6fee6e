// The dynamic programming table behind the exact part of the diff, stored flat in one array.
module LcsTable {
  import opened Script

  const MAX_LCS_CELLS: nat := 200000

  function Cells(a: seq<string>, b: seq<string>): nat {
    (|a| + 1) * (|b| + 1)
  }

  // Where the table keeps the entry for suffixes a[i..] and b[j..].
  function Cell(i: nat, j: nat, width: nat): nat {
    i * width + j
  }

  lemma LaterRow(i: nat, j: nat, i': nat, j': nat, width: nat)
    requires j < width && i < i'
    ensures Cell(i, j, width) < Cell(i', j', width)
  {
    var d := i' - i;
    assert d * width >= width by { assert (d - 1) * width >= 0; }
    assert i' * width == (i + d) * width == i * width + d * width;
  }

  lemma CellInjective(i: nat, j: nat, i': nat, j': nat, width: nat)
    requires j < width && j' < width
    requires Cell(i, j, width) == Cell(i', j', width)
    ensures i == i' && j == j'
  {
    if i < i' {
      LaterRow(i, j, i', j', width);
    } else if i' < i {
      LaterRow(i', j', i, j, width);
    }
  }

  lemma CellInRange(i: nat, j: nat, height: nat, width: nat)
    requires i < height && j < width
    ensures Cell(i, j, width) < height * width
  {
    assert (height - 1 - i) * width >= 0;
  }

  // The guard that selects the exact path keeps its table small, whatever the shape of the input.
  lemma GuardBoundsTable(a: seq<string>, b: seq<string>)
    requires a != [] && b != [] && |a| <= MAX_LCS_CELLS / |b|
    ensures Cells(a, b) <= 400002
  {
    var m, n := |a|, |b|;
    ProductBound(m, n, MAX_LCS_CELLS / n, MAX_LCS_CELLS);
    SumBelowProduct(m, n);
    assert Cells(a, b) == m * n + m + n + 1 by { Expanded(m, n); }
  }

  lemma ProductBound(m: nat, n: nat, quotient: nat, limit: nat)
    requires n > 0 && quotient == limit / n && m <= quotient
    ensures m * n <= limit
  {
    assert quotient * n <= limit;
    assert (quotient - m) * n >= 0;
    assert quotient * n == m * n + (quotient - m) * n;
  }

  // Two sides of at most 200000 cells pass the guard, however the cells are shared out between them.
  lemma SmallEnough(m: nat, n: nat)
    requires n > 0
    ensures m <= MAX_LCS_CELLS / n <==> m * n <= 200000
  {
    if m <= MAX_LCS_CELLS / n {
      ProductBound(m, n, MAX_LCS_CELLS / n, MAX_LCS_CELLS);
    } else {
      assert m * n >= (MAX_LCS_CELLS / n + 1) * n;
      assert (MAX_LCS_CELLS / n + 1) * n == MAX_LCS_CELLS / n * n + n;
    }
  }

  lemma SumBelowProduct(m: nat, n: nat)
    requires m > 0 && n > 0
    ensures m + n <= m * n + 1
    decreases m
  {
    if m > 1 {
      SumBelowProduct(m - 1, n);
      assert m * n == (m - 1) * n + n;
    }
  }

  lemma Expanded(m: nat, n: nat)
    ensures (m + 1) * (n + 1) == m * n + m + n + 1
  {
  }

  ghost function Entry(dp: array<nat>, a: seq<string>, b: seq<string>, i: nat, j: nat): nat
    requires i <= |a| && j <= |b| && dp.Length == Cells(a, b)
    reads dp
  {
    CellInRange(i, j, |a| + 1, |b| + 1);
    dp[Cell(i, j, |b| + 1)]
  }

  ghost predicate Holds(dp: array<nat>, a: seq<string>, b: seq<string>, i: nat, j: nat)
    requires i <= |a| && j <= |b| && dp.Length == Cells(a, b)
    reads dp
  {
    Entry(dp, a, b, i, j) == LcsLength(a[i..], b[j..])
  }

  // The part of the table that is final once row i is filled from column j on.
  ghost predicate Filled(dp: array<nat>, a: seq<string>, b: seq<string>, i: nat, j: nat)
    requires dp.Length == Cells(a, b)
    reads dp
  {
    forall i', j' | 0 <= i' <= |a| && 0 <= j' <= |b| && (i' > i || (i' == i && j' >= j)) :: Holds(dp, a, b, i', j')
  }

  // The rows and columns still zero from allocation: the borders of the recurrence.
  ghost predicate BorderZero(dp: array<nat>, a: seq<string>, b: seq<string>, i: nat)
    requires dp.Length == Cells(a, b)
    reads dp
  {
    forall i' | 0 <= i' <= i && i' <= |a| :: Entry(dp, a, b, i', |b|) == 0
  }

  method FillCell(dp: array<nat>, a: seq<string>, b: seq<string>, i: nat, j: nat)
    requires dp.Length == Cells(a, b) && i < |a| && j < |b|
    requires Filled(dp, a, b, i, j + 1) && BorderZero(dp, a, b, i)
    modifies dp
    ensures Filled(dp, a, b, i, j) && BorderZero(dp, a, b, i)
  {
    var width := |b| + 1;
    CellInRange(i, j, |a| + 1, width);
    CellInRange(i + 1, j + 1, |a| + 1, width);
    CellInRange(i + 1, j, |a| + 1, width);
    CellInRange(i, j + 1, |a| + 1, width);
    assert Holds(dp, a, b, i + 1, j + 1) && Holds(dp, a, b, i + 1, j) && Holds(dp, a, b, i, j + 1);
    assert a[i..][1..] == a[i + 1..] && b[j..][1..] == b[j + 1..];
    var value;
    if a[i] == b[j] {
      value := 1 + dp[Cell(i + 1, j + 1, width)];
    } else if dp[Cell(i + 1, j, width)] >= dp[Cell(i, j + 1, width)] {
      value := dp[Cell(i + 1, j, width)];
    } else {
      value := dp[Cell(i, j + 1, width)];
    }
    assert value == LcsLength(a[i..], b[j..]);
    dp[Cell(i, j, width)] := value;
    forall i', j' | 0 <= i' <= |a| && 0 <= j' <= |b| && (i' > i || (i' == i && j' >= j))
      ensures Holds(dp, a, b, i', j')
    {
      if i' != i || j' != j {
        assert old(Holds(dp, a, b, i', j'));
        if Cell(i', j', width) == Cell(i, j, width) { CellInjective(i', j', i, j, width); }
        CellInRange(i', j', |a| + 1, width);
      }
    }
    forall i' | 0 <= i' <= i
      ensures Entry(dp, a, b, i', |b|) == 0
    {
      assert old(Entry(dp, a, b, i', |b|)) == 0;
      if Cell(i', |b|, width) == Cell(i, j, width) { CellInjective(i', |b|, i, j, width); }
      CellInRange(i', |b|, |a| + 1, width);
    }
  }

  // Fills the table bottom row first, right to left; every entry ends up the LCS length of the
  // two suffixes it stands for.
  method FillTable(a: seq<string>, b: seq<string>) returns (dp: array<nat>)
    ensures fresh(dp) && dp.Length == Cells(a, b)
    ensures Filled(dp, a, b, 0, 0)
  {
    dp := new nat[Cells(a, b)](_ => 0);
    forall i', j' | 0 <= i' <= |a| && 0 <= j' <= |b| && (i' > |a| || (i' == |a| && j' >= 0))
      ensures Holds(dp, a, b, i', j')
    {
      CellInRange(i', j', |a| + 1, |b| + 1);
    }
    forall i' | 0 <= i' <= |a|
      ensures Entry(dp, a, b, i', |b|) == 0
    {
      CellInRange(i', |b|, |a| + 1, |b| + 1);
    }
    var i: nat := |a|;
    while i > 0
      invariant i <= |a|
      invariant Filled(dp, a, b, i, 0) && BorderZero(dp, a, b, i)
    {
      i := i - 1;
      var j: nat := |b|;
      assert Filled(dp, a, b, i, j) by {
        forall i', j' | 0 <= i' <= |a| && 0 <= j' <= |b| && (i' > i || (i' == i && j' >= j))
          ensures Holds(dp, a, b, i', j')
        {
          if i' == i { CellInRange(i, |b|, |a| + 1, |b| + 1); }
        }
      }
      while j > 0
        invariant j <= |b|
        invariant Filled(dp, a, b, i, j) && BorderZero(dp, a, b, i)
      {
        j := j - 1;
        FillCell(dp, a, b, i, j);
      }
    }
  }
}
