/**
 * Two-dimensional grids of real intensities, indexed `g[row][col]`.
 * Images and masks of the region grower are values of this type; floating-point
 * pixel values are modelled by exact reals.
 */
module Grids {

  type Grid = seq<seq<real>>

  /** Number of columns (the length of the first row; 0 for a grid without rows). */
  function Width(g: Grid): (n: nat) {
    if |g| == 0 then 0 else |g[0]|
  }

  /** Every row has the same length. */
  predicate IsGrid(g: Grid) {
    forall i | 0 <= i < |g| :: |g[i]| == Width(g)
  }

  /** A rectangular grid with at least one row and one column. */
  predicate IsNonemptyGrid(g: Grid) {
    IsGrid(g) && |g| > 0 && Width(g) > 0
  }

  predicate SameShape(a: Grid, b: Grid) {
    |a| == |b| && forall i | 0 <= i < |a| :: |a[i]| == |b[i]|
  }

  predicate InBounds(g: Grid, i: int, j: int) {
    0 <= i < |g| && 0 <= j < |g[i]|
  }

  /** Every cell is exactly 0 or 1. */
  predicate IsBinary(g: Grid) {
    forall i, j | 0 <= i < |g| && 0 <= j < |g[i]| :: g[i][j] == 0.0 || g[i][j] == 1.0
  }

  /** No cell is nonzero. */
  predicate IsEmptyMask(g: Grid) {
    forall i, j | 0 <= i < |g| && 0 <= j < |g[i]| :: g[i][j] == 0.0
  }

  /** Every nonzero cell of `a` is nonzero in `b` (cell-wise inclusion of supports). */
  predicate SupportWithin(a: Grid, b: Grid)
    requires SameShape(a, b)
  {
    forall i, j | 0 <= i < |a| && 0 <= j < |a[i]| :: a[i][j] != 0.0 ==> b[i][j] != 0.0
  }

  function Max(x: real, y: real): (m: real)
    ensures x <= m && y <= m && (m == x || m == y)
  {
    if x < y then y else x
  }

  function Abs(x: real): (a: real)
    ensures 0.0 <= a && (a == x || a == -x)
  {
    if x < 0.0 then -x else x
  }

  /** Largest element of a nonempty row (numpy's `max` over one row): it bounds every element and is one of them. */
  function SeqMax(s: seq<real>): (m: real)
    requires |s| > 0
    ensures forall k | 0 <= k < |s| :: s[k] <= m
    ensures exists k | 0 <= k < |s| :: s[k] == m
  {
    if |s| == 1 then
      assert s[0] == s[0];
      s[0]
    else
      var rest := SeqMax(s[1..]);
      ConsMax(s, rest);
      Max(s[0], rest)
  }

  /** A row whose tail is bounded by `rest`, which the tail attains, has maximum Max(s[0], rest). */
  lemma ConsMax(s: seq<real>, rest: real)
    requires |s| > 1
    requires forall k | 0 <= k < |s[1..]| :: s[1..][k] <= rest
    requires exists k | 0 <= k < |s[1..]| :: s[1..][k] == rest
    ensures forall k | 0 <= k < |s| :: s[k] <= Max(s[0], rest)
    ensures exists k | 0 <= k < |s| :: s[k] == Max(s[0], rest)
  {
    assert forall k | 1 <= k < |s| :: s[k] == s[1..][k - 1];
    if Max(s[0], rest) == s[0] {
      assert s[0] == Max(s[0], rest);
    } else {
      var k :| 0 <= k < |s[1..]| && s[1..][k] == rest;
      assert s[k + 1] == Max(s[0], rest);
    }
  }

  /**
   * Largest cell of a grid whose rows are all nonempty (numpy's `ndarray.max`): it bounds
   * every cell and is attained by one.
   */
  function GridMax(g: Grid): (m: real)
    requires |g| > 0 && forall i | 0 <= i < |g| :: |g[i]| > 0
    ensures forall i, j | InBounds(g, i, j) :: g[i][j] <= m
    ensures exists i, j | InBounds(g, i, j) :: g[i][j] == m
  {
    var head := SeqMax(g[0]);
    if |g| == 1 then
      RowMax(g, head, head);
      head
    else
      var rest := GridMax(g[1..]);
      RowMax(g, head, rest);
      Max(head, rest)
  }

  /**
   * A grid whose first row has maximum `head` and whose other rows are bounded by `rest`,
   * which one of them attains (or `rest == head` for a single row), has maximum Max(head, rest).
   */
  lemma RowMax(g: Grid, head: real, rest: real)
    requires |g| > 0 && |g[0]| > 0
    requires forall j | 0 <= j < |g[0]| :: g[0][j] <= head
    requires exists j | 0 <= j < |g[0]| :: g[0][j] == head
    requires |g| == 1 ==> rest == head
    requires |g| > 1 ==> forall i, j | InBounds(g[1..], i, j) :: g[1..][i][j] <= rest
    requires |g| > 1 ==> exists i, j | InBounds(g[1..], i, j) :: g[1..][i][j] == rest
    ensures forall i, j | InBounds(g, i, j) :: g[i][j] <= Max(head, rest)
    ensures exists i, j | InBounds(g, i, j) :: g[i][j] == Max(head, rest)
  {
    var tail := g[1..];
    forall i, j | InBounds(g, i, j)
      ensures g[i][j] <= Max(head, rest)
    {
      if i > 0 { assert tail[i - 1] == g[i]; assert InBounds(tail, i - 1, j); }
    }
    if Max(head, rest) == head {
      var j :| 0 <= j < |g[0]| && g[0][j] == head;
      assert InBounds(g, 0, j);
    } else {
      var i, j :| InBounds(tail, i, j) && tail[i][j] == rest;
      assert tail[i] == g[i + 1];
      assert InBounds(g, i + 1, j);
    }
  }

  /** The maximum of a binary mask is 1 when some cell is set and 0 otherwise. */
  lemma BinaryMax(g: Grid)
    requires |g| > 0 && forall i | 0 <= i < |g| :: |g[i]| > 0
    requires IsBinary(g)
    ensures GridMax(g) == (if IsEmptyMask(g) then 0.0 else 1.0)
  {
    var m := GridMax(g);
    var i, j :| InBounds(g, i, j) && g[i][j] == m;
    if !IsEmptyMask(g) {
      var a, b :| InBounds(g, a, b) && g[a][b] != 0.0;
      assert g[a][b] == 1.0 && 1.0 <= m;
    }
  }
}
