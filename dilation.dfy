/**
 * Morphological dilation of a mask by the 3x3 all-ones structuring element with its
 * anchor at the centre (8-connectivity). A neighbour outside the grid contributes
 * nothing: the output cell is the maximum over the in-bounds part of its window.
 */
module Dilation {
  import opened Grids

  /** (a, b) lies in the 3x3 window centred on (i, j). */
  predicate InWindow(i: int, j: int, a: int, b: int) {
    i - 1 <= a <= i + 1 && j - 1 <= b <= j + 1
  }

  /** Maximum of `row` over the in-bounds columns among j-1, j, j+1. */
  function RowWindowMax(row: seq<real>, j: nat): (w: real)
    requires j < |row|
  {
    var left := if j > 0 then Max(row[j - 1], row[j]) else row[j];
    if j + 1 < |row| then Max(left, row[j + 1]) else left
  }

  /** Maximum of `m` over the in-bounds cells of the 3x3 window centred on (i, j). */
  function WindowMax(m: Grid, i: nat, j: nat): (w: real)
    requires IsGrid(m) && i < |m| && j < Width(m)
  {
    var centre := RowWindowMax(m[i], j);
    var upper := if i > 0 then Max(RowWindowMax(m[i - 1], j), centre) else centre;
    if i + 1 < |m| then Max(upper, RowWindowMax(m[i + 1], j)) else upper
  }

  /** The dilated mask (cv2.dilate with a 3x3 kernel of ones). */
  function Dilate(m: Grid): (d: Grid)
    requires IsGrid(m)
    ensures IsGrid(d) && SameShape(d, m)
  {
    seq(|m|, i requires 0 <= i < |m| =>
      seq(Width(m), j requires 0 <= j < Width(m) => WindowMax(m, i, j)))
  }

  /** The row-window maximum bounds every in-bounds neighbour in the row and is one of them. */
  lemma RowWindowMaxIsMaximum(row: seq<real>, j: nat)
    requires j < |row|
    ensures forall b | 0 <= b < |row| && j - 1 <= b <= j + 1 :: row[b] <= RowWindowMax(row, j)
    ensures exists b | 0 <= b < |row| && j - 1 <= b <= j + 1 :: row[b] == RowWindowMax(row, j)
  {
    var w := RowWindowMax(row, j);
    if w == row[j] {
      assert row[j] == w;
    } else if j > 0 && w == row[j - 1] {
      assert row[j - 1] == w;
    } else {
      assert row[j + 1] == w;
    }
  }

  /** The window maximum bounds every in-bounds neighbour and is attained by one of them. */
  lemma WindowMaxIsMaximum(m: Grid, i: nat, j: nat)
    requires IsGrid(m) && i < |m| && j < Width(m)
    ensures forall a, b | InBounds(m, a, b) && InWindow(i, j, a, b) :: m[a][b] <= WindowMax(m, i, j)
    ensures exists a, b | InBounds(m, a, b) && InWindow(i, j, a, b) :: m[a][b] == WindowMax(m, i, j)
  {
    var w := WindowMax(m, i, j);
    forall a | 0 <= a < |m| && i - 1 <= a <= i + 1
      ensures forall b | 0 <= b < Width(m) && j - 1 <= b <= j + 1 :: m[a][b] <= w
    {
      RowWindowMaxIsMaximum(m[a], j);
    }
    var a: nat;
    if i > 0 && w == RowWindowMax(m[i - 1], j) {
      a := i - 1;
    } else if i + 1 < |m| && w == RowWindowMax(m[i + 1], j) {
      a := i + 1;
    } else {
      a := i;
    }
    RowWindowMaxIsMaximum(m[a], j);
    var b :| 0 <= b < Width(m) && j - 1 <= b <= j + 1 && m[a][b] == w;
    assert InBounds(m, a, b) && InWindow(i, j, a, b);
  }

  /** Dilation contains its input: no cell decreases. */
  lemma DilateExtensive(m: Grid)
    requires IsGrid(m)
    ensures forall i, j | InBounds(m, i, j) :: m[i][j] <= Dilate(m)[i][j]
  {
    forall i, j | InBounds(m, i, j)
      ensures m[i][j] <= Dilate(m)[i][j]
    {
      WindowMaxIsMaximum(m, i, j);
      assert InWindow(i, j, i, j);
    }
  }

  /**
   * On a 0/1 mask, dilation yields a 0/1 mask whose cell is set exactly when some
   * in-bounds cell of its 3x3 window is set in the input.
   */
  lemma DilateBinary(m: Grid)
    requires IsGrid(m) && IsBinary(m)
    ensures IsBinary(Dilate(m))
    ensures forall i, j | InBounds(m, i, j) ::
      Dilate(m)[i][j] == 1.0 <==> exists a, b | InBounds(m, a, b) && InWindow(i, j, a, b) :: m[a][b] == 1.0
  {
    forall i, j | InBounds(m, i, j)
      ensures Dilate(m)[i][j] == 0.0 || Dilate(m)[i][j] == 1.0
      ensures Dilate(m)[i][j] == 1.0 <==> exists a, b | InBounds(m, a, b) && InWindow(i, j, a, b) :: m[a][b] == 1.0
    {
      WindowMaxIsMaximum(m, i, j);
    }
  }

  /** A 0/1 mask dilates to the empty mask exactly when it is empty itself. */
  lemma DilateEmptyIff(m: Grid)
    requires IsGrid(m) && IsBinary(m)
    ensures IsEmptyMask(Dilate(m)) <==> IsEmptyMask(m)
  {
    DilateExtensive(m);
    DilateBinary(m);
    if !IsEmptyMask(m) {
      var i, j :| InBounds(m, i, j) && m[i][j] != 0.0;
      assert Dilate(m)[i][j] != 0.0;
    } else {
      forall i, j | InBounds(m, i, j)
        ensures Dilate(m)[i][j] == 0.0
      {
        WindowMaxIsMaximum(m, i, j);
      }
    }
  }
}
