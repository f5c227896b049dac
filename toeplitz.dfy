/**
 * The Toeplitz / convolution-matrix builder. A matrix constant along its diagonals is
 * expanded from two vectors: `rowVec` runs down the first column (cell (i, j) with
 * i >= j holds rowVec[i - j]) and `colVec` runs along the first row (cell (i, j) with
 * i < j holds colVec[j - i]). Both vectors are first conformed to the requested
 * dimensions: cut to a prefix when too long, padded with zeros when too short.
 *
 * The element type is generic; `zero` is the value numpy's zero padding writes.
 */
module Toeplitz {
  import opened Wrappers

  /** The two ways the builder fails: numpy's IndexError on an empty vector, and the ValueError on differing first entries. */
  datatype ToeplitzError = EmptyVector | FirstEntriesDiffer

  /** `n` copies of `zero` (numpy's `np.zeros(n)`). */
  function Zeros<T>(n: nat, zero: T): (z: seq<T>)
    ensures |z| == n && forall k | 0 <= k < n :: z[k] == zero
  {
    seq(n, _ => zero)
  }

  /** Entry k of `v`, or `zero` past its end: what a zero-padded copy of `v` holds at k. */
  function At<T>(v: seq<T>, k: nat, zero: T): (e: T) {
    if k < |v| then v[k] else zero
  }

  /** The length of Python's prefix slice `v[:n]` for a vector of length `len`; a negative `n` counts from the end. */
  function PrefixLength(n: int, len: nat): (p: nat)
    ensures p <= len
    ensures 0 <= n <= len ==> p == n
    ensures n > len ==> p == len
    ensures n < 0 ==> p == if len + n < 0 then 0 else len + n
  {
    if n >= 0 then (if n <= len then n else len)
    else if len + n < 0 then 0 else len + n
  }

  /** The number of entries a vector of length `len` has after conforming to the requested size `n`. */
  function ConformedLength(n: int, len: nat): (m: nat) {
    if n < len then PrefixLength(n, len) else n
  }

  /**
   * A vector conformed to the requested size `n`: a prefix `v[:n]` when `n` is smaller
   * than its length, `v` followed by zeros when `n` is larger, `v` itself otherwise.
   */
  function Conform<T>(v: seq<T>, n: int, zero: T): (w: seq<T>)
    ensures |w| == ConformedLength(n, |v|)
    ensures forall k | 0 <= k < |w| :: w[k] == At(v, k, zero)
  {
    if n < |v| then v[..PrefixLength(n, |v|)]
    else if n > |v| then v + Zeros(n - |v|, zero)
    else v
  }

  /**
   * The column vector a call uses before conforming: in convolution mode a zero vector of
   * the row's length whose entry 0 is the row's entry 0; otherwise the given column, or
   * the row itself when no column is given.
   */
  function EffectiveColumn<T>(row: seq<T>, col: Option<seq<T>>, isConv: bool, zero: T): (c: seq<T>)
    requires |row| > 0
    ensures isConv ==> |c| == |row| && c[0] == row[0] && forall k | 0 < k < |c| :: c[k] == zero
    ensures !isConv && col.None? ==> c == row
    ensures !isConv && col.Some? ==> c == col.value
  {
    if isConv then Zeros(|row|, zero)[0 := row[0]]
    else if col.None? then row
    else col.value
  }

  /** The vectors the builder starts from, or the error `toeplitz_from_vector` raises while reading them. */
  function Vectors<T(==)>(row: seq<T>, col: Option<seq<T>>, isConv: bool, zero: T): (r: Result<(seq<T>, seq<T>), ToeplitzError>)
    ensures r.Ok? ==> |row| > 0 && r.value == (row, EffectiveColumn(row, col, isConv, zero))
  {
    if |row| == 0 then Err(EmptyVector)
    else
      var c := EffectiveColumn(row, col, isConv, zero);
      if isConv then Ok((row, c))
      else if |c| == 0 then Err(EmptyVector)
      else if c[0] != row[0] then Err(FirstEntriesDiffer)
      else Ok((row, c))
  }

  /** Cell (i, j) of the Toeplitz matrix of the conformed vectors `rv` (first column) and `cv` (first row). */
  function Entry<T>(rv: seq<T>, cv: seq<T>, i: nat, j: nat): (e: T)
    requires i < |rv| && j < |cv|
    ensures j == 0 ==> e == rv[i]
    ensures i == 0 && j > 0 ==> e == cv[j]
  {
    if i >= j then rv[i - j] else cv[j - i]
  }

  /**
   * The matrix the builder returns, as rows of cells: the vectors are conformed to `dims`
   * (when given) and expanded into a |rv| x |cv| matrix.
   */
  function ToeplitzMatrix<T(==)>(row: seq<T>, col: Option<seq<T>>, dims: Option<(int, int)>, isConv: bool, zero: T)
    : (r: Result<seq<seq<T>>, ToeplitzError>)
    ensures r.Err? <==> Vectors(row, col, isConv, zero).Err?
    ensures r.Err? ==> r.error == Vectors(row, col, isConv, zero).error
  {
    match Vectors(row, col, isConv, zero)
    case Err(e) => Err(e)
    case Ok((r0, c0)) =>
      var rv := if dims.None? then r0 else Conform(r0, dims.value.0, zero);
      var cv := if dims.None? then c0 else Conform(c0, dims.value.1, zero);
      Ok(Expand(rv, cv))
  }

  /** The |rv| x |cv| matrix of Entry cells, row by row. */
  function Expand<T>(rv: seq<T>, cv: seq<T>): (m: seq<seq<T>>)
    ensures |m| == |rv| && forall i | 0 <= i < |rv| :: |m[i]| == |cv|
  {
    seq(|rv|, i requires 0 <= i < |rv| => seq(|cv|, j requires 0 <= j < |cv| => Entry(rv, cv, i, j)))
  }

  /** The cells of a two-dimensional array, row by row. */
  ghost function Cells<T>(a: array2<T>): (m: seq<seq<T>>)
    reads a
    ensures |m| == a.Length0 && forall i | 0 <= i < |m| :: |m[i]| == a.Length1
  {
    seq(a.Length0, i requires 0 <= i < a.Length0 reads a => seq(a.Length1, j requires 0 <= j < a.Length1 reads a => a[i, j]))
  }

  /**
   * Allocates a zero matrix of |rv| rows and |cv| columns and fills it cell by cell,
   * column by column, with the Entry of each cell.
   */
  method FillToeplitz<T>(rv: seq<T>, cv: seq<T>, zero: T) returns (mat: array2<T>)
    ensures fresh(mat) && mat.Length0 == |rv| && mat.Length1 == |cv| && Cells(mat) == Expand(rv, cv)
  {
    var numRows, numCols := |rv|, |cv|;
    mat := new T[numRows, numCols]((_, _) => zero);
    for j := 0 to numCols
      invariant forall i', j' | 0 <= i' < numRows && 0 <= j' < j :: mat[i', j'] == Entry(rv, cv, i', j')
    {
      for i := 0 to numRows
        invariant forall i', j' | 0 <= i' < numRows && 0 <= j' < j :: mat[i', j'] == Entry(rv, cv, i', j')
        invariant forall i' | 0 <= i' < i :: mat[i', j] == Entry(rv, cv, i', j)
      {
        var k := i - j;
        if k >= 0 {
          mat[i, j] := rv[k];
        } else {
          mat[i, j] := cv[-k];
        }
      }
    }
    assert forall i | 0 <= i < numRows :: Cells(mat)[i] == Expand(rv, cv)[i];
  }

  /**
   * toeplitz_from_vector: reads the vectors, conforms them to `dims` and fills a zero
   * matrix column by column (the outer loop runs over columns, the inner over rows).
   */
  method ToeplitzFromVector<T(==)>(row: seq<T>, col: Option<seq<T>>, dims: Option<(int, int)>, isConv: bool, zero: T)
    returns (r: Result<array2<T>, ToeplitzError>)
    ensures var spec := ToeplitzMatrix(row, col, dims, isConv, zero);
      (r.Err? <==> spec.Err?) &&
      (r.Err? ==> r.error == spec.error) &&
      (r.Ok? ==> fresh(r.value) && Cells(r.value) == spec.value) &&
      (r.Ok? ==> (r.value.Length0, r.value.Length1) == ToeplitzDims(row, col, dims, isConv))
  {
    if |row| == 0 {
      return Err(EmptyVector);
    }
    var rowVec := row;
    var colVec: seq<T>;
    if isConv {
      colVec := Zeros(|row|, zero);
      colVec := colVec[0 := row[0]];
    } else {
      if col.None? {
        colVec := row;
      } else {
        colVec := col.value;
      }
      if |colVec| == 0 {
        return Err(EmptyVector);
      }
      if colVec[0] != row[0] {
        return Err(FirstEntriesDiffer);
      }
    }
    assert Vectors(row, col, isConv, zero) == Ok((rowVec, colVec));

    var numRows: int, numCols: int;
    if dims.None? {
      numRows, numCols := |rowVec|, |colVec|;
    } else {
      numRows, numCols := dims.value.0, dims.value.1;
      if numRows < |rowVec| {
        rowVec := rowVec[..PrefixLength(numRows, |rowVec|)];
        numRows := |rowVec|;
      } else if numRows > |rowVec| {
        rowVec := rowVec + Zeros(numRows - |rowVec|, zero);
      }
      if numCols < |colVec| {
        colVec := colVec[..PrefixLength(numCols, |colVec|)];
        numCols := |colVec|;
      } else if numCols > |colVec| {
        colVec := colVec + Zeros(numCols - |colVec|, zero);
      }
      assert rowVec == Conform(row, dims.value.0, zero);
      assert colVec == Conform(EffectiveColumn(row, col, isConv, zero), dims.value.1, zero);
    }
    assert numRows == |rowVec| && numCols == |colVec|;

    var mat := FillToeplitz(rowVec, colVec, zero);
    return Ok(mat);
  }

  /**
   * When the builder fails: an empty row vector, or (outside convolution mode) a given
   * column vector that is empty or whose first entry differs from the row's. The
   * mismatch error is reported exactly in the last case.
   */
  lemma ToeplitzErrors<T>(row: seq<T>, col: Option<seq<T>>, dims: Option<(int, int)>, isConv: bool, zero: T)
    ensures var t := ToeplitzMatrix(row, col, dims, isConv, zero);
      (t.Err? <==> |row| == 0 || (!isConv && col.Some? && (|col.value| == 0 || col.value[0] != row[0]))) &&
      (t.Err? && t.error == FirstEntriesDiffer <==>
         |row| > 0 && !isConv && col.Some? && |col.value| > 0 && col.value[0] != row[0])
  {
  }

  /** The length of the column vector before conforming. */
  function ColumnLength<T>(row: seq<T>, col: Option<seq<T>>, isConv: bool): (n: nat) {
    if isConv || col.None? then |row| else |col.value|
  }

  /**
   * The shape (rows, columns) of the result: |row| x (column length) without `dims`; with
   * `dims`, each side is the conformed length, which is exactly the requested size when
   * that size is not negative and a prefix length when it is.
   */
  function ToeplitzDims<T>(row: seq<T>, col: Option<seq<T>>, dims: Option<(int, int)>, isConv: bool): (shape: (nat, nat))
    ensures dims.None? ==> shape == (|row|, ColumnLength(row, col, isConv))
    ensures dims.Some? && dims.value.0 >= 0 ==> shape.0 == dims.value.0
    ensures dims.Some? && dims.value.1 >= 0 ==> shape.1 == dims.value.1
    ensures dims.Some? && dims.value.0 < 0 ==> shape.0 == PrefixLength(dims.value.0, |row|)
    ensures dims.Some? && dims.value.1 < 0 ==> shape.1 == PrefixLength(dims.value.1, ColumnLength(row, col, isConv))
  {
    if dims.None? then (|row|, ColumnLength(row, col, isConv))
    else (ConformedLength(dims.value.0, |row|), ConformedLength(dims.value.1, ColumnLength(row, col, isConv)))
  }

  /**
   * The rows of the result: ToeplitzDims(...).0 rows of ToeplitzDims(...).1 cells (the
   * column count of a result without rows is stated by ToeplitzFromVector on the array).
   */
  lemma ToeplitzShape<T>(row: seq<T>, col: Option<seq<T>>, dims: Option<(int, int)>, isConv: bool, zero: T)
    ensures var t := ToeplitzMatrix(row, col, dims, isConv, zero);
      t.Ok? ==>
        var shape := ToeplitzDims(row, col, dims, isConv);
        |t.value| == shape.0 && (forall i | 0 <= i < |t.value| :: |t.value[i]| == shape.1)
  {
  }

  /**
   * Every cell in terms of the inputs: below and on the diagonal the row vector (read
   * down the first column), above it the column vector, both zero past their ends. The
   * cell formula of the fill loop reads only entries inside the conformed vectors.
   */
  lemma ToeplitzCells<T>(row: seq<T>, col: Option<seq<T>>, dims: Option<(int, int)>, isConv: bool, zero: T)
    ensures var t := ToeplitzMatrix(row, col, dims, isConv, zero);
      t.Ok? ==> (|row| > 0 &&
        forall i, j | 0 <= i < |t.value| && 0 <= j < |t.value[i]| ::
          t.value[i][j] == if i >= j then At(row, i - j, zero)
                           else At(EffectiveColumn(row, col, isConv, zero), j - i, zero))
  {
    var t := ToeplitzMatrix(row, col, dims, isConv, zero);
    if t.Ok? {
      var c := EffectiveColumn(row, col, isConv, zero);
      var rv := if dims.None? then row else Conform(row, dims.value.0, zero);
      var cv := if dims.None? then c else Conform(c, dims.value.1, zero);
      assert t.value == Expand(rv, cv);
      forall i, j | 0 <= i < |t.value| && 0 <= j < |t.value[i]|
        ensures t.value[i][j] == if i >= j then At(row, i - j, zero) else At(c, j - i, zero)
      {
        assert t.value[i][j] == Entry(rv, cv, i, j);
      }
    }
  }

  /** The result is constant along every diagonal: two cells with the same i - j hold the same value. */
  lemma ToeplitzDiagonalConstant<T>(row: seq<T>, col: Option<seq<T>>, dims: Option<(int, int)>, isConv: bool, zero: T)
    ensures var t := ToeplitzMatrix(row, col, dims, isConv, zero);
      t.Ok? ==>
        forall i, j, i', j' |
          0 <= i < |t.value| && 0 <= j < |t.value[i]| && 0 <= i' < |t.value| && 0 <= j' < |t.value[i']| &&
          i - j == i' - j' ::
          t.value[i][j] == t.value[i'][j']
  {
    ToeplitzCells(row, col, dims, isConv, zero);
    ToeplitzShape(row, col, dims, isConv, zero);
  }

  /**
   * The first column is the row vector and the first row is the column vector, each
   * conformed (cut or zero-padded) to the matrix's size.
   */
  lemma ToeplitzBorders<T>(row: seq<T>, col: Option<seq<T>>, dims: Option<(int, int)>, isConv: bool, zero: T)
    ensures var t := ToeplitzMatrix(row, col, dims, isConv, zero);
      t.Ok? ==> (|row| > 0 &&
        (forall i | 0 <= i < |t.value| && 0 < |t.value[i]| :: t.value[i][0] == At(row, i, zero)) &&
        (|t.value| > 0 ==> forall j | 0 <= j < |t.value[0]| ::
           t.value[0][j] == At(EffectiveColumn(row, col, isConv, zero), j, zero)))
  {
    ToeplitzCells(row, col, dims, isConv, zero);
    var t := ToeplitzMatrix(row, col, dims, isConv, zero);
    if t.Ok? && |t.value| > 0 && 0 < |t.value[0]| {
      assert t.value[0][0] == row[0];
    }
  }

  /**
   * Convolution mode: every cell strictly above the diagonal is zero (the matrix is lower
   * triangular), and the column vector argument has no effect.
   */
  lemma ConvolutionLowerTriangular<T>(row: seq<T>, col: Option<seq<T>>, dims: Option<(int, int)>, zero: T)
    ensures var t := ToeplitzMatrix(row, col, dims, true, zero);
      t.Ok? ==> forall i, j | 0 <= i < |t.value| && i < j < |t.value[i]| :: t.value[i][j] == zero
  {
    ToeplitzCells(row, col, dims, true, zero);
  }

  lemma ConvolutionIgnoresColumn<T>(row: seq<T>, col1: Option<seq<T>>, col2: Option<seq<T>>, dims: Option<(int, int)>, zero: T)
    ensures ToeplitzMatrix(row, col1, dims, true, zero) == ToeplitzMatrix(row, col2, dims, true, zero)
  {
  }

  /** Without a column vector and outside convolution mode the expansion is symmetric wherever both cells exist. */
  lemma ToeplitzSymmetric<T>(row: seq<T>, dims: Option<(int, int)>, zero: T)
    ensures var t := ToeplitzMatrix(row, None, dims, false, zero);
      t.Ok? ==>
        forall i, j | 0 <= i < |t.value| && 0 <= j < |t.value| && i < |t.value[j]| && j < |t.value[i]| ::
          t.value[i][j] == t.value[j][i]
  {
    ToeplitzCells(row, None, dims, false, zero);
  }
}
