/** The matrix utility: the naive matrix product and Gauss-Jordan inversion
    without pivoting, over real matrices stored as sequences of rows. */
module Matrix {

  type Mat = seq<seq<real>>

  datatype Error = SingularMatrix

  datatype Result<T> = Success(value: T) | Failure(error: Error)

  /** m has `rows` rows of `cols` entries each. */
  predicate IsMatrix(m: Mat, rows: nat, cols: nat)
  {
    |m| == rows && forall i :: 0 <= i < rows ==> |m[i]| == cols
  }

  function Identity(n: nat): (r: Mat)
    ensures IsMatrix(r, n, n)
  {
    seq(n, i => seq(n, j => if i == j then 1.0 else 0.0))
  }

  /** The partial dot product: the sum over m < k of row[m] * second[m][j]. */
  function RowCol(row: seq<real>, second: Mat, j: nat, k: nat): real
    requires k <= |row| && k <= |second|
    requires forall m :: 0 <= m < k ==> j < |second[m]|
  {
    if k == 0 then 0.0 else RowCol(row, second, j, k - 1) + row[k - 1] * second[k - 1][j]
  }

  /** Whether `first` times `second` is defined: both non-empty, rectangular,
      and the columns of `first` as many as the rows of `second`. */
  predicate Conformable(first: Mat, second: Mat)
  {
    |first| > 0 && |second| > 0 &&
    IsMatrix(first, |first|, |second|) && IsMatrix(second, |second|, |second[0]|)
  }

  /** Two matrices of the same shape with the same entries are equal. */
  lemma MatricesEqual(a: Mat, b: Mat, rows: nat, cols: nat)
    requires IsMatrix(a, rows, cols) && IsMatrix(b, rows, cols)
    requires forall i, j :: 0 <= i < rows && 0 <= j < cols ==> a[i][j] == b[i][j]
    ensures a == b
  {
    forall i | 0 <= i < rows
      ensures a[i] == b[i]
    {
      assert forall j :: 0 <= j < cols ==> a[i][j] == b[i][j];
    }
  }

  /** The matrix product, entry (i, j) being row i of `first` against column j of `second`. */
  function Product(first: Mat, second: Mat): (r: Mat)
    requires Conformable(first, second)
    ensures IsMatrix(r, |first|, |second[0]|)
  {
    seq(|first|, i requires 0 <= i < |first| =>
      seq(|second[0]|, j requires 0 <= j < |second[0]| => RowCol(first[i], second, j, |second|)))
  }

  /** The homogeneous row vector [x, y, 1], as a 1 x 3 matrix. */
  function Point(x: real, y: real): (p: Mat)
    ensures IsMatrix(p, 1, 3)
  {
    [[x, y, 1.0]]
  }

  /** The row vector [x, y, 1] times a 3 x 3 matrix, written out. */
  lemma PointTimes(x: real, y: real, m: Mat)
    requires IsMatrix(m, 3, 3)
    ensures Product(Point(x, y), m)[0][0] == x * m[0][0] + y * m[1][0] + m[2][0]
    ensures Product(Point(x, y), m)[0][1] == x * m[0][1] + y * m[1][1] + m[2][1]
    ensures Product(Point(x, y), m)[0][2] == x * m[0][2] + y * m[1][2] + m[2][2]
  {
    var row := Point(x, y)[0];
    forall j | 0 <= j < 3
      ensures RowCol(row, m, j, 3) == x * m[0][j] + y * m[1][j] + m[2][j]
    {
      assert RowCol(row, m, j, 1) == x * m[0][j];
      assert RowCol(row, m, j, 2) == x * m[0][j] + y * m[1][j];
    }
  }

  /** multiplyMatrices: the triple loop accumulating result[i][j] += first[i][k] * second[k][j]. */
  method MultiplyMatrices(firstMatrix: Mat, secondMatrix: Mat) returns (result: Mat)
    requires Conformable(firstMatrix, secondMatrix)
    ensures IsMatrix(result, |firstMatrix|, |secondMatrix[0]|)
    ensures forall i, j :: 0 <= i < |firstMatrix| && 0 <= j < |secondMatrix[0]| ==>
              result[i][j] == RowCol(firstMatrix[i], secondMatrix, j, |secondMatrix|)
    ensures result == Product(firstMatrix, secondMatrix)
  {
    var rowFirst := |firstMatrix|;
    var columnFirst := |firstMatrix[0]|;
    var columnSecond := |secondMatrix[0]|;
    result := seq(rowFirst, _ => seq(columnSecond, _ => 0.0));
    for i := 0 to rowFirst
      invariant IsMatrix(result, rowFirst, columnSecond)
      invariant forall i', j :: 0 <= i' < i && 0 <= j < columnSecond ==>
                  result[i'][j] == RowCol(firstMatrix[i'], secondMatrix, j, columnFirst)
      invariant forall i', j :: i <= i' < rowFirst && 0 <= j < columnSecond ==> result[i'][j] == 0.0
    {
      for j := 0 to columnSecond
        invariant IsMatrix(result, rowFirst, columnSecond)
        invariant forall i', j' :: 0 <= i' < i && 0 <= j' < columnSecond ==>
                    result[i'][j'] == RowCol(firstMatrix[i'], secondMatrix, j', columnFirst)
        invariant forall j' :: 0 <= j' < j ==> result[i][j'] == RowCol(firstMatrix[i], secondMatrix, j', columnFirst)
        invariant forall j' :: j <= j' < columnSecond ==> result[i][j'] == 0.0
        invariant forall i', j' :: i < i' < rowFirst && 0 <= j' < columnSecond ==> result[i'][j'] == 0.0
      {
        ghost var before := result;
        for k := 0 to columnFirst
          invariant IsMatrix(result, rowFirst, columnSecond)
          invariant result[i][j] == RowCol(firstMatrix[i], secondMatrix, j, k)
          invariant forall i', j' :: 0 <= i' < rowFirst && 0 <= j' < columnSecond && (i' != i || j' != j) ==>
                      result[i'][j'] == before[i'][j']
        {
          result := result[i := result[i][j := result[i][j] + firstMatrix[i][k] * secondMatrix[k][j]]];
        }
      }
    }
    MatricesEqual(result, Product(firstMatrix, secondMatrix), rowFirst, columnSecond);
  }

  // ---------------------------------------------------------------------
  // Gauss-Jordan elimination, as functions of the state of the two working
  // matrices: `temp` (the copy of the input) and `ident` (the matrix that
  // starts as the identity and ends as the inverse).

  datatype Augmented = Augmented(temp: Mat, ident: Mat)

  predicate WellFormed(s: Augmented, n: nat)
  {
    IsMatrix(s.temp, n, n) && IsMatrix(s.ident, n, n)
  }

  /** row - ratio * pivotRow, entry by entry. */
  function SubtractRow(row: seq<real>, pivotRow: seq<real>, ratio: real): (r: seq<real>)
    requires |row| == |pivotRow|
    ensures |r| == |row|
  {
    seq(|row|, k requires 0 <= k < |row| => row[k] - ratio * pivotRow[k])
  }

  /** row / divisor, entry by entry. */
  function DivideRow(row: seq<real>, divisor: real): (r: seq<real>)
    requires divisor != 0.0
    ensures |r| == |row|
  {
    seq(|row|, k requires 0 <= k < |row| => row[k] / divisor)
  }

  /** Step j of the elimination of column i: unless j is the pivot row, row j
      of both matrices loses `ratio` times row i, the ratio that clears temp[j][i]. */
  function EliminateRow(s: Augmented, n: nat, i: nat, j: nat): (r: Augmented)
    requires WellFormed(s, n) && i < n && j < n && s.temp[i][i] != 0.0
    ensures WellFormed(r, n)
  {
    if i == j then s
    else
      var ratio := s.temp[j][i] / s.temp[i][i];
      Augmented(s.temp[j := SubtractRow(s.temp[j], s.temp[i], ratio)],
                s.ident[j := SubtractRow(s.ident[j], s.ident[i], ratio)])
  }

  /** Column i eliminated from rows 0 .. j-1; the pivot row itself is never touched. */
  function EliminateRows(s: Augmented, n: nat, i: nat, j: nat): (r: Augmented)
    requires WellFormed(s, n) && i < n && j <= n && s.temp[i][i] != 0.0
    ensures WellFormed(r, n) && r.temp[i] == s.temp[i] && r.ident[i] == s.ident[i]
  {
    if j == 0 then s else EliminateRow(EliminateRows(s, n, i, j - 1), n, i, j - 1)
  }

  /** Columns 0 .. i-1 eliminated, starting from the input and the identity.
      A zero pivot, which the source divides by, is reported as SingularMatrix. */
  function Eliminate(m: Mat, n: nat, i: nat): (r: Result<Augmented>)
    requires IsMatrix(m, n, n) && i <= n
    ensures r.Success? ==> WellFormed(r.value, n)
  {
    if i == 0 then Success(Augmented(m, Identity(n)))
    else
      match Eliminate(m, n, i - 1)
      case Failure(e) => Failure(e)
      case Success(s) =>
        if s.temp[i - 1][i - 1] == 0.0 then Failure(SingularMatrix)
        else Success(EliminateRows(s, n, i - 1, n))
  }

  /** Rows 0 .. i-1 of both matrices divided by the diagonal entry of temp. */
  function NormalizeRows(s: Augmented, n: nat, i: nat): (r: Augmented)
    requires WellFormed(s, n) && i <= n
    requires forall c :: 0 <= c < i ==> s.temp[c][c] != 0.0
    ensures WellFormed(r, n)
    ensures forall c :: i <= c < n ==> r.temp[c] == s.temp[c] && r.ident[c] == s.ident[c]
  {
    if i == 0 then s
    else
      var t := NormalizeRows(s, n, i - 1);
      var divisor := t.temp[i - 1][i - 1];
      Augmented(t.temp[i - 1 := DivideRow(t.temp[i - 1], divisor)],
                t.ident[i - 1 := DivideRow(t.ident[i - 1], divisor)])
  }

  /** inverseMatrix as a function: eliminate every column, then normalise. */
  function Inverse(m: Mat): (r: Result<Mat>)
    requires IsMatrix(m, |m|, |m|)
    ensures r.Success? ==> IsMatrix(r.value, |m|, |m|)
  {
    match Eliminate(m, |m|, |m|)
    case Failure(e) => Failure(e)
    case Success(s) =>
      EliminateClears(m, |m|, |m|);
      Success(NormalizeRows(s, |m|, |m|).ident)
  }

  /** Once elimination has failed, it stays failed. */
  lemma {:induction false} EliminateFailureStays(m: Mat, n: nat, i: nat, k: nat)
    requires IsMatrix(m, n, n) && i <= k <= n
    requires Eliminate(m, n, i).Failure?
    ensures Eliminate(m, n, k).Failure?
  {
    if k > i {
      EliminateFailureStays(m, n, i, k - 1);
    }
  }

  /** The innermost elimination loop (source lines 33-37): row j of both
      matrices, updated entry by entry against the pivot rows. */
  method SubtractPivotRow(temp: seq<real>, ident: seq<real>, tempPivot: seq<real>, identPivot: seq<real>, ratio: real)
    returns (tempRow: seq<real>, identityRow: seq<real>)
    requires |temp| == |ident| == |tempPivot| == |identPivot|
    ensures tempRow == SubtractRow(temp, tempPivot, ratio)
    ensures identityRow == SubtractRow(ident, identPivot, ratio)
  {
    var n := |temp|;
    tempRow, identityRow := temp, ident;
    for k := 0 to n
      invariant |tempRow| == n && |identityRow| == n
      invariant forall c :: 0 <= c < k ==>
                  tempRow[c] == temp[c] - ratio * tempPivot[c] && identityRow[c] == ident[c] - ratio * identPivot[c]
      invariant forall c :: k <= c < n ==> tempRow[c] == temp[c] && identityRow[c] == ident[c]
    {
      tempRow := tempRow[k := tempRow[k] - ratio * tempPivot[k]];
      identityRow := identityRow[k := identityRow[k] - ratio * identPivot[k]];
    }
    assert forall c :: 0 <= c < n ==> tempRow[c] == SubtractRow(temp, tempPivot, ratio)[c];
    assert forall c :: 0 <= c < n ==> identityRow[c] == SubtractRow(ident, identPivot, ratio)[c];
  }

  /** One pass of the outer elimination loop (source lines 28-39): row i is the
      pivot row, and every other row j of both matrices loses
      temp[j][i] / temp[i][i] times row i, entry by entry. */
  method EliminateColumn(temp: Mat, ident: Mat, n: nat, i: nat) returns (tempMatrix: Mat, identityMatrix: Mat)
    requires WellFormed(Augmented(temp, ident), n) && i < n && temp[i][i] != 0.0
    ensures Augmented(tempMatrix, identityMatrix) == EliminateRows(Augmented(temp, ident), n, i, n)
  {
    tempMatrix, identityMatrix := temp, ident;
    for j := 0 to n
      invariant Augmented(tempMatrix, identityMatrix) == EliminateRows(Augmented(temp, ident), n, i, j)
    {
      if i != j {
        var ratio := tempMatrix[j][i] / tempMatrix[i][i];
        var tempRow, identityRow := SubtractPivotRow(tempMatrix[j], identityMatrix[j], tempMatrix[i], identityMatrix[i], ratio);
        tempMatrix, identityMatrix := tempMatrix[j := tempRow], identityMatrix[j := identityRow];
      }
    }
  }

  /** The loop that sets up the identity matrix (source lines 21-24): an n x n
      matrix of zeros whose diagonal entries are then set to 1, one by one. */
  method IdentityMatrix(n: nat) returns (m: Mat)
    ensures m == Identity(n)
  {
    m := seq(n, _ => seq(n, _ => 0.0));
    for i := 0 to n
      invariant IsMatrix(m, n, n)
      invariant forall q, c :: 0 <= q < n && 0 <= c < n ==> m[q][c] == if q == c && q < i then 1.0 else 0.0
    {
      m := m[i := m[i][i := 1.0]];
    }
    MatricesEqual(m, Identity(n), n, n);
  }

  /** The normalisation of one row (source lines 42-50): row i of both matrices
      divided entry by entry by the pivot temp[i][i]. */
  method DividePivotRow(temp: seq<real>, ident: seq<real>, divisor: real)
    returns (tempRow: seq<real>, identityRow: seq<real>)
    requires |temp| == |ident| && divisor != 0.0
    ensures tempRow == DivideRow(temp, divisor)
    ensures identityRow == DivideRow(ident, divisor)
  {
    var n := |temp|;
    tempRow, identityRow := temp, ident;
    for j := 0 to n
      invariant |tempRow| == n && |identityRow| == n
      invariant forall c :: 0 <= c < j ==> tempRow[c] == temp[c] / divisor && identityRow[c] == ident[c] / divisor
      invariant forall c :: j <= c < n ==> tempRow[c] == temp[c] && identityRow[c] == ident[c]
    {
      tempRow := tempRow[j := tempRow[j] / divisor];
      identityRow := identityRow[j := identityRow[j] / divisor];
    }
    assert forall c :: 0 <= c < n ==> tempRow[c] == DivideRow(temp, divisor)[c];
    assert forall c :: 0 <= c < n ==> identityRow[c] == DivideRow(ident, divisor)[c];
  }

  /** inverseMatrix: Gauss-Jordan elimination on a copy of the input and on an
      identity matrix, both updated in place, then row normalisation. The copy
      is a local value, so the input itself is never changed. */
  method InverseMatrix(matrix: Mat) returns (r: Result<Mat>)
    requires IsMatrix(matrix, |matrix|, |matrix|)
    ensures r == Inverse(matrix)
    ensures r.Success? ==> IsMatrix(r.value, |matrix|, |matrix|)
    ensures r.Success? && |matrix| > 0 ==> Product(r.value, matrix) == Identity(|matrix|)
  {
    var n := |matrix|;
    var tempMatrix := matrix;
    var identityMatrix := IdentityMatrix(n);

    for i := 0 to n
      invariant Eliminate(matrix, n, i) == Success(Augmented(tempMatrix, identityMatrix))
    {
      if tempMatrix[i][i] == 0.0 {
        EliminateFailureStays(matrix, n, i + 1, n);
        return Failure(SingularMatrix);
      }
      tempMatrix, identityMatrix := EliminateColumn(tempMatrix, identityMatrix, n, i);
    }

    ghost var eliminated := Augmented(tempMatrix, identityMatrix);
    EliminateClears(matrix, n, n);
    for i := 0 to n
      invariant Augmented(tempMatrix, identityMatrix) == NormalizeRows(eliminated, n, i)
    {
      var tempRow, identityRow := DividePivotRow(tempMatrix[i], identityMatrix[i], tempMatrix[i][i]);
      tempMatrix, identityMatrix := tempMatrix[i := tempRow], identityMatrix[i := identityRow];
    }
    InverseIsLeftInverse(matrix);
    return Success(identityMatrix);
  }

  // ---------------------------------------------------------------------
  // What elimination does to the columns of temp.

  /** Every off-diagonal entry of columns 0 .. i-1 is zero. */
  ghost predicate Cleared(t: Mat, n: nat, i: nat)
    requires IsMatrix(t, n, n) && i <= n
  {
    forall r, c :: 0 <= r < n && 0 <= c < i && r != c ==> t[r][c] == 0.0
  }

  /** The diagonal entries of columns 0 .. i-1 are nonzero. */
  ghost predicate PivotsNonzero(t: Mat, n: nat, i: nat)
    requires IsMatrix(t, n, n) && i <= n
  {
    forall c :: 0 <= c < i ==> t[c][c] != 0.0
  }

  /** Eliminating column i keeps the earlier columns cleared with their pivots,
      and clears column i in every row processed so far. */
  lemma {:induction false} EliminateRowsClears(s: Augmented, n: nat, i: nat, j: nat)
    requires WellFormed(s, n) && i < n && j <= n && s.temp[i][i] != 0.0
    requires Cleared(s.temp, n, i) && PivotsNonzero(s.temp, n, i + 1)
    ensures Cleared(EliminateRows(s, n, i, j).temp, n, i)
    ensures PivotsNonzero(EliminateRows(s, n, i, j).temp, n, i + 1)
    ensures forall r :: 0 <= r < j && r != i ==> EliminateRows(s, n, i, j).temp[r][i] == 0.0
  {
    if j > 0 {
      EliminateRowsClears(s, n, i, j - 1);
      var t := EliminateRows(s, n, i, j - 1);
      var r := EliminateRow(t, n, i, j - 1);
      assert r == EliminateRows(s, n, i, j);
      if j - 1 != i {
        var ratio := t.temp[j - 1][i] / t.temp[i][i];
        assert r.temp[j - 1] == SubtractRow(t.temp[j - 1], t.temp[i], ratio);
        assert r.temp[j - 1][i] == 0.0;
        var pivotRow, before, after := t.temp[i], t.temp[j - 1], r.temp[j - 1];
        forall c | 0 <= c < i
          ensures after[c] == before[c]
        {
          assert pivotRow[c] == 0.0;
        }
      }
    }
  }

  /** After columns 0 .. i-1 are processed, they are cleared and their pivots are nonzero. */
  lemma {:induction false} EliminateClears(m: Mat, n: nat, i: nat)
    requires IsMatrix(m, n, n) && i <= n
    ensures Eliminate(m, n, i).Success? ==>
              Cleared(Eliminate(m, n, i).value.temp, n, i) && PivotsNonzero(Eliminate(m, n, i).value.temp, n, i)
  {
    if i > 0 {
      EliminateClears(m, n, i - 1);
      var prev := Eliminate(m, n, i - 1);
      if prev.Success? && prev.value.temp[i - 1][i - 1] != 0.0 {
        EliminateRowsClears(prev.value, n, i - 1, n);
      }
    }
  }

  // ---------------------------------------------------------------------
  // The invariant ident * m == temp.

  lemma {:induction false} RowColIdentity(n: nat, m: Mat, i: nat, j: nat, k: nat)
    requires IsMatrix(m, n, n) && i < n && j < n && k <= n
    ensures RowCol(Identity(n)[i], m, j, k) == if i < k then m[i][j] else 0.0
  {
    if k > 0 {
      RowColIdentity(n, m, i, j, k - 1);
    }
  }

  lemma ProductIdentity(m: Mat, n: nat)
    requires n > 0 && IsMatrix(m, n, n)
    ensures Product(Identity(n), m) == m
  {
    forall i, j | 0 <= i < n && 0 <= j < n
      ensures Product(Identity(n), m)[i][j] == m[i][j]
    {
      RowColIdentity(n, m, i, j, n);
    }
    MatricesEqual(Product(Identity(n), m), m, n, n);
  }

  lemma {:induction false} RowColSubtract(u: seq<real>, v: seq<real>, ratio: real, m: Mat, j: nat, k: nat)
    requires |u| == |v| && k <= |u| && k <= |m|
    requires forall q :: 0 <= q < k ==> j < |m[q]|
    ensures RowCol(SubtractRow(u, v, ratio), m, j, k) == RowCol(u, m, j, k) - ratio * RowCol(v, m, j, k)
  {
    if k > 0 {
      RowColSubtract(u, v, ratio, m, j, k - 1);
      assert SubtractRow(u, v, ratio)[k - 1] == u[k - 1] - ratio * v[k - 1];
    }
  }

  lemma {:induction false} RowColDivide(u: seq<real>, divisor: real, m: Mat, j: nat, k: nat)
    requires divisor != 0.0 && k <= |u| && k <= |m|
    requires forall q :: 0 <= q < k ==> j < |m[q]|
    ensures RowCol(DivideRow(u, divisor), m, j, k) == RowCol(u, m, j, k) / divisor
  {
    if k > 0 {
      RowColDivide(u, divisor, m, j, k - 1);
      assert DivideRow(u, divisor)[k - 1] == u[k - 1] / divisor;
    }
  }

  /** Applying the same row operation to ident and temp keeps ident * m == temp. */
  lemma SubtractRowKeepsProduct(s: Augmented, m: Mat, n: nat, i: nat, j: nat, ratio: real)
    requires n > 0 && IsMatrix(m, n, n) && WellFormed(s, n) && i < n && j < n
    requires Product(s.ident, m) == s.temp
    ensures Product(s.ident[j := SubtractRow(s.ident[j], s.ident[i], ratio)], m)
         == s.temp[j := SubtractRow(s.temp[j], s.temp[i], ratio)]
  {
    var e := s.ident[j := SubtractRow(s.ident[j], s.ident[i], ratio)];
    var t := s.temp[j := SubtractRow(s.temp[j], s.temp[i], ratio)];
    forall r, c | 0 <= r < n && 0 <= c < n
      ensures Product(e, m)[r][c] == t[r][c]
    {
      if r == j {
        RowColSubtract(s.ident[j], s.ident[i], ratio, m, c, n);
        assert Product(s.ident, m)[j][c] == s.temp[j][c];
        assert Product(s.ident, m)[i][c] == s.temp[i][c];
      } else {
        assert Product(s.ident, m)[r][c] == s.temp[r][c];
      }
    }
    MatricesEqual(Product(e, m), t, n, n);
  }

  lemma DivideRowKeepsProduct(s: Augmented, m: Mat, n: nat, i: nat, divisor: real)
    requires n > 0 && IsMatrix(m, n, n) && WellFormed(s, n) && i < n && divisor != 0.0
    requires Product(s.ident, m) == s.temp
    ensures Product(s.ident[i := DivideRow(s.ident[i], divisor)], m) == s.temp[i := DivideRow(s.temp[i], divisor)]
  {
    var e := s.ident[i := DivideRow(s.ident[i], divisor)];
    var t := s.temp[i := DivideRow(s.temp[i], divisor)];
    forall r, c | 0 <= r < n && 0 <= c < n
      ensures Product(e, m)[r][c] == t[r][c]
    {
      assert Product(s.ident, m)[r][c] == s.temp[r][c];
      if r == i {
        RowColDivide(s.ident[i], divisor, m, c, n);
      }
    }
    MatricesEqual(Product(e, m), t, n, n);
  }

  lemma {:induction false} EliminateRowsKeepsProduct(s: Augmented, m: Mat, n: nat, i: nat, j: nat)
    requires n > 0 && IsMatrix(m, n, n) && WellFormed(s, n) && i < n && j <= n && s.temp[i][i] != 0.0
    requires Product(s.ident, m) == s.temp
    ensures Product(EliminateRows(s, n, i, j).ident, m) == EliminateRows(s, n, i, j).temp
  {
    if j > 0 {
      EliminateRowsKeepsProduct(s, m, n, i, j - 1);
      var t := EliminateRows(s, n, i, j - 1);
      if i != j - 1 {
        SubtractRowKeepsProduct(t, m, n, i, j - 1, t.temp[j - 1][i] / t.temp[i][i]);
      }
    }
  }

  /** Throughout elimination, ident * m == temp. */
  lemma {:induction false} EliminateKeepsProduct(m: Mat, n: nat, i: nat)
    requires n > 0 && IsMatrix(m, n, n) && i <= n
    ensures Eliminate(m, n, i).Success? ==> Product(Eliminate(m, n, i).value.ident, m) == Eliminate(m, n, i).value.temp
  {
    if i == 0 {
      ProductIdentity(m, n);
    } else {
      EliminateKeepsProduct(m, n, i - 1);
      var prev := Eliminate(m, n, i - 1);
      if prev.Success? && prev.value.temp[i - 1][i - 1] != 0.0 {
        EliminateRowsKeepsProduct(prev.value, m, n, i - 1, n);
      }
    }
  }

  /** Throughout normalisation, ident * m == temp still. */
  lemma {:induction false} NormalizeRowsKeepsProduct(s: Augmented, m: Mat, n: nat, i: nat)
    requires n > 0 && IsMatrix(m, n, n) && WellFormed(s, n) && i <= n
    requires PivotsNonzero(s.temp, n, n)
    requires Product(s.ident, m) == s.temp
    ensures Product(NormalizeRows(s, n, i).ident, m) == NormalizeRows(s, n, i).temp
  {
    if i > 0 {
      NormalizeRowsKeepsProduct(s, m, n, i - 1);
      var t := NormalizeRows(s, n, i - 1);
      DivideRowKeepsProduct(t, m, n, i - 1, t.temp[i - 1][i - 1]);
    }
  }

  /** Once the columns are cleared, each normalised row of temp is a row of the identity. */
  lemma {:induction false} NormalizeRowsToIdentity(s: Augmented, n: nat, i: nat)
    requires WellFormed(s, n) && i <= n
    requires Cleared(s.temp, n, n) && PivotsNonzero(s.temp, n, n)
    ensures forall c :: 0 <= c < i ==> NormalizeRows(s, n, i).temp[c] == Identity(n)[c]
  {
    if i > 0 {
      NormalizeRowsToIdentity(s, n, i - 1);
      var t := NormalizeRows(s, n, i - 1);
      var r := NormalizeRows(s, n, i);
      assert t.temp[i - 1] == s.temp[i - 1];
      var divisor := s.temp[i - 1][i - 1];
      assert r.temp[i - 1] == DivideRow(s.temp[i - 1], divisor);
      var row, unit := r.temp[i - 1], Identity(n)[i - 1];
      forall c | 0 <= c < n
        ensures row[c] == unit[c]
      {
        assert row[c] == s.temp[i - 1][c] / divisor;
        if c != i - 1 {
          assert s.temp[i - 1][c] == 0.0;
        }
      }
      assert row == unit;
    }
  }

  /** When inversion succeeds on a non-empty square matrix, the result is its left inverse. */
  lemma InverseIsLeftInverse(m: Mat)
    requires IsMatrix(m, |m|, |m|)
    ensures Inverse(m).Success? ==> IsMatrix(Inverse(m).value, |m|, |m|)
    ensures Inverse(m).Success? && |m| > 0 ==> Product(Inverse(m).value, m) == Identity(|m|)
  {
    var n := |m|;
    EliminateClears(m, n, n);
    var e := Eliminate(m, n, n);
    if e.Success? && n > 0 {
      EliminateKeepsProduct(m, n, n);
      NormalizeRowsKeepsProduct(e.value, m, n, n);
      NormalizeRowsToIdentity(e.value, n, n);
      var r := NormalizeRows(e.value, n, n);
      MatricesEqual(r.temp, Identity(n), n, n);
    }
  }
}
