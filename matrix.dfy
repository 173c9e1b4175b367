/** The dense matrix type: a rows by cols grid of numbers held in a 2-D array
    that its methods read and update in place. */
module Matrices {
  import opened Errors
  import opened Grids

  /** The cells of a 2-D array, row by row. */
  ghost function GridOf(a: array2<real>): (g: Grid)
    reads a
    ensures Shaped(g, a.Length0, a.Length1)
    ensures forall i, j :: 0 <= i < a.Length0 && 0 <= j < a.Length1 ==> g[i][j] == a[i, j]
  {
    seq(a.Length0, i requires 0 <= i < a.Length0 reads a =>
      seq(a.Length1, j requires 0 <= j < a.Length1 reads a => a[i, j]))
  }

  /** Row i of a rows by cols grid fits after the rows before it. */
  lemma PrefixRoom(g: Grid, i: nat, r: nat, c: nat)
    requires Shaped(g, r, c) && i < r
    ensures |Flatten(g[..i])| + c <= r * c
  {
    FlattenLength(g[..i], i, c);
    assert i * c + c == (i + 1) * c <= r * c;
  }

  lemma PackedRowDone(g: Grid, i: nat, c: nat)
    requires i < |g| && |g[i]| == c
    ensures Flatten(g[..i]) + g[i][..c] == Flatten(g[..i + 1])
  {
    assert g[..i + 1][..i] == g[..i];
    assert g[i][..c] == g[i];
  }

  class Matrix {
    /** The backing store. It is not necessarily owned by this object: the
        array constructor keeps the caller's array and Clone shares it. None
        of the three fields is ever reassigned, so they are constants. */
    const matrix: array2<real>
    const rows: nat
    const cols: nat

    ghost predicate Valid() {
      matrix.Length0 == rows && matrix.Length1 == cols
    }

    /** The current contents, as a value. */
    ghost function Cells(): (g: Grid)
      reads matrix
      requires Valid()
      ensures Shaped(g, rows, cols)
    {
      GridOf(matrix)
    }

    /** A fresh all-zero matrix of the given shape. */
    constructor (rows: nat, cols: nat)
      ensures Valid() && this.rows == rows && this.cols == cols
      ensures fresh(matrix) && Cells() == Zero(rows, cols)
    {
      var m := new real[rows, cols];
      for i := 0 to rows
        invariant forall p, q :: 0 <= p < i && 0 <= q < cols ==> m[p, q] == 0.0
      {
        for j := 0 to cols
          invariant forall p, q :: 0 <= p < i && 0 <= q < cols ==> m[p, q] == 0.0
          invariant forall q :: 0 <= q < j ==> m[i, q] == 0.0
        {
          m[i, j] := 0.0;
        }
      }
      matrix := m;
      this.rows := rows;
      this.cols := cols;
      new;
      Extensionality(GridOf(m), Zero(rows, cols), rows, cols);
    }

    /** A matrix over the caller's array itself, not a copy of it; the shape
        is read from the array. */
    constructor FromArray(matData: array2<real>)
      requires matData.Length0 >= 1
      ensures Valid() && matrix == matData
      ensures rows == matData.Length0 && cols == matData.Length1
    {
      matrix := matData;
      rows := matData.Length0;
      cols := matData.Length1;
    }

    /** A fresh n by 1 matrix holding `input` top to bottom. */
    static method CreateColumnMatrix(input: array<real>) returns (m: Matrix)
      requires input.Length >= 1
      ensures fresh(m) && fresh(m.matrix) && m.Valid()
      ensures m.rows == input.Length && m.cols == 1
      ensures m.Cells() == ColumnGrid(input[..])
    {
      var mat := new real[input.Length, 1];
      for i := 0 to input.Length
        invariant forall p :: 0 <= p < i ==> mat[p, 0] == input[p]
      {
        mat[i, 0] := input[i];
      }
      m := new Matrix.FromArray(mat);
      Extensionality(m.Cells(), ColumnGrid(input[..]), input.Length, 1);
    }

    /** A fresh 1 by n matrix holding `input` left to right. */
    static method CreateRowMatrix(input: array<real>) returns (m: Matrix)
      ensures fresh(m) && fresh(m.matrix) && m.Valid()
      ensures m.rows == 1 && m.cols == input.Length
      ensures m.Cells() == RowGrid(input[..])
    {
      var mat := new real[1, input.Length];
      for i := 0 to input.Length
        invariant forall q :: 0 <= q < i ==> mat[0, q] == input[q]
      {
        mat[0, i] := input[i];
      }
      m := new Matrix.FromArray(mat);
      Extensionality(m.Cells(), RowGrid(input[..]), 1, input.Length);
    }

    /** Adds `value` to the cell at the 1-indexed position (row, col). */
    method Add(row: int, col: int, value: real)
      requires Valid()
      requires 1 <= row <= rows && 1 <= col <= cols
      modifies matrix
      ensures Cells() == SetCell(old(Cells()), row - 1, col - 1, old(Cells())[row - 1][col - 1] + value)
    {
      matrix[row - 1, col - 1] := matrix[row - 1, col - 1] + value;
      Extensionality(Cells(), SetCell(old(Cells()), row - 1, col - 1, old(Cells())[row - 1][col - 1] + value), rows, cols);
    }

    /** Sets every cell to zero; the shape never changes. */
    method Clear()
      requires Valid()
      modifies matrix
      ensures Cells() == Zero(rows, cols)
    {
      for i := 0 to rows
        invariant forall p, q :: 0 <= p < i && 0 <= q < cols ==> matrix[p, q] == 0.0
      {
        for j := 0 to cols
          invariant forall p, q :: 0 <= p < i && 0 <= q < cols ==> matrix[p, q] == 0.0
          invariant forall q :: 0 <= q < j ==> matrix[i, q] == 0.0
        {
          matrix[i, j] := 0.0;
        }
      }
      Extensionality(Cells(), Zero(rows, cols), rows, cols);
    }

    /** The source's clone: a new object over the SAME array, so a later
        change through either object is seen through the other. */
    method Clone() returns (c: Matrix)
      requires Valid() && rows >= 1
      ensures fresh(c) && c.Valid() && c.matrix == matrix
      ensures c.rows == rows && c.cols == cols && c.Cells() == Cells()
    {
      c := new Matrix.FromArray(matrix);
    }

    /** A clone with storage of its own: same shape and contents, and no
        later change to either matrix reaches the other. */
    method CloneCopy() returns (c: Matrix)
      requires Valid()
      ensures fresh(c) && fresh(c.matrix) && c.Valid()
      ensures c.rows == rows && c.cols == cols && c.Cells() == Cells()
    {
      c := new Matrix(rows, cols);
      for i := 0 to rows
        invariant forall p, q :: 0 <= p < i && 0 <= q < cols ==> c.matrix[p, q] == matrix[p, q]
      {
        for j := 0 to cols
          invariant forall p, q :: 0 <= p < i && 0 <= q < cols ==> c.matrix[p, q] == matrix[p, q]
          invariant forall q :: 0 <= q < j ==> c.matrix[i, q] == matrix[i, q]
        {
          c.matrix[i, j] := matrix[i, j];
        }
      }
      Extensionality(c.Cells(), Cells(), rows, cols);
    }

    /** The source's equality: false when the shapes differ; otherwise it
        compares cell (i, j) of this matrix with cell (i + 1, j + 1) of the
        other, skipping the pairs whose shifted index is out of bounds. */
    method Equals(other: Matrix) returns (eq: bool)
      requires Valid() && other.Valid()
      ensures eq == (rows == other.rows && cols == other.cols
                     && ShiftedAgree(Cells(), other.Cells(), rows, cols))
    {
      if !(rows == other.rows && cols == other.cols) {
        return false;
      }
      for i := 0 to rows
        invariant forall p, q :: 0 <= p < i && p < rows - 1 && 0 <= q < cols - 1 ==>
          other.matrix[p + 1, q + 1] == matrix[p, q]
      {
        for j := 0 to cols
          invariant forall p, q :: 0 <= p < i && p < rows - 1 && 0 <= q < cols - 1 ==>
            other.matrix[p + 1, q + 1] == matrix[p, q]
          invariant i < rows - 1 ==> forall q :: 0 <= q < j && q < cols - 1 ==>
            other.matrix[i + 1, q + 1] == matrix[i, q]
        {
          var e := other.GetElement(i + 1, j + 1);
          // an index error is reported and the comparison goes on
          if e.Ok? && e.value != matrix[i, j] {
            return false;
          }
        }
      }
      return true;
    }

    /** Cell-by-cell equality: the same shape and the same contents. */
    method EqualsCellwise(other: Matrix) returns (eq: bool)
      requires Valid() && other.Valid()
      ensures eq == (rows == other.rows && cols == other.cols && Cells() == other.Cells())
    {
      if !(rows == other.rows && cols == other.cols) {
        return false;
      }
      for i := 0 to rows
        invariant forall p, q :: 0 <= p < i && 0 <= q < cols ==> other.matrix[p, q] == matrix[p, q]
      {
        for j := 0 to cols
          invariant forall p, q :: 0 <= p < i && 0 <= q < cols ==> other.matrix[p, q] == matrix[p, q]
          invariant forall q :: 0 <= q < j ==> other.matrix[i, q] == matrix[i, q]
        {
          var e := other.GetElement(i, j);
          if e.value != matrix[i, j] {
            return false;
          }
        }
      }
      Extensionality(Cells(), other.Cells(), rows, cols);
      return true;
    }

    /** The cell at the 0-indexed position (row, col), or an index error when
        either index is past the last one. */
    function GetElement(row: nat, col: nat): (r: Result<real>)
      reads matrix
      requires Valid()
      ensures r.Ok? <==> row < rows && col < cols
      ensures r.Err? ==> r.error == MatrixIndexOutOfBounds
      ensures r.Ok? ==> r.value == Cells()[row][col]
    {
      if row > rows - 1 || col > cols - 1 then Err(MatrixIndexOutOfBounds) else Ok(matrix[row, col])
    }

    /** Column `col` as a fresh rows by 1 matrix. */
    method GetCol(col: nat) returns (r: Result<Matrix>)
      requires Valid()
      requires col < cols ==> rows >= 1
      ensures r.Ok? <==> col < cols
      ensures r.Err? ==> r.error == MatrixIndexOutOfBounds
      ensures r.Ok? ==> fresh(r.value) && fresh(r.value.matrix) && r.value.Valid()
      ensures r.Ok? ==> r.value.rows == rows && r.value.cols == 1
      ensures r.Ok? ==> r.value.Cells() == ColumnGrid(Column(Cells(), col))
    {
      if col > cols - 1 {
        return Err(MatrixIndexOutOfBounds);
      }
      var column := new real[rows, 1];
      for i := 0 to rows
        invariant forall p :: 0 <= p < i ==> column[p, 0] == matrix[p, col]
      {
        column[i, 0] := matrix[i, col];
      }
      var m := new Matrix.FromArray(column);
      Extensionality(m.Cells(), ColumnGrid(Column(Cells(), col)), rows, 1);
      return Ok(m);
    }

    /** Row `row` as a fresh 1 by cols matrix. */
    method GetRow(row: nat) returns (r: Result<Matrix>)
      requires Valid()
      ensures r.Ok? <==> row < rows
      ensures r.Err? ==> r.error == MatrixIndexOutOfBounds
      ensures r.Ok? ==> fresh(r.value) && fresh(r.value.matrix) && r.value.Valid()
      ensures r.Ok? ==> r.value.rows == 1 && r.value.cols == cols
      ensures r.Ok? ==> r.value.Cells() == RowGrid(Cells()[row])
    {
      if row > rows - 1 {
        return Err(MatrixIndexOutOfBounds);
      }
      var rowmat := new real[1, cols];
      for i := 0 to cols
        invariant forall q :: 0 <= q < i ==> rowmat[0, q] == matrix[row, q]
      {
        rowmat[0, i] := matrix[row, i];
      }
      var m := new Matrix.FromArray(rowmat);
      Extensionality(m.Cells(), RowGrid(Cells()[row]), 1, cols);
      return Ok(m);
    }

    /** A matrix is a vector when it has a single row or a single column;
        its packed cells are then that row or that column. */
    function IsVector(): (b: bool)
      requires Valid()
      reads matrix
      ensures b <==> rows == 1 || cols == 1
      ensures b ==> Flatten(Cells()) == if rows == 1 then Cells()[0] else Column(Cells(), 0)
    {
      if rows == 1 || cols == 1 then
        PackedVector(Cells(), rows, cols);
        true
      else
        false
    }

    /** Whether every cell is zero. */
    method IsZero() returns (z: bool)
      requires Valid()
      ensures z <==> Cells() == Zero(rows, cols)
    {
      for i := 0 to rows
        invariant forall p, q :: 0 <= p < i && 0 <= q < cols ==> matrix[p, q] == 0.0
      {
        for j := 0 to cols
          invariant forall p, q :: 0 <= p < i && 0 <= q < cols ==> matrix[p, q] == 0.0
          invariant forall q :: 0 <= q < j ==> matrix[i, q] == 0.0
        {
          if matrix[i, j] != 0.0 {
            assert Cells()[i][j] != Zero(rows, cols)[i][j];
            return false;
          }
        }
      }
      Extensionality(Cells(), Zero(rows, cols), rows, cols);
      return true;
    }

    /** Overwrites the cell at the 0-indexed position (row, col); an index
        past the last one is an error that changes nothing. */
    method Set(row: nat, col: nat, value: real) returns (res: Outcome)
      requires Valid()
      modifies matrix
      ensures res.Fail? <==> row >= rows || col >= cols
      ensures res.Fail? ==> res.error == MatrixIndexOutOfBounds && Cells() == old(Cells())
      ensures res.Pass? ==> Cells() == SetCell(old(Cells()), row, col, value)
    {
      if row > rows - 1 || col > cols - 1 {
        return Fail(MatrixIndexOutOfBounds);
      }
      matrix[row, col] := value;
      Extensionality(Cells(), SetCell(old(Cells()), row, col, value), rows, cols);
      return Pass;
    }

    /** The sum of all cells, which is the sum of the packed array. */
    method Sum() returns (s: real)
      requires Valid()
      ensures s == SeqSum(Flatten(Cells()))
    {
      ghost var g := Cells();
      s := 0.0;
      for i := 0 to rows
        invariant s == GridSum(g[..i])
      {
        for j := 0 to cols
          invariant s == GridSum(g[..i]) + SeqSum(g[i][..j])
        {
          assert g[i][..j + 1][..j] == g[i][..j];
          s := s + matrix[i, j];
        }
        assert g[..i + 1][..i] == g[..i];
        assert g[i][..cols] == g[i];
      }
      assert g[..rows] == g;
      GridSumIsPackedSum(g);
    }

    /** The cells packed row after row into a fresh array of rows * cols
        cells (Grids.FlattenAt: cell (i, j) lands at index i * cols + j). */
    method ToPackedArray() returns (res: array<real>)
      requires Valid()
      ensures fresh(res) && res[..] == Flatten(Cells())
      ensures res.Length == rows * cols
    {
      ghost var g := Cells();
      res := new real[rows * cols];
      var index := 0;
      for i := 0 to rows
        invariant index == |Flatten(g[..i])| <= rows * cols
        invariant res[..index] == Flatten(g[..i])
      {
        PrefixRoom(g, i, rows, cols);
        ghost var prefix := Flatten(g[..i]);
        assert prefix + g[i][..0] == prefix;
        for j := 0 to cols
          invariant index == |prefix| + j
          invariant res[..index] == prefix + g[i][..j]
        {
          ghost var done := res[..index];
          res[index] := matrix[i, j];
          assert res[..index + 1] == done + [g[i][j]];
          assert g[i][..j + 1] == g[i][..j] + [g[i][j]];
          index := index + 1;
        }
        PackedRowDone(g, i, cols);
      }
      assert g[..rows] == g;
      FlattenLength(g, rows, cols);
      assert res[..] == res[..index];
    }
  }

  // ---------------------------------------------------------------------
  // Concrete runs that separate the source's clone and equality from
  // their corrected forms

  /** Cloning a 1 by 1 zero matrix and then setting the original's cell to
      7: the clone as written reads 7 back, a copying clone still reads 0. */
  method CloneSharesStorage() returns (asWritten: real, corrected: real)
    ensures asWritten == 7.0 && corrected == 0.0
  {
    var original := new Matrix(1, 1);
    var shared := original.Clone();
    var copied := original.CloneCopy();
    var status := original.Set(0, 0, 7.0);
    var seen := shared.GetElement(0, 0);
    var kept := copied.GetElement(0, 0);
    asWritten := seen.value;
    corrected := kept.value;
  }

  /** The source's equality says [[1, 2], [3, 4]] differs from itself, since
      it sets 1 against 4; the cell-by-cell comparison says it is equal. */
  method EqualsRejectsItself() returns (asWritten: bool, corrected: bool)
    ensures !asWritten && corrected
  {
    var cells := new real[2, 2];
    cells[0, 0], cells[0, 1], cells[1, 0], cells[1, 1] := 1.0, 2.0, 3.0, 4.0;
    var m := new Matrix.FromArray(cells);
    assert m.Cells()[1][1] != m.Cells()[0][0];
    asWritten := m.Equals(m);
    corrected := m.EqualsCellwise(m);
  }

  /** The source's equality says [[1]] equals [[2]]: a 1 by 1 matrix has no
      shifted pair to compare. The cell-by-cell comparison tells them apart. */
  method EqualsMissesDifference() returns (asWritten: bool, corrected: bool)
    ensures asWritten && !corrected
  {
    var one := new real[1, 1];
    one[0, 0] := 1.0;
    var two := new real[1, 1];
    two[0, 0] := 2.0;
    var a := new Matrix.FromArray(one);
    var b := new Matrix.FromArray(two);
    assert a.Cells()[0][0] != b.Cells()[0][0];
    asWritten := a.Equals(b);
    corrected := a.EqualsCellwise(b);
  }
}
