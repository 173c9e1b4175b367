/** Arithmetic on Matrix objects. Every operation checks its operands'
    shapes, allocates its result afresh and never changes an operand (none
    of these methods has a modifies clause). */
module MatrixMath {
  import opened Errors
  import Grids
  import opened Matrices

  /** The element-wise sum of two matrices of one shape. */
  method Add(a: Matrix, b: Matrix) returns (r: Result<Matrix>)
    requires a.Valid() && b.Valid()
    requires a.rows == b.rows && a.cols == b.cols ==> a.rows >= 1
    ensures r.Err? <==> a.rows != b.rows || a.cols != b.cols
    ensures r.Err? ==> r.error == MatrixIncompatibility
    ensures r.Ok? ==> fresh(r.value) && fresh(r.value.matrix) && r.value.Valid()
    ensures r.Ok? ==> r.value.rows == a.rows && r.value.cols == a.cols
    ensures r.Ok? ==> r.value.Cells() == Grids.Add(a.Cells(), b.Cells())
  {
    if a.rows != b.rows || a.cols != b.cols {
      return Err(MatrixIncompatibility);
    }
    var res := new real[a.rows, a.cols];
    for i := 0 to a.rows
      invariant forall p, q :: 0 <= p < i && 0 <= q < a.cols ==> res[p, q] == a.matrix[p, q] + b.matrix[p, q]
    {
      for j := 0 to a.cols
        invariant forall p, q :: 0 <= p < i && 0 <= q < a.cols ==> res[p, q] == a.matrix[p, q] + b.matrix[p, q]
        invariant forall q :: 0 <= q < j ==> res[i, q] == a.matrix[i, q] + b.matrix[i, q]
      {
        res[i, j] := a.GetElement(i, j).value + b.GetElement(i, j).value;
      }
    }
    var m := new Matrix.FromArray(res);
    Grids.Extensionality(m.Cells(), Grids.Add(a.Cells(), b.Cells()), a.rows, a.cols);
    return Ok(m);
  }

  /** The element-wise difference of two matrices of one shape. */
  method Subtract(a: Matrix, b: Matrix) returns (r: Result<Matrix>)
    requires a.Valid() && b.Valid()
    requires a.rows == b.rows && a.cols == b.cols ==> a.rows >= 1
    ensures r.Err? <==> a.rows != b.rows || a.cols != b.cols
    ensures r.Err? ==> r.error == MatrixIncompatibility
    ensures r.Ok? ==> fresh(r.value) && fresh(r.value.matrix) && r.value.Valid()
    ensures r.Ok? ==> r.value.rows == a.rows && r.value.cols == a.cols
    ensures r.Ok? ==> r.value.Cells() == Grids.Sub(a.Cells(), b.Cells())
  {
    if a.rows != b.rows || a.cols != b.cols {
      return Err(MatrixIncompatibility);
    }
    var res := new real[a.rows, a.cols];
    for i := 0 to a.rows
      invariant forall p, q :: 0 <= p < i && 0 <= q < a.cols ==> res[p, q] == a.matrix[p, q] - b.matrix[p, q]
    {
      for j := 0 to a.cols
        invariant forall p, q :: 0 <= p < i && 0 <= q < a.cols ==> res[p, q] == a.matrix[p, q] - b.matrix[p, q]
        invariant forall q :: 0 <= q < j ==> res[i, q] == a.matrix[i, q] - b.matrix[i, q]
      {
        res[i, j] := a.GetElement(i, j).value - b.GetElement(i, j).value;
      }
    }
    var m := new Matrix.FromArray(res);
    Grids.Extensionality(m.Cells(), Grids.Sub(a.Cells(), b.Cells()), a.rows, a.cols);
    return Ok(m);
  }

  /** Every cell divided by a nonzero divisor. */
  method Divide(mat: Matrix, divisor: real) returns (r: Matrix)
    requires mat.Valid() && mat.rows >= 1
    requires divisor != 0.0
    ensures fresh(r) && fresh(r.matrix) && r.Valid()
    ensures r.rows == mat.rows && r.cols == mat.cols
    ensures r.Cells() == Grids.Div(mat.Cells(), divisor)
  {
    var res := new real[mat.rows, mat.cols];
    for i := 0 to mat.rows
      invariant forall p, q :: 0 <= p < i && 0 <= q < mat.cols ==> res[p, q] == mat.matrix[p, q] / divisor
    {
      for j := 0 to mat.cols
        invariant forall p, q :: 0 <= p < i && 0 <= q < mat.cols ==> res[p, q] == mat.matrix[p, q] / divisor
        invariant forall q :: 0 <= q < j ==> res[i, q] == mat.matrix[i, q] / divisor
      {
        res[i, j] := mat.GetElement(i, j).value / divisor;
      }
    }
    r := new Matrix.FromArray(res);
    Grids.Extensionality(r.Cells(), Grids.Div(mat.Cells(), divisor), mat.rows, mat.cols);
  }

  /** Every cell multiplied by a scalar. */
  method MultiplyScalar(mat: Matrix, multiplier: real) returns (r: Matrix)
    requires mat.Valid() && mat.rows >= 1
    ensures fresh(r) && fresh(r.matrix) && r.Valid()
    ensures r.rows == mat.rows && r.cols == mat.cols
    ensures r.Cells() == Grids.Scale(mat.Cells(), multiplier)
  {
    var res := new real[mat.rows, mat.cols];
    for i := 0 to mat.rows
      invariant forall p, q :: 0 <= p < i && 0 <= q < mat.cols ==> res[p, q] == mat.matrix[p, q] * multiplier
    {
      for j := 0 to mat.cols
        invariant forall p, q :: 0 <= p < i && 0 <= q < mat.cols ==> res[p, q] == mat.matrix[p, q] * multiplier
        invariant forall q :: 0 <= q < j ==> res[i, q] == mat.matrix[i, q] * multiplier
      {
        res[i, j] := mat.GetElement(i, j).value * multiplier;
      }
    }
    r := new Matrix.FromArray(res);
    Grids.Extensionality(r.Cells(), Grids.Scale(mat.Cells(), multiplier), mat.rows, mat.cols);
  }

  /** The dot product of two vectors of either orientation, over their packed
      cells: an error unless both are vectors, and an error unless they have
      as many cells. */
  method DotProduct(vector1: Matrix, vector2: Matrix) returns (r: Result<real>)
    requires vector1.Valid() && vector2.Valid()
    ensures !(vector1.IsVector() && vector2.IsVector()) ==> r == Err(NotVector)
    ensures vector1.IsVector() && vector2.IsVector()
            && |Grids.Flatten(vector1.Cells())| != |Grids.Flatten(vector2.Cells())|
            ==> r == Err(MatrixIncompatibility)
    ensures vector1.IsVector() && vector2.IsVector()
            && |Grids.Flatten(vector1.Cells())| == |Grids.Flatten(vector2.Cells())|
            ==> r == Ok(Grids.Dot(Grids.Flatten(vector1.Cells()), Grids.Flatten(vector2.Cells())))
  {
    if !(vector1.IsVector() && vector2.IsVector()) {
      return Err(NotVector);
    }
    var vecArray1 := vector1.ToPackedArray();
    var vecArray2 := vector2.ToPackedArray();
    if vecArray1.Length != vecArray2.Length {
      return Err(MatrixIncompatibility);
    }
    var result := PackedDot(vecArray1, vecArray2);
    return Ok(result);
  }

  /** The running sum of products of two arrays of the same length. */
  method PackedDot(u: array<real>, v: array<real>) returns (result: real)
    requires u.Length == v.Length
    ensures result == Grids.Dot(u[..], v[..])
  {
    result := 0.0;
    for i := 0 to u.Length
      invariant result == Grids.Dot(u[..i], v[..i])
    {
      assert u[..i + 1][..i] == u[..i];
      assert v[..i + 1][..i] == v[..i];
      result := result + u[i] * v[i];
    }
    assert u[..u.Length] == u[..];
    assert v[..v.Length] == v[..];
  }

  /** A fresh size by size identity matrix. */
  method Identity(size: nat) returns (id: Matrix)
    ensures fresh(id) && fresh(id.matrix) && id.Valid()
    ensures id.rows == size && id.cols == size
    ensures id.Cells() == Grids.Identity(size)
  {
    id := new Matrix(size, size);
    for i := 0 to size
      invariant forall p, q :: 0 <= p < size && 0 <= q < size ==>
        id.matrix[p, q] == if p == q && p < i then 1.0 else 0.0
    {
      var _ := id.Set(i, i, 1.0);
    }
    Grids.Extensionality(id.Cells(), Grids.Identity(size), size, size);
  }

  /** The matrix product: an error unless `a` has as many columns as `b` has
      rows; otherwise an a.rows by b.cols matrix whose cell (i, j) is the dot
      product of row i of `a` with column j of `b`. */
  method Multiply(a: Matrix, b: Matrix) returns (r: Result<Matrix>)
    requires a.Valid() && b.Valid()
    requires a.cols == b.rows ==> a.rows >= 1 && (b.cols == 0 || b.rows >= 1)
    ensures r.Err? <==> a.cols != b.rows
    ensures r.Err? ==> r.error == MatrixIncompatibility
    ensures r.Ok? ==> fresh(r.value) && fresh(r.value.matrix) && r.value.Valid()
    ensures r.Ok? ==> r.value.rows == a.rows && r.value.cols == b.cols
    ensures r.Ok? ==> r.value.Cells() == Grids.Mul(a.Cells(), b.Cells(), b.cols)
  {
    if a.cols != b.rows {
      return Err(MatrixIncompatibility);
    }
    ghost var ga := a.Cells();
    ghost var gb := b.Cells();
    ghost var product := Grids.Mul(ga, gb, b.cols);
    var res := new real[a.rows, b.cols];
    for i := 0 to a.rows
      invariant forall p, q :: 0 <= p < i && 0 <= q < b.cols ==> res[p, q] == product[p][q]
    {
      ProductRow(a, b, i, res, product);
    }
    var m := new Matrix.FromArray(res);
    Grids.Extensionality(m.Cells(), product, a.rows, b.cols);
    return Ok(m);
  }

  /** Fills row i of `res` with row i of the product, leaving the other
      rows as they were. */
  method ProductRow(a: Matrix, b: Matrix, i: nat, res: array2<real>, ghost product: Grids.Grid)
    requires a.Valid() && b.Valid() && a.cols == b.rows && (b.cols == 0 || b.rows >= 1)
    requires i < a.rows && res.Length0 == a.rows && res.Length1 == b.cols
    requires res != a.matrix && res != b.matrix
    requires product == Grids.Mul(a.Cells(), b.Cells(), b.cols)
    modifies res
    ensures forall q :: 0 <= q < b.cols ==> res[i, q] == product[i][q]
    ensures forall p, q :: 0 <= p < a.rows && p != i && 0 <= q < b.cols ==> res[p, q] == old(res[p, q])
  {
    for j := 0 to b.cols
      invariant forall p, q :: 0 <= p < a.rows && p != i && 0 <= q < b.cols ==> res[p, q] == old(res[p, q])
      invariant forall q :: 0 <= q < j ==> res[i, q] == product[i][q]
    {
      res[i, j] := RowTimesColumn(a, b, i, j);
    }
  }

  /** The dot product of row i of `a` with column j of `b`, computed the
      way the product does it: through a row matrix and a column matrix. */
  method RowTimesColumn(a: Matrix, b: Matrix, i: nat, j: nat) returns (d: real)
    requires a.Valid() && b.Valid() && a.cols == b.rows
    requires i < a.rows && j < b.cols && b.rows >= 1
    ensures d == Grids.Dot(a.Cells()[i], Grids.Column(b.Cells(), j))
  {
    var row := a.GetRow(i);
    var col := b.GetCol(j);
    Grids.FlattenRow(a.Cells()[i]);
    Grids.FlattenColumn(Grids.Column(b.Cells(), j));
    var r := DotProduct(row.value, col.value);
    d := r.value;
  }

  /** The a.cols by a.rows transpose. */
  method Transpose(a: Matrix) returns (t: Matrix)
    requires a.Valid() && a.cols >= 1
    ensures fresh(t) && fresh(t.matrix) && t.Valid()
    ensures t.rows == a.cols && t.cols == a.rows
    ensures t.Cells() == Grids.Transpose(a.Cells(), a.cols)
  {
    var res := new real[a.cols, a.rows];
    for i := 0 to a.rows
      invariant forall p, q :: 0 <= p < i && 0 <= q < a.cols ==> res[q, p] == a.matrix[p, q]
    {
      for j := 0 to a.cols
        invariant forall p, q :: 0 <= p < i && 0 <= q < a.cols ==> res[q, p] == a.matrix[p, q]
        invariant forall q :: 0 <= q < j ==> res[q, i] == a.matrix[i, q]
      {
        res[j, i] := a.GetElement(i, j).value;
      }
    }
    t := new Matrix.FromArray(res);
    Grids.Extensionality(t.Cells(), Grids.Transpose(a.Cells(), a.cols), a.cols, a.rows);
  }

  /** The squared length of a vector, the sum of the squares of its packed
      cells, which is its dot product with itself and never negative; an
      error for a matrix that is not a vector. */
  method VectorLengthSquared(a: Matrix) returns (r: Result<real>)
    requires a.Valid()
    ensures !a.IsVector() ==> r == Err(NotVector)
    ensures a.IsVector() ==> r == Ok(Grids.Dot(Grids.Flatten(a.Cells()), Grids.Flatten(a.Cells())))
    ensures r.Ok? ==> r.value >= 0.0
  {
    if !a.IsVector() {
      return Err(NotVector);
    }
    var packed := a.ToPackedArray();
    var length := SumOfSquares(packed);
    Grids.DotSelfNonNegative(packed[..]);
    return Ok(length);
  }

  /** The running sum of the squares of the elements of `v`. */
  method SumOfSquares(v: array<real>) returns (length: real)
    ensures length == Grids.Dot(v[..], v[..])
  {
    length := 0.0;
    for i := 0 to v.Length
      invariant length == Grids.Dot(v[..i], v[..i])
    {
      assert v[..i + 1][..i] == v[..i];
      length := length + v[i] * v[i];
    }
    assert v[..v.Length] == v[..];
  }
}
