/** A Hopfield network: one square weight matrix, trained by the Hebbian rule
    (add the outer product of the bipolar pattern with itself, minus the
    identity) and read by one synchronous threshold pass. */
module Hopfield {
  import opened Errors
  import opened Grids
  import opened BiPolarUtil
  import opened Matrices
  import MatrixMath

  // ---------------------------------------------------------------------
  // The learning and recall rules, as values

  /** No neuron is connected to itself. */
  predicate ZeroDiagonal(w: Grid) {
    forall i :: 0 <= i < |w| && i < |w[i]| ==> w[i][i] == 0.0
  }

  /** The outer product of a line with itself, computed as the source does:
      the line as a column matrix times the line as a row matrix. */
  function Outer(r: seq<real>): (o: Grid)
    ensures Shaped(o, |r|, |r|)
  {
    Mul(Transpose(RowGrid(r), |r|), RowGrid(r), |r|)
  }

  /** What one training call adds to the weights: the outer product of the
      bipolar pattern with itself, minus the identity. */
  function Contribution(p: seq<bool>): (c: Grid)
    ensures Shaped(c, |p|, |p|)
  {
    var o := Outer(BipolarSeq(p));
    assert SameShape(o, Identity(|p|));
    Sub(o, Identity(|p|))
  }

  /** The weights after training on `p`. */
  function Trained(w: Grid, p: seq<bool>): (w': Grid)
    requires Shaped(w, |p|, |p|)
    ensures Shaped(w', |p|, |p|)
  {
    var c := Contribution(p);
    assert SameShape(c, w);
    Add(c, w)
  }

  /** The network's answer to `p`: output `col` is on exactly when the dot
      product of the bipolar pattern with column `col` of the weights is
      strictly positive. */
  function Recall(w: Grid, p: seq<bool>): (out: seq<bool>)
    requires Shaped(w, |p|, |p|)
    ensures |out| == |p|
  {
    seq(|p|, col requires 0 <= col < |p| => Dot(BipolarSeq(p), Column(w, col)) > 0.0)
  }

  lemma OuterAt(r: seq<real>, i: nat, j: nat)
    requires i < |r| && j < |r|
    ensures Outer(r)[i][j] == r[i] * r[j]
  {
    var col := Transpose(RowGrid(r), |r|)[i];
    var row := Column(RowGrid(r), j);
    assert col == [r[i]] && row == [r[j]];
    assert Outer(r)[i][j] == Dot(col, row);
    assert col[..0] == [] && row[..0] == [];
    assert Dot(col, row) == Dot([], []) + r[i] * r[j];
  }

  /** Training adds r[i] * r[j] to every weight, less 1 on the diagonal,
      where r is the bipolar form of the pattern. */
  lemma TrainedAt(w: Grid, p: seq<bool>, i: nat, j: nat)
    requires Shaped(w, |p|, |p|) && i < |p| && j < |p|
    ensures Trained(w, p)[i][j]
            == w[i][j] + BipolarSeq(p)[i] * BipolarSeq(p)[j] - (if i == j then 1.0 else 0.0)
  {
    OuterAt(BipolarSeq(p), i, j);
  }

  /** Training never changes a diagonal weight: the square of a bipolar code
      is exactly the 1 that the identity takes away. */
  lemma {:induction false} TrainedKeepsDiagonal(w: Grid, p: seq<bool>, i: nat)
    requires Shaped(w, |p|, |p|) && i < |p|
    ensures Trained(w, p)[i][i] == w[i][i]
  {
    TrainedAt(w, p, i, i);
    BipolarSquare(p, i);
  }

  /** So the zero diagonal a new network starts with survives every
      training call. */
  lemma {:induction false} TrainKeepsZeroDiagonal(w: Grid, p: seq<bool>)
    requires Shaped(w, |p|, |p|) && ZeroDiagonal(w)
    ensures ZeroDiagonal(Trained(w, p))
  {
    forall i | 0 <= i < |p|
      ensures Trained(w, p)[i][i] == 0.0
    {
      TrainedKeepsDiagonal(w, p, i);
    }
  }

  /** Training is additive, so the order of two training calls does not
      matter. */
  lemma {:induction false} TrainCommutes(w: Grid, a: seq<bool>, b: seq<bool>)
    requires |a| == |b| && Shaped(w, |a|, |a|)
    ensures Trained(Trained(w, a), b) == Trained(Trained(w, b), a)
  {
    var n := |a|;
    var ab := Trained(Trained(w, a), b);
    var ba := Trained(Trained(w, b), a);
    forall i, j | 0 <= i < n && 0 <= j < n
      ensures ab[i][j] == ba[i][j]
    {
      TrainedAt(w, a, i, j);
      TrainedAt(w, b, i, j);
      TrainedAt(Trained(w, a), b, i, j);
      TrainedAt(Trained(w, b), a, i, j);
    }
    Extensionality(ab, ba, n, n);
  }

  /** An untrained network answers every pattern with all outputs off: every
      dot product with a zero column is 0, and 0 is not above the threshold. */
  lemma {:induction false} RecallUntrained(p: seq<bool>)
    ensures Recall(Zero(|p|, |p|), p) == seq(|p|, _ => false)
  {
    forall col | 0 <= col < |p|
      ensures Recall(Zero(|p|, |p|), p)[col] == false
    {
      DotZero(BipolarSeq(p), Column(Zero(|p|, |p|), col));
    }
  }

  // ---------------------------------------------------------------------
  // The network object

  class HopfieldNetwork {
    /** Replaced, never updated in place, by each training call. */
    var weightMatrix: Matrix

    ghost predicate Valid()
      reads this, weightMatrix.matrix
    {
      weightMatrix.Valid() && weightMatrix.rows == weightMatrix.cols
      && ZeroDiagonal(weightMatrix.Cells())
    }

    /** The current weights, as a value. */
    ghost function Weights(): (w: Grid)
      reads this, weightMatrix.matrix
      requires Valid()
      ensures Shaped(w, weightMatrix.rows, weightMatrix.rows)
    {
      weightMatrix.Cells()
    }

    /** A network of `size` neurons with all weights zero. */
    constructor (size: nat)
      ensures Valid() && fresh(weightMatrix) && fresh(weightMatrix.matrix)
      ensures weightMatrix.rows == size && Weights() == Zero(size, size)
    {
      weightMatrix := new Matrix(size, size);
    }

    /** The network's own weight matrix object, not a copy of it. */
    function GetWeight(): (w: Matrix)
      reads this
      ensures w == weightMatrix
    {
      weightMatrix
    }

    /** The number of neurons: the dimension of the square weight matrix. */
    function GetSize(): (n: nat)
      reads this, weightMatrix.matrix
      requires Valid()
      ensures Shaped(Weights(), n, n)
    {
      weightMatrix.rows
    }

    /** One synchronous recall pass over `pattern`; a pattern whose length
        is not the network's size is an error. The weights are not changed. */
    method Present(pattern: array<bool>) returns (r: Result<array<bool>>)
      requires Valid()
      ensures r.Err? <==> pattern.Length != weightMatrix.rows
      ensures r.Err? ==> r.error == HopfieldNetworkError
      ensures r.Ok? ==> fresh(r.value) && r.value[..] == Recall(Weights(), pattern[..])
    {
      if pattern.Length != weightMatrix.rows {
        return Err(HopfieldNetworkError);
      }
      ghost var p := pattern[..];
      ghost var answer := Recall(Weights(), p);
      var output := new bool[pattern.Length];
      var dec := BipolarToDoubleArray(pattern);
      var inputMatrix := Matrix.CreateRowMatrix(dec);
      for col := 0 to pattern.Length
        invariant inputMatrix.Valid() && inputMatrix.rows == 1 && inputMatrix.cols == |p|
        invariant inputMatrix.Cells() == RowGrid(BipolarSeq(p))
        invariant forall k :: 0 <= k < col ==> output[k] == answer[k]
      {
        var on := Activation(inputMatrix, p, col);
        output[col] := on;
      }
      assert output[..] == answer;
      return Ok(output);
    }

    /** Whether neuron `col` fires for the pattern whose bipolar row matrix
        is `inputMatrix`. */
    method Activation(inputMatrix: Matrix, ghost p: seq<bool>, col: nat) returns (on: bool)
      requires Valid() && inputMatrix.Valid()
      requires |p| == weightMatrix.rows && col < |p|
      requires inputMatrix.rows == 1 && inputMatrix.cols == |p|
      requires inputMatrix.Cells() == RowGrid(BipolarSeq(p))
      ensures on == Recall(Weights(), p)[col]
    {
      ghost var r := BipolarSeq(p);
      ghost var c := Column(Weights(), col);
      var columnMatrix := weightMatrix.GetCol(col);
      var column := columnMatrix.value;
      assert column.Cells() == ColumnGrid(c);
      FlattenColumn(c);
      FlattenRow(r);
      assert inputMatrix.IsVector() && Flatten(inputMatrix.Cells()) == r;
      assert column.IsVector() && Flatten(column.Cells()) == c;
      var dotProduct := MatrixMath.DotProduct(inputMatrix, column);
      assert dotProduct == Ok(Dot(r, c));
      on := dotProduct.value > 0.0;
    }

    /** Trains the network on `pattern` by the Hebbian rule, replacing the
        weight matrix with a fresh one; a pattern whose length is not the
        network's size is an error that changes nothing. */
    method Train(pattern: array<bool>) returns (status: Outcome)
      requires Valid()
      requires pattern.Length == weightMatrix.rows ==> pattern.Length >= 1
      modifies this
      ensures Valid()
      ensures status.Fail? <==> pattern.Length != old(weightMatrix.rows)
      ensures status.Fail? ==> status.error == HopfieldNetworkError
      ensures status.Fail? ==> weightMatrix == old(weightMatrix) && Weights() == old(Weights())
      ensures status.Pass? ==> fresh(weightMatrix) && fresh(weightMatrix.matrix)
      ensures status.Pass? ==> weightMatrix.rows == old(weightMatrix.rows)
      ensures status.Pass? ==> Weights() == Trained(old(Weights()), pattern[..])
    {
      if pattern.Length != weightMatrix.rows {
        return Fail(HopfieldNetworkError);
      }
      ghost var w := Weights();
      var dec := BipolarToDoubleArray(pattern);
      var rowMatrix := Matrix.CreateRowMatrix(dec);
      var columnMatrix := MatrixMath.Transpose(rowMatrix);
      var product := MatrixMath.Multiply(columnMatrix, rowMatrix);
      var identity := MatrixMath.Identity(product.value.rows);
      var contribution := MatrixMath.Subtract(product.value, identity);
      var sum := MatrixMath.Add(contribution.value, weightMatrix);
      weightMatrix := sum.value;
      TrainKeepsZeroDiagonal(w, pattern[..]);
      return Pass;
    }
  }
}
