/** The mathematical view of a dense matrix: a sequence of rows, each a
    sequence of cells. The classes in Matrices and the operations in
    MatrixMath are specified against the functions here, and the algebraic
    facts the library relies on (transpose is an involution, the identity is
    neutral, packing is row-major) are proved here once. */
module Grids {

  type Grid = seq<seq<real>>

  /** `g` has `r` rows of `c` cells each. */
  predicate Shaped(g: Grid, r: nat, c: nat) {
    |g| == r && forall i :: 0 <= i < r ==> |g[i]| == c
  }

  /** `a` and `b` have the same number of rows and equally long rows. */
  predicate SameShape(a: Grid, b: Grid) {
    |a| == |b| && forall i :: 0 <= i < |a| ==> |a[i]| == |b[i]|
  }

  /** Two grids of one shape that agree cell by cell are equal. */
  lemma {:induction false} Extensionality(g: Grid, h: Grid, r: nat, c: nat)
    requires Shaped(g, r, c) && Shaped(h, r, c)
    requires forall i, j :: 0 <= i < r && 0 <= j < c ==> g[i][j] == h[i][j]
    ensures g == h
  {
    forall i | 0 <= i < r
      ensures g[i] == h[i]
    {
      assert forall j :: 0 <= j < c ==> g[i][j] == h[i][j];
    }
  }

  // ---------------------------------------------------------------------
  // Shapes built from nothing or from a line of cells

  /** The all-zero `r` by `c` grid. */
  function Zero(r: nat, c: nat): (g: Grid)
    ensures Shaped(g, r, c)
  {
    seq(r, i => seq(c, j => 0.0))
  }

  /** The `n` by `n` identity grid. */
  function Identity(n: nat): (g: Grid)
    ensures Shaped(g, n, n)
  {
    seq(n, i => seq(n, j => if i == j then 1.0 else 0.0))
  }

  /** The unit line of length `n` with its 1 at position `k`. */
  function Unit(n: nat, k: nat): (u: seq<real>)
    ensures |u| == n
  {
    seq(n, i => if i == k then 1.0 else 0.0)
  }

  /** A line of cells as a 1 by n grid. */
  function RowGrid(s: seq<real>): (g: Grid)
    ensures Shaped(g, 1, |s|)
  {
    [s]
  }

  /** A line of cells as an n by 1 grid. */
  function ColumnGrid(s: seq<real>): (g: Grid)
    ensures Shaped(g, |s|, 1)
  {
    seq(|s|, i requires 0 <= i < |s| => [s[i]])
  }

  /** Column `j` of `g`, top to bottom. */
  function Column(g: Grid, j: nat): (s: seq<real>)
    requires forall i :: 0 <= i < |g| ==> j < |g[i]|
    ensures |s| == |g|
  {
    seq(|g|, i requires 0 <= i < |g| => g[i][j])
  }

  /** `g` with cell (i, j) replaced by `v`. */
  function SetCell(g: Grid, i: nat, j: nat, v: real): (h: Grid)
    requires i < |g| && j < |g[i]|
    ensures SameShape(h, g) && h[i][j] == v
    ensures forall p, q :: 0 <= p < |g| && 0 <= q < |g[p]| && (p, q) != (i, j) ==> h[p][q] == g[p][q]
  {
    g[i := g[i][j := v]]
  }

  // ---------------------------------------------------------------------
  // Row-major packing and sums

  /** The cells of `g` row after row. */
  function Flatten(g: Grid): seq<real>
  {
    if |g| == 0 then [] else Flatten(g[..|g| - 1]) + g[|g| - 1]
  }

  /** The sum of a line, accumulated left to right. */
  function SeqSum(s: seq<real>): real
  {
    if |s| == 0 then 0.0 else SeqSum(s[..|s| - 1]) + s[|s| - 1]
  }

  /** The sum of a grid, accumulated row by row. */
  function GridSum(g: Grid): real
  {
    if |g| == 0 then 0.0 else GridSum(g[..|g| - 1]) + SeqSum(g[|g| - 1])
  }

  lemma {:induction false} FlattenLength(g: Grid, r: nat, c: nat)
    requires Shaped(g, r, c)
    ensures |Flatten(g)| == r * c
  {
    if r > 0 {
      FlattenLength(g[..r - 1], r - 1, c);
      assert (r - 1) * c + c == r * c;
    }
  }

  /** Packing is row-major: cell (i, j) lands at index i * c + j. */
  lemma {:induction false} FlattenAt(g: Grid, r: nat, c: nat, i: nat, j: nat)
    requires Shaped(g, r, c) && i < r && j < c
    ensures |Flatten(g)| == r * c
    ensures i * c + j < r * c
    ensures Flatten(g)[i * c + j] == g[i][j]
  {
    FlattenLength(g, r, c);
    FlattenLength(g[..r - 1], r - 1, c);
    assert (r - 1) * c + c == r * c;
    if i < r - 1 {
      FlattenAt(g[..r - 1], r - 1, c, i, j);
    } else {
      assert i * c == (r - 1) * c;
    }
  }

  lemma {:induction false} SeqSumAppend(a: seq<real>, b: seq<real>)
    ensures SeqSum(a + b) == SeqSum(a) + SeqSum(b)
  {
    if |b| > 0 {
      assert (a + b)[..|a + b| - 1] == a + b[..|b| - 1];
      SeqSumAppend(a, b[..|b| - 1]);
    } else {
      assert a + b == a;
    }
  }

  /** Summing row by row equals summing the packed sequence. */
  lemma {:induction false} GridSumIsPackedSum(g: Grid)
    ensures GridSum(g) == SeqSum(Flatten(g))
  {
    if |g| > 0 {
      GridSumIsPackedSum(g[..|g| - 1]);
      SeqSumAppend(Flatten(g[..|g| - 1]), g[|g| - 1]);
    }
  }

  lemma FlattenRow(s: seq<real>)
    ensures Flatten(RowGrid(s)) == s
  {
    assert RowGrid(s)[..0] == [];
  }

  lemma {:induction false} FlattenColumn(s: seq<real>)
    ensures Flatten(ColumnGrid(s)) == s
  {
    if |s| > 0 {
      assert ColumnGrid(s)[..|s| - 1] == ColumnGrid(s[..|s| - 1]);
      FlattenColumn(s[..|s| - 1]);
      assert s == s[..|s| - 1] + [s[|s| - 1]];
    }
  }

  /** A vector packs to its one row, or to its one column, whichever it has:
      its orientation does not change the packed sequence's order. */
  lemma PackedVector(g: Grid, r: nat, c: nat)
    requires Shaped(g, r, c) && (r == 1 || c == 1)
    ensures Flatten(g) == if r == 1 then g[0] else Column(g, 0)
  {
    if r == 1 {
      assert g == RowGrid(g[0]);
      FlattenRow(g[0]);
    } else {
      Extensionality(g, ColumnGrid(Column(g, 0)), r, 1);
      FlattenColumn(Column(g, 0));
    }
  }

  // ---------------------------------------------------------------------
  // Dot products

  /** The sum of the products of corresponding cells, accumulated left to right. */
  function Dot(u: seq<real>, v: seq<real>): real
    requires |u| == |v|
  {
    if |u| == 0 then 0.0 else Dot(u[..|u| - 1], v[..|v| - 1]) + u[|u| - 1] * v[|v| - 1]
  }

  lemma {:induction false} DotZero(u: seq<real>, v: seq<real>)
    requires |u| == |v|
    requires forall i :: 0 <= i < |v| ==> v[i] == 0.0
    ensures Dot(u, v) == 0.0
  {
    if |u| > 0 {
      DotZero(u[..|u| - 1], v[..|v| - 1]);
    }
  }

  lemma {:induction false} DotCommutes(u: seq<real>, v: seq<real>)
    requires |u| == |v|
    ensures Dot(u, v) == Dot(v, u)
  {
    if |u| > 0 {
      DotCommutes(u[..|u| - 1], v[..|v| - 1]);
    }
  }

  /** Dotting with a unit line picks out one cell. */
  lemma {:induction false} DotUnit(u: seq<real>, k: nat)
    requires k < |u|
    ensures Dot(u, Unit(|u|, k)) == u[k]
  {
    var n := |u|;
    var e := Unit(n, k);
    if k == n - 1 {
      DotZero(u[..n - 1], e[..n - 1]);
    } else {
      assert e[..n - 1] == Unit(n - 1, k);
      DotUnit(u[..n - 1], k);
    }
  }

  /** A sum of squares is never negative. */
  lemma {:induction false} DotSelfNonNegative(u: seq<real>)
    ensures Dot(u, u) >= 0.0
  {
    if |u| > 0 {
      DotSelfNonNegative(u[..|u| - 1]);
    }
  }

  // ---------------------------------------------------------------------
  // Arithmetic on grids

  function Add(a: Grid, b: Grid): (s: Grid)
    requires SameShape(a, b)
    ensures SameShape(s, a)
  {
    seq(|a|, i requires 0 <= i < |a| => seq(|a[i]|, j requires 0 <= j < |a[i]| => a[i][j] + b[i][j]))
  }

  function Sub(a: Grid, b: Grid): (d: Grid)
    requires SameShape(a, b)
    ensures SameShape(d, a)
  {
    seq(|a|, i requires 0 <= i < |a| => seq(|a[i]|, j requires 0 <= j < |a[i]| => a[i][j] - b[i][j]))
  }

  function Scale(g: Grid, k: real): (s: Grid)
    ensures SameShape(s, g)
  {
    seq(|g|, i requires 0 <= i < |g| => seq(|g[i]|, j requires 0 <= j < |g[i]| => g[i][j] * k))
  }

  function Div(g: Grid, d: real): (q: Grid)
    requires d != 0.0
    ensures SameShape(q, g)
  {
    seq(|g|, i requires 0 <= i < |g| => seq(|g[i]|, j requires 0 <= j < |g[i]| => g[i][j] / d))
  }

  /** The `c` by |g| transpose of a grid whose rows have `c` cells. */
  function Transpose(g: Grid, c: nat): (t: Grid)
    requires forall i :: 0 <= i < |g| ==> |g[i]| == c
    ensures Shaped(t, c, |g|)
  {
    seq(c, j requires 0 <= j < c => Column(g, j))
  }

  /** The product of `a` (rows of |b| cells) and `b` (|b| rows of `c` cells):
      cell (i, j) is the dot product of row i of `a` with column j of `b`. */
  function Mul(a: Grid, b: Grid, c: nat): (p: Grid)
    requires forall i :: 0 <= i < |a| ==> |a[i]| == |b|
    requires Shaped(b, |b|, c)
    ensures Shaped(p, |a|, c)
  {
    seq(|a|, i requires 0 <= i < |a| => seq(c, j requires 0 <= j < c => Dot(a[i], Column(b, j))))
  }

  /** Subtracting what was added gives back the first operand. */
  lemma SubUndoesAdd(a: Grid, b: Grid)
    requires SameShape(a, b)
    ensures Sub(Add(a, b), b) == a
  {
    forall i | 0 <= i < |a|
      ensures Sub(Add(a, b), b)[i] == a[i]
    {
    }
  }

  /** Grid addition does not depend on the order of its operands. */
  lemma AddCommutes(a: Grid, b: Grid)
    requires SameShape(a, b)
    ensures Add(a, b) == Add(b, a)
  {
    forall i | 0 <= i < |a|
      ensures Add(a, b)[i] == Add(b, a)[i]
    {
    }
  }

  /** Dividing by the factor a grid was scaled by gives it back. */
  lemma DivUndoesScale(g: Grid, k: real)
    requires k != 0.0
    ensures Div(Scale(g, k), k) == g
  {
    forall i | 0 <= i < |g|
      ensures Div(Scale(g, k), k)[i] == g[i]
    {
      forall j | 0 <= j < |g[i]|
        ensures Div(Scale(g, k), k)[i][j] == g[i][j]
      {
        assert g[i][j] * k / k == g[i][j];
      }
    }
  }

  /** Transposing twice gives back the grid. */
  lemma TransposeInvolution(g: Grid, r: nat, c: nat)
    requires Shaped(g, r, c)
    ensures Transpose(Transpose(g, c), r) == g
  {
    Extensionality(Transpose(Transpose(g, c), r), g, r, c);
  }

  /** A column grid is the transpose of the row grid of the same line. */
  lemma ColumnIsTransposedRow(s: seq<real>)
    ensures ColumnGrid(s) == Transpose(RowGrid(s), |s|)
  {
    Extensionality(ColumnGrid(s), Transpose(RowGrid(s), |s|), |s|, 1);
  }

  lemma ColumnOfIdentity(n: nat, k: nat)
    requires k < n
    ensures Column(Identity(n), k) == Unit(n, k)
  {
  }

  /** The identity is neutral on the right of a product. */
  lemma {:induction false} MulIdentityRight(a: Grid, r: nat, c: nat)
    requires Shaped(a, r, c)
    ensures Mul(a, Identity(c), c) == a
  {
    forall i, j | 0 <= i < r && 0 <= j < c
      ensures Mul(a, Identity(c), c)[i][j] == a[i][j]
    {
      ColumnOfIdentity(c, j);
      DotUnit(a[i], j);
    }
    Extensionality(Mul(a, Identity(c), c), a, r, c);
  }

  /** The identity is neutral on the left of a product. */
  lemma {:induction false} MulIdentityLeft(a: Grid, r: nat, c: nat)
    requires Shaped(a, r, c)
    ensures Mul(Identity(r), a, c) == a
  {
    forall i, j | 0 <= i < r && 0 <= j < c
      ensures Mul(Identity(r), a, c)[i][j] == a[i][j]
    {
      var col := Column(a, j);
      assert Identity(r)[i] == Unit(r, i);
      DotCommutes(Unit(r, i), col);
      DotUnit(col, i);
    }
    Extensionality(Mul(Identity(r), a, c), a, r, c);
  }

  // ---------------------------------------------------------------------
  // The element comparison of Matrix.equals

  /** What the source's equality compares: cell (i, j) of `g` against cell
      (i + 1, j + 1) of `h`, for every pair where the latter exists. */
  predicate ShiftedAgree(g: Grid, h: Grid, r: nat, c: nat)
    requires Shaped(g, r, c) && Shaped(h, r, c)
  {
    forall i, j :: 0 <= i < r - 1 && 0 <= j < c - 1 ==> h[i + 1][j + 1] == g[i][j]
  }
}
