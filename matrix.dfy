/**
 * Minimal stand-in for the `Matrix` type of the `nfs.tools` namespace, which
 * the layered network and the evolution code use but which is not part of this
 * model. A matrix is modelled as a value: its dimensions `I` and `J` and its
 * cells. Only the facts those two files rely on are given: the shape of every
 * result, value copies, and the product of a row by a matrix. Two behaviours
 * of the library's code are assumed, because that code is not part of this
 * model: `Redimension` keeps the overlapping top-left block and zero-fills the
 * rest, and `SetLineValues` with a size mismatch allowed copies the
 * overlapping prefix of the values and keeps the other cells.
 */
module Matrices {

  /** Cell values of a matrix, row by row (the library's jagged `float[][]`). */
  type Grid = seq<seq<real>>

  /** `g` has `i` rows of `j` cells each. */
  ghost predicate IsShape(g: Grid, i: nat, j: nat) {
    |g| == i && forall r :: 0 <= r < i ==> |g[r]| == j
  }

  /** Row r of a grid filled by `fill`, cut to its first `j` cells. */
  function FilledRow(r: nat, j: nat, fill: (nat, nat) -> real): (row: seq<real>)
    ensures |row| == j
    ensures forall c {:trigger row[c]} :: 0 <= c < j ==> row[c] == fill(r, c)
  {
    if j == 0 then [] else FilledRow(r, j - 1, fill) + [fill(r, j - 1)]
  }

  /** An `i` by `j` grid whose cell (r, c) is `fill(r, c)`, built row by row. */
  function Filled(i: nat, j: nat, fill: (nat, nat) -> real): (g: Grid)
    ensures IsShape(g, i, j)
    ensures forall r, c {:trigger g[r][c]} :: 0 <= r < i && 0 <= c < j ==> g[r][c] == fill(r, c)
  {
    if i == 0 then [] else Filled(i - 1, j, fill) + [FilledRow(i - 1, j, fill)]
  }

  /** Cell (r, c) of `g` when `g` has one, zero otherwise. */
  function CellOrZero(g: Grid, r: nat, c: nat): real {
    if r < |g| && c < |g[r]| then g[r][c] else 0.0
  }

  /** Row r of `g` cut or zero-padded to `j` cells. */
  function RedimRow(g: Grid, r: nat, j: nat): (row: seq<real>)
    ensures |row| == j
    ensures forall c {:trigger row[c]} :: 0 <= c < j ==> row[c] == CellOrZero(g, r, c)
  {
    if j == 0 then [] else RedimRow(g, r, j - 1) + [CellOrZero(g, r, j - 1)]
  }

  /** An `i` by `j` grid holding the overlapping top-left block of `g`, zero elsewhere. */
  function RedimGrid(g: Grid, i: nat, j: nat): (h: Grid)
    ensures IsShape(h, i, j)
    ensures forall r, c {:trigger h[r][c]} :: 0 <= r < i && 0 <= c < j ==> h[r][c] == CellOrZero(g, r, c)
  {
    if i == 0 then [] else RedimGrid(g, i - 1, j) + [RedimRow(g, i - 1, j)]
  }

  /** Redimensioning to a grid's own shape gives the grid back. */
  lemma RedimSameShape(g: Grid, i: nat, j: nat)
    requires IsShape(g, i, j)
    ensures RedimGrid(g, i, j) == g
  {
    var h := RedimGrid(g, i, j);
    forall r | 0 <= r < i
      ensures h[r] == g[r]
    {
      assert |h[r]| == |g[r]| == j;
      forall c | 0 <= c < j ensures h[r][c] == g[r][c] {
        assert h[r][c] == CellOrZero(g, r, c);
      }
    }
  }

  /**
   * Growing a grid and shrinking it back to its original shape restores it:
   * a neuron added and later removed leaves the weights that were there.
   */
  lemma RedimGrowShrink(g: Grid, i: nat, j: nat, i': nat, j': nat)
    requires IsShape(g, i, j) && i <= i' && j <= j'
    ensures RedimGrid(RedimGrid(g, i', j'), i, j) == g
  {
    var big := RedimGrid(g, i', j');
    var h := RedimGrid(big, i, j);
    forall r | 0 <= r < i
      ensures h[r] == g[r]
    {
      forall c | 0 <= c < j ensures h[r][c] == g[r][c] {
        assert h[r][c] == CellOrZero(big, r, c);
        assert big[r][c] == CellOrZero(g, r, c);
      }
    }
  }

  /** Sum over k < |u| of u[k] * g[k][c]: cell c of the row vector u times g. */
  function Dot(u: seq<real>, g: Grid, c: nat): real
    requires |u| <= |g| && forall k :: 0 <= k < |u| ==> c < |g[k]|
  {
    if u == [] then 0.0
    else Dot(u[..|u| - 1], g, c) + u[|u| - 1] * g[|u| - 1][c]
  }

  /** The row vector `u` times the |u| by `j` grid `g`. */
  function RowTimes(u: seq<real>, g: Grid, j: nat): (v: seq<real>)
    requires IsShape(g, |u|, j)
    ensures |v| == j
    ensures forall c :: 0 <= c < j ==> v[c] == Dot(u, g, c)
  {
    seq(j, c requires 0 <= c < j => Dot(u, g, c))
  }

  /** The product of an n by |b| grid `a` and a |b| by `j` grid `b`. */
  function Product(a: Grid, b: Grid, j: nat): (p: Grid)
    requires forall r :: 0 <= r < |a| ==> IsShape(b, |a[r]|, j)
    ensures IsShape(p, |a|, j)
    ensures forall r :: 0 <= r < |a| ==> p[r] == RowTimes(a[r], b, j)
  {
    seq(|a|, r requires 0 <= r < |a| => RowTimes(a[r], b, j))
  }

  /** `dst` with its first min(|dst|, |src|) cells taken from `src`. */
  function Overlay(dst: seq<real>, src: seq<real>): (r: seq<real>)
    ensures |r| == |dst|
    ensures forall k :: 0 <= k < |dst| ==> r[k] == (if k < |src| then src[k] else dst[k])
  {
    seq(|dst|, k requires 0 <= k < |dst| => if k < |src| then src[k] else dst[k])
  }

  /** An `I` by `J` matrix of cells `Mtx`. */
  datatype Matrix = Matrix(I: nat, J: nat, Mtx: Grid)
  {
    ghost predicate Valid() {
      IsShape(Mtx, I, J)
    }

    /**
     * `new Matrix(i, j)` followed by one of the library's initialisers:
     * `SetToOne()` is `fill = (r, c) => 1.0`, `SetAsSynapse()` is a fill with
     * the random weights it would draw.
     */
    static function New(i: nat, j: nat, fill: (nat, nat) -> real): (m: Matrix)
      ensures m.Valid() && m.I == i && m.J == j
      ensures forall r, c {:trigger m.Mtx[r][c]} :: 0 <= r < i && 0 <= c < j ==> m.Mtx[r][c] == fill(r, c)
    {
      Matrix(i, j, Filled(i, j, fill))
    }

    /** The value of cell (i, j): writing it back changes nothing. */
    function GetValue(i: nat, j: nat): (v: real)
      requires Valid() && i < I && j < J
      ensures SetValue(i, j, v) == this
    {
      assert Mtx[i][j := Mtx[i][j]] == Mtx[i];
      Mtx[i][j]
    }

    /** The matrix with cell (i, j) set to `v`. */
    function SetValue(i: nat, j: nat, v: real): (m: Matrix)
      requires Valid() && i < I && j < J
      ensures m.Valid() && m.I == I && m.J == J
      ensures m.Mtx == Mtx[i := Mtx[i][j := v]]
    {
      Matrix(I, J, Mtx[i := Mtx[i][j := v]])
    }

    /** Cells of row `row`, in order: one per column, and writing them back changes nothing. */
    function GetLineValues(row: nat): (v: seq<real>)
      requires Valid() && row < I
      ensures |v| == J
      ensures SetLineValues(row, v, false) == this
    {
      assert Overlay(Mtx[row], Mtx[row]) == Mtx[row];
      assert Mtx[row := Mtx[row]] == Mtx;
      Mtx[row]
    }

    /**
     * The matrix with row `row` replaced by `values`; when the sizes may
     * differ, only the overlapping prefix is copied and the other cells keep
     * their values.
     */
    function SetLineValues(row: nat, values: seq<real>, allowMismatch: bool): (m: Matrix)
      requires Valid() && row < I
      requires !allowMismatch ==> |values| == J
      ensures m.Valid() && m.I == I && m.J == J
      ensures m.Mtx == Mtx[row := Overlay(Mtx[row], values)]
    {
      Matrix(I, J, Mtx[row := Overlay(Mtx[row], values)])
    }

    /** The values of a matrix of the same shape, copied into this one. */
    function SetAllValues(other: Matrix): (m: Matrix)
      requires Valid() && other.Valid() && other.I == I && other.J == J
      ensures m.Valid() && m == other
    {
      Matrix(I, J, other.Mtx)
    }

    /** An `i` by `j` matrix holding the overlapping top-left block of `m`. */
    static function Redimension(m: Matrix, i: nat, j: nat): (r: Matrix)
      ensures r.Valid() && r.I == i && r.J == j
      ensures r.Mtx == RedimGrid(m.Mtx, i, j)
    {
      Matrix(i, j, RedimGrid(m.Mtx, i, j))
    }

    /** The product `a` times `b`, an `a.I` by `b.J` matrix. */
    static function Multiply(a: Matrix, b: Matrix): (c: Matrix)
      requires a.Valid() && b.Valid() && a.J == b.I
      ensures c.Valid() && c.I == a.I && c.J == b.J
      ensures c.Mtx == Product(a.Mtx, b.Mtx, b.J)
    {
      Matrix(a.I, b.J, Product(a.Mtx, b.Mtx, b.J))
    }
  }
}
