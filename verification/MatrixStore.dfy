/** Matrices on the heap and the values they hold. */
module MatrixStore {
  import opened LinearAlgebra

  function Abs(x: real): (r: real)
    ensures r >= 0.0 && (r == 0.0 <==> x == 0.0)
  {
    if x < 0.0 then -x else x
  }

  ghost function Rows(a: array2<real>): seq<seq<real>>
    reads a
  {
    seq(a.Length0, i requires 0 <= i < a.Length0 reads a =>
      seq(a.Length1, j requires 0 <= j < a.Length1 reads a => a[i, j]))
  }

  /** The matrix stored in an array. */
  ghost function MatrixOf(a: array2<real>): Matrix
    reads a
  {
    var rows := Rows(a);
    (i, j) => if 0 <= i < |rows| && 0 <= j < |rows[i]| then rows[i][j] else 0.0
  }

  /** m agrees with the stored matrix inside its bounds. */
  ghost predicate Holds(a: array2<real>, m: Matrix)
    reads a
  {
    forall i, j | 0 <= i < a.Length0 && 0 <= j < a.Length1 :: a[i, j] == m(i, j)
  }

  ghost function Upd(m: Matrix, r: int, c: int, v: real): Matrix {
    (i, j) => if i == r && j == c then v else m(i, j)
  }

  ghost function SwapRows(m: Matrix, r: int, q: int): Matrix {
    (i, j) => if i == r then m(q, j) else if i == q then m(r, j) else m(i, j)
  }

  method Store(a: array2<real>, r: nat, c: nat, v: real, ghost m: Matrix)
    requires r < a.Length0 && c < a.Length1 && Holds(a, m)
    modifies a
    ensures Holds(a, Upd(m, r, c, v))
  {
    a[r, c] := v;
  }
}
