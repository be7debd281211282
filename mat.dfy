/** The fixed-shape matrix `Mat2d<T, M, N>` of `src/math/mat.rs`. It stores a
    fixed-size array of N rows, each a vector of length M: the conversion
    `From<[[T; M]; N]>` takes N arrays of length M. (`mat.rs` writes the row type
    as `vec::Vec<T, M>` and calls `Vec::zeros()` without a length, but `vec.rs`
    defines `Vec<T>` and `zeros(n)`; the model takes every row to be a sequence
    of length M and keeps that as the object invariant.)

    Row-level values (`Rows`) are what `clone()` copies and what the reduction
    specification works on; the class `Mat2d` is the object whose rows
    `swap_row` and `index_mut` change in place. */
module Matrices {
  import opened Outcomes
  import Vectors

  /** The rows of a matrix, as a value. */
  type Rows = seq<seq<real>>

  /** `a` has N rows, each of length M. */
  predicate Shaped(a: Rows, M: nat, N: nat) {
    |a| == N && forall r :: 0 <= r < N ==> |a[r]| == M
  }

  /** `usize::min`. */
  function Min(x: nat, y: nat): nat {
    if x <= y then x else y
  }

  /** The rows of `Mat2d::zeros()`. */
  function ZeroRows(M: nat, N: nat): (a: Rows)
    ensures Shaped(a, M, N)
    ensures forall r, c :: 0 <= r < N && 0 <= c < M ==> a[r][c] == 0.0
  {
    seq(N, _ => Vectors.Zeros(M))
  }

  /** The rows of `Mat2d::ones()`. */
  function OneRows(M: nat, N: nat): (a: Rows)
    ensures Shaped(a, M, N)
    ensures forall r, c :: 0 <= r < N && 0 <= c < M ==> a[r][c] == 1.0
  {
    seq(N, _ => Vectors.Ones(M))
  }

  /** The rows of the n-by-n identity: one on the diagonal, zero elsewhere. */
  function IdentityRows(n: nat): (a: Rows)
    ensures Shaped(a, n, n)
    ensures forall r, c :: 0 <= r < n && 0 <= c < n ==> a[r][c] == if r == c then 1.0 else 0.0
  {
    seq(n, r => seq(n, c => if r == c then 1.0 else 0.0))
  }

  /** `<[T]>::swap(x, y)` on the row array: rows `x` and `y` trade places and
      every other row stays where it was. */
  function Swapped(a: Rows, x: nat, y: nat): (b: Rows)
    requires x < |a| && y < |a|
    ensures |b| == |a| && b[x] == a[y] && b[y] == a[x]
    ensures forall r :: 0 <= r < |a| && r != x && r != y ==> b[r] == a[r]
  {
    a[x := a[y]][y := a[x]]
  }

  /** `x.sub(&y.mul(scale))`: the row operation of elimination. Both operands
      have the same length, so the length assertion of `sub` does not fire. */
  function RowMinusScaled(x: seq<real>, y: seq<real>, scale: real): (r: seq<real>)
    requires |x| == |y|
    ensures |r| == |x|
    ensures forall k :: 0 <= k < |x| ==> r[k] == x[k] - y[k] * scale
  {
    seq(|x|, k requires 0 <= k < |x| => x[k] - y[k] * scale)
  }

  /** The row operation is `sub` applied to `mul`, as the source writes it. */
  lemma RowMinusScaledIsSubMul(x: seq<real>, y: seq<real>, scale: real)
    requires |x| == |y|
    ensures Vectors.Sub(x, Vectors.Mul(y, scale)) == Ok(RowMinusScaled(x, y, scale))
  {
    assert Vectors.Sub(x, Vectors.Mul(y, scale)).value == RowMinusScaled(x, y, scale);
  }

  /** `iter().position(..)` over the rows, starting at row `from`: the first row
      whose entry in column `c` is zero (when `zero`) or nonzero (otherwise). */
  function Position(a: Rows, c: nat, zero: bool, from: nat): (r: Option<nat>)
    requires forall k :: 0 <= k < |a| ==> c < |a[k]|
    ensures r.Some? ==> from <= r.value < |a| && (a[r.value][c] == 0.0) == zero
    ensures r.Some? ==> forall k :: from <= k < r.value ==> (a[k][c] == 0.0) != zero
    ensures r.None? ==> forall k :: from <= k < |a| ==> (a[k][c] == 0.0) != zero
    decreases |a| - from
  {
    if from >= |a| then None
    else if (a[from][c] == 0.0) == zero then Some(from)
    else Position(a, c, zero, from + 1)
  }

  /** The inner loop of `row_reduced` (`for j in i + 1..N`), from row `j` on, for
      pivot column `i`: a row with a nonzero entry in column `i` is replaced by
      `row_j - (a[j][i] / a[i][i]) * row_i`; a zero pivot there is a zero divisor. */
  function EliminateBelow(a: Rows, i: nat, j: nat, M: nat, N: nat): (r: Result<Rows>)
    requires Shaped(a, M, N) && i < M && i < N
    ensures r.Ok? ==> Shaped(r.value, M, N)
    ensures r.Fault? ==> r.kind == DivisionByZero
    decreases N - j
  {
    if j >= N then Ok(a)
    else if a[j][i] != 0.0 then
      if a[i][i] == 0.0 then Fault(DivisionByZero)
      else EliminateBelow(a[j := RowMinusScaled(a[j], a[i], a[j][i] / a[i][i])], i, j + 1, M, N)
    else EliminateBelow(a, i, j + 1, M, N)
  }

  /** Stage `i` of `row_reduced`: when the diagonal entry is zero, swap row `i`
      with the first row, counted from row 0, whose column-`i` entry EQUALS zero
      (the `continue` when there is none); then the inner loop. */
  function Stage(a: Rows, i: nat, M: nat, N: nat): (r: Result<Rows>)
    requires Shaped(a, M, N) && i < Min(M, N)
    ensures r.Ok? ==> Shaped(r.value, M, N)
  {
    if a[i][i] == 0.0 then
      match Position(a, i, true, 0)
      case Some(idx) => EliminateBelow(Swapped(a, i, idx), i, i + 1, M, N)
      case None => Ok(a)
    else EliminateBelow(a, i, i + 1, M, N)
  }

  /** What follows a stage: its fault is passed through, or the stages from `i`
      on run on the rows it produced. */
  function ThenReduceFrom(r: Result<Rows>, i: nat, M: nat, N: nat): (res: Result<Rows>)
    requires r.Ok? ==> Shaped(r.value, M, N)
    ensures res.Ok? ==> Shaped(res.value, M, N)
    decreases Min(M, N) - i, 2
  {
    match r
    case Fault(k) => Fault(k)
    case Ok(b) => ReduceFrom(b, i, M, N)
  }

  /** The outer loop of `row_reduced` (`for i in 0..M.min(N)`), from stage `i` on. */
  function ReduceFrom(a: Rows, i: nat, M: nat, N: nat): (r: Result<Rows>)
    requires Shaped(a, M, N)
    ensures r.Ok? ==> Shaped(r.value, M, N)
    decreases Min(M, N) - i, 1
  {
    if i >= Min(M, N) then Ok(a)
    else ThenReduceFrom(Stage(a, i, M, N), i + 1, M, N)
  }

  /** What `row_reduced` computes from the rows of the receiver. */
  function RowReduction(a: Rows, M: nat, N: nat): (r: Result<Rows>)
    requires Shaped(a, M, N)
    ensures r.Ok? ==> Shaped(r.value, M, N)
  {
    ReduceFrom(a, 0, M, N)
  }

  /** The matrix object. */
  class Mat2d {
    /** The length of every row. */
    const M: nat
    /** The number of rows. */
    const N: nat
    /** The fixed-size array of rows. */
    const mat: array<seq<real>>

    /** Every row has length M and there are N of them. */
    ghost predicate Valid()
      reads this, mat
    {
      Shaped(mat[..], M, N)
    }

    /** `Mat2d::zeros()`. */
    constructor Zeros(M: nat, N: nat)
      ensures this.M == M && this.N == N && Valid() && fresh(mat)
      ensures mat[..] == ZeroRows(M, N)
    {
      var rows := new seq<real>[N](_ => Vectors.Zeros(M));
      assert rows[..] == ZeroRows(M, N);
      this.M, this.N, mat := M, N, rows;
    }

    /** `Mat2d::ones()`. */
    constructor Ones(M: nat, N: nat)
      ensures this.M == M && this.N == N && Valid() && fresh(mat)
      ensures mat[..] == OneRows(M, N)
    {
      var rows := new seq<real>[N](_ => Vectors.Ones(M));
      assert rows[..] == OneRows(M, N);
      this.M, this.N, mat := M, N, rows;
    }

    /** The derived `clone()`: a fresh array holding the same rows. */
    constructor Clone(other: Mat2d)
      requires other.Valid()
      ensures M == other.M && N == other.N && Valid() && fresh(mat)
      ensures mat[..] == other.mat[..]
    {
      var src := other.mat[..];
      var rows := new seq<real>[|src|](k requires 0 <= k < |src| => src[k]);
      assert rows[..] == src;
      M, N, mat := other.M, other.N, rows;
    }

    /** `From<[[T; M]; N]>`: start from `zeros()` and overwrite row k with
        `arr[k]`, for every k < N. */
    constructor FromArray(M: nat, N: nat, arr: Rows)
      requires Shaped(arr, M, N)
      ensures this.M == M && this.N == N && Valid() && fresh(mat)
      ensures mat[..] == arr
    {
      var rows := new seq<real>[N](_ => Vectors.Zeros(M));
      for k := 0 to N
        invariant forall r :: 0 <= r < k ==> rows[r] == arr[r]
      {
        rows[k] := arr[k];
      }
      assert rows[..] == arr;
      this.M, this.N, mat := M, N, rows;
    }

    /** `Mat2d::identity()`: no matrix unless the shape is square; otherwise
        `zeros()` with a one written at every diagonal position. */
    static method Identity(M: nat, N: nat) returns (r: Option<Mat2d>)
      ensures r.None? <==> M != N
      ensures r.Some? ==> r.value.M == M && r.value.N == N && r.value.Valid()
      ensures r.Some? ==> r.value.mat[..] == IdentityRows(N)
      ensures r.Some? ==> fresh(r.value) && fresh(r.value.mat)
    {
      if M != N {
        return None;
      }
      var m := new Mat2d.Zeros(M, N);
      for i := 0 to N
        invariant m.Valid()
        invariant forall r :: 0 <= r < N ==> m.mat[r] == if r < i then IdentityRows(N)[r] else Vectors.Zeros(N)
      {
        m.mat[i] := m.mat[i][i := 1.0];
      }
      assert m.mat[..] == IdentityRows(N);
      return Some(m);
    }

    /** `swap_row(from, to)`: exchanges the two rows in place; an index out of
        range panics and changes nothing. */
    method SwapRow(from: nat, to: nat) returns (r: Result<()>)
      requires Valid()
      modifies mat
      ensures Valid()
      ensures r.Fault? <==> from >= N || to >= N
      ensures r.Fault? ==> r.kind == IndexOutOfRange && mat[..] == old(mat[..])
      ensures r.Ok? ==> mat[..] == Swapped(old(mat[..]), from, to)
    {
      if from >= N || to >= N {
        return Fault(IndexOutOfRange);
      }
      var tmp := mat[from];
      mat[from] := mat[to];
      mat[to] := tmp;
      return Ok(());
    }

    /** `shape()`: the pair (M, N), that is (row length, row count). */
    function Shape(): (s: (nat, nat))
      reads this, mat
      requires Valid()
      ensures s.0 == M && s.1 == N
      ensures s.1 == mat.Length
      ensures forall r :: 0 <= r < mat.Length ==> |mat[r]| == s.0
    {
      (M, N)
    }

    /** `mat[r]` (`Index`): row `r`; panics when `r` is out of range. */
    function Index(r: nat): (v: Result<seq<real>>)
      reads this, mat
      ensures v.Fault? <==> r >= mat.Length
      ensures v.Fault? ==> v.kind == IndexOutOfRange
      ensures v.Ok? ==> v.value == mat[r]
    {
      if r < mat.Length then Ok(mat[r]) else Fault(IndexOutOfRange)
    }

    /** `mat[r] = v` (`IndexMut`): replaces exactly row `r`; panics, changing
        nothing, when `r` is out of range. */
    method SetRow(r: nat, v: seq<real>) returns (res: Result<()>)
      requires Valid() && |v| == M
      modifies mat
      ensures Valid()
      ensures res.Fault? <==> r >= N
      ensures res.Fault? ==> res.kind == IndexOutOfRange && mat[..] == old(mat[..])
      ensures res.Ok? ==> mat[..] == old(mat[..])[r := v]
    {
      if r >= N {
        return Fault(IndexOutOfRange);
      }
      mat[r] := v;
      return Ok(());
    }

    /** `row_reduced()`: forward elimination on a clone; the receiver is not
        changed. A zero divisor ends the computation with a fault. */
    method RowReduced() returns (r: Result<Rows>)
      requires Valid()
      ensures r == RowReduction(mat[..], M, N)
    {
      ghost var goal := RowReduction(mat[..], M, N);
      var m := new Mat2d.Clone(this);
      for i := 0 to Min(M, N)
        invariant m.M == M && m.N == N && m.Valid()
        invariant ReduceFrom(m.mat[..], i, M, N) == goal
      {
        ghost var before := m.mat[..];
        assert ReduceFrom(before, i, M, N) == ThenReduceFrom(Stage(before, i, M, N), i + 1, M, N);
        if m.mat[i][i] == 0.0 {
          var idx := Position(m.mat[..], i, true, 0);
          if idx.Some? {
            var swapped := m.SwapRow(i, idx.value);
          } else {
            continue;
          }
        }
        assert Stage(before, i, M, N) == EliminateBelow(m.mat[..], i, i + 1, M, N);
        var ok := m.EliminateColumn(i);
        if !ok {
          return Fault(DivisionByZero);
        }
      }
      return Ok(m.mat[..]);
    }

    /** The inner loop of `row_reduced` (`for j in i + 1..N`) for stage `i`:
        below a nonzero pivot, subtracts from each row with a nonzero entry in
        column `i` the multiple of row `i` that clears it; a nonzero entry under
        a zero pivot is a division by zero. */
    method EliminateColumn(i: nat) returns (ok: bool)
      requires Valid() && i < Min(M, N)
      modifies mat
      ensures Valid()
      ensures ok ==> EliminateBelow(old(mat[..]), i, i + 1, M, N) == Ok(mat[..])
      ensures !ok ==> EliminateBelow(old(mat[..]), i, i + 1, M, N) == Fault(DivisionByZero)
    {
      ghost var goal := EliminateBelow(mat[..], i, i + 1, M, N);
      for j := i + 1 to N
        invariant Valid()
        invariant EliminateBelow(mat[..], i, j, M, N) == goal
      {
        if mat[j][i] != 0.0 {
          if mat[i][i] == 0.0 {
            return false;
          }
          var scale := mat[j][i] / mat[i][i];
          var written := SetRow(j, RowMinusScaled(mat[j], mat[i], scale));
        }
      }
      return true;
    }
  }

  /** Swapping the same two rows twice restores the matrix. */
  lemma SwapTwice(a: Rows, x: nat, y: nat)
    requires x < |a| && y < |a|
    ensures Swapped(Swapped(a, x, y), x, y) == a
  {
    var b := Swapped(Swapped(a, x, y), x, y);
    assert forall r :: 0 <= r < |a| ==> b[r] == a[r];
  }

  /** Swapping a row with itself changes nothing. */
  lemma SwapSame(a: Rows, x: nat)
    requires x < |a|
    ensures Swapped(a, x, x) == a
  {
  }

  /** A swap keeps the shape. */
  lemma SwapKeepsShape(a: Rows, x: nat, y: nat, M: nat, N: nat)
    requires Shaped(a, M, N) && x < N && y < N
    ensures Shaped(Swapped(a, x, y), M, N)
  {
  }

  /** The row that elimination writes into row `r`, for pivot column `i`. */
  function Eliminated(a: Rows, i: nat, r: nat): (row: seq<real>)
    requires r < |a| && i < |a| && |a[r]| == |a[i]| && i < |a[i]| && a[i][i] != 0.0
    ensures |row| == |a[r]|
    ensures row[i] == 0.0
  {
    Vectors.SubScaledCancels(a[r], a[i], i);
    RowMinusScaled(a[r], a[i], a[r][i] / a[i][i])
  }

  /** With a nonzero pivot, the inner loop from row `j0 > i` replaces exactly the
      rows `r >= j0` whose column-`i` entry is nonzero, each by
      `row_r - (a[r][i] / a[i][i]) * row_i`, and never faults. */
  lemma {:induction false} EliminateBelowNonzeroPivot(a: Rows, i: nat, j0: nat, M: nat, N: nat)
    requires Shaped(a, M, N) && i < M && i < N && i < j0 && a[i][i] != 0.0
    ensures EliminateBelow(a, i, j0, M, N).Ok?
    ensures forall r :: 0 <= r < N ==>
      EliminateBelow(a, i, j0, M, N).value[r] == if j0 <= r && a[r][i] != 0.0 then Eliminated(a, i, r) else a[r]
    decreases N - j0
  {
    if j0 < N {
      if a[j0][i] != 0.0 {
        var a' := a[j0 := Eliminated(a, i, j0)];
        assert EliminateBelow(a, i, j0, M, N) == EliminateBelow(a', i, j0 + 1, M, N);
        EliminateBelowNonzeroPivot(a', i, j0 + 1, M, N);
        var b := EliminateBelow(a', i, j0 + 1, M, N).value;
        forall r | 0 <= r < N
          ensures b[r] == if j0 <= r && a[r][i] != 0.0 then Eliminated(a, i, r) else a[r]
        {
          if r == j0 {
            assert b[r] == a'[r];
          } else if j0 < r && a[r][i] != 0.0 {
            assert a'[r] == a[r] && a'[i] == a[i];
            assert b[r] == Eliminated(a', i, r) == Eliminated(a, i, r);
          } else {
            assert b[r] == a'[r] == a[r];
          }
        }
      } else {
        assert EliminateBelow(a, i, j0, M, N) == EliminateBelow(a, i, j0 + 1, M, N);
        EliminateBelowNonzeroPivot(a, i, j0 + 1, M, N);
      }
    }
  }

  /** With a zero pivot, the inner loop from row `j0` faults with a zero divisor
      exactly when some row from `j0` on has a nonzero column-`i` entry, and
      otherwise changes nothing. */
  lemma {:induction false} EliminateBelowZeroPivot(a: Rows, i: nat, j0: nat, M: nat, N: nat)
    requires Shaped(a, M, N) && i < M && i < N && a[i][i] == 0.0
    ensures EliminateBelow(a, i, j0, M, N)
         == if exists r :: j0 <= r < N && a[r][i] != 0.0 then Fault(DivisionByZero) else Ok(a)
    decreases N - j0
  {
    if j0 < N && a[j0][i] == 0.0 {
      EliminateBelowZeroPivot(a, i, j0 + 1, M, N);
      if exists r :: j0 <= r < N && a[r][i] != 0.0 {
        var r :| j0 <= r < N && a[r][i] != 0.0;
        assert j0 + 1 <= r;
      }
    }
  }

  /** Stage `i` with a nonzero diagonal entry: rows up to `i` and rows whose
      column-`i` entry is already zero are untouched; every other row below is
      replaced by `row_j - (a[j][i] / a[i][i]) * row_i`; afterwards every entry
      below the pivot is exactly zero. */
  lemma StageNonzeroPivot(a: Rows, i: nat, M: nat, N: nat)
    requires Shaped(a, M, N) && i < Min(M, N) && a[i][i] != 0.0
    ensures Stage(a, i, M, N).Ok?
    ensures var b := Stage(a, i, M, N).value;
      && (forall r :: 0 <= r <= i ==> b[r] == a[r])
      && (forall r :: i < r < N && a[r][i] == 0.0 ==> b[r] == a[r])
      && (forall r :: i < r < N && a[r][i] != 0.0 ==> b[r] == RowMinusScaled(a[r], a[i], a[r][i] / a[i][i]))
      && (forall r :: i < r < N ==> b[r][i] == 0.0)
  {
    EliminateBelowNonzeroPivot(a, i, i + 1, M, N);
  }

  /** Stage `i` with a zero diagonal entry: the search for a row whose column-`i`
      entry EQUALS zero succeeds at some row `idx <= i` (row `i` qualifies), the
      rows are swapped, and the new diagonal entry is still zero. The stage then
      faults with a zero divisor exactly when a row below has a nonzero entry in
      column `i`; otherwise its result is the swapped matrix. */
  lemma StageZeroPivot(a: Rows, i: nat, M: nat, N: nat)
    requires Shaped(a, M, N) && i < Min(M, N) && a[i][i] == 0.0
    ensures Position(a, i, true, 0).Some?
    ensures var idx := Position(a, i, true, 0).value;
      && idx <= i
      && Swapped(a, i, idx)[i][i] == 0.0
      && (Stage(a, i, M, N).Fault? <==> exists r :: i < r < N && a[r][i] != 0.0)
      && (Stage(a, i, M, N).Fault? ==> Stage(a, i, M, N).kind == DivisionByZero)
      && (Stage(a, i, M, N).Ok? ==> Stage(a, i, M, N).value == Swapped(a, i, idx))
  {
    var idx := Position(a, i, true, 0).value;
    var b := Swapped(a, i, idx);
    EliminateBelowZeroPivot(b, i, i + 1, M, N);
    assert forall r :: i < r < N ==> b[r] == a[r];
  }

  /** Every stage of the identity finds a nonzero pivot and nothing to eliminate,
      so stages from `i` on return the identity unchanged. */
  lemma {:induction false} IdentityStagesFrom(n: nat, i: nat)
    ensures ReduceFrom(IdentityRows(n), i, n, n) == Ok(IdentityRows(n))
    decreases n - i
  {
    var a := IdentityRows(n);
    if i < n {
      StageNonzeroPivot(a, i, n, n);
      assert Stage(a, i, n, n).value == a;
      IdentityStagesFrom(n, i + 1);
    }
  }

  /** `row_reduced` leaves the identity as it is. */
  lemma IdentityIsRowReduced(n: nat)
    ensures RowReduction(IdentityRows(n), n, n) == Ok(IdentityRows(n))
  {
    IdentityStagesFrom(n, 0);
  }

  /** The input of `src/main.rs` reduces, exactly, to
      [[1, 2, 1, 1], [0, -13, -9, -2], [0, 0, -4/13, 15/13]]. */
  lemma MainExample()
    ensures RowReduction([[1.0, 2.0, 1.0, 1.0], [3.0, -7.0, -6.0, 1.0], [0.0, -1.0, -1.0, 1.0]], 4, 3)
         == Ok([[1.0, 2.0, 1.0, 1.0], [0.0, -13.0, -9.0, -2.0], [0.0, 0.0, -4.0 / 13.0, 15.0 / 13.0]])
  {
    var a0 := [[1.0, 2.0, 1.0, 1.0], [3.0, -7.0, -6.0, 1.0], [0.0, -1.0, -1.0, 1.0]];
    var a1 := [[1.0, 2.0, 1.0, 1.0], [0.0, -13.0, -9.0, -2.0], [0.0, -1.0, -1.0, 1.0]];
    var a2 := [[1.0, 2.0, 1.0, 1.0], [0.0, -13.0, -9.0, -2.0], [0.0, 0.0, -4.0 / 13.0, 15.0 / 13.0]];
    StageNonzeroPivot(a0, 0, 4, 3);
    assert a0[1][0] / a0[0][0] == 3.0;
    assert RowMinusScaled(a0[1], a0[0], 3.0) == a1[1];
    var b1 := Stage(a0, 0, 4, 3).value;
    assert b1[0] == a1[0] && b1[1] == a1[1] && b1[2] == a1[2];
    assert b1 == a1;
    StageNonzeroPivot(a1, 1, 4, 3);
    assert a1[2][1] / a1[1][1] == 1.0 / 13.0;
    assert RowMinusScaled(a1[2], a1[1], 1.0 / 13.0) == a2[2];
    var b2 := Stage(a1, 1, 4, 3).value;
    assert b2[0] == a2[0] && b2[1] == a2[1] && b2[2] == a2[2];
    assert b2 == a2;
    StageNonzeroPivot(a2, 2, 4, 3);
    assert Stage(a2, 2, 4, 3) == Ok(a2);
  }

  /** As written, the pivot search looks for a row whose entry EQUALS zero:
      [[0, 1], [1, 0]] finds row 0 itself, keeps the zero pivot and then divides
      by it for row 1. */
  lemma ZeroSearchDividesByZero()
    ensures RowReduction([[0.0, 1.0], [1.0, 0.0]], 2, 2) == Fault(DivisionByZero)
  {
    var a := [[0.0, 1.0], [1.0, 0.0]];
    assert Position(a, 0, true, 0) == Some(0);
    assert Swapped(a, 0, 0) == a;
  }

  /** As written, a zero pivot below a completed column is swapped with a row
      above it: [[1, 0], [0, 0]] reduces to [[0, 0], [1, 0]], whose entry below
      the diagonal is nonzero although the input was already triangular. */
  lemma ZeroSearchUndoesColumn()
    ensures RowReduction([[1.0, 0.0], [0.0, 0.0]], 2, 2) == Ok([[0.0, 0.0], [1.0, 0.0]])
  {
    var a := [[1.0, 0.0], [0.0, 0.0]];
    assert Stage(a, 0, 2, 2) == Ok(a);
    assert Position(a, 1, true, 0) == Some(0);
    assert Swapped(a, 1, 0) == [[0.0, 0.0], [1.0, 0.0]];
  }
}
