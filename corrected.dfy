/** The forward elimination that `row_reduced` and `GaussElimIter` evidently
    intend: a zero diagonal entry is replaced by swapping in a row BELOW it
    whose entry in that column is NONZERO, a column with no such row is passed
    over, and every row below the diagonal is visited. The corrected
    `row_reduced` is proved never to fault and to leave every entry below the
    diagonal zero. The corrected iterator is proved never to fault; a drain of it
    that reaches `None` leaves every entry below the diagonal zero, and leaves
    exactly the rows the corrected `row_reduced` returns. */
module Corrected {
  import opened Outcomes
  import opened Matrices
  import Gauss

  /** Every entry below the diagonal in the first `cols` columns is zero. */
  predicate ClearedBelow(a: Rows, cols: nat) {
    forall r, c :: 0 <= c < cols && c < r < |a| && c < |a[r]| ==> a[r][c] == 0.0
  }

  // ---------------------------------------------------------------------------
  // row_reduced, corrected

  /** Stage `i`, corrected: with a zero diagonal entry, swap in the first row
      below it that is nonzero in column `i`, or leave the column as it is when
      there is none. */
  function FixedStage(a: Rows, i: nat, M: nat, N: nat): (r: Result<Rows>)
    requires Shaped(a, M, N) && i < Min(M, N)
    ensures r.Ok? ==> Shaped(r.value, M, N)
  {
    if a[i][i] == 0.0 then
      match Position(a, i, false, i + 1)
      case Some(idx) => EliminateBelow(Swapped(a, i, idx), i, i + 1, M, N)
      case None => Ok(a)
    else EliminateBelow(a, i, i + 1, M, N)
  }

  /** The stages from `i` on, corrected. */
  function FixedReduceFrom(a: Rows, i: nat, M: nat, N: nat): (r: Result<Rows>)
    requires Shaped(a, M, N)
    ensures r.Ok? ==> Shaped(r.value, M, N)
    decreases Min(M, N) - i
  {
    if i >= Min(M, N) then Ok(a)
    else match FixedStage(a, i, M, N)
      case Fault(k) => Fault(k)
      case Ok(b) => FixedReduceFrom(b, i + 1, M, N)
  }

  /** `row_reduced`, corrected. */
  function FixedRowReduction(a: Rows, M: nat, N: nat): (r: Result<Rows>)
    requires Shaped(a, M, N)
    ensures r.Ok? ==> Shaped(r.value, M, N)
  {
    FixedReduceFrom(a, 0, M, N)
  }

  /** A column where both rows are zero stays zero after elimination. */
  lemma EliminatedKeepsZero(a: Rows, i: nat, r: nat, c: nat)
    requires r < |a| && i < |a| && |a[r]| == |a[i]| && i < |a[i]| && a[i][i] != 0.0
    requires c < |a[r]| && a[r][c] == 0.0 && a[i][c] == 0.0
    ensures Eliminated(a, i, r)[c] == 0.0
  {
    assert Eliminated(a, i, r)[c] == a[r][c] - a[i][c] * (a[r][i] / a[i][i]);
  }

  /** Eliminating below a nonzero pivot in column `i` keeps the columns before
      `i` clear and clears column `i`. */
  lemma EliminationClears(a: Rows, i: nat, M: nat, N: nat)
    requires Shaped(a, M, N) && i < Min(M, N) && a[i][i] != 0.0 && ClearedBelow(a, i)
    ensures EliminateBelow(a, i, i + 1, M, N).Ok?
    ensures ClearedBelow(EliminateBelow(a, i, i + 1, M, N).value, i + 1)
  {
    EliminateBelowNonzeroPivot(a, i, i + 1, M, N);
    var b := EliminateBelow(a, i, i + 1, M, N).value;
    forall r | 0 <= r < N
      ensures forall c :: 0 <= c < i + 1 && c < r ==> b[r][c] == 0.0
    {
      if i < r && a[r][i] != 0.0 {
        assert b[r] == Eliminated(a, i, r);
        EliminatedRowCleared(a, i, r, M, N);
      } else {
        assert b[r] == a[r];
      }
    }
  }

  /** A row eliminated below a nonzero pivot in column `i` is zero in the
      columns up to `i`, given that the columns before `i` were clear. */
  lemma EliminatedRowCleared(a: Rows, i: nat, r: nat, M: nat, N: nat)
    requires Shaped(a, M, N) && i < Min(M, N) && a[i][i] != 0.0 && ClearedBelow(a, i)
    requires i < r < N
    ensures forall c :: 0 <= c < i + 1 ==> Eliminated(a, i, r)[c] == 0.0
  {
    forall c | 0 <= c < i
      ensures Eliminated(a, i, r)[c] == 0.0
    {
      EliminatedKeepsZero(a, i, r, c);
    }
  }

  /** A corrected stage never faults and extends the cleared columns by one. */
  lemma FixedStageClears(a: Rows, i: nat, M: nat, N: nat)
    requires Shaped(a, M, N) && i < Min(M, N) && ClearedBelow(a, i)
    ensures FixedStage(a, i, M, N).Ok?
    ensures ClearedBelow(FixedStage(a, i, M, N).value, i + 1)
  {
    if a[i][i] != 0.0 {
      EliminationClears(a, i, M, N);
    } else if Position(a, i, false, i + 1).Some? {
      var idx := Position(a, i, false, i + 1).value;
      var b := Swapped(a, i, idx);
      assert ClearedBelow(b, i) by {
        forall r, c | 0 <= c < i && c < r < N && c < M
          ensures b[r][c] == 0.0
        {
          if r == i {
            assert b[r] == a[idx];
          } else if r == idx {
            assert b[r] == a[i];
          }
        }
      }
      EliminationClears(b, i, M, N);
    }
  }

  /** The corrected stages from `i` on, started with the first `i` columns
      clear, never fault and clear every column up to `min(M, N)`. */
  lemma {:induction false} FixedReduceFromClears(a: Rows, i: nat, M: nat, N: nat)
    requires Shaped(a, M, N) && i <= Min(M, N) && ClearedBelow(a, i)
    ensures FixedReduceFrom(a, i, M, N).Ok?
    ensures ClearedBelow(FixedReduceFrom(a, i, M, N).value, Min(M, N))
    decreases Min(M, N) - i
  {
    if i < Min(M, N) {
      FixedStageClears(a, i, M, N);
      FixedReduceFromClears(FixedStage(a, i, M, N).value, i + 1, M, N);
    }
  }

  /** The corrected `row_reduced` never faults, and its result is upper
      triangular: every entry below the diagonal is zero. */
  lemma FixedRowReductionIsTriangular(a: Rows, M: nat, N: nat)
    requires Shaped(a, M, N)
    ensures FixedRowReduction(a, M, N).Ok?
    ensures ClearedBelow(FixedRowReduction(a, M, N).value, Min(M, N))
  {
    FixedReduceFromClears(a, 0, M, N);
  }

  /** On the two inputs where the search as written goes wrong, the corrected
      reduction gives the triangular results: [[0, 1], [1, 0]] becomes
      [[1, 0], [0, 1]], and [[1, 0], [0, 0]] is left as it is. */
  lemma FixedRowReductionExamples()
    ensures FixedRowReduction([[0.0, 1.0], [1.0, 0.0]], 2, 2) == Ok([[1.0, 0.0], [0.0, 1.0]])
    ensures FixedRowReduction([[1.0, 0.0], [0.0, 0.0]], 2, 2) == Ok([[1.0, 0.0], [0.0, 0.0]])
  {
    var a := [[0.0, 1.0], [1.0, 0.0]];
    assert Position(a, 0, false, 1) == Some(1);
    assert Swapped(a, 0, 1) == [[1.0, 0.0], [0.0, 1.0]];
    var b := [[1.0, 0.0], [0.0, 0.0]];
    assert Position(b, 1, false, 2) == None;
  }

  // ---------------------------------------------------------------------------
  // GaussElimIter::next, corrected

  /** How many columns remain before `min(M, N)`. */
  function ColumnsLeft(col: nat, K: nat): nat {
    if col <= K then K - col else 0
  }

  /** `next()`, corrected, entered in state `s`: stop at column `min(M, N)`;
      with a zero pivot swap in the first nonzero row below it, or pass to the
      next column when there is none; otherwise scan the rows below. */
  function FixedPull(s: Gauss.IterState, M: nat, N: nat): (res: (Gauss.Pulled, Gauss.IterState))
    requires Shaped(s.mat, M, N)
    ensures Shaped(res.1.mat, M, N)
    ensures !res.0.Panic?
    ensures res.0.Emit? ==> Gauss.Apply(res.0.step, s.mat) == Ok(res.1.mat) && res.0.snapshot == res.1.mat
    ensures res.0.Emit? ==> res.0.step.from < res.0.step.to
    ensures !res.0.Emit? ==> res.1.mat == s.mat
    ensures res.0.Done? ==> res.1.col >= Min(M, N)
    decreases ColumnsLeft(s.col, Min(M, N)), N + 1
  {
    var K := Min(M, N);
    if s.col >= K then (Gauss.Done, s)
    else if s.mat[s.col][s.col] == 0.0 then
      match Position(s.mat, s.col, false, s.col + 1)
      case Some(idx) =>
        var m := Swapped(s.mat, s.col, idx);
        (Gauss.Emit(Gauss.Swap(s.col, idx), m), Gauss.IterState(m, s.col, s.row))
      case None => FixedPull(Gauss.IterState(s.mat, s.col + 1, s.col + 2), M, N)
    else FixedScan(s, M, N)
  }

  /** The inner loop, corrected: only rows strictly below the pivot are
      visited, and the scan ends at the last row. */
  function FixedScan(s: Gauss.IterState, M: nat, N: nat): (res: (Gauss.Pulled, Gauss.IterState))
    requires Shaped(s.mat, M, N) && s.col < Min(M, N) && s.mat[s.col][s.col] != 0.0
    ensures Shaped(res.1.mat, M, N)
    ensures !res.0.Panic?
    ensures res.0.Emit? ==> Gauss.Apply(res.0.step, s.mat) == Ok(res.1.mat) && res.0.snapshot == res.1.mat
    ensures res.0.Emit? ==> res.0.step.from < res.0.step.to
    ensures !res.0.Emit? ==> res.1.mat == s.mat
    ensures res.0.Done? ==> res.1.col >= Min(M, N)
    decreases ColumnsLeft(s.col, Min(M, N)), if s.row <= N then N - s.row else 0
  {
    if s.row <= s.col then FixedScan(Gauss.IterState(s.mat, s.col, s.col + 1), M, N)
    else if s.row >= N then FixedPull(Gauss.IterState(s.mat, s.col + 1, s.col + 2), M, N)
    else if s.mat[s.row][s.col] != 0.0 then
      var scale := s.mat[s.row][s.col] / s.mat[s.col][s.col];
      var m := s.mat[s.row := RowMinusScaled(s.mat[s.row], s.mat[s.col], scale)];
      (Gauss.Emit(Gauss.Sub(scale, s.col, s.row), m), Gauss.IterState(m, s.col, s.row))
    else FixedScan(Gauss.IterState(s.mat, s.col, s.row + 1), M, N)
  }

  /** What holds between calls of the corrected iterator: `row` is below `col`
      (and within the matrix while columns remain), the columns before `col`
      are clear below the diagonal, and so are the rows of column `col` that the
      scan has passed. */
  predicate Progress(s: Gauss.IterState, M: nat, N: nat)
    requires Shaped(s.mat, M, N)
  {
    && s.col < s.row
    && (s.col < Min(M, N) ==> s.row <= N)
    && ClearedBelow(s.mat, s.col)
    && (s.col < Min(M, N) ==> forall r :: s.col < r < s.row ==> s.mat[r][s.col] == 0.0)
  }

  /** The state `From<Mat2d>` creates satisfies `Progress`. */
  lemma StartHasProgress(a: Rows, M: nat, N: nat)
    requires Shaped(a, M, N)
    ensures Progress(Gauss.IterState(a, 0, 1), M, N)
  {
  }

  /** Subtracting a multiple of a row below column `c` from another row below it
      keeps column `c` of the first row zero. */
  lemma SubKeepsCleared(a: Rows, col: nat, row: nat, scale: real, M: nat, N: nat)
    requires Shaped(a, M, N) && col < row < N && col < M && ClearedBelow(a, col)
    ensures ClearedBelow(a[row := RowMinusScaled(a[row], a[col], scale)], col)
  {
    var m := a[row := RowMinusScaled(a[row], a[col], scale)];
    forall r, c | 0 <= c < col && c < r < N && c < M
      ensures m[r][c] == 0.0
    {
      if r == row {
        assert m[r][c] == a[row][c] - a[col][c] * scale;
      }
    }
  }

  /** A subtraction at the scanned row keeps `Progress`. */
  lemma SubKeepsProgress(s: Gauss.IterState, scale: real, M: nat, N: nat)
    requires Shaped(s.mat, M, N) && s.col < s.row < N && s.col < Min(M, N)
    requires ClearedBelow(s.mat, s.col)
    requires forall r :: s.col < r < s.row ==> s.mat[r][s.col] == 0.0
    ensures var m := s.mat[s.row := RowMinusScaled(s.mat[s.row], s.mat[s.col], scale)];
      Progress(Gauss.IterState(m, s.col, s.row), M, N)
  {
    var m := s.mat[s.row := RowMinusScaled(s.mat[s.row], s.mat[s.col], scale)];
    SubKeepsCleared(s.mat, s.col, s.row, scale, M, N);
    assert forall r :: s.col < r < s.row ==> m[r] == s.mat[r];
  }

  /** Swapping the pivot row with a row below the scanned ones keeps `Progress`. */
  lemma SwapKeepsProgress(s: Gauss.IterState, idx: nat, M: nat, N: nat)
    requires Shaped(s.mat, M, N) && Progress(s, M, N) && s.col < Min(M, N)
    requires s.row <= idx < N
    ensures Progress(Gauss.IterState(Swapped(s.mat, s.col, idx), s.col, s.row), M, N)
  {
    var m := Swapped(s.mat, s.col, idx);
    forall r, c | 0 <= c < s.col && c < r < N && c < M
      ensures m[r][c] == 0.0
    {
      if r == s.col {
        assert m[r] == s.mat[idx];
      } else if r == idx {
        assert m[r] == s.mat[s.col];
      }
    }
    assert forall r :: s.col < r < s.row ==> m[r] == s.mat[r];
  }

  /** Leaving column `col` once every row below its pivot is zero there. */
  lemma NextColumnHasProgress(a: Rows, col: nat, M: nat, N: nat)
    requires Shaped(a, M, N) && col < Min(M, N) && ClearedBelow(a, col)
    requires forall r :: col < r < N ==> a[r][col] == 0.0
    ensures Progress(Gauss.IterState(a, col + 1, col + 2), M, N)
  {
  }

  /** The corrected `next()` keeps `Progress`. */
  lemma {:induction false} FixedPullKeepsProgress(s: Gauss.IterState, M: nat, N: nat)
    requires Shaped(s.mat, M, N) && Progress(s, M, N)
    ensures Progress(FixedPull(s, M, N).1, M, N)
    decreases ColumnsLeft(s.col, Min(M, N)), N + 1
  {
    var K := Min(M, N);
    if s.col < K {
      if s.mat[s.col][s.col] == 0.0 {
        var p := Position(s.mat, s.col, false, s.col + 1);
        if p.Some? {
          SwapKeepsProgress(s, p.value, M, N);
          assert FixedPull(s, M, N).1 == Gauss.IterState(Swapped(s.mat, s.col, p.value), s.col, s.row);
        } else {
          var t := Gauss.IterState(s.mat, s.col + 1, s.col + 2);
          NextColumnHasProgress(s.mat, s.col, M, N);
          assert FixedPull(s, M, N) == FixedPull(t, M, N);
          FixedPullKeepsProgress(t, M, N);
        }
      } else {
        assert FixedPull(s, M, N) == FixedScan(s, M, N);
        FixedScanKeepsProgress(s, M, N);
      }
    }
  }

  /** The corrected inner loop, entered with the columns before `col` clear and
      the rows it has passed zero in column `col`, leaves a state with
      `Progress`. */
  lemma {:induction false} FixedScanKeepsProgress(s: Gauss.IterState, M: nat, N: nat)
    requires Shaped(s.mat, M, N) && s.col < Min(M, N) && s.mat[s.col][s.col] != 0.0
    requires ClearedBelow(s.mat, s.col)
    requires forall r :: s.col < r < s.row && r < N ==> s.mat[r][s.col] == 0.0
    ensures Progress(FixedScan(s, M, N).1, M, N)
    decreases ColumnsLeft(s.col, Min(M, N)), if s.row <= N then N - s.row else 0
  {
    if s.row <= s.col {
      var t := Gauss.IterState(s.mat, s.col, s.col + 1);
      FixedScanSkipsUpperRow(s, M, N);
      FixedScanKeepsProgress(t, M, N);
    } else if s.row >= N {
      var t := Gauss.IterState(s.mat, s.col + 1, s.col + 2);
      FixedScanLeavesColumn(s, M, N);
      NextColumnHasProgress(s.mat, s.col, M, N);
      FixedPullKeepsProgress(t, M, N);
    } else if s.mat[s.row][s.col] != 0.0 {
      FixedScanSubKeepsProgress(s, M, N);
    } else {
      var t := Gauss.IterState(s.mat, s.col, s.row + 1);
      FixedScanSkipsZeroRow(s, M, N);
      FixedScanKeepsProgress(t, M, N);
    }
  }

  /** Rows at or above the pivot are passed over. */
  lemma FixedScanSkipsUpperRow(s: Gauss.IterState, M: nat, N: nat)
    requires Shaped(s.mat, M, N) && s.col < Min(M, N) && s.mat[s.col][s.col] != 0.0
    requires s.row <= s.col
    ensures FixedScan(s, M, N) == FixedScan(Gauss.IterState(s.mat, s.col, s.col + 1), M, N)
  {
  }

  /** Rows already zero in the pivot column are passed over. */
  lemma FixedScanSkipsZeroRow(s: Gauss.IterState, M: nat, N: nat)
    requires Shaped(s.mat, M, N) && s.col < Min(M, N) && s.mat[s.col][s.col] != 0.0
    requires s.col < s.row < N && s.mat[s.row][s.col] == 0.0
    ensures FixedScan(s, M, N) == FixedScan(Gauss.IterState(s.mat, s.col, s.row + 1), M, N)
  {
  }

  /** Past the last row, the inner loop hands over to the next column. */
  lemma FixedScanLeavesColumn(s: Gauss.IterState, M: nat, N: nat)
    requires Shaped(s.mat, M, N) && s.col < Min(M, N) && s.mat[s.col][s.col] != 0.0
    requires s.col < s.row && s.row >= N
    ensures FixedScan(s, M, N) == FixedPull(Gauss.IterState(s.mat, s.col + 1, s.col + 2), M, N)
  {
  }

  /** The elimination step the inner loop emits keeps `Progress`. */
  lemma FixedScanSubKeepsProgress(s: Gauss.IterState, M: nat, N: nat)
    requires Shaped(s.mat, M, N) && s.col < Min(M, N) && s.mat[s.col][s.col] != 0.0
    requires ClearedBelow(s.mat, s.col)
    requires forall r :: s.col < r < s.row && r < N ==> s.mat[r][s.col] == 0.0
    requires s.col < s.row < N && s.mat[s.row][s.col] != 0.0
    ensures Progress(FixedScan(s, M, N).1, M, N)
  {
    var scale := s.mat[s.row][s.col] / s.mat[s.col][s.col];
    var m := s.mat[s.row := RowMinusScaled(s.mat[s.row], s.mat[s.col], scale)];
    assert FixedScan(s, M, N).1 == Gauss.IterState(m, s.col, s.row);
    SubKeepsProgress(s, scale, M, N);
  }

  /** Calls the corrected `next()` until it returns `None`, or `fuel` times. */
  function FixedDrain(s: Gauss.IterState, M: nat, N: nat, fuel: nat): (res: (seq<Gauss.Pulled>, Gauss.IterState))
    requires Shaped(s.mat, M, N)
    ensures Shaped(res.1.mat, M, N)
    ensures forall k :: 0 <= k < |res.0| ==> !res.0[k].Panic?
    ensures forall k :: 0 <= k < |res.0| - 1 ==> res.0[k].Emit?
    ensures EndsDone(res.0) ==> res.1.col >= Min(M, N)
    decreases fuel
  {
    if fuel == 0 then ([], s)
    else
      var next := FixedPull(s, M, N);
      if next.0.Emit? then
        var rest := FixedDrain(next.1, M, N, fuel - 1);
        ([next.0] + rest.0, rest.1)
      else ([next.0], next.1)
  }

  /** The last item a drain collected is `None`. */
  predicate EndsDone(items: seq<Gauss.Pulled>) {
    items != [] && items[|items| - 1].Done?
  }

  /** Draining the corrected iterator from a state with `Progress` keeps it. */
  lemma {:induction false} FixedDrainKeepsProgress(s: Gauss.IterState, M: nat, N: nat, fuel: nat)
    requires Shaped(s.mat, M, N) && Progress(s, M, N)
    ensures Progress(FixedDrain(s, M, N, fuel).1, M, N)
    decreases fuel
  {
    if fuel > 0 {
      FixedPullKeepsProgress(s, M, N);
      var next := FixedPull(s, M, N);
      if next.0.Emit? {
        FixedDrainKeepsProgress(next.1, M, N, fuel - 1);
        assert FixedDrain(s, M, N, fuel).1 == FixedDrain(next.1, M, N, fuel - 1).1;
      } else {
        assert FixedDrain(s, M, N, fuel).1 == next.1;
      }
    }
  }

  /** When a drain of the corrected iterator from a state with `Progress` ends
      in `None`, every entry below the diagonal is zero. */
  lemma FixedDrainEndsTriangular(s: Gauss.IterState, M: nat, N: nat, fuel: nat)
    requires Shaped(s.mat, M, N) && Progress(s, M, N)
    requires EndsDone(FixedDrain(s, M, N, fuel).0)
    ensures ClearedBelow(FixedDrain(s, M, N, fuel).1.mat, Min(M, N))
  {
    FixedDrainKeepsProgress(s, M, N, fuel);
  }

  // ---------------------------------------------------------------------------
  // The corrected iterator performs the corrected row_reduced

  /** The calls of the corrected `next()` may only leave a zero pivot in a
      state that has not yet moved past the row under it. */
  predicate Aligned(s: Gauss.IterState, M: nat, N: nat)
    requires Shaped(s.mat, M, N)
  {
    && s.col < s.row
    && (s.col < Min(M, N) && s.mat[s.col][s.col] == 0.0 ==> s.row == s.col + 1)
  }

  /** What the corrected `row_reduced` still has to do to the rows of state
      `s`: nothing once `col` reaches `min(M, N)`; all of stage `col` on while
      its pivot is zero; otherwise the inner loop from `row` on, then the later
      stages. */
  function Remaining(s: Gauss.IterState, M: nat, N: nat): (r: Result<Rows>)
    requires Shaped(s.mat, M, N)
    ensures s.col >= Min(M, N) ==> r == Ok(s.mat)
  {
    if s.col >= Min(M, N) then Ok(s.mat)
    else if s.mat[s.col][s.col] == 0.0 then FixedReduceFrom(s.mat, s.col, M, N)
    else match EliminateBelow(s.mat, s.col, s.row, M, N)
      case Fault(k) => Fault(k)
      case Ok(b) => FixedReduceFrom(b, s.col + 1, M, N)
  }

  /** At the start of column `c`, what remains is the corrected stages from
      `c` on. */
  lemma RemainingAtColumnStart(a: Rows, c: nat, M: nat, N: nat)
    requires Shaped(a, M, N)
    ensures Remaining(Gauss.IterState(a, c, c + 1), M, N) == FixedReduceFrom(a, c, M, N)
  {
    if c < Min(M, N) && a[c][c] != 0.0 {
      assert FixedStage(a, c, M, N) == EliminateBelow(a, c, c + 1, M, N);
    }
  }

  /** The swap the corrected `next()` emits on a zero pivot is the swap of
      the corrected stage. */
  lemma SwapKeepsRemaining(s: Gauss.IterState, M: nat, N: nat)
    requires Shaped(s.mat, M, N) && Aligned(s, M, N) && s.col < Min(M, N)
    requires s.mat[s.col][s.col] == 0.0 && Position(s.mat, s.col, false, s.col + 1).Some?
    ensures var t := Gauss.IterState(Swapped(s.mat, s.col, Position(s.mat, s.col, false, s.col + 1).value), s.col, s.row);
      Aligned(t, M, N) && Remaining(t, M, N) == Remaining(s, M, N)
  {
    var idx := Position(s.mat, s.col, false, s.col + 1).value;
    var m := Swapped(s.mat, s.col, idx);
    assert m[s.col] == s.mat[idx];
    assert FixedStage(s.mat, s.col, M, N) == EliminateBelow(m, s.col, s.col + 1, M, N);
  }

  /** A column with no nonzero entry below its zero pivot is passed over by
      both. */
  lemma NoPivotKeepsRemaining(s: Gauss.IterState, M: nat, N: nat)
    requires Shaped(s.mat, M, N) && s.col < Min(M, N)
    requires s.mat[s.col][s.col] == 0.0 && Position(s.mat, s.col, false, s.col + 1).None?
    ensures Remaining(Gauss.IterState(s.mat, s.col + 1, s.col + 2), M, N) == Remaining(s, M, N)
  {
    assert FixedStage(s.mat, s.col, M, N) == Ok(s.mat);
    RemainingAtColumnStart(s.mat, s.col + 1, M, N);
  }

  /** Past the last row, what remains is the stages after `col`. */
  lemma LeaveColumnKeepsRemaining(s: Gauss.IterState, M: nat, N: nat)
    requires Shaped(s.mat, M, N) && s.col < Min(M, N) && s.mat[s.col][s.col] != 0.0
    requires s.row >= N
    ensures Remaining(Gauss.IterState(s.mat, s.col + 1, s.col + 2), M, N) == Remaining(s, M, N)
  {
    assert EliminateBelow(s.mat, s.col, s.row, M, N) == Ok(s.mat);
    RemainingAtColumnStart(s.mat, s.col + 1, M, N);
  }

  /** A row already zero in the pivot column is passed over by both. */
  lemma ZeroRowKeepsRemaining(s: Gauss.IterState, M: nat, N: nat)
    requires Shaped(s.mat, M, N) && s.col < Min(M, N) && s.mat[s.col][s.col] != 0.0
    requires s.row < N && s.mat[s.row][s.col] == 0.0
    ensures Remaining(Gauss.IterState(s.mat, s.col, s.row + 1), M, N) == Remaining(s, M, N)
  {
    assert EliminateBelow(s.mat, s.col, s.row, M, N) == EliminateBelow(s.mat, s.col, s.row + 1, M, N);
  }

  /** The subtraction the corrected `next()` emits is the one the inner loop
      of the corrected stage makes; the row it leaves is zero in the pivot
      column, so the inner loop passes over it afterwards. */
  lemma SubKeepsRemaining(s: Gauss.IterState, M: nat, N: nat)
    requires Shaped(s.mat, M, N) && s.col < Min(M, N) && s.mat[s.col][s.col] != 0.0
    requires s.col < s.row < N && s.mat[s.row][s.col] != 0.0
    ensures var m := s.mat[s.row := RowMinusScaled(s.mat[s.row], s.mat[s.col], s.mat[s.row][s.col] / s.mat[s.col][s.col])];
      var t := Gauss.IterState(m, s.col, s.row);
      Aligned(t, M, N) && Remaining(t, M, N) == Remaining(s, M, N)
  {
    var m := s.mat[s.row := Eliminated(s.mat, s.col, s.row)];
    assert m[s.col] == s.mat[s.col];
    assert m[s.row][s.col] == 0.0;
    assert EliminateBelow(s.mat, s.col, s.row, M, N) == EliminateBelow(m, s.col, s.row + 1, M, N);
    assert EliminateBelow(m, s.col, s.row, M, N) == EliminateBelow(m, s.col, s.row + 1, M, N);
  }

  /** The corrected `next()` keeps `Aligned` and what remains to be done. */
  lemma {:induction false} FixedPullKeepsRemaining(s: Gauss.IterState, M: nat, N: nat)
    requires Shaped(s.mat, M, N) && Aligned(s, M, N)
    ensures Aligned(FixedPull(s, M, N).1, M, N)
    ensures Remaining(FixedPull(s, M, N).1, M, N) == Remaining(s, M, N)
    decreases ColumnsLeft(s.col, Min(M, N)), N + 1
  {
    var K := Min(M, N);
    if s.col < K {
      if s.mat[s.col][s.col] == 0.0 {
        var p := Position(s.mat, s.col, false, s.col + 1);
        if p.Some? {
          SwapKeepsRemaining(s, M, N);
          assert FixedPull(s, M, N).1 == Gauss.IterState(Swapped(s.mat, s.col, p.value), s.col, s.row);
        } else {
          var t := Gauss.IterState(s.mat, s.col + 1, s.col + 2);
          NoPivotKeepsRemaining(s, M, N);
          assert FixedPull(s, M, N) == FixedPull(t, M, N);
          FixedPullKeepsRemaining(t, M, N);
        }
      } else {
        assert FixedPull(s, M, N) == FixedScan(s, M, N);
        FixedScanKeepsRemaining(s, M, N);
      }
    }
  }

  /** The corrected inner loop keeps `Aligned` and what remains to be done. */
  lemma {:induction false} FixedScanKeepsRemaining(s: Gauss.IterState, M: nat, N: nat)
    requires Shaped(s.mat, M, N) && s.col < Min(M, N) && s.mat[s.col][s.col] != 0.0
    requires s.col < s.row
    ensures Aligned(FixedScan(s, M, N).1, M, N)
    ensures Remaining(FixedScan(s, M, N).1, M, N) == Remaining(s, M, N)
    decreases ColumnsLeft(s.col, Min(M, N)), if s.row <= N then N - s.row else 0
  {
    if s.row >= N {
      var t := Gauss.IterState(s.mat, s.col + 1, s.col + 2);
      FixedScanLeavesColumn(s, M, N);
      LeaveColumnKeepsRemaining(s, M, N);
      FixedPullKeepsRemaining(t, M, N);
    } else if s.mat[s.row][s.col] != 0.0 {
      var scale := s.mat[s.row][s.col] / s.mat[s.col][s.col];
      var m := s.mat[s.row := RowMinusScaled(s.mat[s.row], s.mat[s.col], scale)];
      assert FixedScan(s, M, N).1 == Gauss.IterState(m, s.col, s.row);
      SubKeepsRemaining(s, M, N);
    } else {
      var t := Gauss.IterState(s.mat, s.col, s.row + 1);
      FixedScanSkipsZeroRow(s, M, N);
      ZeroRowKeepsRemaining(s, M, N);
      FixedScanKeepsRemaining(t, M, N);
    }
  }

  /** Draining the corrected iterator keeps any `key` of the state that one
      call of the corrected `next()` keeps. */
  lemma {:induction false} FixedDrainKeeps(s: Gauss.IterState, M: nat, N: nat, fuel: nat,
                                           key: Gauss.IterState -> Option<Result<Rows>>)
    requires Shaped(s.mat, M, N) && key(s).Some?
    requires forall t: Gauss.IterState :: Shaped(t.mat, M, N) && key(t).Some? ==> key(FixedPull(t, M, N).1) == key(t)
    ensures key(FixedDrain(s, M, N, fuel).1) == key(s)
    decreases fuel
  {
    if fuel > 0 {
      var next := FixedPull(s, M, N);
      if next.0.Emit? {
        FixedDrainKeeps(next.1, M, N, fuel - 1, key);
        assert FixedDrain(s, M, N, fuel).1 == FixedDrain(next.1, M, N, fuel - 1).1;
      } else {
        assert FixedDrain(s, M, N, fuel).1 == next.1;
      }
    }
  }

  /** The corrected iterator and the corrected `row_reduced` agree: a drain
      from the state `From<Mat2d>` creates that ends in `None` leaves exactly
      the rows the corrected `row_reduced` returns. */
  lemma FixedDrainIsFixedRowReduction(a: Rows, M: nat, N: nat, fuel: nat)
    requires Shaped(a, M, N)
    requires EndsDone(FixedDrain(Gauss.IterState(a, 0, 1), M, N, fuel).0)
    ensures FixedRowReduction(a, M, N) == Ok(FixedDrain(Gauss.IterState(a, 0, 1), M, N, fuel).1.mat)
  {
    var key := (t: Gauss.IterState) =>
      if Shaped(t.mat, M, N) && Aligned(t, M, N) then Some(Remaining(t, M, N)) else None;
    forall t: Gauss.IterState | Shaped(t.mat, M, N) && key(t).Some?
      ensures key(FixedPull(t, M, N).1) == key(t)
    {
      FixedPullKeepsRemaining(t, M, N);
    }
    var s := Gauss.IterState(a, 0, 1);
    RemainingAtColumnStart(a, 0, M, N);
    FixedDrainKeeps(s, M, N, fuel, key);
    assert key(FixedDrain(s, M, N, fuel).1) == Some(Remaining(s, M, N));
  }

  /** The corrected iterator on the input of the no-pivot finding:
      [[0, 0], [0, 1]] is already triangular, and the first call returns `None`. */
  lemma FixedPullNoPivotExample()
    ensures var a := [[0.0, 0.0], [0.0, 1.0]];
      FixedPull(Gauss.IterState(a, 0, 1), 2, 2) == (Gauss.Done, Gauss.IterState(a, 2, 3))
  {
    var a := [[0.0, 0.0], [0.0, 1.0]];
    assert Position(a, 0, false, 1) == None;
    assert FixedPull(Gauss.IterState(a, 0, 1), 2, 2) == FixedPull(Gauss.IterState(a, 1, 2), 2, 2);
    assert FixedPull(Gauss.IterState(a, 1, 2), 2, 2) == FixedScan(Gauss.IterState(a, 1, 2), 2, 2);
  }

  /** The corrected iterator on the input of the pivot-search finding: for
      [[1, 1, 0], [0, 0, 0], [0, 1, 0]] the pivot of column 1 comes from row 2. */
  lemma FixedPullPivotExample()
    ensures var a := [[1.0, 1.0, 0.0], [0.0, 0.0, 0.0], [0.0, 1.0, 0.0]];
      FixedPull(Gauss.IterState(a, 0, 1), 3, 3).0 == Gauss.Emit(Gauss.Swap(1, 2), [a[0], a[2], a[1]])
  {
    var a := [[1.0, 1.0, 0.0], [0.0, 0.0, 0.0], [0.0, 1.0, 0.0]];
    assert FixedPull(Gauss.IterState(a, 0, 1), 3, 3) == FixedScan(Gauss.IterState(a, 0, 1), 3, 3);
    assert FixedScan(Gauss.IterState(a, 0, 1), 3, 3) == FixedScan(Gauss.IterState(a, 0, 2), 3, 3);
    assert FixedScan(Gauss.IterState(a, 0, 2), 3, 3) == FixedScan(Gauss.IterState(a, 0, 3), 3, 3);
    assert FixedScan(Gauss.IterState(a, 0, 3), 3, 3) == FixedPull(Gauss.IterState(a, 1, 2), 3, 3);
    assert Position(a, 1, false, 2) == Some(2);
    assert Swapped(a, 1, 2) == [a[0], a[2], a[1]];
  }

  /** The corrected iterator on the input of the row-bound finding: with three
      rows of length two, [[1, 0], [0, 1], [0, 1]] gets
      `Sub { scale: 1, from: 1, to: 2 }`. */
  lemma FixedPullRowBoundExample()
    ensures var a := [[1.0, 0.0], [0.0, 1.0], [0.0, 1.0]];
      FixedPull(Gauss.IterState(a, 0, 1), 2, 3).0 == Gauss.Emit(Gauss.Sub(1.0, 1, 2), [a[0], a[1], [0.0, 0.0]])
  {
    var a := [[1.0, 0.0], [0.0, 1.0], [0.0, 1.0]];
    assert FixedPull(Gauss.IterState(a, 0, 1), 2, 3) == FixedScan(Gauss.IterState(a, 0, 1), 2, 3);
    assert FixedScan(Gauss.IterState(a, 0, 1), 2, 3) == FixedScan(Gauss.IterState(a, 0, 2), 2, 3);
    assert FixedScan(Gauss.IterState(a, 0, 2), 2, 3) == FixedScan(Gauss.IterState(a, 0, 3), 2, 3);
    assert FixedScan(Gauss.IterState(a, 0, 3), 2, 3) == FixedPull(Gauss.IterState(a, 1, 2), 2, 3);
    assert FixedPull(Gauss.IterState(a, 1, 2), 2, 3) == FixedScan(Gauss.IterState(a, 1, 2), 2, 3);
    assert RowMinusScaled(a[2], a[1], 1.0) == [0.0, 0.0];
    assert a[2 := [0.0, 0.0]] == [a[0], a[1], [0.0, 0.0]];
  }
}
