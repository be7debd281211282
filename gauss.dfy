/** The step-emitting elimination of `src/math/gauss.rs`: the `Step` datatype
    and the pull iterator `GaussElimIter`, whose `next()` performs at most one
    row operation and returns it with a snapshot (a clone) of the matrix.

    `Pull` and `Scan` are the specification of `next()`: `Pull` is its outer
    `loop`, `Scan` its inner `loop`. Every index the source takes goes through a
    range check, so both are total over all values of `col` and `row`. */
module Gauss {
  import Outcomes
  import opened Matrices
  import Vectors

  /** One elementary row operation: rows exchanged, or row `to` replaced by
      `row_to - scale * row_from`. */
  datatype Step = Swap(from: nat, to: nat) | Sub(scale: real, from: nat, to: nat)

  /** What a call of `next()` gives: `None`, a step with the snapshot taken
      after it, or a panic (an index out of range, or a zero divisor). */
  datatype Pulled = Done | Emit(step: Step, snapshot: Rows) | Panic(kind: Outcomes.FaultKind)

  /** The fields of `GaussElimIter`, as a value. */
  datatype IterState = IterState(mat: Rows, col: nat, row: nat)

  /** Replays one step on a matrix. An index out of range faults, and so does a
      `Sub` between rows of different lengths; otherwise only the rows the step
      names change. */
  function Apply(step: Step, a: Rows): (r: Outcomes.Result<Rows>)
    ensures r.Fault? <==> step.from >= |a| || step.to >= |a| || (step.Sub? && |a[step.to]| != |a[step.from]|)
  {
    if step.from >= |a| || step.to >= |a| then Outcomes.Fault(Outcomes.IndexOutOfRange)
    else match step
      case Swap(from, to) => Outcomes.Ok(Swapped(a, from, to))
      case Sub(scale, from, to) =>
        if |a[to]| != |a[from]| then Outcomes.Fault(Outcomes.LengthMismatch)
        else Outcomes.Ok(a[to := RowMinusScaled(a[to], a[from], scale)])
  }

  /** A step that applies changes only the rows it names: a `Swap` exchanges
      them, a `Sub` replaces row `to` by `row_to - scale * row_from`. */
  lemma ApplyEffect(step: Step, a: Rows)
    requires Apply(step, a).Ok?
    ensures var r := Apply(step, a).value;
      && |r| == |a|
      && (forall k :: 0 <= k < |a| && k != step.to && k != step.from ==> r[k] == a[k])
      && (step.Swap? ==> r[step.to] == a[step.from] && r[step.from] == a[step.to])
      && (step.Sub? ==>
            && |a[step.to]| == |a[step.from]|
            && |r[step.to]| == |a[step.to]|
            && forall k :: 0 <= k < |a[step.to]| ==> r[step.to][k] == a[step.to][k] - a[step.from][k] * step.scale)
  {
  }

  /** Replays a sequence of steps, in order, stopping at the first fault. */
  function Replay(steps: seq<Step>, a: Rows): (r: Outcomes.Result<Rows>)
    ensures steps == [] ==> r == Outcomes.Ok(a)
  {
    if steps == [] then Outcomes.Ok(a)
    else match Apply(steps[0], a)
      case Fault(k) => Outcomes.Fault(k)
      case Ok(b) => Replay(steps[1..], b)
  }

  /** The iterator has nothing more to do: `col == min(M, N)` or `row >= min(M, N)`. */
  predicate Exhausted(s: IterState, M: nat, N: nat) {
    s.col == Min(M, N) || s.row >= Min(M, N)
  }

  /** How many more passes of the outer loop one call can make. */
  function Budget(col: nat, M: nat, N: nat): nat {
    var K := Min(M, N);
    if col <= K + 1 then K + 2 - col else 0
  }

  /** The outer `loop` of `next()`, entered in state `s`. */
  function Pull(s: IterState, M: nat, N: nat): (res: (Pulled, IterState))
    requires Shaped(s.mat, M, N)
    ensures Shaped(res.1.mat, M, N)
    ensures res.0.Emit? ==> Apply(res.0.step, s.mat) == Outcomes.Ok(res.1.mat) && res.0.snapshot == res.1.mat
    ensures !res.0.Emit? ==> res.1.mat == s.mat
    ensures res.0.Done? ==> Exhausted(res.1, M, N)
    decreases Budget(s.col, M, N), N + 1
  {
    var K := Min(M, N);
    if s.col == K || s.row >= K then (Done, s)
    else if s.col >= N || s.col >= M then (Panic(Outcomes.IndexOutOfRange), s)
    else if s.mat[s.col][s.col] == 0.0 then
      match Position(s.mat, s.col, false, 0)
      case Some(idx) =>
        var m := Swapped(s.mat, s.col, idx);
        (Emit(Swap(s.col, idx), m), IterState(m, s.col, s.row))
      case None => Scan(IterState(s.mat, s.col + 1, s.row), M, N)
    else Scan(s, M, N)
  }

  /** The inner `loop` of `next()`, entered in state `s`: look at entry
      (row, col); subtract a multiple of row `col` when it is nonzero, otherwise
      move to the next row, and after the last row to the next column. */
  function Scan(s: IterState, M: nat, N: nat): (res: (Pulled, IterState))
    requires Shaped(s.mat, M, N) && s.row < N && s.col <= Min(M, N)
    ensures Shaped(res.1.mat, M, N)
    ensures res.0.Emit? ==> Apply(res.0.step, s.mat) == Outcomes.Ok(res.1.mat) && res.0.snapshot == res.1.mat
    ensures !res.0.Emit? ==> res.1.mat == s.mat
    ensures res.0.Done? ==> Exhausted(res.1, M, N)
    decreases Budget(s.col, M, N), N - s.row
  {
    if s.col >= M then (Panic(Outcomes.IndexOutOfRange), s)
    else if s.mat[s.row][s.col] != 0.0 then
      if s.col >= N then (Panic(Outcomes.IndexOutOfRange), s)
      else if s.mat[s.col][s.col] == 0.0 then (Panic(Outcomes.DivisionByZero), s)
      else
        var scale := s.mat[s.row][s.col] / s.mat[s.col][s.col];
        var m := s.mat[s.row := RowMinusScaled(s.mat[s.row], s.mat[s.col], scale)];
        (Emit(Sub(scale, s.col, s.row), m), IterState(m, s.col, s.row))
    else if s.row + 1 == N then Pull(IterState(s.mat, s.col + 1, s.col + 2), M, N)
    else Scan(IterState(s.mat, s.col, s.row + 1), M, N)
  }

  /** A zero entry below the pivot is passed over: the scan moves to the next row. */
  lemma ScanNextRow(s: IterState, M: nat, N: nat)
    requires Shaped(s.mat, M, N) && s.row + 1 < N && s.col <= Min(M, N)
    requires s.col < M && s.mat[s.row][s.col] == 0.0
    ensures Scan(s, M, N) == Scan(IterState(s.mat, s.col, s.row + 1), M, N)
  {
  }

  /** A zero entry in the last row ends the column: the outer loop resumes at
      column `col + 1` with `row = col + 2`, without looking for a pivot first. */
  lemma ScanNextColumn(s: IterState, M: nat, N: nat)
    requires Shaped(s.mat, M, N) && s.row + 1 == N && s.col <= Min(M, N)
    requires s.col < M && s.mat[s.row][s.col] == 0.0
    ensures Scan(s, M, N) == Pull(IterState(s.mat, s.col + 1, s.col + 2), M, N)
  {
  }

  /** A zero pivot with no nonzero entry anywhere in its column moves to the next
      column and goes straight into the inner loop with `row` unchanged, without
      the bound checks of the loop's head. */
  lemma NoPivotFallsThrough(s: IterState, M: nat, N: nat)
    requires Shaped(s.mat, M, N) && !Exhausted(s, M, N) && s.col < Min(M, N)
    requires s.mat[s.col][s.col] == 0.0
    requires forall k :: 0 <= k < N ==> s.mat[k][s.col] == 0.0
    ensures Pull(s, M, N) == Scan(IterState(s.mat, s.col + 1, s.row), M, N)
  {
  }

  /** The pull iterator. It owns its matrix (`From<Mat2d>` moves it in). */
  class GaussElimIter {
    const mat: Mat2d
    var col: nat
    var row: nat

    ghost predicate Valid()
      reads this, mat, mat.mat
    {
      mat.Valid()
    }

    /** The iterator's fields as a value. */
    ghost function State(): IterState
      reads this, mat, mat.mat
    {
      IterState(mat.mat[..], col, row)
    }

    /** `From<Mat2d>`: the matrix as given, `col = 0`, `row = 1`. */
    constructor From(m: Mat2d)
      requires m.Valid()
      ensures mat == m && Valid()
      ensures State() == IterState(m.mat[..], 0, 1)
    {
      mat := m;
      col := 0;
      row := 1;
    }

    /** `Iterator::next`: the outer `loop`. */
    method Next() returns (r: Pulled)
      requires Valid()
      modifies this, mat.mat
      ensures Valid()
      ensures (r, State()) == Pull(old(State()), mat.M, mat.N)
    {
      var M, N := mat.M, mat.N;
      var K := Min(M, N);
      ghost var goal := Pull(State(), M, N);
      while true
        invariant Valid()
        invariant Pull(State(), M, N) == goal
        decreases Budget(col, M, N)
      {
        ghost var s := State();
        if col == K || row >= K {
          assert goal == Pull(s, M, N) == (Done, s);
          return Done;
        }
        if col >= N || col >= M {
          assert goal == Pull(s, M, N) == (Panic(Outcomes.IndexOutOfRange), s);
          return Panic(Outcomes.IndexOutOfRange);
        }
        if mat.mat[col][col] == 0.0 {
          var idx := Position(mat.mat[..], col, false, 0);
          if idx.Some? {
            ghost var m := Swapped(s.mat, col, idx.value);
            assert goal == Pull(s, M, N) == (Emit(Swap(col, idx.value), m), IterState(m, col, row));
            var swapped := mat.SwapRow(col, idx.value);
            return Emit(Swap(col, idx.value), mat.mat[..]);
          }
          col := col + 1;
          NoPivotFallsThrough(s, M, N);
          assert State() == IterState(s.mat, s.col + 1, s.row);
          assert goal == Scan(State(), M, N);
        } else {
          assert goal == Pull(s, M, N) == Scan(s, M, N);
          assert State() == s;
        }
        ghost var before := State();
        assert goal == Scan(before, M, N);
        var ended;
        r, ended := ScanColumn();
        if !ended {
          assert (r, State()) == goal;
          return;
        }
        assert Pull(State(), M, N) == Scan(before, M, N);
      }
    }

    /** The inner `loop` of `next()`, entered with `row < N`: it either returns
        (`ended` false) or, after the last row, moves to the next column and breaks
        back to the outer loop (`ended` true). */
    method ScanColumn() returns (r: Pulled, ended: bool)
      requires Valid() && row < mat.N && col <= Min(mat.M, mat.N)
      modifies this, mat.mat
      ensures Valid()
      ensures !ended ==> (r, State()) == Scan(old(State()), mat.M, mat.N)
      ensures ended ==> col == old(col) + 1 && mat.mat[..] == old(mat.mat[..])
      ensures ended ==> Scan(old(State()), mat.M, mat.N) == Pull(State(), mat.M, mat.N)
    {
      var M, N := mat.M, mat.N;
      ghost var goal := Scan(State(), M, N);
      ghost var entry := mat.mat[..];
      while true
        invariant Valid() && row < N && col == old(col) && mat.mat[..] == entry
        invariant Scan(State(), M, N) == goal
        decreases N - row
      {
        ghost var t := State();
        if col >= M {
          return Panic(Outcomes.IndexOutOfRange), false;
        }
        if mat.mat[row][col] != 0.0 {
          if col >= N {
            return Panic(Outcomes.IndexOutOfRange), false;
          }
          if mat.mat[col][col] == 0.0 {
            return Panic(Outcomes.DivisionByZero), false;
          }
          var scale := mat.mat[row][col] / mat.mat[col][col];
          var written := mat.SetRow(row, RowMinusScaled(mat.mat[row], mat.mat[col], scale));
          return Emit(Sub(scale, col, row), mat.mat[..]), false;
        }
        row := row + 1;
        if row == N {
          col := col + 1;
          row := col + 1;
          ScanNextColumn(t, M, N);
          return Done, true;
        }
        ScanNextRow(t, M, N);
      }
    }
  }

  /** With `col == min(M, N)` or `row >= min(M, N)`, `next()` returns `None` and
      changes nothing. */
  lemma ExhaustedReturnsNone(s: IterState, M: nat, N: nat)
    requires Shaped(s.mat, M, N) && Exhausted(s, M, N)
    ensures Pull(s, M, N) == (Done, s)
  {
  }

  /** Once `next()` has returned `None`, every further call returns `None` and
      changes nothing. */
  lemma DoneIsFinal(s: IterState, M: nat, N: nat)
    requires Shaped(s.mat, M, N) && Pull(s, M, N).0.Done?
    ensures Pull(Pull(s, M, N).1, M, N) == (Done, Pull(s, M, N).1)
  {
  }

  /** A zero pivot with a nonzero entry somewhere in its column: the call swaps
      row `col` with the FIRST such row counted from row 0, reports
      `Swap { from: col, to: idx }`, and leaves `col` and `row` as they were. */
  lemma SwapStep(s: IterState, M: nat, N: nat)
    requires Shaped(s.mat, M, N) && s.col < Min(M, N) && s.row < Min(M, N)
    requires s.mat[s.col][s.col] == 0.0
    requires exists r :: 0 <= r < N && s.mat[r][s.col] != 0.0
    ensures var (p, t) := Pull(s, M, N);
      && p.Emit? && p.step.Swap? && p.step.from == s.col && p.step.to < N
      && s.mat[p.step.to][s.col] != 0.0
      && (forall k :: 0 <= k < p.step.to ==> s.mat[k][s.col] == 0.0)
      && t == IterState(Swapped(s.mat, s.col, p.step.to), s.col, s.row)
      && t.mat[s.col][s.col] != 0.0
  {
    var r :| 0 <= r < N && s.mat[r][s.col] != 0.0;
    assert Position(s.mat, s.col, false, 0).Some?;
  }

  /** A nonzero entry below a nonzero pivot: the call subtracts
      `(a[row][col] / a[col][col]) * row_col` from row `row`, which makes that
      entry exactly zero, reports the step, and changes no other row. */
  lemma SubStep(s: IterState, M: nat, N: nat)
    requires Shaped(s.mat, M, N) && s.col < Min(M, N) && s.row < N
    requires s.mat[s.col][s.col] != 0.0 && s.mat[s.row][s.col] != 0.0
    ensures var (p, t) := Scan(s, M, N);
      && p.Emit?
      && p.step == Sub(s.mat[s.row][s.col] / s.mat[s.col][s.col], s.col, s.row)
      && t.col == s.col && t.row == s.row
      && t.mat[s.row][s.col] == 0.0
      && (forall k :: 0 <= k < N && k != s.row ==> t.mat[k] == s.mat[k])
  {
    assert Scan(s, M, N).1.mat[s.row] == Eliminated(s.mat, s.col, s.row);
  }

  /** The steps reported among the items a caller received. */
  function StepsOf(items: seq<Pulled>): (steps: seq<Step>)
    ensures |steps| <= |items|
  {
    if items == [] then []
    else (if items[0].Emit? then [items[0].step] else []) + StepsOf(items[1..])
  }

  lemma StepsOfCons(p: Pulled, rest: seq<Pulled>)
    ensures StepsOf([p] + rest) == (if p.Emit? then [p.step] else []) + StepsOf(rest)
  {
    assert ([p] + rest)[1..] == rest;
  }

  /** Replaying a step that applies, then the rest, is replaying the rest on
      its result. */
  lemma ReplayCons(step: Step, steps: seq<Step>, a: Rows)
    requires Apply(step, a).Ok?
    ensures Replay([step] + steps, a) == Replay(steps, Apply(step, a).value)
  {
    assert ([step] + steps)[1..] == steps;
  }

  /** Replaying the steps of an item that emitted a step, then those of the
      items after it, is replaying the first step and then the rest. */
  lemma ReplayEmitted(p: Pulled, a: Rows, b: Rows, rest: seq<Pulled>, c: Rows)
    requires p.Emit? && Apply(p.step, a) == Outcomes.Ok(b)
    requires Replay(StepsOf(rest), b) == Outcomes.Ok(c)
    ensures Replay(StepsOf([p] + rest), a) == Outcomes.Ok(c)
  {
    StepsOfCons(p, rest);
    ReplayCons(p.step, StepsOf(rest), a);
  }

  /** Items as successive calls of `next()` hand them out, starting on matrix
      `a` and leaving matrix `last`: each step applies to the snapshot before it
      and gives the snapshot that comes with it, and an item without a step is
      the last one and changes nothing. */
  predicate Chained(a: Rows, items: seq<Pulled>, last: Rows)
    decreases |items|
  {
    if items == [] then last == a
    else if items[0].Emit? then
      Apply(items[0].step, a) == Outcomes.Ok(items[0].snapshot) && Chained(items[0].snapshot, items[1..], last)
    else |items| == 1 && last == a
  }

  lemma ChainedCons(p: Pulled, a: Rows, rest: seq<Pulled>, last: Rows)
    requires p.Emit? && Apply(p.step, a) == Outcomes.Ok(p.snapshot)
    requires Chained(p.snapshot, rest, last)
    ensures Chained(a, [p] + rest, last)
  {
    assert ([p] + rest)[1..] == rest;
  }

  /** Replaying all the steps of a chain reproduces the matrix it leaves. */
  lemma {:induction false} ChainedReplays(a: Rows, items: seq<Pulled>, last: Rows)
    requires Chained(a, items, last)
    ensures Replay(StepsOf(items), a) == Outcomes.Ok(last)
    decreases |items|
  {
    if items != [] {
      var p := items[0];
      assert items == [p] + items[1..];
      if p.Emit? {
        ChainedReplays(p.snapshot, items[1..], last);
        ReplayEmitted(p, a, p.snapshot, items[1..], last);
      } else {
        assert items[1..] == [];
        StepsOfCons(p, []);
      }
    }
  }

  /** Replaying the steps of a chain up to and including item `k` gives the
      snapshot of item `k`. */
  lemma {:induction false} ChainedSnapshotAt(a: Rows, items: seq<Pulled>, last: Rows, k: nat)
    requires Chained(a, items, last) && k < |items| && items[k].Emit?
    ensures Replay(StepsOf(items[..k + 1]), a) == Outcomes.Ok(items[k].snapshot)
    decreases k
  {
    var p := items[0];
    if p.Emit? {
      var rest := items[1..];
      assert items[..k + 1] == [p] + rest[..k];
      if k == 0 {
        assert rest[..0] == [];
        ReplayEmitted(p, a, p.snapshot, [], p.snapshot);
      } else {
        assert rest[..k] == rest[..(k - 1) + 1];
        ChainedSnapshotAt(p.snapshot, rest, last, k - 1);
        ReplayEmitted(p, a, p.snapshot, rest[..k], items[k].snapshot);
      }
    }
  }

  /** Calls `next()` until it returns `None` or faults, or `fuel` calls have been
      made, and collects what each call returned. */
  function Drain(s: IterState, M: nat, N: nat, fuel: nat): (res: (seq<Pulled>, IterState))
    requires Shaped(s.mat, M, N)
    ensures Shaped(res.1.mat, M, N)
    ensures |res.0| <= fuel
    ensures forall k :: 0 <= k < |res.0| - 1 ==> res.0[k].Emit?
    ensures Chained(s.mat, res.0, res.1.mat)
    decreases fuel
  {
    if fuel == 0 then ([], s)
    else
      var next := Pull(s, M, N);
      if next.0.Emit? then
        var rest := Drain(next.1, M, N, fuel - 1);
        ChainedCons(next.0, s.mat, rest.0, rest.1.mat);
        ([next.0] + rest.0, rest.1)
      else ([next.0], next.1)
  }

  /** A call that emits a step is followed by the rest of the drain. */
  lemma DrainEmits(s: IterState, M: nat, N: nat, fuel: nat)
    requires Shaped(s.mat, M, N) && fuel > 0 && Pull(s, M, N).0.Emit?
    ensures var t := Pull(s, M, N).1;
      Drain(s, M, N, fuel) == ([Pull(s, M, N).0] + Drain(t, M, N, fuel - 1).0, Drain(t, M, N, fuel - 1).1)
  {
  }

  /** Replaying, on the starting matrix, the steps the iterator reported
      reproduces the matrix it ends with. */
  lemma DrainReplays(s: IterState, M: nat, N: nat, fuel: nat)
    requires Shaped(s.mat, M, N)
    ensures Replay(StepsOf(Drain(s, M, N, fuel).0), s.mat) == Outcomes.Ok(Drain(s, M, N, fuel).1.mat)
  {
    ChainedReplays(s.mat, Drain(s, M, N, fuel).0, Drain(s, M, N, fuel).1.mat);
  }

  /** Each snapshot the iterator hands out is the starting matrix with every step
      reported so far, that one included, replayed on it. */
  lemma DrainSnapshots(s: IterState, M: nat, N: nat, fuel: nat)
    requires Shaped(s.mat, M, N)
    ensures var items := Drain(s, M, N, fuel).0;
      forall k :: 0 <= k < |items| && items[k].Emit? ==>
        Replay(StepsOf(items[..k + 1]), s.mat) == Outcomes.Ok(items[k].snapshot)
  {
    var items := Drain(s, M, N, fuel).0;
    forall k | 0 <= k < |items| && items[k].Emit?
      ensures Replay(StepsOf(items[..k + 1]), s.mat) == Outcomes.Ok(items[k].snapshot)
    {
      ChainedSnapshotAt(s.mat, items, Drain(s, M, N, fuel).1.mat, k);
    }
  }

  /** The input of `src/main.rs`, handed to the iterator: two subtractions,
      `Sub { scale: 3, from: 0, to: 1 }` and `Sub { scale: 1/13, from: 1, to: 2 }`,
      then `None`; the final matrix is exactly what `row_reduced` returns. */
  lemma MainExampleSteps()
    ensures var a := [[1.0, 2.0, 1.0, 1.0], [3.0, -7.0, -6.0, 1.0], [0.0, -1.0, -1.0, 1.0]];
      var m1 := [[1.0, 2.0, 1.0, 1.0], [0.0, -13.0, -9.0, -2.0], [0.0, -1.0, -1.0, 1.0]];
      var m2 := [[1.0, 2.0, 1.0, 1.0], [0.0, -13.0, -9.0, -2.0], [0.0, 0.0, -4.0 / 13.0, 15.0 / 13.0]];
      && Drain(IterState(a, 0, 1), 4, 3, 3)
         == ([Emit(Sub(3.0, 0, 1), m1), Emit(Sub(1.0 / 13.0, 1, 2), m2), Done], IterState(m2, 2, 3))
      && RowReduction(a, 4, 3) == Outcomes.Ok(m2)
  {
    var a := [[1.0, 2.0, 1.0, 1.0], [3.0, -7.0, -6.0, 1.0], [0.0, -1.0, -1.0, 1.0]];
    var m1 := [[1.0, 2.0, 1.0, 1.0], [0.0, -13.0, -9.0, -2.0], [0.0, -1.0, -1.0, 1.0]];
    var m2 := [[1.0, 2.0, 1.0, 1.0], [0.0, -13.0, -9.0, -2.0], [0.0, 0.0, -4.0 / 13.0, 15.0 / 13.0]];
    var s0, s1, s2 := IterState(a, 0, 1), IterState(m1, 0, 1), IterState(m2, 1, 2);
    var e1, e2 := Emit(Sub(3.0, 0, 1), m1), Emit(Sub(1.0 / 13.0, 1, 2), m2);
    MainExampleCalls();
    assert Drain(s2, 4, 3, 1) == ([Done], IterState(m2, 2, 3));
    DrainEmits(s1, 4, 3, 2);
    assert Drain(s1, 4, 3, 2).0 == [e2] + [Done];
    DrainEmits(s0, 4, 3, 3);
    assert Drain(s0, 4, 3, 3).0 == [e1] + [e2, Done] == [e1, e2, Done];
    assert Drain(s0, 4, 3, 3).1 == IterState(m2, 2, 3);
    MainExample();
  }

  /** The three calls of `next()` on the input of `src/main.rs`, one by one. */
  lemma MainExampleCalls()
    ensures var a := [[1.0, 2.0, 1.0, 1.0], [3.0, -7.0, -6.0, 1.0], [0.0, -1.0, -1.0, 1.0]];
      var m1 := [[1.0, 2.0, 1.0, 1.0], [0.0, -13.0, -9.0, -2.0], [0.0, -1.0, -1.0, 1.0]];
      var m2 := [[1.0, 2.0, 1.0, 1.0], [0.0, -13.0, -9.0, -2.0], [0.0, 0.0, -4.0 / 13.0, 15.0 / 13.0]];
      && Pull(IterState(a, 0, 1), 4, 3) == (Emit(Sub(3.0, 0, 1), m1), IterState(m1, 0, 1))
      && Pull(IterState(m1, 0, 1), 4, 3) == (Emit(Sub(1.0 / 13.0, 1, 2), m2), IterState(m2, 1, 2))
      && Pull(IterState(m2, 1, 2), 4, 3) == (Done, IterState(m2, 2, 3))
  {
    var a := [[1.0, 2.0, 1.0, 1.0], [3.0, -7.0, -6.0, 1.0], [0.0, -1.0, -1.0, 1.0]];
    var m1 := [[1.0, 2.0, 1.0, 1.0], [0.0, -13.0, -9.0, -2.0], [0.0, -1.0, -1.0, 1.0]];
    var m2 := [[1.0, 2.0, 1.0, 1.0], [0.0, -13.0, -9.0, -2.0], [0.0, 0.0, -4.0 / 13.0, 15.0 / 13.0]];
    assert RowMinusScaled(a[1], a[0], 3.0) == m1[1];
    assert a[1 := m1[1]] == m1;
    assert Pull(IterState(a, 0, 1), 4, 3) == (Emit(Sub(3.0, 0, 1), m1), IterState(m1, 0, 1));
    ScanNextRow(IterState(m1, 0, 1), 4, 3);
    ScanNextColumn(IterState(m1, 0, 2), 4, 3);
    assert m1[2][1] / m1[1][1] == 1.0 / 13.0;
    assert RowMinusScaled(m1[2], m1[1], 1.0 / 13.0) == m2[2];
    assert m1[2 := m2[2]] == m2;
    assert Scan(IterState(m1, 1, 2), 4, 3) == (Emit(Sub(1.0 / 13.0, 1, 2), m2), IterState(m2, 1, 2));
    ScanNextColumn(IterState(m2, 1, 2), 4, 3);
  }

  /** The matrix whose first diagonal entry is zero: the first call swaps rows 0
      and 1 and reports `Swap { from: 0, to: 1 }`. */
  lemma ZeroPivotExampleSwaps()
    ensures var a := [[0.0, 2.0, 1.0, 1.0], [3.0, -7.0, -6.0, 1.0], [0.0, -1.0, -1.0, 1.0]];
      Pull(IterState(a, 0, 1), 4, 3)
      == (Emit(Swap(0, 1), [a[1], a[0], a[2]]), IterState([a[1], a[0], a[2]], 0, 1))
  {
    var a := [[0.0, 2.0, 1.0, 1.0], [3.0, -7.0, -6.0, 1.0], [0.0, -1.0, -1.0, 1.0]];
    assert Position(a, 0, false, 0) == Outcomes.Some(1);
    assert Swapped(a, 0, 1) == [a[1], a[0], a[2]];
  }

  /** As written, a column with no nonzero entry at all is skipped into the inner
      loop of the next column without looking at that column's diagonal entry:
      for [[0, 0], [0, 1]] the first call reports `Sub { scale: 1, from: 1, to: 1 }`,
      which subtracts row 1 from itself and wipes it, and the second call indexes
      column 2 of a two-column matrix. */
  lemma NoPivotWipesRow()
    ensures var a := [[0.0, 0.0], [0.0, 1.0]];
      var z := [[0.0, 0.0], [0.0, 0.0]];
      && Pull(IterState(a, 0, 1), 2, 2) == (Emit(Sub(1.0, 1, 1), z), IterState(z, 1, 1))
      && Pull(IterState(z, 1, 1), 2, 2).0 == Panic(Outcomes.IndexOutOfRange)
  {
    var a := [[0.0, 0.0], [0.0, 1.0]];
    var z := [[0.0, 0.0], [0.0, 0.0]];
    assert Position(a, 0, false, 0).None?;
    assert RowMinusScaled(a[1], a[1], 1.0) == z[1];
    assert a[1 := z[1]] == z;
    assert Position(z, 1, false, 0).None?;
  }

  /** As written, the search for a nonzero pivot starts at row 0, above the
      diagonal: for [[1, 1, 0], [0, 0, 0], [0, 1, 0]] the first call reports
      `Swap { from: 1, to: 0 }`, which moves the nonzero entry of column 0 below
      the diagonal, where column 0 had already been cleared. */
  lemma PivotSearchFromTop()
    ensures var a := [[1.0, 1.0, 0.0], [0.0, 0.0, 0.0], [0.0, 1.0, 0.0]];
      var p := Pull(IterState(a, 0, 1), 3, 3);
      && p.0 == Emit(Swap(1, 0), [a[1], a[0], a[2]])
      && (forall r :: 0 < r < 3 ==> a[r][0] == 0.0)
      && p.1.mat[1][0] != 0.0
  {
    var a := [[1.0, 1.0, 0.0], [0.0, 0.0, 0.0], [0.0, 1.0, 0.0]];
    ScanNextRow(IterState(a, 0, 1), 3, 3);
    ScanNextColumn(IterState(a, 0, 2), 3, 3);
    assert Position(a, 1, false, 0) == Outcomes.Some(0);
    assert Swapped(a, 1, 0) == [a[1], a[0], a[2]];
  }

  /** As written, `row` is compared with `min(M, N)` rather than with the number of
      rows: with three rows of length two, [[1, 0], [0, 1], [0, 1]], the first
      call already returns `None`, with entry (2, 1) still nonzero. */
  lemma RowBoundTooSmall()
    ensures var a := [[1.0, 0.0], [0.0, 1.0], [0.0, 1.0]];
      && Pull(IterState(a, 0, 1), 2, 3) == (Done, IterState(a, 1, 2))
      && a[2][1] != 0.0
  {
    var a := [[1.0, 0.0], [0.0, 1.0], [0.0, 1.0]];
    ScanNextRow(IterState(a, 0, 1), 2, 3);
    ScanNextColumn(IterState(a, 0, 2), 2, 3);
  }

  /** As written, the iterator does not perform the elimination `row_reduced`
      does, so replaying its steps does not give what `row_reduced` returns.
      With three rows of length two, [[1, 0], [0, 1], [0, 1]], `row_reduced`
      clears entry (2, 1), while the first call of `next()` returns `None` and
      leaves the matrix as it is. For [[0, 1], [1, 0]], `row_reduced` divides by
      zero, while the first call of `next()` swaps the two rows. */
  lemma IteratorDivergesFromRowReduced()
    ensures var a := [[1.0, 0.0], [0.0, 1.0], [0.0, 1.0]];
      && RowReduction(a, 2, 3) == Outcomes.Ok([[1.0, 0.0], [0.0, 1.0], [0.0, 0.0]])
      && Drain(IterState(a, 0, 1), 2, 3, 1) == ([Done], IterState(a, 1, 2))
    ensures var b := [[0.0, 1.0], [1.0, 0.0]];
      && RowReduction(b, 2, 2) == Outcomes.Fault(Outcomes.DivisionByZero)
      && Pull(IterState(b, 0, 1), 2, 2) == (Emit(Swap(0, 1), [b[1], b[0]]), IterState([b[1], b[0]], 0, 1))
  {
    var a := [[1.0, 0.0], [0.0, 1.0], [0.0, 1.0]];
    var c := [[1.0, 0.0], [0.0, 1.0], [0.0, 0.0]];
    assert Stage(a, 0, 2, 3) == Outcomes.Ok(a);
    assert RowMinusScaled(a[2], a[1], 1.0) == c[2];
    assert a[2 := c[2]] == c;
    assert Stage(a, 1, 2, 3) == Outcomes.Ok(c);
    RowBoundTooSmall();
    var b := [[0.0, 1.0], [1.0, 0.0]];
    ZeroSearchDividesByZero();
    assert Position(b, 0, false, 0) == Outcomes.Some(1);
    assert Swapped(b, 0, 1) == [b[1], b[0]];
  }
}
