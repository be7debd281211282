/** The vector of `src/math/vec.rs`: a thin wrapper over a growable sequence of
    scalars. The operators `-`, `*` and `/` build new vectors and are modelled as
    functions on the element sequence; `resize` and `index_mut` change a vector in
    place and are methods of the class `Vec`, whose field `elems` is the wrapped
    sequence. Scalars are exact reals. */
module Vectors {
  import opened Outcomes

  /** `Vec::zeros(n)`: `n` copies of the additive identity. */
  function Zeros(n: nat): (v: seq<real>)
    ensures |v| == n
    ensures forall k :: 0 <= k < n ==> v[k] == 0.0
  {
    seq(n, _ => 0.0)
  }

  /** `Vec::ones(n)`: `n` copies of the multiplicative identity. */
  function Ones(n: nat): (v: seq<real>)
    ensures |v| == n
    ensures forall k :: 0 <= k < n ==> v[k] == 1.0
  {
    seq(n, _ => 1.0)
  }

  /** `&a - &b`: panics (a failed `assert!`) unless both vectors have the same
      length, and otherwise subtracts element by element. */
  function Sub(a: seq<real>, b: seq<real>): (r: Result<seq<real>>)
    ensures r.Fault? <==> |a| != |b|
    ensures r.Fault? ==> r.kind == LengthMismatch
    ensures r.Ok? ==> |r.value| == |a| && forall k :: 0 <= k < |a| ==> r.value[k] == a[k] - b[k]
  {
    if |a| != |b| then Fault(LengthMismatch)
    else Ok(seq(|a|, k requires 0 <= k < |a| => a[k] - b[k]))
  }

  /** `&x * s`: a new vector of the same length, every element multiplied by `s`;
      the operand is a value and stays as it was. */
  function Mul(x: seq<real>, s: real): (r: seq<real>)
    ensures |r| == |x|
    ensures forall k :: 0 <= k < |x| ==> r[k] == x[k] * s
  {
    seq(|x|, k requires 0 <= k < |x| => x[k] * s)
  }

  /** `&x / s`: a new vector of the same length, every element divided by `s`.
      A zero divisor faults as soon as one element is divided, so an empty
      vector divides by zero without fault. */
  function Div(x: seq<real>, s: real): (r: Result<seq<real>>)
    ensures r.Fault? <==> s == 0.0 && |x| > 0
    ensures r.Fault? ==> r.kind == DivisionByZero
    ensures r.Ok? ==> |r.value| == |x| && forall k :: 0 <= k < |x| ==> r.value[k] == x[k] / s
  {
    if s == 0.0 && |x| > 0 then Fault(DivisionByZero)
    else Ok(seq(|x|, k requires 0 <= k < |x| => x[k] / s))
  }

  /** `std::vec::Vec::resize(n, value)`: truncate to `n` elements, or pad with
      copies of `value` up to `n`. */
  function Resized(s: seq<real>, n: nat, value: real): (r: seq<real>)
    ensures |r| == n
    ensures forall k :: 0 <= k < n && k < |s| ==> r[k] == s[k]
    ensures forall k :: |s| <= k < n ==> r[k] == value
  {
    if n <= |s| then s[..n] else s + seq(n - |s|, _ => value)
  }

  /** Subtracting a vector from itself gives the zero vector of its length. */
  lemma SubSelf(a: seq<real>)
    ensures Sub(a, a) == Ok(Zeros(|a|))
  {
    assert Sub(a, a).value == Zeros(|a|);
  }

  /** The zero vector is a right identity of subtraction. */
  lemma SubZeros(a: seq<real>)
    ensures Sub(a, Zeros(|a|)) == Ok(a)
  {
    assert Sub(a, Zeros(|a|)).value == a;
  }

  /** Scaling by zero gives the zero vector of the same length. */
  lemma MulByZero(x: seq<real>)
    ensures Mul(x, 0.0) == Zeros(|x|)
  {
  }

  /** Scaling the all-ones vector by `s` gives the constant vector `s`. */
  lemma MulOnes(n: nat, s: real)
    ensures Mul(Ones(n), s) == seq(n, _ => s)
  {
  }

  /** Division by a nonzero scalar undoes multiplication by it. */
  lemma MulDivRoundTrip(x: seq<real>, s: real)
    requires s != 0.0
    ensures Div(Mul(x, s), s) == Ok(x)
  {
    var d := Div(Mul(x, s), s);
    assert d.Ok?;
    forall k | 0 <= k < |x|
      ensures d.value[k] == x[k]
    {
      assert d.value[k] == (x[k] * s) / s;
    }
    assert d.value == x;
  }

  /** The identity that elimination relies on: subtracting `(x[i] / y[i]) * y`
      from `x` leaves exactly zero in position `i`. */
  lemma SubScaledCancels(x: seq<real>, y: seq<real>, i: nat)
    requires |x| == |y| && i < |x| && y[i] != 0.0
    ensures Sub(x, Mul(y, x[i] / y[i])).Ok?
    ensures Sub(x, Mul(y, x[i] / y[i])).value[i] == 0.0
  {
    var s := x[i] / y[i];
    assert y[i] * s == x[i];
  }

  /** Growing a vector and truncating it back to its old length restores it. */
  lemma ResizeRoundTrip(s: seq<real>, n: nat, value: real, other: real)
    requires n >= |s|
    ensures Resized(Resized(s, n, value), |s|, other) == s
  {
  }

  /** Resizing to the current length changes nothing. */
  lemma ResizeSameLength(s: seq<real>, value: real)
    ensures Resized(s, |s|, value) == s
  {
  }

  /** A vector object: the wrapped `std::vec::Vec` is the field `elems`. */
  class Vec {
    var elems: seq<real>

    /** `From<[T; N]>`: the array's elements, in order. */
    constructor FromArray(arr: array<real>)
      ensures elems == arr[..]
    {
      elems := arr[..];
    }

    /** `From<std::vec::Vec<T>>`: takes over the given elements as they are. */
    constructor FromStdVec(v: seq<real>)
      ensures elems == v
    {
      elems := v;
    }

    /** `FromIterator`: the items the iterator yields, in the order yielded. */
    constructor FromIter(items: seq<real>)
      ensures elems == items
    {
      elems := items;
    }

    /** `len()`. */
    function Len(): (n: nat)
      reads this
      ensures n == |elems|
    {
      |elems|
    }

    /** `get(k)`: the checked accessor. */
    function Get(k: nat): (r: Option<real>)
      reads this
      ensures r.None? <==> k >= Len()
      ensures r.Some? ==> r.value == elems[k]
    {
      if k < |elems| then Some(elems[k]) else None
    }

    /** `vec[k]` (`Index`): panics when `k` is out of range. */
    function Index(k: nat): (r: Result<real>)
      reads this
      ensures r.Fault? <==> k >= Len()
      ensures r.Fault? ==> r.kind == IndexOutOfRange
      ensures r.Ok? ==> r.value == elems[k]
    {
      if k < |elems| then Ok(elems[k]) else Fault(IndexOutOfRange)
    }

    /** `vec[k] = x` (`IndexMut`): writes exactly element `k`; panics, changing
        nothing, when `k` is out of range. */
    method SetAt(k: nat, x: real) returns (r: Result<()>)
      modifies this
      ensures r.Fault? <==> k >= |old(elems)|
      ensures r.Fault? ==> r.kind == IndexOutOfRange && elems == old(elems)
      ensures r.Ok? ==> elems == old(elems)[k := x]
    {
      if k >= |elems| {
        return Fault(IndexOutOfRange);
      }
      elems := elems[k := x];
      return Ok(());
    }

    /** `resize(n, value)`, in place. */
    method Resize(n: nat, value: real)
      modifies this
      ensures elems == Resized(old(elems), n, value)
    {
      if n <= |elems| {
        elems := elems[..n];
      } else {
        elems := elems + seq(n - |elems|, _ => value);
      }
    }
  }

  /** The checked accessor and the panicking index agree on every position. */
  lemma GetAgreesWithIndex(v: Vec, k: nat)
    ensures v.Get(k).Some? <==> v.Index(k).Ok?
    ensures v.Get(k).Some? ==> v.Get(k).value == v.Index(k).value
  {
  }
}
