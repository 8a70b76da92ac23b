/**
  The numeric-merge primitive of report/topology.go: optional unsigned 64-bit
  counters combined with a reducer (`sum` or `max`), plus the 64-bit signed
  addition Go uses for `NodeMetadata.Counters`.
 */
module Numeric {
  import opened Wrappers

  const U64_MODULUS: int := 0x1_0000_0000_0000_0000
  const I64_HALF: int := 0x8000_0000_0000_0000

  /** Go's `uint64`. */
  type U64 = x: int | 0 <= x < 0x1_0000_0000_0000_0000

  /** Go's `int` on a 64-bit platform. */
  type Int64 = x: int | -0x8000_0000_0000_0000 <= x < 0x8000_0000_0000_0000

  /** `sum`: uint64 addition, which wraps around modulo 2^64. */
  function Sum(dst: U64, src: U64): (r: U64)
    ensures dst + src < U64_MODULUS ==> r == dst + src
    ensures dst + src >= U64_MODULUS ==> r == dst + src - U64_MODULUS
  {
    (dst + src) % U64_MODULUS
  }

  /** `max`: the larger operand (`src` on a tie). */
  function Max(dst: U64, src: U64): (r: U64)
    ensures r >= dst && r >= src
    ensures r == dst || r == src
  {
    if dst > src then dst else src
  }

  /** The two reducers the core passes to `merge`. */
  datatype Reducer = SumOp | MaxOp

  function Apply(op: Reducer, dst: U64, src: U64): U64
  {
    match op
    case SumOp => Sum(dst, src)
    case MaxOp => Max(dst, src)
  }

  /**
    `merge(dst, src, op)`: an absent `src` leaves `dst` as it is; otherwise an
    absent `dst` starts from zero and the reducer combines the two.  Zero is the
    identity of both reducers, so a lone `src` comes through unchanged.
   */
  function Merge(dst: Option<U64>, src: Option<U64>, op: Reducer): (r: Option<U64>)
    ensures src.None? ==> r == dst
    ensures src.Some? && dst.None? ==> r == src
    ensures src.Some? && dst.Some? ==> r == Some(Apply(op, dst.value, src.value))
    ensures r.Some? <==> dst.Some? || src.Some?
  {
    match src
    case None => dst
    case Some(s) => Some(Apply(op, dst.GetOr(0), s))
  }

  /** Go's `int` addition, which wraps around in two's complement. */
  function AddInt(a: Int64, b: Int64): (r: Int64)
    ensures -I64_HALF <= a + b < I64_HALF ==> r == a + b
    ensures a + b >= I64_HALF ==> r == a + b - U64_MODULUS
    ensures a + b < -I64_HALF ==> r == a + b + U64_MODULUS
  {
    (a + b + I64_HALF) % U64_MODULUS - I64_HALF
  }

  lemma SumAssociative(a: U64, b: U64, c: U64)
    ensures Sum(Sum(a, b), c) == Sum(a, Sum(b, c))
  {
  }

  lemma AddIntAssociative(a: Int64, b: Int64, c: Int64)
    ensures AddInt(AddInt(a, b), c) == AddInt(a, AddInt(b, c))
  {
    var ab := AddInt(a, b);
    var bc := AddInt(b, c);
    assert ab == a + b || ab == a + b - U64_MODULUS || ab == a + b + U64_MODULUS;
    assert bc == b + c || bc == b + c - U64_MODULUS || bc == b + c + U64_MODULUS;
  }

  /** A reducer applied to the same operands in either order gives the same value. */
  lemma ApplyCommutative(op: Reducer, a: U64, b: U64)
    ensures Apply(op, a, b) == Apply(op, b, a)
  {
  }

  lemma ApplyAssociative(op: Reducer, a: U64, b: U64, c: U64)
    ensures Apply(op, Apply(op, a, b), c) == Apply(op, a, Apply(op, b, c))
  {
    if op == SumOp {
      SumAssociative(a, b, c);
    }
  }

  /** Optional merge is commutative for both reducers: snapshot order does not matter. */
  lemma MergeCommutative(a: Option<U64>, b: Option<U64>, op: Reducer)
    ensures Merge(a, b, op) == Merge(b, a, op)
  {
    if a.Some? && b.Some? {
      ApplyCommutative(op, a.value, b.value);
    }
  }

  /** Optional merge is associative for both reducers: any merge tree gives the same value. */
  lemma MergeAssociative(a: Option<U64>, b: Option<U64>, c: Option<U64>, op: Reducer)
    ensures Merge(Merge(a, b, op), c, op) == Merge(a, Merge(b, c, op), op)
  {
    if a.Some? && b.Some? && c.Some? {
      ApplyAssociative(op, a.value, b.value, c.value);
    }
  }

  /** Only `max` is idempotent: re-merging the same high-water mark changes nothing. */
  lemma MaxMergeIdempotent(a: Option<U64>)
    ensures Merge(a, a, MaxOp) == a
  {
  }

  /**
    `sum` is not idempotent: a present counter merged with itself doubles,
    modulo 2^64, so it changes unless it is 0.
   */
  lemma SumMergeDoubles(a: Option<U64>)
    requires a.Some?
    ensures Merge(a, a, SumOp) == Some(Sum(a.value, a.value))
    ensures Merge(a, a, SumOp) == a <==> a.value == 0
  {
    if a.value < I64_HALF {
      assert Sum(a.value, a.value) == 2 * a.value;
    } else {
      assert Sum(a.value, a.value) == 2 * a.value - U64_MODULUS;
    }
  }
}
