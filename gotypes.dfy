/** Go's 64-bit integers and the small value types and helpers shared by the rest of the model. */
module GoTypes {

  const MinInt64: int := -0x8000_0000_0000_0000
  const MaxInt64: int := 0x7fff_ffff_ffff_ffff
  const TwoTo64: int := 0x1_0000_0000_0000_0000

  /** Go's `int64` (and `int`, `time.Duration`, on a 64-bit platform). */
  type int64 = x: int | MinInt64 <= x <= MaxInt64

  datatype Option<+T> = None | Some(value: T)

  /** Two's-complement wrap-around of an exact result into `int64`, as Go's
      int64 arithmetic does silently on overflow. */
  function Wrap64(x: int): (r: int64)
    ensures (x - r) % TwoTo64 == 0
    ensures MinInt64 <= x <= MaxInt64 ==> r == x
  {
    if MinInt64 <= x <= MaxInt64 then x
    else
      var q := (x - MinInt64) / TwoTo64;
      assert x - ((x - MinInt64) % TwoTo64 + MinInt64) == q * TwoTo64;
      (x - MinInt64) % TwoTo64 + MinInt64
  }

  /** `a` is `b` with some elements left out, the rest in the same order. */
  predicate IsSubsequence<T(==)>(a: seq<T>, b: seq<T>)
  {
    if b == [] then a == []
    else
      (a != [] && a[|a| - 1] == b[|b| - 1] && IsSubsequence(a[..|a| - 1], b[..|b| - 1]))
      || IsSubsequence(a, b[..|b| - 1])
  }

  /** Two int64 values that differ by a multiple of 2^64 are equal: the
      wrap-around of an exact result is unique. */
  lemma Wrap64Unique(a: int64, b: int64, q: int)
    requires a - b == q * TwoTo64
    ensures a == b
  {
  }
}
