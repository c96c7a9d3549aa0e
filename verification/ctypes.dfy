/** The C `int` of the four benchmark programs: 32-bit two's complement, and the
    three-way comparator handed to `qsort`. */
module CTypes {

  /** `INT_MIN` and `INT_MAX` from <limits.h> for a 32-bit `int`. */
  const INT_MIN: int := -0x8000_0000
  const INT_MAX: int := 0x7FFF_FFFF

  /** The values a C `int` can hold. */
  type CInt = x: int | INT_MIN <= x <= INT_MAX

  /** Every element fits in a C `int`. */
  predicate AllCInts(s: seq<int>) {
    forall k :: 0 <= k < |s| ==> INT_MIN <= s[k] <= INT_MAX
  }

  /** Sign of `a - b` over unbounded integers. */
  function Sign(d: int): int {
    if d < 0 then -1 else if d == 0 then 0 else 1
  }

  /** `intCompare`: the difference of the two comparison bits, `(a > b) - (a < b)`.
      Both bits are 0 or 1, so no intermediate value can leave the range of `int`,
      unlike the tempting `a - b`. */
  function IntCompare(a: CInt, b: CInt): (r: CInt)
    ensures r == -1 || r == 0 || r == 1
    ensures r < 0 <==> a < b
    ensures r == 0 <==> a == b
    ensures r > 0 <==> a > b
    ensures r == Sign(a - b)
  {
    (if a > b then 1 else 0) - (if a < b then 1 else 0)
  }

  /** The comparator is antisymmetric and transitive, so it is a valid `qsort`
      comparator: the order it induces is the usual order on integers. */
  lemma IntCompareIsTotalOrder(a: CInt, b: CInt, c: CInt)
    ensures IntCompare(a, b) == -IntCompare(b, a)
    ensures IntCompare(a, b) <= 0 && IntCompare(b, c) <= 0 ==> IntCompare(a, c) <= 0
    ensures IntCompare(a, b) <= 0 || IntCompare(b, a) <= 0
  {
  }
}

/** An optional value, for results that may be absent (a NULL pointer, a failed parse). */
module Optional {

  datatype Option<+T> = None | Some(value: T)
}
