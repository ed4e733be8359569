/** Fixed-width integer arithmetic of the driver: `uint64_t` totals and
    `int64_t` deltas, with the C wrap-around written out. */
module Word {

  const TWO_64: int := 0x1_0000_0000_0000_0000
  const TWO_63: int := 0x8000_0000_0000_0000

  /** A C `uint64_t`. */
  newtype U64 = x: int | 0 <= x < 0x1_0000_0000_0000_0000

  /** A C `int64_t`. */
  newtype I64 = x: int | -0x8000_0000_0000_0000 <= x < 0x8000_0000_0000_0000

  /** Reduction of an unbounded integer to a `uint64_t` (C's unsigned conversion). */
  function Wrap(x: int): (r: U64)
    ensures r as int == x % TWO_64
    ensures 0 <= x < TWO_64 ==> r as int == x
  {
    (x % 0x1_0000_0000_0000_0000) as U64
  }

  /** `a + b` on `uint64_t`. */
  function WrapAdd(a: U64, b: U64): (r: U64)
    ensures a as int + b as int < TWO_64 ==> r as int == a as int + b as int
    ensures a as int + b as int >= TWO_64 ==> r as int == a as int + b as int - TWO_64
  {
    Wrap(a as int + b as int)
  }

  /** `a - b` on `uint64_t`. */
  function WrapSub(a: U64, b: U64): (r: U64)
    ensures b <= a ==> r == a - b
    ensures a < b ==> r as int == a as int - b as int + TWO_64
  {
    Wrap(a as int - b as int)
  }

  /** The conversion of a `uint64_t` to `int64_t` (two's complement). */
  function AsSigned(u: U64): (r: I64)
    ensures (r as int - u as int) % TWO_64 == 0
    ensures u as int < TWO_63 <==> r >= 0
  {
    if u as int < TWO_63 then u as int as I64 else (u as int - TWO_64) as I64
  }

  /** Subtraction undoes addition: `(a - b) + b == a` on `uint64_t`. */
  lemma SubThenAdd(a: U64, b: U64)
    ensures WrapAdd(WrapSub(a, b), b) == a
  {
  }

  /** The signed view of a wrapped difference is the true difference whenever
      that difference fits in an `int64_t`, including a decrease. */
  lemma SignedDifference(a: U64, b: U64)
    requires -TWO_63 <= a as int - b as int < TWO_63
    ensures AsSigned(WrapSub(a, b)) as int == a as int - b as int
  {
  }
}
