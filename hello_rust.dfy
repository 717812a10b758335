/**
  The console demo: a pure `i32` addition and the values the straight-line
  `main` computes (a counter bumped once, the sum 5 + 3 and the branch it
  selects). Console output is not modelled.
 */
module HelloRust {

  const I32Min: int := -0x8000_0000
  const I32Max: int := 0x7FFF_FFFF

  /** Rust's `i32`. */
  type I32 = x: int | I32Min <= x <= I32Max

  /** The mathematical value `x` is representable as an `i32`. */
  predicate FitsI32(x: int)
  {
    I32Min <= x <= I32Max
  }

  /** The machine addition of two `i32` values: the exact sum reduced to
      two's complement, that is, taken modulo 2^32 into the `i32` range. */
  function I32Add(a: I32, b: I32): (r: I32)
    ensures (r - (a + b)) % 0x1_0000_0000 == 0
  {
    var u := (a + b) % 0x1_0000_0000;
    if u <= I32Max then u else u - 0x1_0000_0000
  }

  /** Without overflow, the machine addition is the exact sum. */
  lemma I32AddExact(a: I32, b: I32)
    requires FitsI32(a + b)
    ensures I32Add(a, b) == a + b
  {
  }

  /** `add_numbers`. The caller must keep the sum within `i32`: beyond it
      Rust panics (debug builds) or wraps (release builds). */
  function AddNumbers(a: I32, b: I32): (r: I32)
    requires FitsI32(a + b)
    ensures r == a + b
  {
    I32AddExact(a, b);
    I32Add(a, b)
  }

  /** The order of the operands does not matter. */
  lemma AddNumbersCommutes(a: I32, b: I32)
    requires FitsI32(a + b)
    ensures AddNumbers(a, b) == AddNumbers(b, a)
  {
  }

  /** The two arms of the final `if` in `main`. */
  datatype Branch = GreaterThanFive | FiveOrLess

  /** The computation of `main`: a counter starting at 0 and incremented
      once, the sum of 5 and 3, and the arm chosen by comparing it with 5. */
  method Run() returns (counter: I32, result: I32, branch: Branch)
    ensures counter == 1
    ensures result == AddNumbers(5, 3) && result == 8
    ensures branch == GreaterThanFive
  {
    counter := 0;
    counter := counter + 1;
    result := AddNumbers(5, 3);
    if result > 5 {
      branch := GreaterThanFive;
    } else {
      branch := FiveOrLess;
    }
  }
}
