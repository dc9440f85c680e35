/** fz_align_to_power_of_two: rounding an address or a size up to a power-of-two boundary. */
module Align {

  /** 1, 2, 4, 8, ...: the sizes for which `size & (size - 1) == 0` and size is non-zero. */
  predicate IsPowerOfTwo(n: nat)
    decreases n
  {
    n == 1 || (n >= 2 && n % 2 == 0 && IsPowerOfTwo(n / 2))
  }

  /** Rounds `unaligned` up to the next multiple of `size`. For a power-of-two size the
      source's mask `unaligned & (size - 1)` is exactly `unaligned % size`. */
  function AlignUp(unaligned: nat, size: nat): (aligned: nat)
    requires IsPowerOfTwo(size)
    ensures aligned % size == 0
    ensures unaligned <= aligned < unaligned + size
    ensures aligned == unaligned <==> unaligned % size == 0
  {
    var modulo := unaligned % size;
    if modulo != 0 then
      var q := unaligned / size;
      assert unaligned + (size - modulo) == (q + 1) * size;
      DivModUnique(unaligned + (size - modulo), size, q + 1, 0);
      unaligned + (size - modulo)
    else
      unaligned
  }

  /** d * a >= d once a is positive. */
  lemma {:induction false} MulAtLeast(a: int, d: int)
    requires a >= 1 && d > 0
    ensures a * d >= d
  {
    if a > 1 {
      MulAtLeast(a - 1, d);
      assert a * d == (a - 1) * d + d;
    }
  }

  /** Quotient and remainder are unique. */
  lemma DivModUnique(x: int, d: int, q: int, r: int)
    requires d > 0 && 0 <= r < d && x == q * d + r
    ensures x / d == q && x % d == r
  {
    var q0 := x / d;
    var r0 := x % d;
    assert x == q0 * d + r0;
    assert (q0 - q) * d == r - r0;
    if q0 - q >= 1 {
      MulAtLeast(q0 - q, d);
    } else if q - q0 >= 1 {
      MulAtLeast(q - q0, d);
    }
  }

  /** The result is the LEAST multiple of size that is at least the input. */
  lemma AlignUpIsLeast(unaligned: nat, size: nat, m: nat)
    requires IsPowerOfTwo(size)
    requires m % size == 0 && unaligned <= m
    ensures AlignUp(unaligned, size) <= m
  {
    var q := unaligned / size;
    var r := unaligned % size;
    if r != 0 {
      var k := m / size;
      assert m == k * size;
      assert unaligned == q * size + r;
      if k <= q {
        assert (q - k) * size == q * size - k * size;
        if q - k >= 1 {
          MulAtLeast(q - k, size);
        }
      } else {
        MulAtLeast(k - q, size);
        assert (k - q) * size == k * size - q * size;
        assert AlignUp(unaligned, size) == (q + 1) * size;
      }
    }
  }

  /** Aligning twice is aligning once. */
  lemma AlignUpIdempotent(unaligned: nat, size: nat)
    requires IsPowerOfTwo(size)
    ensures AlignUp(AlignUp(unaligned, size), size) == AlignUp(unaligned, size)
  {
  }

  /** A larger input never aligns to a smaller boundary. */
  lemma AlignUpMonotone(x: nat, y: nat, size: nat)
    requires IsPowerOfTwo(size)
    requires x <= y
    ensures AlignUp(x, size) <= AlignUp(y, size)
  {
    AlignUpIsLeast(x, size, AlignUp(y, size));
  }
}
