/**
 * Shared vocabulary: an optional value, C's 32-bit unsigned wrap-around,
 * the 16-alignment macro used by both the display and the decoder, and the
 * row/column arithmetic that the strided copies rely on.
 */
module Common {

  datatype Option<+T> = None | Some(value: T)

  /** Number of values of a C `uint32_t`. */
  const U32: nat := 0x1_0000_0000

  /** The value a C `uint32_t` holds after an assignment of `x`. */
  function Wrap32(x: int): (r: nat)
    ensures r < U32
    ensures 0 <= x < U32 ==> r == x
  {
    x % U32
  }

  /**
   * `((v) + 15) & ~15` on a signed or unbounded integer: clearing the four
   * low bits of `v + 15` subtracts its remainder modulo 16 (Dafny's `%` on a
   * positive divisor is the floor remainder, as two's complement masking is).
   */
  function Align16(v: int): (r: int)
    ensures r % 16 == 0 && v <= r < v + 16
  {
    (v + 15) - (v + 15) % 16
  }

  /** The same macro on a `uint32_t` operand: the addition wraps first. */
  function AlignU32(v: nat): (r: nat)
    ensures r < U32 && r % 16 == 0
    ensures v + 15 < U32 ==> r == Align16(v)
  {
    var t := Wrap32(v + 15);
    t - t % 16
  }

  /** `Align16(v)` is the least multiple of 16 that is at least `v`. */
  lemma Align16IsLeast(v: int, m: int)
    requires m % 16 == 0 && m >= v
    ensures Align16(v) <= m
  {
  }

  /** Euclidean division by a positive divisor has one quotient and one remainder. */
  lemma DivUnique(x: int, n: int, q: int, r: int)
    requires n > 0 && 0 <= r < n && x == q * n + r
    ensures x / n == q && x % n == r
  {
    var q', r' := x / n, x % n;
    assert (q - q') * n == r' - r;
    assert (q' - q) * n == r - r';
    if q - q' >= 1 {
      MulMonotone(1, q - q', n);
      assert false;
    } else if q' - q >= 1 {
      MulMonotone(1, q' - q, n);
      assert false;
    }
  }

  /** `i * n + j` with `j < n` is row `i`, column `j` of rows of length `n`. */
  lemma DivModOfRow(i: nat, j: nat, n: nat)
    requires j < n
    ensures (i * n + j) / n == i && (i * n + j) % n == j
  {
    DivUnique(i * n + j, n, i, j);
  }

  /** Splits a position into its row and column for rows of length `n`. */
  lemma RowOfIndex(k: nat, n: nat)
    requires n > 0
    ensures k == (k / n) * n + k % n && 0 <= k % n < n
  {
  }

  lemma MulMonotone(a: nat, b: nat, n: nat)
    requires a <= b
    ensures a * n <= b * n
  {
    if a < b {
      MulMonotone(a, b - 1, n);
      assert b * n == (b - 1) * n + n;
    }
  }

  /** The last byte of row `i < rows`, column `j < n`, lies before `rows * stride`. */
  lemma RowBound(i: nat, j: nat, n: nat, rows: nat, stride: nat)
    requires i < rows && j < n <= stride
    ensures i * stride + j < rows * stride
    ensures i * stride + j <= (rows - 1) * stride + n - 1
  {
    MulMonotone(i, rows - 1, stride);
    assert rows * stride == (rows - 1) * stride + stride;
  }

  /** Byte `k` of `out` exists and is a copy of byte `m` of `src`. */
  predicate CopiedFrom(out: seq<bv8>, k: int, src: seq<bv8>, m: int)
  {
    0 <= k < |out| && 0 <= m < |src| && out[k] == src[m]
  }
}
