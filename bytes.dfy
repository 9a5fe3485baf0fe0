/** Fixed-width integer types of the C source, as ranges of unbounded integers,
    and the two wrappers the model returns. */
module Bytes {

  /** UINT8 */
  type byte = x: int | 0 <= x < 0x100
  /** UINT16 */
  type uint16 = x: int | 0 <= x < 0x1_0000
  /** UINT32 */
  type uint32 = x: int | 0 <= x < 0x1_0000_0000

  /** The value a UINT16 variable keeps when an int expression is stored in it. */
  function Wrap16(x: int): uint16 { x % 0x1_0000 }

  /** The value a UINT32 variable keeps when an integer expression is stored in it. */
  function Wrap32(x: int): uint32 { x % 0x1_0000_0000 }

  /** `--n` on a UINT8: zero wraps round to 255. */
  function Dec8(n: byte): byte { if n == 0 then 0xFF else n - 1 }

  function Min(a: int, b: int): int { if a <= b then a else b }

  datatype Option<+T> = None | Some(value: T)

  datatype Result<+T, +E> = Success(value: T) | Failure(error: E)
}

/** Facts about integer division by a row width that the placement proofs reuse. */
module Arith {

  lemma MulLe(a: int, b: int, c: int)
    requires a <= b && 0 <= c
    ensures a * c <= b * c
  {
    assert b * c - a * c == (b - a) * c;
  }

  /** A linear index splits into one row and one column only. */
  lemma RowColUnique(q1: int, r1: int, q2: int, r2: int, w: int)
    requires 0 <= r1 < w && 0 <= r2 < w
    requires q1 * w + r1 == q2 * w + r2
    ensures q1 == q2 && r1 == r2
  {
    if q1 < q2 {
      assert (q1 + 1) * w == q1 * w + w;
      MulLe(q1 + 1, q2, w);
    } else if q2 < q1 {
      assert (q2 + 1) * w == q2 * w + w;
      MulLe(q2 + 1, q1, w);
    }
  }

  lemma DivModOf(q: int, r: int, w: int)
    requires 0 <= r < w
    ensures (q * w + r) / w == q && (q * w + r) % w == r
  {
    var n := q * w + r;
    assert n == (n / w) * w + n % w;
    RowColUnique(n / w, n % w, q, r, w);
  }

  /** A multiple of c below n gives a lower bound on n / c. */
  lemma MulDivLe(m: int, n: int, c: int)
    requires 0 < c && m * c <= n
    ensures m <= n / c
  {
    var q := n / c;
    assert n == q * c + n % c;
    if q < m {
      MulLe(q + 1, m, c);
    }
  }

  /** A cell of an h-row, w-column grid has a linear index below h * w. */
  lemma InGrid(row: int, col: int, w: int, h: int)
    requires 0 <= row < h && 0 <= col < w
    ensures 0 <= row * w + col < h * w
  {
    MulLe(row + 1, h, w);
    assert (row + 1) * w == row * w + w;
    MulLe(0, row, w);
  }
}
