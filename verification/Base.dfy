/** Shared vocabulary: options, results, clamping, rounding up, and row-major grids. */
module Base {

  datatype Option<+T> = None | Some(value: T)

  datatype Result<+T> = Ok(value: T) | Err(error: string)

  newtype byte = x: int | 0 <= x < 256

  type Bytes = seq<byte>

  const U32_LIMIT: nat := 0x1_0000_0000

  function Min(a: int, b: int): int { if a <= b then a else b }

  function Max(a: int, b: int): int { if a >= b then a else b }

  function Clamp(x: int, lo: int, hi: int): int { if x < lo then lo else if x > hi then hi else x }

  /** The least `q` with `q * b >= a`. */
  function CeilDiv(a: nat, b: nat): (q: nat)
    requires b > 0
  {
    (a + b - 1) / b
  }

  lemma CeilDivIsLeast(a: nat, b: nat, q: int)
    requires b > 0
    ensures CeilDiv(a, b) <= q <==> a <= q * b
  {
    var n := a + b - 1;
    var c := n / b;
    assert n == c * b + n % b;
    if c <= q {
      MulMono(c, q, b);
    } else {
      MulMono(q + 1, c, b);
      assert (q + 1) * b == q * b + b;
    }
  }

  lemma MulMono(a: int, b: int, k: int)
    requires a <= b && k >= 0
    ensures a * k <= b * k
  {
    assert 0 <= (b - a) * k;
  }

  /** Division picks out the row and remainder the column of a row-major index. */
  lemma Cell(y: int, x: int, w: int)
    requires 0 <= x < w
    ensures (y * w + x) / w == y
    ensures (y * w + x) % w == x
  {
    var n := y * w + x;
    var q, r := n / w, n % w;
    assert n == q * w + r;
    assert (q + 1) * w == q * w + w && (y + 1) * w == y * w + w;
    if q < y {
      MulMono(q + 1, y, w);
    } else if q > y {
      MulMono(y + 1, q, w);
    }
  }

  lemma RowsFit(y: int, h: int, w: int)
    requires y < h && w >= 0
    ensures y * w + w <= h * w
  {
    MulMono(y + 1, h, w);
    assert (y + 1) * w == y * w + w;
  }

  /** A row-major index below `h * w` names a row below `h` and a column below `w`. */
  lemma CellBounds(n: nat, h: nat, w: nat)
    requires n < h * w
    ensures w > 0
    ensures n == (n / w) * w + n % w
    ensures 0 <= n / w < h
    ensures 0 <= n % w < w
  {
    assert w == 0 ==> h * w == 0;
    if n / w >= h {
      MulMono(h, n / w, w);
    }
  }

  lemma OneMoreTime(n: int, k: int)
    ensures (n + 1) * k == n * k + k
  {
  }

  function Pow2(n: nat): (p: nat)
    ensures p > 0
  {
    if n == 0 then 1 else 2 * Pow2(n - 1)
  }

  lemma {:induction false} Pow2Grows(i: nat, j: nat)
    requires i <= j
    ensures Pow2(i) <= Pow2(j)
  {
    if i < j {
      Pow2Grows(i, j - 1);
    }
  }

  /** The first doubling of `from` that reaches `n`. */
  function Doubled(from: nat, n: nat): (r: nat)
    requires from > 0
    ensures n <= r
    decreases n - from
  {
    if from < n then Doubled(2 * from, n) else from
  }

  function NextPowerOfTwo(n: nat): nat { Doubled(1, n) }
}
