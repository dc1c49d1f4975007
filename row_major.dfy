/** Arithmetic of row-major layouts: position `y * width + x` holds column x
    of row y. Shared by the pixel loop and the byte-array crops. */
module RowMajor {

  lemma MulAtLeast(k: int, w: nat)
    requires k >= 1
    ensures k * w >= w
  {
  }

  /** Products of non-negative numbers grow with their factors. */
  lemma MulMono(a: int, b: int, c: int, d: int)
    requires 0 <= a <= b && 0 <= c <= d
    ensures a * c <= b * d
  {
    assert a * c <= b * c;
    assert b * c <= b * d;
  }

  /** Position `y * width + x` splits back into its column and row. */
  lemma Position(width: nat, x: nat, y: nat)
    requires x < width
    ensures (y * width + x) % width == x && (y * width + x) / width == y
  {
    var n := y * width + x;
    var q, r := n / width, n % width;
    assert (q - y) * width == x - r;
    if q - y >= 1 {
      MulAtLeast(q - y, width);
    } else if y - q >= 1 {
      assert (y - q) * width == r - x;
      MulAtLeast(y - q, width);
    }
  }

  /** Cell (x, y) lies before the start of row `height`. */
  lemma Inside(width: nat, height: nat, x: nat, y: nat)
    requires x < width && y < height
    ensures y * width + x < height * width
  {
    MulAtLeast(height - y, width);
    assert height * width == y * width + (height - y) * width;
  }

  /** Every position of a `width * height` array is some cell (x, y). */
  lemma Split(width: nat, height: nat, k: nat)
    requires k < width * height
    ensures width > 0 && k / width < height && k == k / width * width + k % width
  {
    assert width != 0;
    var q := k / width;
    assert k == q * width + k % width;
    assert (height - q) * width == height * width - q * width;
    assert (height - q) * width > 0;
  }

  /** The position after n is the next column of the same row, or the first
      column of the next row. */
  lemma Next(width: nat, n: nat)
    requires width > 0
    ensures 0 <= n / width && 0 <= n % width < width
    ensures n % width + 1 < width ==> (n + 1) / width == n / width && (n + 1) % width == n % width + 1
    ensures n % width + 1 == width ==> (n + 1) / width == n / width + 1 && (n + 1) % width == 0
  {
    var q, r := n / width, n % width;
    assert n == q * width + r;
    if r + 1 < width {
      Position(width, r + 1, q);
    } else {
      assert n + 1 == (q + 1) * width + 0;
      Position(width, 0, q + 1);
    }
  }

  /** A position at or after the start of row b lies in row b or below. */
  lemma RowAtLeast(width: nat, k: nat, b: nat)
    requires width > 0 && b * width <= k
    ensures b <= k / width
  {
    var q := k / width;
    assert k < (q + 1) * width;
    if q + 1 <= b {
      MulMono(q + 1, b, width, width);
    }
  }
}
