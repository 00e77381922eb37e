/** The conventional optional value, used for the source's `Option` arguments and results. */
module Wrappers {
  datatype Option<T> = None | Some(value: T)
}

/**
  Pixels and rasters as the blur filter, the cell classifier and the recovery
  loop see them: RGBA pixels with one unsigned byte per channel, addressed by
  column `x` and row `y`.
 */
module Images {

  /** An 8-bit unsigned channel value (`u8`). */
  type Byte = x: int | 0 <= x < 256

  /** An RGBA pixel (`Rgba([r, g, b, a])`). */
  datatype Pixel = Rgba(r: Byte, g: Byte, b: Byte, a: Byte)

  /** Channel `c` of `p`, in the order red, green, blue, alpha. */
  function Channel(p: Pixel, c: nat): Byte
    requires c < 4
  {
    match c
    case 0 => p.r
    case 1 => p.g
    case 2 => p.b
    case _ => p.a
  }

  /** The fully opaque black background pixel, which marks "no content". */
  const Sentinel: Pixel := Rgba(0, 0, 0, 255)

  /** Width and height, in pixels, of the cell one character is rendered into. */
  const CharWidth: nat := 25
  const CharHeight: nat := 25

  /**
    A raster stored column by column: `cols[x][y]` is the pixel that
    `get_pixel(x, y)` returns.
   */
  datatype Raster = Raster(width: nat, height: nat, cols: seq<seq<Pixel>>) {

    /** The columns really have the declared width and height. */
    predicate Valid() {
      |cols| == width && forall x :: 0 <= x < |cols| ==> |cols[x]| == height
    }

    /** The raster with the pixel at (x, y) replaced by `p` (`put_pixel`). */
    function Set(x: nat, y: nat, p: Pixel): (r: Raster)
      requires Valid() && x < width && y < height
      ensures r.Valid() && r.width == width && r.height == height
    {
      Raster(width, height, cols[x := cols[x][y := p]])
    }

    /** `Set` replaces the pixel at (x, y) and leaves every other pixel as it was. */
    lemma SetReplaces(x: nat, y: nat, p: Pixel)
      requires Valid() && x < width && y < height
      ensures Set(x, y, p).cols[x][y] == p
      ensures forall i, j :: 0 <= i < width && 0 <= j < height && (i, j) != (x, y) ==>
                Set(x, y, p).cols[i][j] == cols[i][j]
    {
    }
  }

  /** Appending is associative; stated once so that loops appending to a prefix need not re-derive it. */
  lemma ConcatAssoc<T>(a: seq<T>, b: seq<T>, c: seq<T>)
    ensures (a + b) + c == a + (b + c)
  {
  }

  /** Every pixel of `r` is `p`. */
  predicate Uniform(r: Raster, p: Pixel)
    requires r.Valid()
  {
    forall x, y :: 0 <= x < r.width && 0 <= y < r.height ==> r.cols[x][y] == p
  }

  // ---------------------------------------------------------------------------
  // Arithmetic facts the window sizes, averages and percentages need

  lemma MulNonNegative(a: nat, b: nat)
    ensures a * b >= 0
  {
  }

  lemma MulSucc(n: nat, m: int)
    ensures (n + 1) * m == n * m + m
  {
  }

  lemma MulMonotone(n: nat, a: int, b: int)
    requires a <= b
    ensures n * a <= n * b
  {
    assert n * b - n * a == n * (b - a);
  }

  /** If lo*n <= s <= hi*n then the truncated quotient s / n lies in [lo, hi]. */
  lemma QuotientBounds(s: nat, n: nat, lo: nat, hi: nat)
    requires n > 0 && n * lo <= s <= n * hi
    ensures lo <= s / n <= hi
  {
    var q := s / n;
    assert s == n * q + s % n && 0 <= s % n < n;
    if q < lo {
      MulMonotone(n, q + 1, lo);
      assert false;
    }
    if q > hi {
      MulMonotone(n, hi + 1, q);
      assert false;
    }
  }

  /** `s / n` is below `k` when `s` is below `n * k`. */
  lemma QuotientBelow(s: nat, n: nat, k: nat)
    requires 0 < n && s < n * k
    ensures s / n < k
  {
    var q := s / n;
    assert n * q <= s;
    if q >= k {
      MulMonotone(n, k, q);
      assert false;
    }
  }

  /** `(n * k) / n` is `k`. */
  lemma ExactQuotient(n: nat, k: nat)
    requires 0 < n
    ensures n * k / n == k
  {
    QuotientBounds(n * k, n, k, k);
  }
}
