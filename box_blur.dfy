/**
  The box blur of `ImageBlur::blur`: every pixel is replaced by the channel
  averages of the square window around it, clipped at the image edges. The
  filter works in place, in row-major order, so a window reads the pixels
  above and to the left of its centre as this pass has already rewritten them.
 */
module BoxBlur {
  import opened Wrappers
  import opened Images

  /** The box size used when the caller gives none. */
  const DefaultBoxSize: nat := 15

  function Max(a: nat, b: nat): nat { if a < b then b else a }

  /**
    The requested box size made odd and at least 3: the least odd number that
    is at least both the request and 3, or 15 when nothing is requested.
   */
  function NormalizeBoxSize(boxSize: Option<nat>): (b: nat)
    ensures b % 2 == 1 && b >= 3
    ensures boxSize == None ==> b == DefaultBoxSize
    ensures boxSize.Some? ==> b >= boxSize.value && b - 2 < Max(boxSize.value, 3)
  {
    match boxSize
    case None => DefaultBoxSize
    case Some(s) => if s % 2 == 0 then Max(s + 1, 3) else Max(s, 3)
  }

  /** The radius as the source computes it, after truncating the box size to 32 bits. */
  function RadiusAsWritten(b: nat): int
  {
    ((b % 0x1_0000_0000) - 1) / 2
  }

  /** The radius of a box: half of what is left after the centre. */
  function Radius(b: nat): (radius: nat)
    requires b % 2 == 1 && b >= 3
    ensures radius >= 1 && 2 * radius + 1 == b
  {
    (b - 1) / 2
  }

  /** Below 2^32 the truncation changes nothing. */
  lemma RadiusAsWrittenBelow32Bits(b: nat)
    requires b % 2 == 1 && b >= 3 && b < 0x1_0000_0000
    ensures RadiusAsWritten(b) == Radius(b)
  {
  }

  /** At box size 2^32 + 1 the truncation leaves a radius of 0 instead of 2^31. */
  lemma RadiusTruncationCounterexample()
    ensures NormalizeBoxSize(Some(0x1_0000_0001)) == 0x1_0000_0001
    ensures RadiusAsWritten(NormalizeBoxSize(Some(0x1_0000_0001))) == 0
    ensures Radius(NormalizeBoxSize(Some(0x1_0000_0001))) == 0x8000_0000
  {
  }

  /** The number of passes: one unless the caller says otherwise. */
  function RoundCount(round: Option<nat>): nat
  {
    match round
    case None => 1
    case Some(n) => n
  }

  /**
    The window's extent along one axis around coordinate `c`: from `lo` to `hi`
    inclusive, exactly the coordinates inside the image within `rad` of `c`.
   */
  function ClipSpan(c: nat, rad: nat, n: nat): (span: (nat, nat))
    requires c < n
    ensures span.0 <= c <= span.1 < n
    ensures c - rad <= span.0 && (span.0 > 0 ==> span.0 == c - rad)
    ensures span.1 <= c + rad && (span.1 < n - 1 ==> span.1 == c + rad)
  {
    (if c < rad then 0 else c - rad, if c + rad < n - 1 then c + rad else n - 1)
  }

  /**
    The pixels of columns `x0 .. x1-1`, rows `y0 .. y1-1`, column by column and
    top to bottom within a column, as the neighbour loops push them.
   */
  function Gather(r: Raster, x0: nat, x1: nat, y0: nat, y1: nat): seq<Pixel>
    requires r.Valid() && x0 <= x1 <= r.width && y0 <= y1 <= r.height
    decreases x1 - x0
  {
    if x1 == x0 then [] else Gather(r, x0, x1 - 1, y0, y1) + r.cols[x1 - 1][y0..y1]
  }

  /** The gathered rectangle has one pixel per position. */
  lemma {:induction false} GatherLength(r: Raster, x0: nat, x1: nat, y0: nat, y1: nat)
    requires r.Valid() && x0 <= x1 <= r.width && y0 <= y1 <= r.height
    ensures |Gather(r, x0, x1, y0, y1)| == (x1 - x0) * (y1 - y0)
    decreases x1 - x0
  {
    if x1 > x0 {
      GatherLength(r, x0, x1 - 1, y0, y1);
      assert (x1 - x0) * (y1 - y0) == (x1 - 1 - x0) * (y1 - y0) + (y1 - y0);
    }
  }

  /** The clipped square window around (x, y). */
  function Window(r: Raster, rad: nat, x: nat, y: nat): (ps: seq<Pixel>)
    requires r.Valid() && x < r.width && y < r.height
    ensures |ps| >= 1
  {
    var (xlo, xhi) := ClipSpan(x, rad, r.width);
    var (ylo, yhi) := ClipSpan(y, rad, r.height);
    GatherLength(r, xlo, xhi + 1, ylo, yhi + 1);
    PositiveProduct(xhi + 1 - xlo, yhi + 1 - ylo);
    Gather(r, xlo, xhi + 1, ylo, yhi + 1)
  }

  lemma PositiveProduct(a: nat, b: nat)
    requires a >= 1 && b >= 1
    ensures a * b >= 1
  {
    assert a * b == a * (b - 1) + a;
  }

  /** The sum of channel `c` over `ps` (the `fold` of the source). */
  function ChannelSum(ps: seq<Pixel>, c: nat): nat
    requires c < 4
  {
    if ps == [] then 0 else ChannelSum(ps[..|ps| - 1], c) + Channel(ps[|ps| - 1], c)
  }

  function MinChannel(ps: seq<Pixel>, c: nat): Byte
    requires c < 4 && |ps| > 0
  {
    if |ps| == 1 then Channel(ps[0], c)
    else
      var m := MinChannel(ps[..|ps| - 1], c);
      if Channel(ps[|ps| - 1], c) < m then Channel(ps[|ps| - 1], c) else m
  }

  function MaxChannel(ps: seq<Pixel>, c: nat): Byte
    requires c < 4 && |ps| > 0
  {
    if |ps| == 1 then Channel(ps[0], c)
    else
      var m := MaxChannel(ps[..|ps| - 1], c);
      if Channel(ps[|ps| - 1], c) > m then Channel(ps[|ps| - 1], c) else m
  }

  /** The channel sum is at least |ps| times the smallest value. */
  lemma {:induction false} ChannelSumLower(ps: seq<Pixel>, c: nat)
    requires c < 4 && |ps| > 0
    ensures |ps| * MinChannel(ps, c) <= ChannelSum(ps, c)
  {
    if |ps| > 1 {
      var init := ps[..|ps| - 1];
      ChannelSumLower(init, c);
      var m, n := MinChannel(ps, c), |init|;
      MulMonotone(n, m, MinChannel(init, c));
      assert ChannelSum(ps, c) == ChannelSum(init, c) + Channel(ps[|ps| - 1], c);
      MulSucc(n, m);
    }
  }

  /** The channel sum is at most |ps| times the largest value. */
  lemma {:induction false} ChannelSumUpper(ps: seq<Pixel>, c: nat)
    requires c < 4 && |ps| > 0
    ensures ChannelSum(ps, c) <= |ps| * MaxChannel(ps, c)
  {
    if |ps| > 1 {
      var init := ps[..|ps| - 1];
      ChannelSumUpper(init, c);
      var m, n, v := MaxChannel(ps, c), |init|, Channel(ps[|ps| - 1], c);
      assert MaxChannel(init, c) <= m && v <= m;
      MulMonotone(n, MaxChannel(init, c), m);
      assert ChannelSum(ps, c) == ChannelSum(init, c) + v;
      assert ChannelSum(init, c) + v <= n * m + m;
      MulSucc(n, m);
    }
  }

  /** The average of `ps` (`(sum / matrix_len) as u8`), channel by channel. */
  function Average(ps: seq<Pixel>): Pixel
    requires |ps| > 0
  {
    Rgba(Mean(ps, 0), Mean(ps, 1), Mean(ps, 2), Mean(ps, 3))
  }

  /** The truncating `as u8` cast of the integer average of channel `c`. */
  function Mean(ps: seq<Pixel>, c: nat): Byte
    requires c < 4 && |ps| > 0
  {
    (ChannelSum(ps, c) / |ps|) % 256
  }

  /**
    Each channel of the average is the truncated mean of that channel and lies
    between the window's smallest and largest value, so the cast to `u8`
    never truncates.
   */
  lemma AverageInRange(ps: seq<Pixel>, c: nat)
    requires c < 4 && |ps| > 0
    ensures Channel(Average(ps), c) == ChannelSum(ps, c) / |ps|
    ensures MinChannel(ps, c) <= Channel(Average(ps), c) <= MaxChannel(ps, c)
  {
    var q := ChannelSum(ps, c) / |ps|;
    ChannelSumLower(ps, c);
    ChannelSumUpper(ps, c);
    QuotientBounds(ChannelSum(ps, c), |ps|, MinChannel(ps, c), MaxChannel(ps, c));
    ByteCast(q);
    assert Channel(Average(ps), c) == Mean(ps, c) == q % 256;
  }

  /** The `as u8` cast leaves a value below 256 unchanged. */
  lemma ByteCast(q: int)
    requires 0 <= q < 256
    ensures q % 256 == q
  {
  }

  /** One iteration of the `x` loop: pixel (x, y) becomes the average of its window. */
  function Step(r: Raster, rad: nat, x: nat, y: nat): (r': Raster)
    requires r.Valid() && x < r.width && y < r.height
    ensures r'.Valid() && r'.width == r.width && r'.height == r.height
  {
    r.Set(x, y, Average(Window(r, rad, x, y)))
  }

  /**
    What is left of one pass once the scan has reached (x, y): every position
    from there on, in row-major order, is replaced by its window average over
    the raster as it then is.
   */
  function ScanFrom(r: Raster, rad: nat, x: nat, y: nat): (r': Raster)
    requires r.Valid()
    ensures r'.Valid() && r'.width == r.width && r'.height == r.height
    decreases r.height - y, r.width - x
  {
    if y >= r.height then r
    else if x >= r.width then ScanFrom(r, rad, 0, y + 1)
    else ScanFrom(Step(r, rad, x, y), rad, x + 1, y)
  }

  /** One full in-place pass over the raster. */
  function Pass(r: Raster, rad: nat): (r': Raster)
    requires r.Valid()
    ensures r'.Valid() && r'.width == r.width && r'.height == r.height
  {
    ScanFrom(r, rad, 0, 0)
  }

  /** `n` passes, each over the result of the one before. */
  function Iterate(r: Raster, rad: nat, n: nat): (r': Raster)
    requires r.Valid()
    ensures r'.Valid() && r'.width == r.width && r'.height == r.height
  {
    if n == 0 then r else Pass(Iterate(r, rad, n - 1), rad)
  }

  /** The raster `blur(box_size, round)` returns. */
  function Blurred(r: Raster, boxSize: Option<nat>, round: Option<nat>): (r': Raster)
    requires r.Valid()
    ensures r'.Valid() && r'.width == r.width && r'.height == r.height
  {
    Iterate(r, Radius(NormalizeBoxSize(boxSize)), RoundCount(round))
  }

  // ---------------------------------------------------------------------------
  // Properties of the window and of the filter

  /** `Gather` lays the rectangle out column by column: pixel (xn, yn) sits at its column-major index. */
  lemma {:induction false} GatherAt(r: Raster, x0: nat, x1: nat, y0: nat, y1: nat, xn: nat, yn: nat)
    requires r.Valid() && x0 <= xn < x1 <= r.width && y0 <= yn < y1 <= r.height
    ensures var i := (xn - x0) * (y1 - y0) + (yn - y0);
            0 <= i < |Gather(r, x0, x1, y0, y1)| && Gather(r, x0, x1, y0, y1)[i] == r.cols[xn][yn]
  {
    var h := y1 - y0;
    MulNonNegative(xn - x0, h);
    var prefix := Gather(r, x0, x1 - 1, y0, y1);
    assert Gather(r, x0, x1, y0, y1) == prefix + r.cols[x1 - 1][y0..y1];
    if xn == x1 - 1 {
      GatherLength(r, x0, x1 - 1, y0, y1);
      assert |prefix| == (xn - x0) * h;
    } else {
      GatherAt(r, x0, x1 - 1, y0, y1, xn, yn);
    }
  }

  /**
    The window around (x, y) is exactly the square of side 2*rad+1 centred on
    (x, y), clipped to the image: it holds the pixel of every such position, at
    that position's column-major index, and nothing else; in particular it
    holds the centre pixel.
   */
  lemma WindowLayout(r: Raster, rad: nat, x: nat, y: nat, xn: nat, yn: nat)
    requires r.Valid() && x < r.width && y < r.height
    requires xn < r.width && yn < r.height && x - rad <= xn <= x + rad && y - rad <= yn <= y + rad
    ensures |Window(r, rad, x, y)| ==
              (ClipSpan(x, rad, r.width).1 + 1 - ClipSpan(x, rad, r.width).0) *
              (ClipSpan(y, rad, r.height).1 + 1 - ClipSpan(y, rad, r.height).0)
    ensures var i := (xn - ClipSpan(x, rad, r.width).0) *
                       (ClipSpan(y, rad, r.height).1 + 1 - ClipSpan(y, rad, r.height).0) +
                     (yn - ClipSpan(y, rad, r.height).0);
            0 <= i < |Window(r, rad, x, y)| && Window(r, rad, x, y)[i] == r.cols[xn][yn]
  {
    var (xlo, xhi) := ClipSpan(x, rad, r.width);
    var (ylo, yhi) := ClipSpan(y, rad, r.height);
    WindowIsGather(r, rad, x, y);
    GatherLength(r, xlo, xhi + 1, ylo, yhi + 1);
    GatherAt(r, xlo, xhi + 1, ylo, yhi + 1, xn, yn);
  }

  /** The window is the rectangle its two clipped spans bound. */
  lemma WindowIsGather(r: Raster, rad: nat, x: nat, y: nat)
    requires r.Valid() && x < r.width && y < r.height
    ensures Window(r, rad, x, y) ==
            Gather(r, ClipSpan(x, rad, r.width).0, ClipSpan(x, rad, r.width).1 + 1,
                   ClipSpan(y, rad, r.height).0, ClipSpan(y, rad, r.height).1 + 1)
  {
  }

  lemma {:induction false} GatherUniform(r: Raster, p: Pixel, x0: nat, x1: nat, y0: nat, y1: nat)
    requires r.Valid() && Uniform(r, p) && x0 <= x1 <= r.width && y0 <= y1 <= r.height
    ensures forall i :: 0 <= i < |Gather(r, x0, x1, y0, y1)| ==> Gather(r, x0, x1, y0, y1)[i] == p
    decreases x1 - x0
  {
    if x1 > x0 {
      GatherUniform(r, p, x0, x1 - 1, y0, y1);
    }
  }

  lemma {:induction false} ConstantMinMax(ps: seq<Pixel>, p: Pixel, c: nat)
    requires c < 4 && |ps| > 0 && forall i :: 0 <= i < |ps| ==> ps[i] == p
    ensures MinChannel(ps, c) == Channel(p, c) == MaxChannel(ps, c)
  {
    if |ps| > 1 {
      ConstantMinMax(ps[..|ps| - 1], p, c);
    }
  }

  /** The average of a sequence of equal pixels is that pixel. */
  lemma AverageOfConstant(ps: seq<Pixel>, p: Pixel)
    requires |ps| > 0 && forall i :: 0 <= i < |ps| ==> ps[i] == p
    ensures Average(ps) == p
  {
    var q := Average(ps);
    forall c | 0 <= c < 4 ensures Channel(q, c) == Channel(p, c) {
      ConstantMinMax(ps, p, c);
      AverageInRange(ps, c);
    }
    assert q.r == p.r && q.g == p.g && q.b == p.b && q.a == p.a by {
      assert Channel(q, 0) == Channel(p, 0) && Channel(q, 1) == Channel(p, 1);
      assert Channel(q, 2) == Channel(p, 2) && Channel(q, 3) == Channel(p, 3);
    }
  }

  /** Every window of `r` already averages to its centre pixel. */
  predicate IsFixedPoint(r: Raster, rad: nat)
    requires r.Valid()
  {
    forall i, j {:trigger Window(r, rad, i, j)} :: 0 <= i < r.width && 0 <= j < r.height ==>
      Average(Window(r, rad, i, j)) == r.cols[i][j]
  }

  /** A raster whose every window already averages to its centre pixel is what any scan returns unchanged. */
  lemma {:induction false} ScanFixedPoint(r: Raster, rad: nat, x: nat, y: nat)
    requires r.Valid() && IsFixedPoint(r, rad)
    ensures ScanFrom(r, rad, x, y) == r
    decreases r.height - y, r.width - x
  {
    if y >= r.height {
    } else if x >= r.width {
      ScanFixedPoint(r, rad, 0, y + 1);
    } else {
      StepFixed(r, rad, x, y);
      ScanFixedPoint(r, rad, x + 1, y);
    }
  }

  lemma StepFixed(r: Raster, rad: nat, x: nat, y: nat)
    requires r.Valid() && IsFixedPoint(r, rad) && x < r.width && y < r.height
    ensures Step(r, rad, x, y) == r
  {
    assert Average(Window(r, rad, x, y)) == r.cols[x][y];
    assert r.cols[x][y := r.cols[x][y]] == r.cols[x];
    assert r.cols[x := r.cols[x]] == r.cols;
  }

  lemma {:induction false} IterateFixedPoint(r: Raster, rad: nat, n: nat)
    requires r.Valid() && IsFixedPoint(r, rad)
    ensures Iterate(r, rad, n) == r
  {
    if n > 0 {
      IterateFixedPoint(r, rad, n - 1);
      ScanFixedPoint(r, rad, 0, 0);
    }
  }

  /** A raster of one colour is left unchanged by the blur, whatever the box size and round count. */
  lemma UniformIsUnchanged(r: Raster, p: Pixel, boxSize: Option<nat>, round: Option<nat>)
    requires r.Valid() && Uniform(r, p)
    ensures Blurred(r, boxSize, round) == r
  {
    var rad := Radius(NormalizeBoxSize(boxSize));
    forall i, j | 0 <= i < r.width && 0 <= j < r.height
      ensures Average(Window(r, rad, i, j)) == r.cols[i][j]
    {
      UniformWindow(r, p, rad, i, j);
    }
    IterateFixedPoint(r, rad, RoundCount(round));
  }

  /** Every window of a raster of one colour averages to that colour. */
  lemma UniformWindow(r: Raster, p: Pixel, rad: nat, i: nat, j: nat)
    requires r.Valid() && Uniform(r, p) && i < r.width && j < r.height
    ensures Average(Window(r, rad, i, j)) == r.cols[i][j]
  {
    var (xlo, xhi) := ClipSpan(i, rad, r.width);
    var (ylo, yhi) := ClipSpan(j, rad, r.height);
    GatherUniform(r, p, xlo, xhi + 1, ylo, yhi + 1);
    AverageOfConstant(Window(r, rad, i, j), p);
  }

  /**
    With radius 0 every window is the centre pixel alone, so any number of
    passes returns the raster unchanged: the as-written radius for box size
    2^32 + 1 turns the filter into the identity.
   */
  lemma ZeroRadiusIsIdentity(r: Raster, n: nat)
    requires r.Valid()
    ensures Iterate(r, 0, n) == r
  {
    forall i, j | 0 <= i < r.width && 0 <= j < r.height
      ensures Average(Window(r, 0, i, j)) == r.cols[i][j]
    {
      var w := Window(r, 0, i, j);
      assert w == Gather(r, i, i, j, j + 1) + r.cols[i][j..j + 1];
      assert w == [r.cols[i][j]];
      AverageOfConstant(w, r.cols[i][j]);
    }
    IterateFixedPoint(r, 0, n);
  }

  // ---------------------------------------------------------------------------
  // The imperative filter over a mutable pixel buffer

  /** The buffer `a` holds exactly the raster `r`. */
  predicate Holds(a: array2<Pixel>, r: Raster)
    reads a
  {
    r.Valid() && a.Length0 == r.width && a.Length1 == r.height &&
    forall x, y :: 0 <= x < a.Length0 && 0 <= y < a.Length1 ==> a[x, y] == r.cols[x][y]
  }

  /** The inner neighbour loop: rows `ylo ..= yhi` of column `xn`, read from the buffer. */
  method ReadColumn(img: array2<Pixel>, ghost cur: Raster, xn: nat, ylo: nat, yhi: nat)
    returns (column: seq<Pixel>)
    requires Holds(img, cur) && xn < img.Length0 && ylo <= yhi < img.Length1
    ensures column == cur.cols[xn][ylo..yhi + 1]
  {
    column := [];
    var yn := ylo;
    while yn <= yhi
      invariant ylo <= yn <= yhi + 1
      invariant column == cur.cols[xn][ylo..yn]
    {
      assert cur.cols[xn][ylo..yn + 1] == cur.cols[xn][ylo..yn] + [cur.cols[xn][yn]];
      column := column + [img[xn, yn]];
      yn := yn + 1;
    }
  }

  /** The neighbour loops of the source: the window around (x, y), read from the buffer as it is now. */
  method GatherWindow(img: array2<Pixel>, ghost cur: Raster, radius: nat, x: nat, y: nat)
    returns (matrix: seq<Pixel>)
    requires Holds(img, cur) && x < img.Length0 && y < img.Length1
    ensures matrix == Window(cur, radius, x, y)
  {
    var width, height := img.Length0, img.Length1;
    var xlo := if x < radius then 0 else x - radius;
    var xhi := if x + radius < width - 1 then x + radius else width - 1;
    var ylo := if y < radius then 0 else y - radius;
    var yhi := if y + radius < height - 1 then y + radius else height - 1;
    matrix := [];
    var xn := xlo;
    while xn <= xhi
      invariant xlo <= xn <= xhi + 1
      invariant matrix == Gather(cur, xlo, xn, ylo, yhi + 1)
    {
      var column := ReadColumn(img, cur, xn, ylo, yhi);
      matrix := matrix + column;
      xn := xn + 1;
    }
    assert (xlo, xhi) == ClipSpan(x, radius, width) && (ylo, yhi) == ClipSpan(y, radius, height);
    WindowIsGather(cur, radius, x, y);
  }

  /** `put_pixel` on the buffer: position (x, y) now holds `p`, and nothing else changes. */
  method WritePixel(img: array2<Pixel>, ghost cur: Raster, x: nat, y: nat, p: Pixel)
    requires Holds(img, cur) && x < img.Length0 && y < img.Length1
    modifies img
    ensures Holds(img, cur.Set(x, y, p))
  {
    cur.SetReplaces(x, y, p);
    img[x, y] := p;
  }

  /** One pass of the `y`/`x` loops, rewriting the buffer in row-major order. */
  method BlurPass(img: array2<Pixel>, ghost r: Raster, radius: nat)
    requires Holds(img, r)
    modifies img
    ensures Holds(img, Pass(r, radius))
  {
    ghost var cur := r;
    var width, height := img.Length0, img.Length1;
    for y := 0 to height
      invariant Holds(img, cur) && cur.width == width && cur.height == height
      invariant ScanFrom(cur, radius, 0, y) == Pass(r, radius)
    {
      for x := 0 to width
        invariant Holds(img, cur) && cur.width == width && cur.height == height
        invariant ScanFrom(cur, radius, x, y) == Pass(r, radius)
      {
        var matrix := GatherWindow(img, cur, radius, x, y);
        var avg := Average(matrix);
        WritePixel(img, cur, x, y, avg);
        assert ScanFrom(cur, radius, x, y) == ScanFrom(Step(cur, radius, x, y), radius, x + 1, y);
        cur := Step(cur, radius, x, y);
      }
      assert ScanFrom(cur, radius, width, y) == ScanFrom(cur, radius, 0, y + 1);
    }
    assert ScanFrom(cur, radius, 0, height) == cur;
  }

  /**
    `blur(box_size, round)`: copy the image into a fresh buffer, then run
    `round` in-place passes (one by default) with the normalised box size.
   */
  method Blur(image: Raster, boxSize: Option<nat>, round: Option<nat>) returns (out: array2<Pixel>)
    requires image.Valid()
    ensures fresh(out)
    ensures Holds(out, Blurred(image, boxSize, round))
    ensures round == Some(0) ==> Holds(out, image)
  {
    var size := NormalizeBoxSize(boxSize);
    var radius := (size - 1) / 2;
    out := new Pixel[image.width, image.height]((x, y) requires 0 <= x < image.width && 0 <= y < image.height => image.cols[x][y]);
    var rounds := match round case None => 1 case Some(n) => n;
    for i := 0 to rounds
      invariant Holds(out, Iterate(image, radius, i))
    {
      BlurPass(out, Iterate(image, radius, i), radius);
    }
  }
}
