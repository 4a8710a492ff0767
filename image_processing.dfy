/**
 * The integer side of ImageProcessor (src/utils/ImageProcessor.ts): box
 * blur over the red channel, threshold binarisation, the black-pixel
 * statistics that recommend a dot count, and the processor's dimensions.
 * Pixel buffers are RGBA, row-major, four bytes per pixel, as in ImageData.
 */
module ImageProcessing {
  import opened Config
  import opened Images

  datatype Option<T> = None | Some(value: T)

  /** (a + 1) k = a k + k, and the same with the factors swapped. */
  lemma MulSucc(a: int, k: int)
    ensures (a + 1) * k == a * k + k && k * (a + 1) == k * a + k
  {
  }

  /** A product of non-negative numbers is non-negative. */
  lemma MulNonNegative(a: int, b: int)
    requires 0 <= a && 0 <= b
    ensures 0 <= a * b
  {
  }

  /** Σ s, added left to right. */
  function Sum(s: seq<int>): int
  {
    if |s| == 0 then 0 else Sum(s[..|s| - 1]) + s[|s| - 1]
  }

  lemma {:induction false} SumAppend(a: seq<int>, b: seq<int>)
    ensures Sum(a + b) == Sum(a) + Sum(b)
    decreases |b|
  {
    if |b| == 0 {
      assert a + b == a;
    } else {
      SumAppend(a, b[..|b| - 1]);
      assert (a + b)[..|a + b| - 1] == a + b[..|b| - 1];
    }
  }

  function SeqMin(s: seq<int>): (m: int)
    requires |s| > 0
    ensures m in s && forall k :: 0 <= k < |s| ==> m <= s[k]
  {
    if |s| == 1 then s[0]
    else var m := SeqMin(s[..|s| - 1]); if s[|s| - 1] < m then s[|s| - 1] else m
  }

  function SeqMax(s: seq<int>): (m: int)
    requires |s| > 0
    ensures m in s && forall k :: 0 <= k < |s| ==> s[k] <= m
  {
    if |s| == 1 then s[0]
    else var m := SeqMax(s[..|s| - 1]); if s[|s| - 1] > m then s[|s| - 1] else m
  }

  /** A sum of |s| values that all lie in [lo, hi] lies in [lo*|s|, hi*|s|]. */
  lemma {:induction false} SumBetween(s: seq<int>, lo: int, hi: int)
    requires forall k :: 0 <= k < |s| ==> lo <= s[k] <= hi
    ensures lo * |s| <= Sum(s) <= hi * |s|
  {
    if |s| > 0 {
      var front := s[..|s| - 1];
      SumBetween(front, lo, hi);
      MulSucc(|front|, lo);
      MulSucc(|front|, hi);
      assert lo * |s| == lo * |front| + lo && hi * |s| == hi * |front| + hi;
    }
  }

  // ---------------------------------------------------------------------
  // Storing a number into a Uint8ClampedArray cell.

  /**
   * The byte a Uint8ClampedArray stores for sum / count: NaN (count 0)
   * becomes 0, values are clamped to [0, 255], and the quotient is rounded
   * to the nearest integer, ties to even.
   */
  function ClampedMean(sum: int, count: int): (r: int)
    ensures IsByte(r)
  {
    if count <= 0 then 0
    else
      var q, m := sum / count, sum % count;
      var rounded := if 2 * m < count then q else if 2 * m > count then q + 1 else if q % 2 == 0 then q else q + 1;
      if rounded < 0 then 0 else if rounded > 255 then 255 else rounded
  }

  /** q * count <= sum < (q + 1) * count for the quotient q and remainder m of sum / count. */
  lemma Quotient(sum: int, count: int) returns (q: int, m: int)
    requires 0 < count
    ensures q == sum / count && m == sum % count
    ensures sum == q * count + m && 0 <= m < count
    ensures (q + 1) * count == q * count + count
  {
    q, m := sum / count, sum % count;
  }

  /**
   * For a mean of bytes, the stored byte is an integer nearest to
   * sum / count: it is off by at most half a unit.
   */
  lemma ClampedMeanRounds(sum: int, count: int)
    requires 0 < count && 0 <= sum <= 255 * count
    ensures -count <= 2 * (sum - ClampedMean(sum, count) * count) <= count
  {
    var q, m := Quotient(sum, count);
    if q < 0 {
      MulMonotone(q + 1, 0, count);
      assert false;
    }
    if q > 255 || (q == 255 && m > 0) {
      MulMonotone(256, q + 1, count);
      MulMonotone(255, q, count);
      assert false;
    }
    var r := ClampedMean(sum, count);
    if r == q + 1 {
      assert r * count == q * count + count;
    }
  }

  /** A mean of values between two bytes lo and hi is stored as a byte between them. */
  lemma ClampedMeanBetween(sum: int, count: int, lo: int, hi: int)
    requires 0 < count && IsByte(lo) && IsByte(hi)
    requires lo * count <= sum <= hi * count
    ensures lo <= ClampedMean(sum, count) <= hi
  {
    var q, m := Quotient(sum, count);
    if q < lo {
      MulMonotone(q + 1, lo, count);
      assert false;
    }
    if hi < q {
      MulMonotone(hi + 1, q, count);
      MulSucc(hi, count);
      assert false;
    }
    if q == hi && m > 0 {
      assert false;
    }
  }

  // ---------------------------------------------------------------------
  // calculateBlurredPixel: the samples of a (2b+1) x (2b+1) window.

  predicate InCanvas(width: int, height: int, x: int, y: int) {
    0 <= x < width && 0 <= y < height
  }

  /**
   * The red byte of (nx, ny) when the pixel is on the canvas, nothing
   * otherwise; a buffer of 4 · width · height bytes holds every canvas
   * pixel (SampleAt).
   */
  function Sample(s: seq<int>, width: int, height: int, nx: int, ny: int): (r: seq<int>)
    requires |s| == 4 * (width * height)
    ensures |r| <= 1
    ensures AllBytes(s) ==> AllBytes(r)
  {
    if InCanvas(width, height, nx, ny) then
      RowMajorBound(width, height, nx, ny);
      [s[(ny * width + nx) * 4]]
    else []
  }

  /** What calculateBlurredPixel reads for (nx, ny): an in-range red byte, or nothing. */
  lemma SampleAt(s: seq<int>, width: int, height: int, nx: int, ny: int)
    requires |s| == 4 * (width * height)
    ensures InCanvas(width, height, nx, ny) ==>
      0 <= (ny * width + nx) * 4 < |s| && Sample(s, width, height, nx, ny) == [s[(ny * width + nx) * 4]]
    ensures !InCanvas(width, height, nx, ny) ==> Sample(s, width, height, nx, ny) == []
  {
    if InCanvas(width, height, nx, ny) {
      RowMajorBound(width, height, nx, ny);
    }
  }

  /**
   * Red bytes of the in-canvas pixels (x + dx, ny) for -b <= dx < dxTo,
   * left to right: one row of the window, as far as the inner loop got.
   */
  function RowSamples(s: seq<int>, width: int, height: int, x: int, ny: int, b: int, dxTo: int): seq<int>
    requires |s| == 4 * (width * height)
    decreases dxTo + b
  {
    if dxTo <= -b then []
    else RowSamples(s, width, height, x, ny, b, dxTo - 1) + Sample(s, width, height, x + (dxTo - 1), ny)
  }

  /** Samples of the window rows y + dy for -b <= dy < dyTo around (x, y), top to bottom. */
  function WindowRows(s: seq<int>, width: int, height: int, x: int, y: int, b: int, dyTo: int): seq<int>
    requires |s| == 4 * (width * height)
    decreases dyTo + b
  {
    if dyTo <= -b then []
    else WindowRows(s, width, height, x, y, b, dyTo - 1) + RowSamples(s, width, height, x, y + (dyTo - 1), b, b + 1)
  }

  /** The red bytes calculateBlurredPixel adds up for pixel (x, y) and radius b. */
  function Window(s: seq<int>, width: int, height: int, x: int, y: int, b: int): seq<int>
    requires |s| == 4 * (width * height)
  {
    WindowRows(s, width, height, x, y, b, b + 1)
  }

  /** The two accumulators of calculateBlurredPixel: the running sum and the number of samples. */
  datatype Tally = Tally(sum: int, count: int)

  /** The accumulators once the inner loop has visited -b <= dx < dxTo of row ny. */
  function RowTally(s: seq<int>, width: int, height: int, x: int, ny: int, b: int, dxTo: int): Tally
    requires |s| == 4 * (width * height)
    decreases dxTo + b
  {
    if dxTo <= -b then Tally(0, 0)
    else
      var t := RowTally(s, width, height, x, ny, b, dxTo - 1);
      var nx := x + (dxTo - 1);
      if InCanvas(width, height, nx, ny) then
        RowMajorBound(width, height, nx, ny);
        Tally(t.sum + s[(ny * width + nx) * 4], t.count + 1)
      else t
  }

  /** The accumulators once the outer loop has visited the rows y + dy for -b <= dy < dyTo. */
  function WindowTally(s: seq<int>, width: int, height: int, x: int, y: int, b: int, dyTo: int): Tally
    requires |s| == 4 * (width * height)
    decreases dyTo + b
  {
    if dyTo <= -b then Tally(0, 0)
    else
      var t := WindowTally(s, width, height, x, y, b, dyTo - 1);
      var row := RowTally(s, width, height, x, y + (dyTo - 1), b, b + 1);
      Tally(t.sum + row.sum, t.count + row.count)
  }

  /** The accumulators of a row are the sum and the number of its samples. */
  lemma {:induction false} RowTallyCounts(s: seq<int>, width: int, height: int, x: int, ny: int, b: int, dxTo: int)
    requires |s| == 4 * (width * height)
    ensures RowTally(s, width, height, x, ny, b, dxTo) ==
      Tally(Sum(RowSamples(s, width, height, x, ny, b, dxTo)), |RowSamples(s, width, height, x, ny, b, dxTo)|)
    decreases dxTo + b
  {
    if -b < dxTo {
      RowTallyCounts(s, width, height, x, ny, b, dxTo - 1);
      SampleAt(s, width, height, x + (dxTo - 1), ny);
      SumAppend(RowSamples(s, width, height, x, ny, b, dxTo - 1), Sample(s, width, height, x + (dxTo - 1), ny));
    }
  }

  /** The accumulators of the window are the sum and the number of its samples. */
  lemma {:induction false} WindowTallyCounts(s: seq<int>, width: int, height: int, x: int, y: int, b: int, dyTo: int)
    requires |s| == 4 * (width * height)
    ensures WindowTally(s, width, height, x, y, b, dyTo) ==
      Tally(Sum(WindowRows(s, width, height, x, y, b, dyTo)), |WindowRows(s, width, height, x, y, b, dyTo)|)
    decreases dyTo + b
  {
    if -b < dyTo {
      WindowTallyCounts(s, width, height, x, y, b, dyTo - 1);
      RowTallyCounts(s, width, height, x, y + (dyTo - 1), b, b + 1);
      SumAppend(WindowRows(s, width, height, x, y, b, dyTo - 1), RowSamples(s, width, height, x, y + (dyTo - 1), b, b + 1));
    }
  }

  lemma {:induction false} RowSamplesBounds(s: seq<int>, width: int, height: int, x: int, ny: int, b: int, dxTo: int)
    requires |s| == 4 * (width * height) && -b <= dxTo
    ensures |RowSamples(s, width, height, x, ny, b, dxTo)| <= dxTo + b
    ensures 0 <= b && 0 < dxTo && InCanvas(width, height, x, ny) ==> 1 <= |RowSamples(s, width, height, x, ny, b, dxTo)|
    decreases dxTo + b
  {
    if -b < dxTo {
      RowSamplesBounds(s, width, height, x, ny, b, dxTo - 1);
      SampleAt(s, width, height, x + (dxTo - 1), ny);
    }
  }

  lemma {:induction false} WindowRowsBounds(s: seq<int>, width: int, height: int, x: int, y: int, b: int, dyTo: int)
    requires |s| == 4 * (width * height) && 0 <= b && -b <= dyTo
    ensures |WindowRows(s, width, height, x, y, b, dyTo)| <= (dyTo + b) * (2 * b + 1)
    ensures InCanvas(width, height, x, y) && 0 < dyTo ==> 1 <= |WindowRows(s, width, height, x, y, b, dyTo)|
    decreases dyTo + b
  {
    if -b < dyTo {
      WindowRowsBounds(s, width, height, x, y, b, dyTo - 1);
      RowSamplesBounds(s, width, height, x, y + (dyTo - 1), b, b + 1);
      MulSucc(dyTo - 1 + b, 2 * b + 1);
    }
  }

  /**
   * The window of an in-canvas pixel with radius b >= 0 has between 1 and
   * (2b+1)² samples, so calculateBlurredPixel never divides by zero.
   */
  lemma WindowCount(s: seq<int>, width: int, height: int, x: int, y: int, b: int)
    requires |s| == 4 * (width * height) && 0 <= b && InCanvas(width, height, x, y)
    ensures 1 <= |Window(s, width, height, x, y, b)| <= (2 * b + 1) * (2 * b + 1)
  {
    WindowRowsBounds(s, width, height, x, y, b, b + 1);
  }

  /**
   * What the two loops of calculateBlurredPixel accumulate: the sum and the
   * number of the window's samples, at least one and at most (2b+1)² of
   * them for an in-canvas pixel and b >= 0.
   */
  lemma WindowTallyMeaning(s: seq<int>, width: int, height: int, x: int, y: int, b: int)
    requires |s| == 4 * (width * height)
    ensures WindowTally(s, width, height, x, y, b, b + 1) == Tally(Sum(Window(s, width, height, x, y, b)), |Window(s, width, height, x, y, b)|)
    ensures 0 <= b && InCanvas(width, height, x, y) ==>
      1 <= |Window(s, width, height, x, y, b)| <= (2 * b + 1) * (2 * b + 1)
  {
    WindowTallyCounts(s, width, height, x, y, b, b + 1);
    if 0 <= b && InCanvas(width, height, x, y) {
      WindowCount(s, width, height, x, y, b);
    }
  }

  /** A negative radius gives an empty window: both loops of calculateBlurredPixel are skipped. */
  lemma NegativeRadiusWindow(s: seq<int>, width: int, height: int, x: int, y: int, b: int)
    requires |s| == 4 * (width * height) && b < 0
    ensures Window(s, width, height, x, y, b) == []
  {
  }

  lemma {:induction false} RowSamplesBytes(s: seq<int>, width: int, height: int, x: int, ny: int, b: int, dxTo: int)
    requires |s| == 4 * (width * height) && AllBytes(s)
    ensures AllBytes(RowSamples(s, width, height, x, ny, b, dxTo))
    decreases dxTo + b
  {
    if -b < dxTo {
      RowSamplesBytes(s, width, height, x, ny, b, dxTo - 1);
    }
  }

  lemma {:induction false} WindowRowsBytes(s: seq<int>, width: int, height: int, x: int, y: int, b: int, dyTo: int)
    requires |s| == 4 * (width * height) && AllBytes(s)
    ensures AllBytes(WindowRows(s, width, height, x, y, b, dyTo))
    decreases dyTo + b
  {
    if -b < dyTo {
      WindowRowsBytes(s, width, height, x, y, b, dyTo - 1);
      RowSamplesBytes(s, width, height, x, y + (dyTo - 1), b, b + 1);
    }
  }

  /** The byte stored for pixel (x, y): the rounded mean of its window. */
  function BlurredByte(s: seq<int>, width: int, height: int, x: int, y: int, b: int): int
    requires |s| == 4 * (width * height)
  {
    var w := Window(s, width, height, x, y, b);
    ClampedMean(Sum(w), |w|)
  }

  /**
   * The blurred byte of an in-canvas pixel lies between the smallest and
   * the largest red byte of its window.
   */
  lemma BlurredByteWithinWindow(s: seq<int>, width: int, height: int, x: int, y: int, b: int)
    requires |s| == 4 * (width * height) && AllBytes(s) && 0 <= b && InCanvas(width, height, x, y)
    ensures |Window(s, width, height, x, y, b)| > 0
    ensures SeqMin(Window(s, width, height, x, y, b)) <= BlurredByte(s, width, height, x, y, b)
                                                      <= SeqMax(Window(s, width, height, x, y, b))
  {
    var w := Window(s, width, height, x, y, b);
    WindowCount(s, width, height, x, y, b);
    WindowRowsBytes(s, width, height, x, y, b, b + 1);
    var lo, hi := SeqMin(w), SeqMax(w);
    SumBetween(w, lo, hi);
    ClampedMeanBetween(Sum(w), |w|, lo, hi);
  }

  // ---------------------------------------------------------------------
  // applyBlur.

  /** Byte j of the buffer after applyBlur with radius b != 0. */
  function BlurredAt(s: seq<int>, width: int, height: int, b: int, j: int): int
    requires 0 <= width && |s| == 4 * (width * height) && 0 <= j < |s|
  {
    if j % 4 == 3 then s[j]
    else
      var p := j / 4;
      BlurredByte(s, width, height, p % width, p / width, b)
  }

  /** The buffer after applyBlur(data, b): untouched when b is 0. */
  function Blurred(s: seq<int>, width: int, height: int, b: int): seq<int>
    requires 0 <= width && |s| == 4 * (width * height)
  {
    if b == 0 then s
    else seq(|s|, j requires 0 <= j < |s| => BlurredAt(s, width, height, b, j))
  }


  /** Division by d > 0 has one quotient and one remainder. */
  lemma DivModUnique(n: int, d: int, q: int, r: int)
    requires 0 < d && 0 <= r < d && n == q * d + r
    ensures n / d == q && n % d == r
  {
    var q', r' := Quotient(n, d);
    MulSucc(q, d);
    MulSucc(q', d);
    if q < q' {
      MulMonotone(q + 1, q', d);
      assert false;
    }
    if q' < q {
      MulMonotone(q' + 1, q, d);
      assert false;
    }
  }

  /** Row y of a width x height canvas ends at pixel y*width + width, within the canvas. */
  lemma RowEnd(width: int, height: int, y: int)
    requires 0 <= width && 0 <= y < height
    ensures 0 <= y * width && y * width + width <= width * height
  {
    MulNonNegative(y, width);
    MulMonotone(y + 1, height, width);
    MulSucc(y, width);
  }

  /** Byte c of pixel p sits at 4*p + c. */
  lemma ByteOfPixel(p: int, c: int)
    requires 0 <= c < 4
    ensures (p * 4 + c) % 4 == c && (p * 4 + c) / 4 == p
  {
    DivModUnique(p * 4 + c, 4, p, c);
  }

  /** Byte j belongs to the pixel whose red byte is j - j % 4. */
  lemma RedByteOf(j: int)
    requires 0 <= j
    ensures var red := j - j % 4; 0 <= red <= j && red % 4 == 0 && red / 4 == j / 4
  {
    ByteOfPixel(j / 4, 0);
  }

  /** Pixel (x, y) is number y*width + x in row-major order, and back. */
  lemma PixelIndex(width: int, height: int, x: int, y: int)
    requires InCanvas(width, height, x, y)
    ensures 0 <= y * width + x < width * height
    ensures (y * width + x) % width == x && (y * width + x) / width == y
  {
    RowMajorBound(width, height, x, y);
    DivModUnique(y * width + x, width, y, x);
  }

  /** Byte c of pixel p = (x, y) after applyBlur: the blurred byte for R, G and B, the old byte for alpha. */
  lemma BlurredAtByte(s: seq<int>, width: int, height: int, b: int, x: int, y: int, p: int, c: int)
    requires 0 <= width && |s| == 4 * (width * height) && 0 <= p < width * height
    requires p % width == x && p / width == y && 0 <= c < 4
    ensures BlurredAt(s, width, height, b, p * 4 + c) == if c == 3 then s[p * 4 + 3] else BlurredByte(s, width, height, x, y, b)
  {
    ByteOfPixel(p, c);
  }

  /** Where applyBlur writes pixel p = (x, y): its four bytes and what BlurredAt says of them. */
  lemma BlurredAtPixel(s: seq<int>, width: int, height: int, b: int, x: int, y: int, p: int)
    requires 0 <= width && |s| == 4 * (width * height) && InCanvas(width, height, x, y) && p == y * width + x
    ensures 0 <= p * 4 && p * 4 + 3 < |s|
    ensures BlurredAt(s, width, height, b, p * 4) == BlurredByte(s, width, height, x, y, b)
    ensures BlurredAt(s, width, height, b, p * 4 + 1) == BlurredByte(s, width, height, x, y, b)
    ensures BlurredAt(s, width, height, b, p * 4 + 2) == BlurredByte(s, width, height, x, y, b)
    ensures BlurredAt(s, width, height, b, p * 4 + 3) == s[p * 4 + 3]
  {
    PixelIndex(width, height, x, y);
    BlurredAtByte(s, width, height, b, x, y, p, 0);
    BlurredAtByte(s, width, height, b, x, y, p, 1);
    BlurredAtByte(s, width, height, b, x, y, p, 2);
    BlurredAtByte(s, width, height, b, x, y, p, 3);
  }

  /**
   * After applyBlur with b != 0, every pixel is gray (R = G = B, the
   * rounded window mean) and keeps its alpha byte; with b = 0 the buffer
   * is unchanged. A byte buffer stays a byte buffer.
   */
  lemma BlurredGrayAndAlpha(s: seq<int>, width: int, height: int, b: int)
    requires 0 <= width && |s| == 4 * (width * height) && AllBytes(s)
    ensures |Blurred(s, width, height, b)| == |s| && AllBytes(Blurred(s, width, height, b))
    ensures forall j :: 0 <= j < |s| && j % 4 == 3 ==> Blurred(s, width, height, b)[j] == s[j]
    ensures b != 0 ==> forall j :: 0 <= j < |s| && j % 4 != 3 ==>
      Blurred(s, width, height, b)[j] == Blurred(s, width, height, b)[j - j % 4]
    ensures b == 0 ==> Blurred(s, width, height, b) == s
  {
    BlurredKeepsAlpha(s, width, height, b);
    if b != 0 {
      BlurredIsGray(s, width, height, b);
    }
  }

  /** A blurred byte buffer is a byte buffer of the same length with the same alpha bytes. */
  lemma BlurredKeepsAlpha(s: seq<int>, width: int, height: int, b: int)
    requires 0 <= width && |s| == 4 * (width * height) && AllBytes(s)
    ensures |Blurred(s, width, height, b)| == |s| && AllBytes(Blurred(s, width, height, b))
    ensures forall j :: 0 <= j < |s| && j % 4 == 3 ==> Blurred(s, width, height, b)[j] == s[j]
  {
  }

  /** With b != 0 the three colour bytes of every pixel are equal. */
  lemma BlurredIsGray(s: seq<int>, width: int, height: int, b: int)
    requires 0 <= width && |s| == 4 * (width * height) && b != 0
    ensures forall j :: 0 <= j < |s| && j % 4 != 3 ==>
      Blurred(s, width, height, b)[j] == Blurred(s, width, height, b)[j - j % 4]
  {
    var r := Blurred(s, width, height, b);
    forall j | 0 <= j < |s| && j % 4 != 3
      ensures r[j] == r[j - j % 4]
    {
      RedByteOf(j);
      var red := j - j % 4;
      assert r[j] == BlurredAt(s, width, height, b, j);
      assert r[red] == BlurredAt(s, width, height, b, red);
    }
  }

  // ---------------------------------------------------------------------
  // applyThreshold.

  /**
   * The buffer after applyThreshold(data, threshold): each pixel's R, G
   * and B become 0 when its red byte is below the threshold and 255
   * otherwise; alpha bytes are kept.
   */
  function Thresholded(s: seq<int>, threshold: real): (r: seq<int>)
    ensures |r| == |s|
  {
    seq(|s|, j requires 0 <= j < |s| =>
      if j % 4 == 3 then s[j] else if (s[j - j % 4] as real) < threshold then 0 else 255)
  }

  /**
   * Thresholding leaves a black-and-white picture that a second pass with
   * the same threshold does not change: for a threshold in (0, 255] black
   * and white are kept, above 255 the first pass already made every pixel
   * black and at or below 0 every pixel white.
   */
  lemma ThresholdIdempotent(s: seq<int>, threshold: real)
    requires AllBytes(s)
    ensures Thresholded(Thresholded(s, threshold), threshold) == Thresholded(s, threshold)
  {
    var once := Thresholded(s, threshold);
    var twice := Thresholded(once, threshold);
    forall j | 0 <= j < |s|
      ensures twice[j] == once[j]
    {
      RedByteOf(j);
      assert IsByte(s[j - j % 4]);
    }
  }

  /** Pixel q of d is pixel q of s thresholded. */
  ghost predicate PixelThresholded(s: seq<int>, d: seq<int>, threshold: real, q: int)
    requires 0 <= q && q * 4 + 3 < |s| && |d| == |s|
  {
    var v := if (s[q * 4] as real) < threshold then 0 else 255;
    d[q * 4] == v && d[q * 4 + 1] == v && d[q * 4 + 2] == v && d[q * 4 + 3] == s[q * 4 + 3]
  }

  /** A buffer whose every pixel is thresholded is the thresholded buffer. */
  lemma ThresholdedByPixels(s: seq<int>, d: seq<int>, threshold: real)
    requires |d| == |s| && |s| % 4 == 0
    requires forall q :: 0 <= q < |s| / 4 ==> PixelThresholded(s, d, threshold, q)
    ensures d == Thresholded(s, threshold)
  {
    forall j | 0 <= j < |s|
      ensures d[j] == Thresholded(s, threshold)[j]
    {
      var q := j / 4;
      assert PixelThresholded(s, d, threshold, q);
      ByteOfPixel(q, j % 4);
    }
  }

  /** After thresholding, every colour byte is 0 or 255, and 0 exactly when its pixel's red byte was below the threshold. */
  lemma ThresholdBinary(s: seq<int>, threshold: real)
    ensures forall j :: 0 <= j < |s| && j % 4 != 3 ==>
      (Thresholded(s, threshold)[j] == 0 <==> (s[j - j % 4] as real) < threshold) &&
      (Thresholded(s, threshold)[j] == 0 || Thresholded(s, threshold)[j] == 255)
    ensures forall j :: 0 <= j < |s| && j % 4 == 3 ==> Thresholded(s, threshold)[j] == s[j]
  {
  }

  // ---------------------------------------------------------------------
  // calculateImageStats.

  /** The red byte of every pixel the stride-4 loop visits. */
  function Reds(s: seq<int>): (r: seq<int>)
    ensures |r| == (|s| + 3) / 4
    ensures forall k :: 0 <= k < |r| ==> 4 * k < |s| && r[k] == s[4 * k]
  {
    seq((|s| + 3) / 4, k requires 0 <= k < (|s| + 3) / 4 => s[4 * k])
  }

  /** Math.ceil on an exact real. */
  function Ceiling(v: real): (c: int)
    ensures v <= c as real < v + 1.0
  {
    -((-v).Floor)
  }

  /** The recommended dot count: ceil(share × MAX_DOT_COUNT). */
  function RecommendedDots(share: real): (n: int)
    ensures 0.0 <= share <= 1.0 ==> 0 <= n <= MaxDotCount
  {
    Ceiling(share * MaxDotCount as real)
  }

  /** blackPixels / totalPixels is a share in [0, 1]. */
  lemma ShareOfPixels(part: int, total: int)
    requires 0 <= part <= total && 0 < total
    ensures 0.0 <= part as real / total as real <= 1.0
  {
    assert part as real <= total as real;
  }

  /**
   * ImageStats. A division of blackPixels by a totalPixels of 0 gives
   * Infinity or NaN in the source; the model says None for both.
   */
  datatype ImageStats = ImageStats(blackPixels: nat, totalPixels: int,
                                   blackPercentage: Option<real>, recommendedDotCount: Option<int>)

  // ---------------------------------------------------------------------

  class ImageProcessor {
    var width: int
    var height: int

    /** new ImageProcessor(ctx, width, height); the canvas context is not modelled. */
    constructor (width: int, height: int)
      ensures this.width == width && this.height == height
    {
      this.width := width;
      this.height := height;
    }

    /** resize(width, height): the dimensions getDimensions reports from now on. */
    method Resize(width: int, height: int)
      modifies this
      ensures this.width == width && this.height == height
    {
      this.width := width;
      this.height := height;
    }

    /** getDimensions(): the current width and height, changing nothing. */
    method GetDimensions() returns (width: int, height: int)
      ensures width == this.width && height == this.height
    {
      width, height := this.width, this.height;
    }

    /**
     * applyThreshold(data, threshold) in place. The buffer is an ImageData
     * array, so its length is a multiple of 4.
     */
    method ApplyThreshold(data: array<int>, threshold: real)
      requires data.Length % 4 == 0
      modifies data
      ensures data[..] == Thresholded(old(data[..]), threshold)
    {
      ghost var s := data[..];
      ghost var p := 0;
      var i := 0;
      while i < data.Length
        invariant 0 <= p && i == p * 4 && i <= data.Length
        invariant forall q :: 0 <= q < p ==> PixelThresholded(s, data[..], threshold, q)
        invariant forall j :: i <= j < data.Length ==> data[j] == s[j]
      {
        ghost var before := data[..];
        ThresholdPixel(data, i, threshold);
        forall q | 0 <= q < p
          ensures PixelThresholded(s, data[..], threshold, q)
        {
          assert PixelThresholded(s, before, threshold, q);
        }
        assert PixelThresholded(s, data[..], threshold, p);
        i := i + 4;
        p := p + 1;
      }
      ThresholdedByPixels(s, data[..], threshold);
    }

    /** One pixel of applyThreshold: the three colour bytes become 0 or 255, alpha stays. */
    static method ThresholdPixel(data: array<int>, i: int, threshold: real)
      requires 0 <= i && i + 4 <= data.Length
      modifies data
      ensures var v := if (old(data[i]) as real) < threshold then 0 else 255;
        data[i] == v && data[i + 1] == v && data[i + 2] == v
      ensures forall j :: 0 <= j < data.Length && (j < i || i + 2 < j) ==> data[j] == old(data[j])
    {
      var value := if (data[i] as real) < threshold then 0 else 255;
      data[i], data[i + 1], data[i + 2] := value, value, value;
    }

    /**
     * calculateBlurredPixel(data, x, y, blurAmount): the sum and the count
     * of the in-canvas red bytes in the window; the source returns
     * sum / count.
     */
    method CalculateBlurredPixel(data: array<int>, x: int, y: int, blurAmount: int) returns (sum: int, count: int)
      requires data.Length == 4 * (width * height)
      ensures sum == Sum(Window(data[..], width, height, x, y, blurAmount))
      ensures count == |Window(data[..], width, height, x, y, blurAmount)|
      ensures 0 <= blurAmount && InCanvas(width, height, x, y) ==> 1 <= count <= (2 * blurAmount + 1) * (2 * blurAmount + 1)
    {
      sum, count := 0, 0;
      var dy := -blurAmount;
      while dy <= blurAmount
        invariant -blurAmount <= dy && (dy <= blurAmount + 1 || dy == -blurAmount)
        invariant Tally(sum, count) == WindowTally(data[..], width, height, x, y, blurAmount, dy)
      {
        var rowSum, rowCount := SumRow(data, x, y + dy, blurAmount);
        sum, count := sum + rowSum, count + rowCount;
        dy := dy + 1;
      }
      assert Tally(sum, count) == WindowTally(data[..], width, height, x, y, blurAmount, blurAmount + 1);
      WindowTallyMeaning(data[..], width, height, x, y, blurAmount);
    }

    /** The inner loop of calculateBlurredPixel: the accumulators of one row of the window. */
    method SumRow(data: array<int>, x: int, ny: int, blurAmount: int) returns (sum: int, count: int)
      requires data.Length == 4 * (width * height)
      ensures Tally(sum, count) == RowTally(data[..], width, height, x, ny, blurAmount, blurAmount + 1)
    {
      sum, count := 0, 0;
      var dx := -blurAmount;
      while dx <= blurAmount
        invariant -blurAmount <= dx && (dx <= blurAmount + 1 || dx == -blurAmount)
        invariant Tally(sum, count) == RowTally(data[..], width, height, x, ny, blurAmount, dx)
      {
        var nx := x + dx;
        if nx >= 0 && nx < width && ny >= 0 && ny < height {
          RowMajorBound(width, height, nx, ny);
          var i := (ny * width + nx) * 4;
          sum := sum + data[i];
          count := count + 1;
        }
        dx := dx + 1;
      }
    }

    /**
     * applyBlur(data, blurAmount) in place: nothing happens for 0;
     * otherwise every pixel is written from the unblurred buffer into a
     * zeroed copy, which is then copied back.
     */
    method ApplyBlur(data: array<int>, blurAmount: int)
      requires 0 <= width && 0 <= height && data.Length == 4 * (width * height)
      modifies data
      ensures data[..] == Blurred(old(data[..]), width, height, blurAmount)
    {
      if blurAmount == 0 {
        return;
      }
      ghost var s := data[..];
      var tempData := new int[data.Length](_ => 0);
      var y := 0;
      while y < height
        invariant 0 <= y <= height && data[..] == s
        invariant forall j :: 0 <= j < y * width * 4 ==> tempData[j] == BlurredAt(s, width, height, blurAmount, j)
        modifies tempData
      {
        RowEnd(width, height, y);
        BlurRow(data, tempData, y, blurAmount, s);
        MulSucc(y, width);
        y := y + 1;
      }
      assert height * width == width * height;
      assert tempData[..] == Blurred(s, width, height, blurAmount);
      CopyBack(tempData, data);
    }

    /** The last loop of applyBlur: data[i] = tempData[i] for every i. */
    static method CopyBack(tempData: array<int>, data: array<int>)
      requires tempData != data && tempData.Length == data.Length
      modifies data
      ensures data[..] == tempData[..]
    {
      var i := 0;
      while i < data.Length
        invariant 0 <= i <= data.Length
        invariant forall j :: 0 <= j < i ==> data[j] == tempData[j]
      {
        data[i] := tempData[i];
        i := i + 1;
      }
    }

    /** The inner loop of applyBlur: row y of the blurred copy, from the unblurred buffer. */
    method BlurRow(data: array<int>, tempData: array<int>, y: int, blurAmount: int, ghost s: seq<int>)
      requires 0 <= width && 0 <= y < height && data.Length == 4 * (width * height) && data[..] == s
      requires tempData != data && tempData.Length == data.Length && (y * width + width) * 4 <= data.Length
      requires forall j :: 0 <= j < y * width * 4 ==> tempData[j] == BlurredAt(s, width, height, blurAmount, j)
      modifies tempData
      ensures forall j :: 0 <= j < (y * width + width) * 4 ==> tempData[j] == BlurredAt(s, width, height, blurAmount, j)
    {
      RowEnd(width, height, y);
      var x := 0;
      while x < width
        invariant 0 <= x <= width && data[..] == s
        invariant forall j :: 0 <= j < (y * width + x) * 4 ==> tempData[j] == BlurredAt(s, width, height, blurAmount, j)
      {
        BlurPixel(data, tempData, x, y, blurAmount, s);
        x := x + 1;
      }
    }

    /** One pass of the inner loop of applyBlur: the four bytes of pixel (x, y) in the blurred copy. */
    method BlurPixel(data: array<int>, tempData: array<int>, x: int, y: int, blurAmount: int, ghost s: seq<int>)
      requires 0 <= width && InCanvas(width, height, x, y) && data.Length == 4 * (width * height) && data[..] == s
      requires tempData != data && tempData.Length == data.Length
      modifies tempData
      ensures (y * width + x) * 4 + 4 <= tempData.Length
      ensures forall j :: (y * width + x) * 4 <= j < (y * width + x) * 4 + 4 ==>
        tempData[j] == BlurredAt(s, width, height, blurAmount, j)
      ensures forall j :: 0 <= j < tempData.Length && !((y * width + x) * 4 <= j < (y * width + x) * 4 + 4) ==>
        tempData[j] == old(tempData[j])
    {
      var sum, count := CalculateBlurredPixel(data, x, y, blurAmount);
      var i := (y * width + x) * 4;
      BlurredAtPixel(s, width, height, blurAmount, x, y, y * width + x);
      var stored := ClampedMean(sum, count);
      tempData[i] := stored;
      tempData[i + 1] := stored;
      tempData[i + 2] := stored;
      tempData[i + 3] := data[i + 3];
    }

    /**
     * calculateImageStats(imageData): the number of visited pixels whose
     * red byte is 0, the processor's width × height, their ratio and the
     * dot count it recommends.
     */
    method CalculateImageStats(img: Image) returns (stats: ImageStats)
      ensures stats.blackPixels == multiset(Reds(img.data))[0] <= |Reds(img.data)|
      ensures stats.totalPixels == width * height
      ensures stats.totalPixels != 0 ==>
        && stats.blackPercentage == Some(stats.blackPixels as real / stats.totalPixels as real)
        && stats.recommendedDotCount == Some(RecommendedDots(stats.blackPixels as real / stats.totalPixels as real))
      ensures stats.totalPixels == 0 ==> stats.blackPercentage.None? && stats.recommendedDotCount.None?
      ensures 0 < stats.totalPixels && stats.blackPixels <= stats.totalPixels ==>
        0 <= stats.recommendedDotCount.value <= MaxDotCount
    {
      var data := img.data;
      var totalPixels := width * height;
      var blackPixels := 0;
      ghost var reds := Reds(data);
      ghost var k := 0;
      var i := 0;
      while i < |data|
        invariant 0 <= k <= |reds| && i == 4 * k
        invariant blackPixels == multiset(reds[..k])[0] && blackPixels <= k
      {
        assert reds[..k + 1] == reds[..k] + [data[i]];
        if data[i] == 0 {
          blackPixels := blackPixels + 1;
        }
        i := i + 4;
        k := k + 1;
      }
      assert reds[..k] == reds;
      if totalPixels == 0 {
        stats := ImageStats(blackPixels, totalPixels, None, None);
      } else {
        var blackPercentage := blackPixels as real / totalPixels as real;
        if 0 < totalPixels && blackPixels <= totalPixels {
          ShareOfPixels(blackPixels, totalPixels);
        }
        stats := ImageStats(blackPixels, totalPixels, Some(blackPercentage), Some(RecommendedDots(blackPercentage)));
      }
    }
  }
}
