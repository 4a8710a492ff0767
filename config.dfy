/** Tuning constants of the stippling engine (src/utils/config.ts). */
module Config {
  const DefaultPopulationSize: nat := 100
  const DefaultMutationRate: real := 0.2
  const DefaultDotCount: nat := 50000
  const ElitismRatio: real := 0.7
  const DefaultBlur: int := 0
  const DefaultThreshold: int := 130
  /** Cap used when recommending a dot count from the black-pixel share. */
  const MaxDotCount: nat := 200000

  /** Dot count used by the older revisions when none is given. */
  const LegacyDotCount: nat := 50000
  /** Number of leading dots the older revisions' crossover rewrites. */
  const LegacyCrossoverDots: nat := 10000
}

/** The browser's ImageData, reduced to what the engine reads. */
module Images {
  /** A byte: the value range of Uint8Array and Uint8ClampedArray cells. */
  predicate IsByte(v: int) { 0 <= v <= 255 }

  predicate AllBytes(s: seq<int>) { forall i :: 0 <= i < |s| ==> IsByte(s[i]) }

  /** RGBA pixels, row-major, four bytes per pixel. */
  datatype Image = Image(width: int, height: int, data: seq<int>)

  /**
   * What the platform guarantees of an ImageData: both dimensions are at
   * least 1 (the constructor throws otherwise) and data holds 4*width*height bytes.
   */
  predicate ValidImage(img: Image) {
    && 1 <= img.width && 1 <= img.height
    && |img.data| == 4 * (img.width * img.height)
    && AllBytes(img.data)
  }

  /** Red byte of pixel (x, y). */
  function Red(img: Image, x: int, y: int): int
    requires ValidImage(img) && 0 <= x < img.width && 0 <= y < img.height
  {
    RowMajorBound(img.width, img.height, x, y);
    img.data[4 * (y * img.width + x)]
  }

  /** Row-major index y*width+x of an in-range pixel lies in [0, width*height). */
  lemma RowMajorBound(width: int, height: int, x: int, y: int)
    requires 0 <= x < width && 0 <= y < height
    ensures 0 <= y * width + x < width * height
  {
    assert y * width <= (height - 1) * width by {
      assert (height - 1 - y) * width >= 0;
    }
  }

  /** Multiplying by a non-negative factor keeps order. */
  lemma MulMonotone(a: int, b: int, w: int)
    requires a <= b && 0 <= w
    ensures a * w <= b * w
  {
    assert b * w - a * w == (b - a) * w;
  }
}
