/** The power-of-two downsampling factor that `ImageProcessor.calculateInSampleSize`
    computes from the probed bounds of an image and the maximum dimension. */
module SampleSize {

  /** The bounds a bounds-only decode leaves in `BitmapFactory.Options`
      (`outWidth`, `outHeight`); both are -1 when the header cannot be read. */
  datatype Bounds = Bounds(outWidth: int, outHeight: int)

  /** Java's `/` on `int` for a positive divisor: it truncates toward zero,
      where Dafny's `/` is Euclidean. */
  function JavaDiv(a: int, b: int): (q: int)
    requires b > 0
    ensures a >= 0 ==> q == a / b
    ensures a <= 0 ==> q <= 0
  {
    if a >= 0 then a / b else -((-a) / b)
  }

  predicate IsPowerOfTwo(n: int)
    decreases n
  {
    n == 1 || (n > 1 && n % 2 == 0 && IsPowerOfTwo(n / 2))
  }

  /** The loop guard: both halved dimensions divided by `n` still reach the maximum. */
  predicate HalvesKept(halfHeight: int, halfWidth: int, maxDimension: int, n: int)
    requires n > 0
  {
    JavaDiv(halfHeight, n) >= maxDimension && JavaDiv(halfWidth, n) >= maxDimension
  }

  /** Whenever the guard holds at `n`, `n` is no larger than either halved dimension,
      so the doubling cannot go on for ever. */
  lemma GuardBoundsFactor(halfHeight: int, halfWidth: int, maxDimension: int, n: int)
    requires maxDimension > 0 && n > 0
    requires HalvesKept(halfHeight, halfWidth, maxDimension, n)
    ensures n <= halfHeight && n <= halfWidth
  {
  }

  /** The value the doubling loop stops at when it starts from `n`. */
  function DoubleWhileKept(halfHeight: int, halfWidth: int, maxDimension: int, n: int): int
    requires maxDimension > 0 && n > 0
    decreases halfHeight - n
  {
    if HalvesKept(halfHeight, halfWidth, maxDimension, n) then
      GuardBoundsFactor(halfHeight, halfWidth, maxDimension, n);
      DoubleWhileKept(halfHeight, halfWidth, maxDimension, 2 * n)
    else
      n
  }

  predicate Fits(bounds: Bounds, maxDimension: int)
  {
    bounds.outHeight <= maxDimension && bounds.outWidth <= maxDimension
  }

  /** The factor `calculateInSampleSize` returns, as a function of its inputs. */
  function InSampleSize(bounds: Bounds, maxDimension: int): (n: int)
    requires maxDimension > 0
    ensures IsPowerOfTwo(n) && n >= 1
    ensures !HalvesKept(JavaDiv(bounds.outHeight, 2), JavaDiv(bounds.outWidth, 2), maxDimension, n)
  {
    if !Fits(bounds, maxDimension) then
      DoubleWhileKeptStops(JavaDiv(bounds.outHeight, 2), JavaDiv(bounds.outWidth, 2), maxDimension, 1);
      DoubleWhileKept(JavaDiv(bounds.outHeight, 2), JavaDiv(bounds.outWidth, 2), maxDimension, 1)
    else
      1
  }

  /** The loop guard in terms of the probed bounds. */
  predicate GuardHolds(bounds: Bounds, maxDimension: int, n: int)
    requires n > 0
  {
    HalvesKept(JavaDiv(bounds.outHeight, 2), JavaDiv(bounds.outWidth, 2), maxDimension, n)
  }

  /** An independent description of the result: the smallest power of two at which
      the loop guard fails, i.e. one at which it fails while it holds at every
      smaller power of two. */
  predicate IsSmallestFailingPower(bounds: Bounds, maxDimension: int, n: int)
  {
    IsPowerOfTwo(n) && n > 0 &&
    !GuardHolds(bounds, maxDimension, n) &&
    forall p :: IsPowerOfTwo(p) && 0 < p < n ==> GuardHolds(bounds, maxDimension, p)
  }

  /** The imperative loop of `calculateInSampleSize`. */
  method CalculateInSampleSize(options: Bounds, maxDimension: int) returns (inSampleSize: int)
    requires maxDimension > 0
    ensures inSampleSize == InSampleSize(options, maxDimension)
  {
    var height := options.outHeight;
    var width := options.outWidth;
    inSampleSize := 1;
    if height > maxDimension || width > maxDimension {
      var halfHeight := JavaDiv(height, 2);
      var halfWidth := JavaDiv(width, 2);
      while JavaDiv(halfHeight, inSampleSize) >= maxDimension
        && JavaDiv(halfWidth, inSampleSize) >= maxDimension
        invariant inSampleSize > 0
        invariant DoubleWhileKept(halfHeight, halfWidth, maxDimension, inSampleSize)
               == DoubleWhileKept(halfHeight, halfWidth, maxDimension, 1)
        decreases halfHeight - inSampleSize
      {
        GuardBoundsFactor(halfHeight, halfWidth, maxDimension, inSampleSize);
        inSampleSize := inSampleSize * 2;
      }
    }
  }

  // ---------------------------------------------------------------------------
  // Properties of the factor

  lemma DoublePowerOfTwo(n: int)
    requires IsPowerOfTwo(n)
    ensures IsPowerOfTwo(2 * n)
  {
  }

  /** Between `n` and `2 * n` there is no power of two. */
  lemma {:induction false} PowerBelowDouble(p: int, n: int)
    requires IsPowerOfTwo(p) && IsPowerOfTwo(n) && p < 2 * n
    ensures p <= n
  {
    if p != 1 && n != 1 {
      PowerBelowDouble(p / 2, n / 2);
    }
  }

  /** Doubling from a power of two `n`, below which the guard held throughout,
      stops at the first power of two at which it fails. */
  lemma {:induction false} DoubleWhileKeptStops(halfHeight: int, halfWidth: int, maxDimension: int, n: int)
    requires maxDimension > 0 && n > 0 && IsPowerOfTwo(n)
    requires forall p :: IsPowerOfTwo(p) && 0 < p < n ==> HalvesKept(halfHeight, halfWidth, maxDimension, p)
    ensures var r := DoubleWhileKept(halfHeight, halfWidth, maxDimension, n);
      IsPowerOfTwo(r) && r >= n && !HalvesKept(halfHeight, halfWidth, maxDimension, r) &&
      forall p :: IsPowerOfTwo(p) && 0 < p < r ==> HalvesKept(halfHeight, halfWidth, maxDimension, p)
    decreases halfHeight - n
  {
    if HalvesKept(halfHeight, halfWidth, maxDimension, n) {
      GuardBoundsFactor(halfHeight, halfWidth, maxDimension, n);
      DoublePowerOfTwo(n);
      forall p | IsPowerOfTwo(p) && 0 < p < 2 * n
        ensures HalvesKept(halfHeight, halfWidth, maxDimension, p)
      {
        PowerBelowDouble(p, n);
      }
      DoubleWhileKeptStops(halfHeight, halfWidth, maxDimension, 2 * n);
    }
  }

  /** When the image fits, the guard already fails at 1: the outer test of
      `calculateInSampleSize` only spares the loop. */
  lemma FitsFailsGuard(bounds: Bounds, maxDimension: int)
    requires maxDimension > 0 && Fits(bounds, maxDimension)
    ensures !GuardHolds(bounds, maxDimension, 1)
  {
  }

  /** The result is the smallest power of two at which the loop guard fails; in
      particular it is a power of two, at least 1, and 1 when the image fits. */
  lemma InSampleSizeIsSmallestFailingPower(bounds: Bounds, maxDimension: int)
    requires maxDimension > 0
    ensures IsSmallestFailingPower(bounds, maxDimension, InSampleSize(bounds, maxDimension))
    ensures Fits(bounds, maxDimension) ==> InSampleSize(bounds, maxDimension) == 1
  {
    if Fits(bounds, maxDimension) {
      FitsFailsGuard(bounds, maxDimension);
    } else {
      DoubleWhileKeptStops(JavaDiv(bounds.outHeight, 2), JavaDiv(bounds.outWidth, 2), maxDimension, 1);
    }
  }

  /** The description is complete: only the result meets it. */
  lemma SmallestFailingPowerUnique(bounds: Bounds, maxDimension: int, n: int)
    requires maxDimension > 0
    ensures IsSmallestFailingPower(bounds, maxDimension, n) <==> n == InSampleSize(bounds, maxDimension)
  {
    InSampleSizeIsSmallestFailingPower(bounds, maxDimension);
  }

  /** Halving and then dividing by `k` is dividing by `2 * k`, for Java's truncating `/`. */
  lemma HalfThenDivide(a: int, k: int)
    requires k > 0
    ensures JavaDiv(JavaDiv(a, 2), k) == JavaDiv(a, 2 * k)
  {
    if a >= 0 {
      NatHalfThenDivide(a, k);
    } else {
      NatHalfThenDivide(-a, k);
    }
  }

  lemma NatHalfThenDivide(a: int, k: int)
    requires a >= 0 && k > 0
    ensures (a / 2) / k == a / (2 * k)
  {
    var q, r := a / (2 * k), a % (2 * k);
    assert a == 2 * (k * q + r / 2) + r % 2;
    DivUnique(a, 2, k * q + r / 2, r % 2);
    DivUnique(a / 2, k, q, r / 2);
  }

  lemma DivUnique(a: int, d: int, q: int, r: int)
    requires d > 0 && 0 <= r < d && a == d * q + r
    ensures a / d == q
  {
    var q', r' := a / d, a % d;
    assert d * (q - q') == r' - r;
    if q' < q {
      MulAtLeast(d, q - q');
    } else if q < q' {
      MulAtLeast(d, q' - q);
    }
  }

  lemma MulAtLeast(d: int, x: int)
    requires d > 0 && x >= 1
    ensures d * x >= d
  {
  }

  /** What `calculateInSampleSize` promises of its result: it is the largest power
      of two that keeps both dimensions, divided by it, at least the maximum. So
      once the factor exceeds 1, both divided dimensions still reach the maximum,
      doubling it once more would break that for at least one of them, and the
      factor is no larger than either dimension (so `inSampleSize *= 2` never
      overflows a Java `int`). */
  lemma InSampleSizeKeepsDimensions(bounds: Bounds, maxDimension: int)
    requires maxDimension > 0
    ensures var n := InSampleSize(bounds, maxDimension);
      n > 1 ==>
        JavaDiv(bounds.outHeight, n) >= maxDimension &&
        JavaDiv(bounds.outWidth, n) >= maxDimension &&
        (JavaDiv(bounds.outHeight, 2 * n) < maxDimension || JavaDiv(bounds.outWidth, 2 * n) < maxDimension) &&
        n <= bounds.outHeight && n <= bounds.outWidth
    ensures var n := InSampleSize(bounds, maxDimension);
      forall p :: IsPowerOfTwo(p) && p > n ==>
        JavaDiv(bounds.outHeight, p) < maxDimension || JavaDiv(bounds.outWidth, p) < maxDimension
  {
    var n := InSampleSize(bounds, maxDimension);
    InSampleSizeIsSmallestFailingPower(bounds, maxDimension);
    HalfThenDivide(bounds.outHeight, n);
    HalfThenDivide(bounds.outWidth, n);
    forall p | IsPowerOfTwo(p) && p > n
      ensures JavaDiv(bounds.outHeight, p) < maxDimension || JavaDiv(bounds.outWidth, p) < maxDimension
    {
      if p < 2 * n {
        PowerBelowDouble(p, n);
      }
      if JavaDiv(bounds.outHeight, 2 * n) < maxDimension {
        BelowStaysBelow(bounds.outHeight, 2 * n, p, maxDimension);
      } else {
        BelowStaysBelow(bounds.outWidth, 2 * n, p, maxDimension);
      }
    }
    if n > 1 {
      var half := n / 2;
      assert IsPowerOfTwo(half) && 0 < half < n;
      assert GuardHolds(bounds, maxDimension, half);
      assert 2 * half == n;
      HalfThenDivide(bounds.outHeight, half);
      HalfThenDivide(bounds.outWidth, half);
      HalfThenDivide(bounds.outHeight, n);
      HalfThenDivide(bounds.outWidth, n);
      GuardBoundsFactor(JavaDiv(bounds.outHeight, 2), JavaDiv(bounds.outWidth, 2), maxDimension, half);
    }
  }

  /** Dividing by more keeps a quotient that is already below a positive bound below it. */
  lemma BelowStaysBelow(a: int, q: int, p: int, bound: int)
    requires 0 < q <= p && bound > 0 && JavaDiv(a, q) < bound
    ensures JavaDiv(a, p) < bound
  {
    if a >= 0 {
      NatDivAntitone(a, q, p);
    }
  }

  /** For Java's `/` on a non-negative dividend, a larger divisor gives no larger quotient. */
  lemma NatDivAntitone(a: int, q: int, p: int)
    requires a >= 0 && 0 < q <= p
    ensures a / p <= a / q
  {
    var x, y := a / p, a / q;
    assert p * x <= a;
    assert a < q * (y + 1);
    MulMonotone(x, q, p);
    MulCancel(q, x, y + 1);
  }

  lemma MulCancel(q: int, x: int, z: int)
    requires q > 0 && q * x < q * z
    ensures x < z
  {
    if x >= z {
      MulMonotone(q, z, x);
    }
  }

  lemma MulMonotone(x: int, q: int, p: int)
    requires x >= 0 && q <= p
    ensures x * q <= x * p
  {
  }

  /** A 4000 x 3000 image with a maximum of 1024 is decoded at half size. */
  lemma Landscape4000x3000()
    ensures InSampleSize(Bounds(4000, 3000), 1024) == 2
  {
  }

  /** A 500 x 500 image with a maximum of 1024 is not downsampled. */
  lemma Small500x500()
    ensures InSampleSize(Bounds(500, 500), 1024) == 1
  {
  }

  /** An unreadable header (both bounds -1) leads to factor 1. */
  lemma UnreadableBounds(maxDimension: int)
    requires maxDimension > 0
    ensures InSampleSize(Bounds(-1, -1), maxDimension) == 1
  {
  }
}
