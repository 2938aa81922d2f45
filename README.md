# ImageProcessor: a Dafny model

This project models the three parts of `ImageProcessor` in the bitmap-manipulation app that can be stated exactly:

- **`calculateInSampleSize`** (module `SampleSize`). This loop picks the power-of-two
  downsampling factor. It is written as a `while` loop (`CalculateInSampleSize`) and proved
  equal to a recursive specification (`InSampleSize`). That specification is then shown to
  be exactly "the smallest power of two at which the loop guard fails". Java's truncating
  `/` is written out as `JavaDiv`, so the -1 bounds that a failed bounds-only decode
  leaves behind are covered too.
- **The pixel transform of `invert`** (module `InvertFilter`). Colour matrices are
  modelled in Android's 4 x 5 layout over reals: `Apply` is the filter with saturation
  into 0..255, `PreConcat` is the matrix product. The saturation-0 matrix is built from
  three luminance weights that are non-negative and sum to one; their floating-point
  values are not fixed. The model proves that `matrixInvert.preConcat(matrixGrayscale)`
  maps every colour channel to 255 minus the luminance and keeps alpha. On 8-bit pixels
  the gray value is an abstract function, tied to the weights wherever the luminance is
  whole. `Invert` builds a new bitmap value of the same width and height. The source
  bitmap is a value, so it cannot change.
- **The background job of `processImage`** (modules `OutputPath` and `ProcessImage`).
  - Every call from line 69 to line 106 of `ImageProcessor.java` that can fail (stream
    opening, both decodes, the output stream, `compress`, `close`, `addExtraData`) is an
    input that either returns or throws. The result of `mkdirs` (line 61) is a plain
    `bool` input.
  - The job is a method. It records a trace of events: the `compress` call, the callback
    being posted, and the metadata attempt. It also returns the throwable, if any, that
    leaves `doOnBackground`.
  - The `success` flag behaves as in the source. Only `catch (Exception …)` clears it. An
    `Error` (such as `OutOfMemoryError`) is not caught, so the callback still reports
    success, and the `Error` escapes after the `finally` block.
  - The output path is `outputDirectoryPath + "bitmapmanipulator_" + millis + ".jpeg"`.
    No separator is inserted. The model proves that the timestamp can be read back from
    the path, so distinct timestamps give distinct paths.

The time (`System.currentTimeMillis()`) is a parameter. So are the behaviour of every
platform call and the luminance function.

Two consequences of the code are worth stating:

- The factor returned is the first power of two at which the loop guard fails, which, when it
  exceeds 1, is twice the last one at which it held (`SmallestFailingPowerUnique`,
  `InSampleSizeKeepsDimensions`). A 4000 x 3000 image with maximum 1024 gets factor 2.
- An `Error` thrown in the try block is not caught, so `onSuccess` is still posted
  (`ErrorInDecodeReportsSuccess`).

## Model

| member | source | states |
|---|---|---|
| `SampleSize.CalculateInSampleSize` | app/src/main/java/com/devskiller/bitmapmanipulation/ImageProcessor.java:147-172 | the doubling loop terminates for a positive maximum and returns exactly the specified factor `InSampleSize` |
| `SampleSize.InSampleSize` | app/src/main/java/com/devskiller/bitmapmanipulation/ImageProcessor.java:147-172 | the factor is a power of two, at least 1, and the loop guard fails at it |
| `SampleSize.DoubleWhileKeptStops` | app/src/main/java/com/devskiller/bitmapmanipulation/ImageProcessor.java:164-167 | doubling from a power of two stops at a power of two where the guard fails, and the guard held at every smaller power of two |
| `SampleSize.InSampleSizeIsSmallestFailingPower` | app/src/main/java/com/devskiller/bitmapmanipulation/ImageProcessor.java:155-170 | the factor is a power of two, at least 1, 1 when both dimensions fit, and the smallest power of two at which the loop guard fails |
| `SampleSize.SmallestFailingPowerUnique` | app/src/main/java/com/devskiller/bitmapmanipulation/ImageProcessor.java:164-167 | a number is the smallest failing power of two if and only if it is the factor returned |
| `SampleSize.FitsFailsGuard` | app/src/main/java/com/devskiller/bitmapmanipulation/ImageProcessor.java:157-165 | when both dimensions fit, the loop guard already fails at 1, so the outer test does not change the result |
| `SampleSize.InSampleSizeKeepsDimensions` | app/src/main/java/com/devskiller/bitmapmanipulation/ImageProcessor.java:159-166 | a factor above 1 keeps both dimensions divided by it at least the maximum; twice the factor, and every larger power of two, breaks this for one dimension; the factor is at most either dimension, so the doubling never overflows |
| `SampleSize.HalfThenDivide` | app/src/main/java/com/devskiller/bitmapmanipulation/ImageProcessor.java:159-164 | halving a dimension and then dividing it by `k` with Java's `/` is dividing it by `2k` |
| `SampleSize.Landscape4000x3000` | app/src/main/java/com/devskiller/bitmapmanipulation/ImageProcessor.java:157-167 | 4000 x 3000 with maximum 1024 gives factor 2 |
| `SampleSize.Small500x500` | app/src/main/java/com/devskiller/bitmapmanipulation/ImageProcessor.java:155-170 | 500 x 500 with maximum 1024 gives factor 1 |
| `SampleSize.UnreadableBounds` | app/src/main/java/com/devskiller/bitmapmanipulation/ImageProcessor.java:153-157 | bounds of -1 (an unreadable header) give factor 1 |
| `InvertFilter.InvertMatrixNegates` | app/src/main/java/com/devskiller/bitmapmanipulation/ImageProcessor.java:130-137 | the invert matrix maps each colour channel in 0..255 to 255 minus itself without saturating, and keeps alpha |
| `InvertFilter.SaturationZeroGrays` | app/src/main/java/com/devskiller/bitmapmanipulation/ImageProcessor.java:127-128 | for weights that are non-negative and sum to one, the saturation-0 matrix gives red, green and blue the luminance, which lies in 0..255 so nothing saturates, and keeps alpha |
| `InvertFilter.InvertGrayProduct` | app/src/main/java/com/devskiller/bitmapmanipulation/ImageProcessor.java:127-138 | `matrixInvert.preConcat(matrixGrayscale)` is the matrix whose colour rows are minus the luminance weights plus 255 and whose alpha row is the identity |
| `InvertFilter.InvertFilterMatrix` | app/src/main/java/com/devskiller/bitmapmanipulation/ImageProcessor.java:127-141 | the filter built from the product maps each colour channel to 255 minus the luminance, without saturating, and keeps alpha |
| `InvertFilter.DesaturateIsSaturationZero` | app/src/main/java/com/devskiller/bitmapmanipulation/ImageProcessor.java:127-128 | where the gray value is the exact luminance of the weights, the 8-bit saturation step agrees with the saturation-0 matrix |
| `InvertFilter.InvertColorIsPreConcatFilter` | app/src/main/java/com/devskiller/bitmapmanipulation/ImageProcessor.java:127-141 | where the gray value is the exact luminance, the 8-bit pixel filter agrees with the filter of `matrixInvert.preConcat(matrixGrayscale)` |
| `InvertFilter.InvertColor` | app/src/main/java/com/devskiller/bitmapmanipulation/ImageProcessor.java:127-141 | the composed filter makes red = green = blue = 255 - luminance of the source pixel and keeps alpha |
| `InvertFilter.Invert` | app/src/main/java/com/devskiller/bitmapmanipulation/ImageProcessor.java:117-145 | the new bitmap has the source's width, height and pixel count, and every pixel is 255 - luminance in each colour channel with the source alpha |
| `InvertFilter.InvertTwiceIsGrayscale` | app/src/main/java/com/devskiller/bitmapmanipulation/ImageProcessor.java:127-138 | for a luminance that keeps gray pixels gray, applying the filter twice gives the grayscale projection of the pixel |
| `InvertFilter.InvertLosesColor` | app/src/main/java/com/devskiller/bitmapmanipulation/ImageProcessor.java:127-138 | for any luminance function, neither one pass nor two passes of the filter give back a coloured pixel |
| `InvertFilter.InvertDependsOnlyOnLuminance` | app/src/main/java/com/devskiller/bitmapmanipulation/ImageProcessor.java:127-138 | pixels with equal luminance and alpha are filtered to the same pixel |
| `OutputPath.LongToString` | app/src/main/java/com/devskiller/bitmapmanipulation/ImageProcessor.java:60 | the text of a `long` is non-empty and starts with a digit exactly when the number is not negative |
| `OutputPath.DecimalRoundTrip` | app/src/main/java/com/devskiller/bitmapmanipulation/ImageProcessor.java:60 | the decimal text of a timestamp reads back as that timestamp |
| `OutputPath.LongRoundTrip` | app/src/main/java/com/devskiller/bitmapmanipulation/ImageProcessor.java:60 | the text that concatenation gives a `long`, sign included, reads back as that number |
| `OutputPath.OutputPathFor` | app/src/main/java/com/devskiller/bitmapmanipulation/ImageProcessor.java:60-62 | the path starts with the directory exactly as given, continues at once with `bitmapmanipulator_`, and ends with `.jpeg` |
| `OutputPath.OutputPathParts` | app/src/main/java/com/devskiller/bitmapmanipulation/ImageProcessor.java:60-62 | the path is the directory as given, then `bitmapmanipulator_` at once, then the timestamp, then `.jpeg` |
| `OutputPath.OutputPathInjective` | app/src/main/java/com/devskiller/bitmapmanipulation/ImageProcessor.java:60-62 | different timestamps give different paths in the same directory |
| `OutputPath.NoSeparatorInserted` | app/src/main/java/com/devskiller/bitmapmanipulation/ImageProcessor.java:62 | a directory without a trailing slash runs straight into the file name |
| `ProcessImage.TryBlockEnd` | app/src/main/java/com/devskiller/bitmapmanipulation/ImageProcessor.java:66-89 | the block completes normally exactly when no call in it throws and the decode returns a bitmap; otherwise it ends with the throwable of the first call, in source order, that throws, and a null bitmap gives a `RuntimeException` |
| `ProcessImage.RunTryBlock` | app/src/main/java/com/devskiller/bitmapmanipulation/ImageProcessor.java:66-89 | the steps run in order, a throw ends the block, and `compress` is called with the inverted bitmap at quality 100 exactly when every earlier step succeeded |
| `ProcessImage.ProcessImage` | app/src/main/java/com/devskiller/bitmapmanipulation/ImageProcessor.java:55-114 | the whole trace: the `compress` call exactly when every earlier step succeeded, then exactly one callback, failure exactly when an `Exception` is caught, then the metadata step with the same path exactly on success; and what escapes the job |
| `ProcessImage.ErrorInDecodeReportsSuccess` | app/src/main/java/com/devskiller/bitmapmanipulation/ImageProcessor.java:81-106 | an `Error` from the decode is not caught, so success is reported although `compress` was never reached |
| `ProcessImage.NullBitmapFails` | app/src/main/java/com/devskiller/bitmapmanipulation/ImageProcessor.java:81-92 | a null bitmap from the decode makes `invert` throw, and the run fails |
| `ProcessImage.CompressFalseStillSucceeds` | app/src/main/java/com/devskiller/bitmapmanipulation/ImageProcessor.java:87-92 | `compress` returning false does not clear `success` |
| `ProcessImage.OutcomeIgnoresMkdirsAndMetadata` | app/src/main/java/com/devskiller/bitmapmanipulation/ImageProcessor.java:61-110 | neither the result of `mkdirs` nor the metadata step affects the reported outcome |

## Left out

- `SampleSize.CalculateInSampleSize`: requires `maxDimension > 0`. The code does not check this. When a dimension exceeds a non-positive maximum, Java's 32-bit doubling wraps to 0 and the next division throws `ArithmeticException`, which `catch (Exception …)` turns into `onFailure`. When neither dimension exceeds it, the factor is 1. Non-positive maxima are not modelled.
- `SampleSize.CalculateInSampleSize`: works on unbounded integers. `InSampleSizeKeepsDimensions` shows that the factor never exceeds the dimensions, so for `int` inputs the Java result is the same.
- The Android codec (`BitmapFactory.decodeStream`, `Bitmap.compress`), `ContentResolver`, `File` and `FileOutputStream` are foreign I/O. Each call is a `Step` input that returns or throws.
- `addExtraData`'s EXIF calls (`setAttribute` with the note, `setGpsInfo`, `saveAttributes`) belong to a foreign library. They are one step, recorded with its arguments, that may throw.
- Exceptions from `mkdirs` (possible only under a Java security manager) are not modelled. Neither are exceptions from building the path or from posting the callback, nor `OutOfMemoryError` in `createBitmap` inside `invert`. `invert` of a non-null bitmap is total.
- The single-thread executor, `AsyncJob`'s hand-off to the main thread, and FIFO order across runs are concurrency. Posting the callback is a trace event; when the main thread runs it is not modelled.
- The luminance weights of `setSaturation(0)` are floating-point constants. The model takes any weights that are non-negative and sum to one, and computes over reals; `float` rounding is not modelled.
- `InvertFilter.Desaturate`: on 8-bit pixels the gray value is an abstract function into 0..255, because the platform's rounding of a non-whole luminance is not modelled. `DesaturateIsSaturationZero` ties it to the saturation-0 matrix only where the luminance is whole. `InvertTwiceIsGrayscale` assumes the function maps gray to itself, as weights summing to one do.
- `Canvas.drawBitmap` compositing, premultiplied alpha and the source bitmap's pixel configuration are platform rendering. `Invert` gives each pixel the filter's result directly.
- `recycle()`, the input streams left open, the output stream left open when `compress` throws, and a partial file left on disk after a failure have no semantics in this model.
- What the executor does with a throwable that escapes `doOnBackground` belongs to `AsyncJob`. The model only returns it.
- `exception.printStackTrace()` in both catch clauses (`ImageProcessor.java` lines 91 and 108) only writes to the log. Logging is I/O and is not modelled.
