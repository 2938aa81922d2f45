/** The background job of `ImageProcessor.processImage`: probe, decode at the
    computed sample size, invert, compress to a time-stamped file, post exactly
    one callback, and then, after a success, write the extra metadata.
    Every platform call is an input that either returns or throws. */
module ProcessImage {
  import opened SampleSize
  import opened InvertFilter
  import opened OutputPath

  const COMPRESS_QUALITY_HINT: int := 100

  datatype Option<T> = None | Some(value: T)

  /** What a platform call can throw. `catch (Exception e)` catches the first
      two kinds; an `Error` such as `OutOfMemoryError` is not an `Exception`. */
  datatype Throwable = IOException | RuntimeException | Error {
    predicate IsException() {
      !Error?
    }
  }

  datatype Step<T> = Returns(value: T) | Throws(thrown: Throwable)

  /** What `BitmapFactory.decodeStream` returns: `null` when it cannot decode. */
  datatype Decoded = Null | Decoded(bitmap: Bitmap)

  datatype Location = Location(latitude: real, longitude: real)

  /** How each platform call behaves during one run. */
  datatype Platform = Platform(
    mkdirs: bool,                        // `new File(outputDirectoryPath).mkdirs()`
    openProbeStream: Step<()>,           // first `openInputStream`
    decodeBounds: Step<Bounds>,          // bounds-only `decodeStream`
    openDecodeStream: Step<()>,          // second `openInputStream`
    decodeBitmap: int -> Step<Decoded>,  // `decodeStream` at the given sample size
    luminance: Luminance,                // the saturation-0 matrix's gray value
    openOutputStream: Step<()>,          // `new FileOutputStream(out)`
    compress: Bitmap -> Step<bool>,      // `inverted.compress(JPEG, 100, outputStream)`
    closeOutputStream: Step<()>,         // `outputStream.close()`
    addExtraData: Step<()>               // `addExtraData(outputPath, note, location)`
  )

  datatype Outcome = Success(outputPath: string) | Failure

  datatype Event =
    | Compressed(path: string, image: Bitmap, quality: int)  // `compress` was called
    | Posted(outcome: Outcome)                                // the callback job was posted
    | ExtraDataAttempted(path: string, note: string, location: Location)

  /** How the try block ends. */
  datatype TryEnd = Completed | Threw(thrown: Throwable)

  // ---------------------------------------------------------------------------
  // Specification of the try block

  /** The three calls before the full decode all return. */
  predicate ProbeReturns(p: Platform)
  {
    p.openProbeStream.Returns? && p.decodeBounds.Returns? && p.openDecodeStream.Returns?
  }

  /** The result of the full decode, at the factor computed from the probed bounds. */
  function FullDecode(p: Platform, maxDimension: int): Step<Decoded>
    requires maxDimension > 0 && ProbeReturns(p)
  {
    p.decodeBitmap(InSampleSize(p.decodeBounds.value, maxDimension))
  }

  /** Every call up to opening the output stream returns, and the decode gives a bitmap. */
  predicate ReachesCompress(p: Platform, maxDimension: int)
    requires maxDimension > 0
  {
    ProbeReturns(p) &&
    FullDecode(p, maxDimension).Returns? && FullDecode(p, maxDimension).value.Decoded? &&
    p.openOutputStream.Returns?
  }

  /** The bitmap handed to `compress`. */
  function CompressedImage(p: Platform, maxDimension: int): Bitmap
    requires maxDimension > 0 && ReachesCompress(p, maxDimension)
  {
    Invert(FullDecode(p, maxDimension).value.bitmap, p.luminance)
  }

  /** No call in the try block throws; what `compress` returns plays no part. */
  predicate NoStepThrows(p: Platform, maxDimension: int)
    requires maxDimension > 0
  {
    ReachesCompress(p, maxDimension) &&
    p.compress(CompressedImage(p, maxDimension)).Returns? &&
    p.closeOutputStream.Returns?
  }

  /** The throwable of the first call that throws; `invert(null)` throws a
      `NullPointerException`, a `RuntimeException`. */
  function TryBlockEnd(p: Platform, maxDimension: int): (end: TryEnd)
    requires maxDimension > 0
    ensures end == Completed <==> NoStepThrows(p, maxDimension)
    ensures p.openProbeStream.Throws? ==> end == Threw(p.openProbeStream.thrown)
    ensures p.openProbeStream.Returns? && p.decodeBounds.Throws? ==> end == Threw(p.decodeBounds.thrown)
    ensures p.openProbeStream.Returns? && p.decodeBounds.Returns? && p.openDecodeStream.Throws? ==>
      end == Threw(p.openDecodeStream.thrown)
    ensures ProbeReturns(p) && FullDecode(p, maxDimension).Throws? ==>
      end == Threw(FullDecode(p, maxDimension).thrown)
    ensures ProbeReturns(p) && FullDecode(p, maxDimension) == Returns(Null) ==> end == Threw(RuntimeException)
    ensures (ProbeReturns(p) && FullDecode(p, maxDimension).Returns? && FullDecode(p, maxDimension).value.Decoded?
      && p.openOutputStream.Throws?) ==> end == Threw(p.openOutputStream.thrown)
    ensures ReachesCompress(p, maxDimension) && p.compress(CompressedImage(p, maxDimension)).Throws? ==>
      end == Threw(p.compress(CompressedImage(p, maxDimension)).thrown)
    ensures (ReachesCompress(p, maxDimension) && p.compress(CompressedImage(p, maxDimension)).Returns?
      && p.closeOutputStream.Throws?) ==> end == Threw(p.closeOutputStream.thrown)
  {
    if p.openProbeStream.Throws? then Threw(p.openProbeStream.thrown)
    else if p.decodeBounds.Throws? then Threw(p.decodeBounds.thrown)
    else if p.openDecodeStream.Throws? then Threw(p.openDecodeStream.thrown)
    else if FullDecode(p, maxDimension).Throws? then Threw(FullDecode(p, maxDimension).thrown)
    else if FullDecode(p, maxDimension).value.Null? then Threw(RuntimeException)
    else if p.openOutputStream.Throws? then Threw(p.openOutputStream.thrown)
    else if p.compress(CompressedImage(p, maxDimension)).Throws? then
      Threw(p.compress(CompressedImage(p, maxDimension)).thrown)
    else if p.closeOutputStream.Throws? then Threw(p.closeOutputStream.thrown)
    else Completed
  }

  /** The catch clause runs, and so `success` is set to false. */
  predicate Caught(p: Platform, maxDimension: int)
    requires maxDimension > 0
  {
    TryBlockEnd(p, maxDimension).Threw? && TryBlockEnd(p, maxDimension).thrown.IsException()
  }

  /** The outcomes of the callbacks posted, in order. */
  function Callbacks(trace: seq<Event>): seq<Outcome>
  {
    if trace == [] then []
    else (if trace[0].Posted? then [trace[0].outcome] else []) + Callbacks(trace[1..])
  }

  lemma {:induction false} CallbacksAppend(a: seq<Event>, b: seq<Event>)
    ensures Callbacks(a + b) == Callbacks(a) + Callbacks(b)
  {
    if a != [] {
      assert (a + b)[1..] == a[1..] + b;
      CallbacksAppend(a[1..], b);
    } else {
      assert a + b == b;
    }
  }

  // ---------------------------------------------------------------------------
  // The job

  /** The try block of `doOnBackground`, run step by step; a call that throws ends it. */
  method RunTryBlock(p: Platform, maxDimension: int, outputPath: string)
    returns (end: TryEnd, written: seq<Event>)
    requires maxDimension > 0
    ensures end == TryBlockEnd(p, maxDimension)
    ensures written == if ReachesCompress(p, maxDimension)
      then [Compressed(outputPath, CompressedImage(p, maxDimension), COMPRESS_QUALITY_HINT)]
      else []
  {
    written := [];
    if p.openProbeStream.Throws? {
      return Threw(p.openProbeStream.thrown), written;
    }
    if p.decodeBounds.Throws? {
      return Threw(p.decodeBounds.thrown), written;
    }
    var options := p.decodeBounds.value;
    var sampleSize := CalculateInSampleSize(options, maxDimension);
    if p.openDecodeStream.Throws? {
      return Threw(p.openDecodeStream.thrown), written;
    }
    var decoded := p.decodeBitmap(sampleSize);
    if decoded.Throws? {
      return Threw(decoded.thrown), written;
    }
    if decoded.value.Null? {
      // invert(null) dereferences its argument
      return Threw(RuntimeException), written;
    }
    var inverted := Invert(decoded.value.bitmap, p.luminance);
    if p.openOutputStream.Throws? {
      return Threw(p.openOutputStream.thrown), written;
    }
    written := [Compressed(outputPath, inverted, COMPRESS_QUALITY_HINT)];
    var compressed := p.compress(inverted);
    if compressed.Throws? {
      return Threw(compressed.thrown), written;
    }
    // the boolean that compress returns is not looked at
    if p.closeOutputStream.Throws? {
      return Threw(p.closeOutputStream.thrown), written;
    }
    end := Completed;
  }

  /** One run of the background job. `escaped` is what leaves `doOnBackground`.
      Exactly one callback is posted; it reports failure exactly when an
      `Exception` was caught; metadata is attempted, after the callback and with
      the same path, exactly when it reports success; an `IOException` from the
      metadata step leaves the posted outcome as it was. */
  method ProcessImage(p: Platform, maxDimension: int, outputDirectoryPath: string, note: string,
                      location: Location, millis: int)
    returns (trace: seq<Event>, escaped: Option<Throwable>)
    requires maxDimension > 0
    ensures var path := OutputPathFor(outputDirectoryPath, millis);
      Callbacks(trace) == [if Caught(p, maxDimension) then Failure else Success(path)]
    ensures var path := OutputPathFor(outputDirectoryPath, millis);
      ExtraDataAttempted(path, note, location) in trace <==> !Caught(p, maxDimension)
    ensures forall i :: 0 <= i < |trace| && trace[i].ExtraDataAttempted? ==>
      trace[i] == ExtraDataAttempted(OutputPathFor(outputDirectoryPath, millis), note, location)
    ensures forall i, j :: 0 <= i < |trace| && 0 <= j < |trace| && trace[i].Posted? && !trace[j].Posted? ==>
      (j < i <==> trace[j].Compressed?)
    ensures forall i :: 0 <= i < |trace| && trace[i].Compressed? ==>
      ReachesCompress(p, maxDimension) &&
      trace[i] == Compressed(OutputPathFor(outputDirectoryPath, millis), CompressedImage(p, maxDimension), COMPRESS_QUALITY_HINT)
    ensures ReachesCompress(p, maxDimension) ==> exists i :: 0 <= i < |trace| && trace[i].Compressed?
    ensures var path := OutputPathFor(outputDirectoryPath, millis);
      trace ==
        (if ReachesCompress(p, maxDimension)
         then [Compressed(path, CompressedImage(p, maxDimension), COMPRESS_QUALITY_HINT)]
         else [])
        + [Posted(if Caught(p, maxDimension) then Failure else Success(path))]
        + (if Caught(p, maxDimension) then [] else [ExtraDataAttempted(path, note, location)])
    ensures escaped ==
      if !Caught(p, maxDimension) && p.addExtraData.Throws? && p.addExtraData.thrown != IOException
      then Some(p.addExtraData.thrown)
      else if TryBlockEnd(p, maxDimension).Threw? && !Caught(p, maxDimension)
      then Some(TryBlockEnd(p, maxDimension).thrown)
      else None
  {
    var fileName := FileNamePrefix + LongToString(millis) + FileNameSuffix;
    var directoryCreated := p.mkdirs;  // not looked at
    var outputPath := outputDirectoryPath + fileName;
    assert outputPath == OutputPathFor(outputDirectoryPath, millis);
    var success := true;
    var pending: Option<Throwable> := None;

    // try
    var end, written := RunTryBlock(p, maxDimension, outputPath);
    trace := written;
    if end.Threw? {
      if end.thrown.IsException() {
        // catch (Exception exception)
        success := false;
      } else {
        // not caught: rethrown once the finally block completes
        pending := Some(end.thrown);
      }
    }

    // finally
    var finalSuccess := success;
    var posted := [Posted(if finalSuccess then Success(outputPath) else Failure)];
    CallbacksAppend(trace, posted);
    trace := trace + posted;
    escaped := pending;
    if success {
      var attempted := [ExtraDataAttempted(outputPath, note, location)];
      CallbacksAppend(trace, attempted);
      trace := trace + attempted;
      if p.addExtraData.Throws? && p.addExtraData.thrown != IOException {
        // not caught by `catch (IOException e)`: it replaces any pending throwable
        escaped := Some(p.addExtraData.thrown);
      }
    }
  }

  // ---------------------------------------------------------------------------
  // Consequences

  /** An `Error` in the try block is not caught: `success` stays true, so the
      run reports success, although no file need have been written. */
  lemma ErrorInDecodeReportsSuccess(p: Platform, maxDimension: int)
    requires maxDimension > 0 && ProbeReturns(p)
    requires FullDecode(p, maxDimension) == Throws(Error)
    ensures !Caught(p, maxDimension) && !ReachesCompress(p, maxDimension)
  {
  }

  /** A null bitmap makes `invert` throw, and the run fails. */
  lemma NullBitmapFails(p: Platform, maxDimension: int)
    requires maxDimension > 0 && ProbeReturns(p)
    requires FullDecode(p, maxDimension) == Returns(Null)
    ensures Caught(p, maxDimension)
  {
  }

  /** `compress` returning false still reports success. */
  lemma CompressFalseStillSucceeds(p: Platform, maxDimension: int)
    requires maxDimension > 0 && ReachesCompress(p, maxDimension)
    requires p.compress(CompressedImage(p, maxDimension)) == Returns(false)
    requires p.closeOutputStream.Returns?
    ensures !Caught(p, maxDimension)
  {
  }

  /** The outcome does not depend on the result of `mkdirs` nor on the metadata step. */
  lemma OutcomeIgnoresMkdirsAndMetadata(p: Platform, maxDimension: int, created: bool, extra: Step<()>)
    requires maxDimension > 0
    ensures Caught(p.(mkdirs := created, addExtraData := extra), maxDimension) == Caught(p, maxDimension)
  {
  }
}
