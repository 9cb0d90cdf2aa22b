/**
 * `CompressImage`: stat, open and decode the input, plan the resize, pick the output
 * format, create the output file, pull the EXIF segment out of a JPEG input and write
 * the encoded image, relocating that segment in front of a JPEG output.
 *
 * The file system, the decoders and the encoders are not modelled; their outcomes are
 * the fields of a `CompressEnv`, and the output file is a `Writers.Sink`.
 */
module Compress {
  import opened Wrappers
  import opened Bytes
  import opened Formats
  import opened Resize
  import opened Exif
  import opened Writers

  /** Quality and PNG level go to the encoders, which are not modelled. */
  datatype CompressOptions = CompressOptions(
    quality: int,
    pngLevel: int,
    scale: real,
    maxWidth: int,
    maxHeight: int,
    outputFormat: string)

  /** `png.DefaultCompression`. */
  const PngDefaultCompression := 0

  function DefaultCompressOptions(): CompressOptions
  {
    CompressOptions(85, PngDefaultCompression, 1.0, 0, 0, "")
  }

  /** What `image.Decode` reports: the registered format name and the bounds. */
  datatype Decoded = Decoded(format: string, width: int, height: int)

  /**
   * The outcomes of the calls the compressor makes outside its own code, in the order
   * it makes them.
   */
  datatype CompressEnv = CompressEnv(
    inputSize: Option<int>,          // os.Stat of the input: None when it fails
    inputOpens: bool,                // os.Open of the input
    decoded: Option<Decoded>,        // image.Decode: None when it fails
    dirCreated: bool,                // os.MkdirAll of the output directory
    fileCreated: bool,               // os.Create of the output file
    exifSource: Option<seq<byte>>,   // the input bytes seen by the second open and Read: None when either fails
    encoded: seq<seq<byte>>,         // the writes the chosen encoder issues for the resized image
    room: nat,                       // how many bytes the output file accepts before a write fails
    outputStat: bool)                // os.Stat of the output file

  datatype CompressError =
    | InputNotAccessible
    | OpenFailed
    | DecodeFailed
    | DirCreateFailed
    | FileCreateFailed
    | ExifLengthPanic(at: nat)        // the runtime panic of make([]byte, length-2)
    | UnsupportedOutputFormat(name: string)
    | WriteFailed(stage: WriteFailure)
    | OutputStatFailed

  /** The report of a successful run, without the floating-point compression ratio. */
  datatype CompressResult = CompressResult(
    originalPath: string,
    outputPath: string,
    originalSize: int,
    compressedSize: int,
    originalWidth: int,
    originalHeight: int,
    compressedWidth: int,
    compressedHeight: int)

  /** What a run leaves behind: its result, and the output file's bytes if it was created. */
  datatype Outcome = Outcome(result: Result<CompressResult, CompressError>, file: Option<seq<byte>>)

  /**
   * Decoded bounds are non-negative, and positive where the resize plan divides by
   * them for these options.
   */
  predicate ProperBounds(env: CompressEnv, options: CompressOptions)
  {
    env.decoded.Some? ==>
      PlanDefined(env.decoded.value.width, env.decoded.value.height,
                  options.scale, options.maxWidth, options.maxHeight)
  }

  /** The EXIF scan is run only for an input decoded as JPEG, over the first Read's bytes. */
  function ExifOf(format: string, source: Option<seq<byte>>): Extraction
  {
    if (format == "jpeg" || format == "jpg") && source.Some? then ScanFrom(Take(source.value, WindowSize), 0)
    else NoExif
  }

  /** Whether the output gets the relocated APP1 segment: JPEG output and a non-empty payload. */
  predicate Relocates(format: Format, exif: Extraction)
  {
    format == Jpeg && exif.Found? && |exif.payload| > 0
  }

  /** The bytes the output file is meant to hold. */
  function IntendedBytes(format: Format, exif: Extraction, encoded: seq<byte>): seq<byte>
  {
    if Relocates(format, exif) then SplicedJpeg(exif.payload, encoded) else encoded
  }

  /** Which write, if any, fails when the output file accepts `room` bytes. */
  function WriteOutcome(format: Format, exif: Extraction, encoded: seq<byte>, room: int): Option<WriteFailure>
  {
    if Relocates(format, exif) then FailureAt(room, |exif.payload|, |SplicedJpeg(exif.payload, encoded)|)
    else if |encoded| <= room then None
    else Some(EncodeFailed)
  }

  /** The bounds of the image handed to the encoder. */
  function ResizedBounds(w: int, h: int, plan: Plan): (int, int)
  {
    match plan
    case Keep => (w, h)
    case ResizeTo(nw, nh) => (nw, nh)
  }

  /** The whole run, step by step, as a value. */
  function CompressSpec(inputPath: string, outputPath: string, options: CompressOptions, env: CompressEnv): Outcome
    requires ProperBounds(env, options)
  {
    if env.inputSize.None? then Outcome(Err(InputNotAccessible), None)
    else if !env.inputOpens then Outcome(Err(OpenFailed), None)
    else if env.decoded.None? then Outcome(Err(DecodeFailed), None)
    else if !env.dirCreated then Outcome(Err(DirCreateFailed), None)
    else if !env.fileCreated then Outcome(Err(FileCreateFailed), None)
    else
      var d := env.decoded.value;
      var exif := ExifOf(d.format, env.exifSource);
      var name := SelectOutputFormat(options.outputFormat, outputPath, d.format);
      if exif.LengthPanic? then Outcome(Err(ExifLengthPanic(exif.at)), Some([]))
      else if ParseFormat(name).None? then Outcome(Err(UnsupportedOutputFormat(name)), Some([]))
      else
        var format := ParseFormat(name).value;
        var bytes := IntendedBytes(format, exif, Concat(env.encoded));
        var failure := WriteOutcome(format, exif, Concat(env.encoded), env.room);
        if failure.Some? then Outcome(Err(WriteFailed(failure.value)), Some(Take(bytes, env.room)))
        else if !env.outputStat then Outcome(Err(OutputStatFailed), Some(bytes))
        else
          var plan := PlanResize(d.width, d.height, options.scale, options.maxWidth, options.maxHeight);
          var (cw, ch) := ResizedBounds(d.width, d.height, plan);
          Outcome(Ok(CompressResult(inputPath, outputPath, env.inputSize.value, |bytes|,
                                    d.width, d.height, cw, ch)), Some(bytes))
  }

  /**
   * `CompressImage`, with the output file as a sink that the EXIF relocation or the
   * plain encoder writes into.
   */
  method CompressImage(inputPath: string, outputPath: string, options: CompressOptions, env: CompressEnv)
    returns (r: Result<CompressResult, CompressError>, output: Option<seq<byte>>)
    requires ProperBounds(env, options)
    ensures Outcome(r, output) == CompressSpec(inputPath, outputPath, options, env)
  {
    if env.inputSize.None? {
      return Err(InputNotAccessible), None;
    }
    var originalSize := env.inputSize.value;
    if !env.inputOpens {
      return Err(OpenFailed), None;
    }
    if env.decoded.None? {
      return Err(DecodeFailed), None;
    }
    var img := env.decoded.value;
    var plan := PlanResize(img.width, img.height, options.scale, options.maxWidth, options.maxHeight);
    var (compressedWidth, compressedHeight) := ResizedBounds(img.width, img.height, plan);
    var outputFormat := SelectOutputFormat(options.outputFormat, outputPath, img.format);
    if !env.dirCreated {
      return Err(DirCreateFailed), None;
    }
    if !env.fileCreated {
      return Err(FileCreateFailed), None;
    }
    var file := new Sink(env.room);
    var exifData: seq<byte> := [];
    ghost var exif := ExifOf(img.format, env.exifSource);
    if (img.format == "jpeg" || img.format == "jpg") && env.exifSource.Some? {
      var found := ExtractExif(Take(env.exifSource.value, WindowSize));
      match found
      case LengthPanic(at) =>
        return Err(ExifLengthPanic(at)), Some(file.written);
      case Found(_, payload) =>
        exifData := payload;
      case NoExif =>
    }
    assert exif.Found? ==> exifData == exif.payload;
    assert !exif.Found? ==> exifData == [];
    var format := ParseFormat(outputFormat);
    if format.None? {
      return Err(UnsupportedOutputFormat(outputFormat)), Some(file.written);
    }
    var encoded := Concat(env.encoded);
    if format.value == Jpeg && |exifData| > 0 {
      var failure := WriteJpegWithExif(file, exifData, env.encoded);
      assert [] + Take(SplicedJpeg(exifData, encoded), env.room) == Take(SplicedJpeg(exifData, encoded), env.room);
      if failure.Some? {
        return Err(WriteFailed(failure.value)), Some(file.written);
      }
    } else {
      var ok := EncodeTo(file, env.encoded);
      assert [] + Take(encoded, env.room) == Take(encoded, env.room);
      if !ok {
        return Err(WriteFailed(EncodeFailed)), Some(file.written);
      }
    }
    if !env.outputStat {
      return Err(OutputStatFailed), Some(file.written);
    }
    r := Ok(CompressResult(inputPath, outputPath, originalSize, |file.written|,
                           img.width, img.height, compressedWidth, compressedHeight));
    output := Some(file.written);
  }

  /** The checks before the output file exists, in order; each failure leaves no file behind. */
  lemma SetupOrder(inputPath: string, outputPath: string, options: CompressOptions, env: CompressEnv)
    requires ProperBounds(env, options)
    ensures var o := CompressSpec(inputPath, outputPath, options, env);
            && (o.file.None? <==> env.inputSize.None? || !env.inputOpens || env.decoded.None?
                                  || !env.dirCreated || !env.fileCreated)
            && (env.inputSize.None? ==> o.result == Err(InputNotAccessible))
            && (env.inputSize.Some? && !env.inputOpens ==> o.result == Err(OpenFailed))
            && (env.inputSize.Some? && env.inputOpens && env.decoded.None? ==> o.result == Err(DecodeFailed))
  {
  }

  /**
   * A successful run wrote every intended byte, reports the file's length as the
   * compressed size, and reports the bounds the resize plan produced.
   */
  lemma SuccessfulRun(inputPath: string, outputPath: string, options: CompressOptions, env: CompressEnv)
    requires ProperBounds(env, options)
    requires CompressSpec(inputPath, outputPath, options, env).result.Ok?
    ensures var o := CompressSpec(inputPath, outputPath, options, env);
            var d := env.decoded.value;
            var exif := ExifOf(d.format, env.exifSource);
            var format := ParseFormat(SelectOutputFormat(options.outputFormat, outputPath, d.format));
            var bytes := IntendedBytes(format.value, exif, Concat(env.encoded));
            && format.Some? && !exif.LengthPanic?
            && |bytes| <= env.room
            && o.file == Some(bytes)
            && o.result.value.compressedSize == |bytes|
            && o.result.value.originalSize == env.inputSize.value
            && (o.result.value.compressedWidth, o.result.value.compressedHeight)
               == ResizedBounds(d.width, d.height, PlanResize(d.width, d.height, options.scale, options.maxWidth, options.maxHeight))
  {
    var d := env.decoded.value;
    var exif := ExifOf(d.format, env.exifSource);
    var format := ParseFormat(SelectOutputFormat(options.outputFormat, outputPath, d.format)).value;
    if Relocates(format, exif) {
      assert |IntendedBytes(format, exif, Concat(env.encoded))| >= 6 + |exif.payload|;
    }
  }

  /**
   * A write that fails leaves exactly the first `room` intended bytes in the file, and
   * a relocation fails at the write that crosses the room.
   */
  lemma FailedWriteKeepsPrefix(inputPath: string, outputPath: string, options: CompressOptions, env: CompressEnv)
    requires ProperBounds(env, options)
    requires CompressSpec(inputPath, outputPath, options, env).result.Err?
    requires CompressSpec(inputPath, outputPath, options, env).result.error.WriteFailed?
    ensures var o := CompressSpec(inputPath, outputPath, options, env);
            var d := env.decoded.value;
            var exif := ExifOf(d.format, env.exifSource);
            var format := ParseFormat(SelectOutputFormat(options.outputFormat, outputPath, d.format));
            var bytes := IntendedBytes(format.value, exif, Concat(env.encoded));
            && format.Some?
            && env.room < |bytes|
            && o.file == Some(bytes[..env.room])
            && (o.result.error.stage == SoiWriteFailed <==> Relocates(format.value, exif) && env.room < 2)
            && (o.result.error.stage == EncodeFailed <==>
                  !Relocates(format.value, exif) || 6 + |exif.payload| <= env.room)
            && (Relocates(format.value, exif) ==>
                  Some(o.result.error.stage) == FailureAt(env.room, |exif.payload|, |bytes|))
  {
  }

  /** PNG and GIF output, and JPEG output without a payload, are the encoder's bytes verbatim. */
  lemma PlainOutputIsEncoderOutput(format: Format, exif: Extraction, encoded: seq<byte>)
    requires format != Jpeg || !exif.Found? || exif.payload == []
    ensures IntendedBytes(format, exif, encoded) == encoded
  {
  }

  /**
   * A JPEG output with a payload found at `i` in the source starts with SOI and then
   * the source's own APP1 segment byte for byte, followed by the encoder's output past
   * its SOI.
   */
  lemma RelocatedSegmentIsCopied(source: seq<byte>, i: nat, p: seq<byte>, encoded: seq<byte>)
    requires ScanFrom(Take(source, WindowSize), 0) == Found(i, p) && |p| > 0
    ensures var window := Take(source, WindowSize);
            && CompleteApp1At(window, i)
            && IntendedBytes(Jpeg, ExifOf("jpeg", Some(source)), encoded)
               == Soi + window[i .. i + 2 + SegmentLength(window, i)] + Drop(encoded, 2)
  {
    var window := Take(source, WindowSize);
    ExtractThenSplice(window, encoded, i, p);
  }

  /**
   * Compressing the output of a successful JPEG run again finds the same EXIF payload,
   * now right after SOI, provided the source was a JPEG file starting with SOI (so the
   * segment it came from started at index 2 or later and fits the window once moved).
   */
  lemma RecompressKeepsExif(inputPath: string, outputPath: string, options: CompressOptions, env: CompressEnv,
                            i: nat, p: seq<byte>)
    requires ProperBounds(env, options)
    requires env.decoded.Some? && env.decoded.value.format == "jpeg"
    requires env.exifSource.Some? && |env.exifSource.value| >= 2 && env.exifSource.value[..2] == Soi
    requires ScanFrom(Take(env.exifSource.value, WindowSize), 0) == Found(i, p) && |p| > 0
    requires ParseFormat(SelectOutputFormat(options.outputFormat, outputPath, "jpeg")) == Some(Jpeg)
    requires CompressSpec(inputPath, outputPath, options, env).result.Ok?
    ensures var o := CompressSpec(inputPath, outputPath, options, env);
            && o.file == Some(SplicedJpeg(p, Concat(env.encoded)))
            && ExifOf("jpeg", o.file) == Found(2, p)
  {
    var window := Take(env.exifSource.value, WindowSize);
    ScanFromFirst(window, 0);
    assert window[..2] == Soi;
    assert window[0] == 0xFF && window[1] == 0xD8;
    assert 2 <= i;
    assert |window| <= WindowSize;
    SpliceThenExtract(p, Concat(env.encoded), WindowSize);
  }

  /** With the default options the image keeps its bounds. */
  lemma DefaultOptionsKeepBounds(w: int, h: int)
    requires w >= 0 && h >= 0
    ensures var o := DefaultCompressOptions();
            ResizedBounds(w, h, PlanResize(w, h, o.scale, o.maxWidth, o.maxHeight)) == (w, h)
  {
    NoScaleNoCapKeeps(w, h, 1.0, 0, 0);
  }

  /** Only a JPEG input is scanned: for any other decoded format the EXIF source is never looked at. */
  lemma NonJpegInputIgnoresExif(inputPath: string, outputPath: string, options: CompressOptions,
                                env: CompressEnv, source: Option<seq<byte>>)
    requires ProperBounds(env, options) && env.decoded.Some?
    requires env.decoded.value.format != "jpeg" && env.decoded.value.format != "jpg"
    ensures CompressSpec(inputPath, outputPath, options, env)
            == CompressSpec(inputPath, outputPath, options, env.(exifSource := source))
  {
  }
}
