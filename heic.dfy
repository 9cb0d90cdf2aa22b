/**
 * The HEIC to JPEG converter: `convertHeicToJpg`, which relocates the EXIF payload the
 * HEIC container holds in front of the encoded JPEG, and the argument checks of the
 * converter's entry point.
 *
 * The HEIC reader, the decoder, the encoder and the file system are not modelled;
 * their outcomes are the fields of a `ConvertEnv`.
 */
module Heic {
  import opened Wrappers
  import opened Bytes
  import opened Paths
  import opened Exif
  import opened Writers

  /** The outcomes of the calls the converter makes outside its own code, in order. */
  datatype ConvertEnv = ConvertEnv(
    inputOpens: bool,          // os.Open of the input
    exif: Option<seq<byte>>,   // goheif.ExtractExif: None for a nil payload; its error is only logged
    rewinds: bool,             // Seek(0, 0) on the input
    decodes: bool,             // goheif.Decode
    dirCreated: bool,          // os.MkdirAll of the output directory
    fileCreated: bool,         // os.Create of the output file
    encoded: seq<seq<byte>>,   // the writes jpeg.Encode issues
    room: nat)                 // how many bytes the output file accepts before a write fails

  datatype ConvertError =
    | OpenFailed
    | SeekFailed
    | DecodeFailed
    | DirCreateFailed
    | FileCreateFailed
    | WriteFailed(stage: WriteFailure)

  /** What a conversion leaves behind: its error, if any, and the output file if it was created. */
  datatype ConvertOutcome = ConvertOutcome(error: Option<ConvertError>, file: Option<seq<byte>>)

  /**
   * The bytes the output file is meant to hold: any non-nil payload, even an empty one,
   * gets SOI and an APP1 header in front of the encoder's output past its SOI.
   */
  function ConvertedBytes(exif: Option<seq<byte>>, encoded: seq<byte>): seq<byte>
  {
    if exif.Some? then SplicedJpeg(exif.value, encoded) else encoded
  }

  /** The whole conversion, step by step, as a value. */
  function ConvertSpec(env: ConvertEnv): ConvertOutcome
  {
    if !env.inputOpens then ConvertOutcome(Some(OpenFailed), None)
    else if !env.rewinds then ConvertOutcome(Some(SeekFailed), None)
    else if !env.decodes then ConvertOutcome(Some(DecodeFailed), None)
    else if !env.dirCreated then ConvertOutcome(Some(DirCreateFailed), None)
    else if !env.fileCreated then ConvertOutcome(Some(FileCreateFailed), None)
    else
      var bytes := ConvertedBytes(env.exif, Concat(env.encoded));
      var failure :=
        if env.exif.Some? then FailureAt(env.room, |env.exif.value|, |bytes|)
        else if |bytes| <= env.room then None
        else Some(EncodeFailed);
      if failure.Some? then ConvertOutcome(Some(WriteFailed(failure.value)), Some(Take(bytes, env.room)))
      else ConvertOutcome(None, Some(bytes))
  }

  /** `convertHeicToJpg`, with the output file as a sink. */
  method ConvertHeicToJpg(env: ConvertEnv) returns (err: Option<ConvertError>, output: Option<seq<byte>>)
    ensures ConvertOutcome(err, output) == ConvertSpec(env)
  {
    if !env.inputOpens {
      return Some(OpenFailed), None;
    }
    var exif := env.exif;
    if !env.rewinds {
      return Some(SeekFailed), None;
    }
    if !env.decodes {
      return Some(DecodeFailed), None;
    }
    if !env.dirCreated {
      return Some(DirCreateFailed), None;
    }
    if !env.fileCreated {
      return Some(FileCreateFailed), None;
    }
    var file := new Sink(env.room);
    ghost var encoded := Concat(env.encoded);
    if exif.Some? {
      var failure := WriteJpegWithExif(file, exif.value, env.encoded);
      assert [] + Take(SplicedJpeg(exif.value, encoded), env.room) == Take(SplicedJpeg(exif.value, encoded), env.room);
      if failure.Some? {
        return Some(WriteFailed(failure.value)), Some(file.written);
      }
    } else {
      var ok := EncodeTo(file, env.encoded);
      assert [] + Take(encoded, env.room) == Take(encoded, env.room);
      if !ok {
        return Some(WriteFailed(EncodeFailed)), Some(file.written);
      }
    }
    return None, Some(file.written);
  }

  /** A successful conversion wrote every intended byte; a failed write left a proper prefix of them. */
  lemma ConversionWritesPrefix(env: ConvertEnv)
    requires ConvertSpec(env).file.Some?
    ensures var o := ConvertSpec(env);
            var bytes := ConvertedBytes(env.exif, Concat(env.encoded));
            && (o.error.None? <==> |bytes| <= env.room)
            && (o.error.None? ==> o.file == Some(bytes))
            && (o.error.Some? ==> o.error.value.WriteFailed? && o.file == Some(bytes[..env.room]))
  {
    if env.exif.Some? {
      assert |ConvertedBytes(env.exif, Concat(env.encoded))| >= 6 + |env.exif.value|;
    }
  }

  /** An empty but non-nil payload still gets an APP1 segment, with length field 2. */
  lemma EmptyExifGetsHeader(encoded: seq<byte>)
    ensures ConvertedBytes(Some([]), encoded) == [0xFF, 0xD8, 0xFF, 0xE1, 0x00, 0x02] + Drop(encoded, 2)
  {
    assert LengthBytes(2) == [0x00, 0x02];
  }

  /** Without a payload the encoder's output is written verbatim, SOI included. */
  lemma NilExifVerbatim(encoded: seq<byte>)
    ensures ConvertedBytes(None, encoded) == encoded
  {
  }

  /**
   * The compressor's EXIF scan over a converted file: a payload of at most 65530 bytes
   * is found again right after SOI, while a 65534-byte payload, whose length field was
   * cut to 00 00, makes the scan panic. Such a file is a malformed JPEG, which the real
   * decoder rejects before the scan runs.
   */
  lemma ConvertThenCompress(exif: seq<byte>, encoded: seq<byte>)
    ensures 0 < |exif| <= 65530 ==>
              ScanFrom(Take(ConvertedBytes(Some(exif), encoded), WindowSize), 0) == Found(2, exif)
    ensures |exif| == 65534 ==>
              ScanFrom(Take(ConvertedBytes(Some(exif), encoded), WindowSize), 0) == LengthPanic(2)
  {
    if 0 < |exif| <= 65530 {
      SpliceThenExtract(exif, encoded, WindowSize);
    }
    if |exif| == 65534 {
      OversizedPayloadWraps(exif, encoded, WindowSize);
    }
  }

  /** The failures of the converter's argument checks, in the order they are checked. */
  datatype HeicArgError = TooFewArgs | InputMissing | InputNotHeic | OutputNotJpeg

  /** The two spellings of the HEIC extension the converter accepts; ".Heic" is not one. */
  predicate HeicExtension(ext: string)
  {
    ext == ".heic" || ext == ".HEIC"
  }

  /** The four spellings of the JPEG extension the converter accepts. */
  predicate JpegExtension(ext: string)
  {
    ext == ".jpg" || ext == ".jpeg" || ext == ".JPG" || ext == ".JPEG"
  }

  /**
   * The checks on `os.Args` before converting: at least a program name, an input and
   * an output; an input that exists; exact-case extensions.
   */
  function CheckHeicArgs(args: seq<string>, inputExists: bool): (r: Option<HeicArgError>)
    ensures r.None? <==> |args| >= 3 && inputExists && HeicExtension(Ext(args[1])) && JpegExtension(Ext(args[2]))
    ensures r == Some(TooFewArgs) <==> |args| < 3
    ensures r == Some(InputMissing) <==> |args| >= 3 && !inputExists
    ensures r == Some(InputNotHeic) <==> |args| >= 3 && inputExists && !HeicExtension(Ext(args[1]))
  {
    if |args| < 3 then Some(TooFewArgs)
    else if !inputExists then Some(InputMissing)
    else if !HeicExtension(Ext(args[1])) then Some(InputNotHeic)
    else if !JpegExtension(Ext(args[2])) then Some(OutputNotJpeg)
    else None
  }

  /** The one line the converter's entry point prints, as a tag. */
  datatype HeicReport = Converted | ArgumentRejected(reason: HeicArgError) | ConversionFailed(error: ConvertError)

  /** The converter's entry point: the argument checks, then the conversion. */
  method RunHeic2Jpg(args: seq<string>, inputExists: bool, env: ConvertEnv)
    returns (report: HeicReport, output: Option<seq<byte>>)
    ensures report.ArgumentRejected? <==> CheckHeicArgs(args, inputExists).Some?
    ensures report.ArgumentRejected? ==> report.reason == CheckHeicArgs(args, inputExists).value && output.None?
    ensures !report.ArgumentRejected? ==> output == ConvertSpec(env).file
    ensures report == Converted <==> CheckHeicArgs(args, inputExists).None? && ConvertSpec(env).error.None?
    ensures report.ConversionFailed? ==> Some(report.error) == ConvertSpec(env).error
  {
    var rejected := CheckHeicArgs(args, inputExists);
    if rejected.Some? {
      return ArgumentRejected(rejected.value), None;
    }
    var err;
    err, output := ConvertHeicToJpg(env);
    if err.Some? {
      report := ConversionFailed(err.value);
    } else {
      report := Converted;
    }
  }

  /** A mixed-case HEIC extension is rejected even though the file is a HEIC file. */
  lemma MixedCaseInputRejected()
    ensures CheckHeicArgs(["heic2jpg", "photo.Heic", "photo.jpg"], true) == Some(InputNotHeic)
  {
    assert Ext("photo.Heic") == ".Heic" by {
      ExtOfNewExtension("photo", "Heic");
      assert "photo" + "." + "Heic" == "photo.Heic";
    }
    assert !HeicExtension(".Heic") by {
      assert ".Heic"[1] != ".heic"[1] && ".Heic"[2] != ".HEIC"[2];
    }
  }

  /** A mixed-case JPEG extension on the output is rejected. */
  lemma MixedCaseOutputRejected()
    ensures CheckHeicArgs(["heic2jpg", "photo.HEIC", "photo.Jpg"], true) == Some(OutputNotJpeg)
  {
    assert Ext("photo.HEIC") == ".HEIC" by {
      ExtOfNewExtension("photo", "HEIC");
      assert "photo" + "." + "HEIC" == "photo.HEIC";
    }
    assert Ext("photo.Jpg") == ".Jpg" by {
      ExtOfNewExtension("photo", "Jpg");
      assert "photo" + "." + "Jpg" == "photo.Jpg";
    }
    assert !JpegExtension(".Jpg") by {
      assert ".Jpg"[1] == 'J' && ".jpg"[1] == 'j';
      assert ".Jpg"[2] == 'p' && ".JPG"[2] == 'P';
    }
  }

  /** Upper-case extensions on both sides are accepted, and the output may sit in a directory. */
  lemma UpperCaseAccepted()
    ensures CheckHeicArgs(["heic2jpg", "photo.HEIC", "out/photo.JPEG"], true) == None
  {
    assert Ext("photo.HEIC") == ".HEIC" by {
      ExtOfNewExtension("photo", "HEIC");
      assert "photo" + "." + "HEIC" == "photo.HEIC";
    }
    assert Ext("out/photo.JPEG") == ".JPEG" by {
      ExtOfNewExtension("out/photo", "JPEG");
      assert "out/photo" + "." + "JPEG" == "out/photo.JPEG";
    }
  }
}
