/**
 * `compressCli`: after flag parsing, the checks on the positional arguments, the
 * default output path, the options built from the flags, and the one report it prints.
 */
module CompressCli {
  import opened Wrappers
  import opened Bytes
  import opened Paths
  import opened Formats
  import opened FileSize
  import opened Compress

  /** The parsed flags: -q, -pnglevel, -scale, -width, -height, -format and -o. */
  datatype Flags = Flags(
    quality: int,
    pngLevel: int,
    scale: real,
    width: int,
    height: int,
    format: string,
    output: string)

  /** The flag defaults. */
  function DefaultFlags(): Flags
  {
    Flags(85, PngDefaultCompression, 1.0, 0, 0, "", "")
  }

  /** `DefaultCompressOptions()` with every field overwritten by its flag. */
  function OptionsFromFlags(f: Flags): CompressOptions
  {
    DefaultCompressOptions().(quality := f.quality, pngLevel := f.pngLevel, scale := f.scale,
                              maxWidth := f.width, maxHeight := f.height, outputFormat := f.format)
  }

  /**
   * The output path when -o is not given: the input without its extension, then
   * "_compressed", then the input's extension, or "." and the -format value when that
   * is given.
   */
  function DefaultOutputPath(input: string, format: string): string
  {
    var ext := Ext(input);
    var baseName := TrimSuffix(input, ext);
    var outputExt := if format != "" then "." + format else ext;
    baseName + "_compressed" + outputExt
  }

  /** The -o value verbatim, or the default output path. */
  function OutputPathFor(flags: Flags, input: string): string
  {
    if flags.output != "" then flags.output else DefaultOutputPath(input, flags.format)
  }

  /** The checks before compressing, in order. */
  datatype CliError = NoInputArgument | InputNotFound | UnsupportedInput

  /** What the checks decide: reject, or compress `input` into `output` with `options`. */
  datatype CliPlan = Reject(reason: CliError) | Run(input: string, output: string, options: CompressOptions)

  /**
   * The decision after flag parsing: the first positional argument is the input; it must
   * exist (`inputExists` is false only when the stat error is "does not exist") and
   * carry a supported extension.
   */
  function PlanCompressCli(flags: Flags, positional: seq<string>, inputExists: bool): (p: CliPlan)
    ensures p == Reject(NoInputArgument) <==> |positional| == 0
    ensures p == Reject(InputNotFound) <==> |positional| > 0 && !inputExists
    ensures p == Reject(UnsupportedInput) <==> |positional| > 0 && inputExists && !IsSupportedFormat(positional[0])
    ensures p.Run? ==> p.input == positional[0] && p.output == OutputPathFor(flags, positional[0])
                       && p.options == OptionsFromFlags(flags)
  {
    if |positional| < 1 then Reject(NoInputArgument)
    else
      var inputPath := positional[0];
      if !inputExists then Reject(InputNotFound)
      else if !IsSupportedFormat(inputPath) then Reject(UnsupportedInput)
      else Run(inputPath, OutputPathFor(flags, inputPath), OptionsFromFlags(flags))
  }

  /**
   * What the command prints, as a tag: a rejection or a compression error (one
   * `error_` line each), a crash (the EXIF length panic ends the process before any
   * line), or success with both sizes in human-readable units.
   */
  datatype CliReport =
    | Rejected(reason: CliError)
    | CompressFailed(error: CompressError)
    | Crashed(at: nat)
    | Compressed(result: CompressResult, originalText: SizeText, compressedText: SizeText)

  /** `compressCli` from the parsed flags on: `CompressImage` runs only when every check passes. */
  method RunCompressCli(flags: Flags, positional: seq<string>, inputExists: bool, env: CompressEnv)
    returns (report: CliReport, output: Option<seq<byte>>)
    requires PlanCompressCli(flags, positional, inputExists).Run? ==> ProperBounds(env, OptionsFromFlags(flags))
    ensures var p := PlanCompressCli(flags, positional, inputExists);
            && (report.Rejected? <==> p.Reject?)
            && (report.Rejected? ==> report.reason == p.reason && output.None?)
            && (p.Run? ==> output == CompressSpec(p.input, p.output, p.options, env).file)
            && (report.Crashed? ==> p.Run? && CompressSpec(p.input, p.output, p.options, env).result == Err(ExifLengthPanic(report.at)))
            && (report.CompressFailed? ==> p.Run? && CompressSpec(p.input, p.output, p.options, env).result == Err(report.error)
                                           && !report.error.ExifLengthPanic?)
            && (report.Compressed? <==> p.Run? && CompressSpec(p.input, p.output, p.options, env).result.Ok?)
            && (report.Compressed? ==>
                  && report.result == CompressSpec(p.input, p.output, p.options, env).result.value
                  && report.originalText == FormatFileSize(report.result.originalSize)
                  && report.compressedText == FormatFileSize(report.result.compressedSize))
  {
    var plan := PlanCompressCli(flags, positional, inputExists);
    if plan.Reject? {
      return Rejected(plan.reason), None;
    }
    var r;
    r, output := CompressImage(plan.input, plan.output, plan.options, env);
    match r
    case Err(ExifLengthPanic(at)) =>
      report := Crashed(at);
    case Err(e) =>
      report := CompressFailed(e);
    case Ok(result) =>
      report := Compressed(result, FormatFileSize(result.originalSize), FormatFileSize(result.compressedSize));
  }

  /** With no flags, the options are the compressor's defaults. */
  lemma DefaultFlagsGiveDefaultOptions()
    ensures OptionsFromFlags(DefaultFlags()) == DefaultCompressOptions()
  {
  }

  /** The input is its stem followed by its extension. */
  lemma StemAndExtension(input: string)
    ensures TrimSuffix(input, Ext(input)) + Ext(input) == input
  {
    var e := Ext(input);
    ExtIsSuffix(input);
    var k := |input| - |e|;
    assert input[k..] == e;
    assert TrimSuffix(input, e) == input[..k];
    assert input[..k] + input[k..] == input;
  }

  /** The default output path never overwrites the input. */
  lemma DefaultOutputDiffers(input: string, format: string)
    ensures DefaultOutputPath(input, format) != input
  {
    var ext := Ext(input);
    var baseName := TrimSuffix(input, ext);
    StemAndExtension(input);
    var out := DefaultOutputPath(input, format);
    if ext == "" {
      if format == "" {
        assert |out| > |input|;
      } else {
        assert |out| > |input|;
      }
    } else {
      assert input[|baseName|] == ext[0] == '.';
      assert out[|baseName|] == '_';
    }
  }

  /** Without -format the default output path keeps the input's extension. */
  lemma DefaultOutputKeepsExtension(input: string)
    ensures Ext(DefaultOutputPath(input, "")) == Ext(input)
  {
    var ext := Ext(input);
    var baseName := TrimSuffix(input, ext);
    StemAndExtension(input);
    if ext == "" {
      assert DefaultOutputPath(input, "") == input + "_compressed";
      ExtAppendPlain(input, "_compressed");
    } else {
      var rest := ext[1..];
      assert ext == "." + rest;
      ExtOfNewExtension(baseName + "_compressed", rest);
      assert DefaultOutputPath(input, "") == baseName + "_compressed" + "." + rest;
    }
  }

  /** With -format f (no dot, no slash) the default output path gets the extension ".f". */
  lemma DefaultOutputTakesFormat(input: string, format: string)
    requires format != "" && forall k :: 0 <= k < |format| ==> PlainChar(format[k])
    ensures Ext(DefaultOutputPath(input, format)) == "." + format
  {
    var baseName := TrimSuffix(input, Ext(input));
    ExtOfNewExtension(baseName + "_compressed", format);
    assert DefaultOutputPath(input, format) == baseName + "_compressed" + "." + format;
  }

  /**
   * Without -o and -format the compressor picks the output format from the default
   * output path, which is the input's own format by extension.
   */
  lemma DefaultRunKeepsFormat(input: string, decoded: string)
    requires IsSupportedFormat(input)
    ensures SelectOutputFormat("", OutputPathFor(DefaultFlags(), input), decoded) == GetFormatFromPath(input)
  {
    var out := OutputPathFor(DefaultFlags(), input);
    DefaultOutputKeepsExtension(input);
    SelectionPriority("", out, decoded);
    SupportedIffParsable(input);
  }
}
