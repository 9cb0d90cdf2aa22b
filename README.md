# compressimg in Dafny

This project models the Go command-line image tool compressimg. The tool does two things:

- **compress** re-encodes a JPEG, PNG or GIF image. It can scale the image down, cap its
  width and height, and switch to another output format. When the input is a JPEG file, the
  tool moves the input's EXIF segment into a JPEG output.
- **heic2jpg** converts a HEIC photo to JPEG and keeps the photo's EXIF payload.

The model covers these parts of the tool:

- The resize plan: either a scale factor, or width and height caps. When only one cap is
  given, the other side is derived from the aspect ratio.
- The choice of output format: the `-format` option first, then the output path's
  extension, then the decoded format.
- The EXIF scan. It looks at the first 65536 bytes of the input for the APP1 marker
  `FF E1`, followed by a 16-bit big-endian length that counts itself.
- EXIF relocation. The output is SOI, then an APP1 header with the payload, then the
  encoder's output with the encoder's own SOI removed. The removal is done by
  `writerSkipper`, a writer that drops the first two bytes it is fed, however they are split
  across writes.
- The two pipelines, `CompressImage` and `convertHeicToJpg`, step by step, including the
  error path of every call they make. An encoder's refusal of an image is the one failure
  not modelled (see "Left out").
- The checks that `compressCli` and the converter's entry point make on their arguments,
  and the default output path.
- The dispatch of the tool's entry point, by subcommand name or by file extension.

The model does not run the file system, the codecs or `imaging.Resize`. Their outcomes are
inputs instead: the `CompressEnv` and `ConvertEnv` records hold them, in the order the
program asks for them. Two things stand in for the real writes:

- The output file is a `Writers.Sink` that accepts `room` bytes. The write that crosses
  that limit is short and fails.
- An encoder is the sequence of byte chunks it hands to `Write`.

Each pipeline is a method that is proved against a specification function
(`Compress.CompressSpec`, `Heic.ConvertSpec`). The lemmas state properties of those
functions: which error comes first, what the output file holds after success and after a
failed write, and whether the EXIF payload survives a second compression.

Files:

- `wrappers.dfy`: Option and Result.
- `bytes.dfy`: bytes, and slicing and concatenation lemmas.
- `paths.dfy`: `filepath.Ext`, ASCII lower-casing, `strings.TrimPrefix` and `strings.TrimSuffix`.
- `formats.dfy`: output format names and supported extensions.
- `filesize.dfy`: `FormatFileSize`.
- `resize.dfy`: the resize plan.
- `exif.dfy`: the EXIF scan and the spliced JPEG layout.
- `writers.dfy`: the output file, `writerSkipper`, and the SOI/APP1/payload/encoder write sequence.
- `compress.dfy`: `CompressImage`.
- `heic.dfy`: `convertHeicToJpg` and the converter's entry point.
- `compress_cli.dfy`: `compressCli`.
- `dispatch.dfy`: the entry point `main`.

Two behaviours of the code are modelled as written:

- **A short EXIF length field crashes the scan.** A length field of 0 or 1 makes
  `make([]byte, length-2)` panic. The model reports this as `ExifLengthPanic`, and the
  command as `Crashed`.
- **A 65534-byte HEIC payload makes a malformed JPEG.** Its length field `2 + len(exif)`
  is cut to 16 bits and becomes `00 00`. The compressor's EXIF scan would panic on these
  bytes (`Heic.ConvertThenCompress`). In the real program the JPEG decoder rejects the
  segment length first, so a compression of the converted file ends with a decode error.
  The model does not derive that error, because the decoder's verdict is an input.

Three behaviours of the code that a reader might not expect:

- The converter accepts only `.heic` and `.HEIC` inputs. The entry point lower-cases the
  extension before dispatching, so it sends "photo.Heic" to the converter, which then
  rejects it.
- A non-nil but empty HEIC payload still gets an APP1 segment. Only a nil payload leaves
  the encoder's output verbatim.
- The compressor creates the output file before it checks the output format. An
  unsupported format, or the length panic, therefore leaves an empty file behind.

## Model

| member | source | states |
|---|---|---|
| Paths.Ext | go/compress.go:256 | `filepath.Ext`: the result is empty or a dot followed by characters that are neither dots nor separators, and it is empty only when no dot follows the last separator |
| Paths.ExtIsSuffix | go/compress_cli.go:53-54 | the extension is a suffix of the path, so trimming it leaves the stem |
| Formats.ParseFormat | go/compress.go:168-203 | exactly "jpg", "jpeg", "png" and "gif" select an encoder: "jpg" and "jpeg" select JPEG, "png" PNG and "gif" GIF; any other name, including upper case, is unsupported |
| Formats.PathFormatCommutes | go/compress.go:115 | the output path's format name, extension lower-cased without its dot, equals `GetFormatFromPath` |
| Formats.SupportedIffParsable | go/compress.go:255-269 | about `IsSupportedFormat` and `GetFormatFromPath` (go/compress.go:255-269): a path is supported exactly when its lower-cased extension names a format the compressor can encode |
| Formats.SelectionPriority | go/compress.go:112-120 | about `SelectOutputFormat` (go/compress.go:112-120): an explicit format wins; otherwise the output path's lower-cased extension; otherwise the decoded format |
| Formats.CaseSensitivity | go/compress.go:112-120 | an explicit "JPG" is not lower-cased and is unsupported, while an output path ending ".JPG" selects JPEG |
| Formats.LowerKeepsLeadingDot | go/compress.go:267-268 | lower-casing a dotted extension keeps the dot and lower-cases the rest |
| FileSize.FormatFileSize | go/compress.go:234-252 | sizes under 1024 are whole bytes; larger sizes are the exact size over the largest 1024-power unit up to GB, with an amount of at least 1 and below 1024 unless the unit is GB |
| Resize.PlanResize | go/compress.go:84-104 | a scale in (0, 1) never enlarges a side and shrinks every positive side; any other resize makes at least one side smaller than the original; it is defined for non-negative bounds that are positive where a single cap derives the other side (`PlanDefined`) |
| Resize.ScaleIgnoresCaps | go/compress.go:85-88 | a scale in (0, 1) ignores the caps and truncates width times scale and height times scale |
| Resize.NoScaleNoCapKeeps | go/compress.go:84-104 | without a scale in (0, 1) and without a positive cap the image is kept |
| Resize.HeightCapOnly | go/compress.go:94-103 | with only a height cap the width is the truncated `w * maxHeight / h`, within one pixel of the aspect ratio; the image is resized exactly when it is taller than the cap and then never gets wider |
| Resize.WidthCapOnly | go/compress.go:96-103 | the symmetric rule for a width cap alone |
| Resize.BothCaps | go/compress.go:89-103 | with both caps the image is kept when it fits, otherwise stretched to exactly the caps, which can enlarge a side |
| Resize.Examples | go/compress.go:84-104 | 2000x1000 at scale 0.5 becomes 1000x500; 800x600 with width 400 becomes 400x300; 100x100 with width 500 is kept |
| Exif.ExtractExif | go/compress.go:148-162 | the scan loop finds the first index holding a complete APP1 segment, or none; at that index it copies a payload when the length field is 2 or more and panics when it is below 2 |
| Exif.ScanFromFirst | go/compress.go:148-162 | the recursive scan stops at the first complete APP1 segment at or after its start, and its payload is the bytes after the length field |
| Exif.LengthBytesDecode | go/compress.go:180 | about `LengthBytes` (go/compress.go:179-180, go/heic2jpg.go:69-70): the two marker length bytes read back big-endian give the length for any length below 65536 |
| Exif.LengthBytesEncode | go/compress.go:152 | any two length bytes read big-endian and written back give the same two bytes |
| Exif.EncoderSoiReplaced | go/compress.go:170-191 | about `SplicedJpeg` and `App1Header` (go/compress.go:170-191, go/heic2jpg.go:60-81): when the encoder's output starts with SOI, the spliced file is SOI, the APP1 marker and length, the payload, and the encoder's output after its own SOI |
| Exif.SpliceThenExtract | go/compress.go:170-191 | about `SplicedJpeg`: scanning any prefix of a spliced file that holds the SOI, header and payload gives back the payload at index 2, whenever the payload fits the 16-bit length |
| Exif.ExtractThenSplice | go/compress.go:148-191 | the payload found in a source, with its rebuilt header, is byte for byte the source's own APP1 segment, and splicing it is found again at index 2 |
| Exif.OversizedPayloadWraps | go/heic2jpg.go:68-70 | a 65534-byte payload gets the length bytes 00 00, which makes the spliced file a malformed JPEG, and the EXIF scan of it panics at index 2 |
| Exif.ShortLengthFields | go/compress.go:151-157 | a length field of 1 panics; a length field of 2 yields an empty payload |
| Writers.StreamGrows | go/heic2jpg.go:98-115 | feeding more chunks to a skipping writer only appends to what it passes on: the stream after all chunks is the stream after the first m, followed by the remaining chunks past whatever skip count is left |
| Writers.FailedChunk | go/heic2jpg.go:98-115 | a write that does not fit leaves the file holding exactly the prefix of the stream that fits |
| Writers.Sink.Write | go/compress.go:173 | the output file's `Write`: it succeeds exactly when the data fits the room left; a write that does not fit stores the part that fits and fails; the room shrinks by what was stored |
| Writers.WriterSkipper.constructor | go/heic2jpg.go:80 | a skipper starts with its skip count, over the file's current contents, having seen no bytes |
| Writers.WriterSkipper.Write | go/heic2jpg.go:98-115 | the three branches: pass through once nothing is left to skip; swallow a write shorter than the skip count and lower the count; otherwise write the rest past the skip count and report the full length; success exactly when the full length is reported |
| Writers.EncodeTo | go/compress.go:194 | an encoder writing straight to the file succeeds exactly when its output fits, and the file gains the prefix of that output that fits |
| Writers.EncodeThrough | go/compress.go:189-191 | an encoder writing through the skipper succeeds exactly when the skipped stream fits, and the file holds the prefix of that stream that fits |
| Writers.FailureAt | go/compress.go:170-191 | the write that fails is the SOI, the marker, the payload or the encoder's, according to where the file's room ends |
| Writers.WriteJpegWithExif | go/compress.go:170-191 | the four stages leave the file holding the prefix of the spliced JPEG that fits, and report the failing stage given by `FailureAt` |
| Compress.CompressImage | go/compress.go:55-231 | the method's result and output file are those of `CompressSpec`, the step-by-step value of go/compress.go:55-231 |
| Compress.SetupOrder | go/compress.go:56-133 | stat, open and decode failures are reported in that order, and the output file is missing exactly when stat, open, decode, directory creation or file creation fails |
| Compress.SuccessfulRun | go/compress.go:205-230 | a successful run had a supported format and no length panic, wrote every intended byte, and reports the file's length as the compressed size, the stat'd input size as the original size, and the resize plan's bounds |
| Compress.FailedWriteKeepsPrefix | go/compress.go:170-207 | a failed write leaves exactly the prefix of the intended bytes that fits; without relocation the encoder's write failed, and with relocation the failing stage is `FailureAt`'s: SOI, marker, payload or encoder, by where the room ends |
| Compress.PlainOutputIsEncoderOutput | go/compress.go:192-200 | PNG, GIF and JPEG output without a payload is the encoder's output verbatim |
| Compress.RelocatedSegmentIsCopied | go/compress.go:136-191 | JPEG output with a payload starts with SOI and the source's own APP1 segment, followed by the encoder's output past its SOI |
| Compress.RecompressKeepsExif | go/compress.go:136-194 | compressing a successful JPEG output again finds the same payload, right after SOI |
| Compress.DefaultOptionsKeepBounds | go/compress.go:43-52 | the default options never resize |
| Compress.NonJpegInputIgnoresExif | go/compress.go:137 | for any input not decoded as JPEG the outcome does not depend on the input bytes |
| Heic.ConvertHeicToJpg | go/heic2jpg.go:15-90 | the method's error and output file are those of `ConvertSpec`, the step-by-step value of go/heic2jpg.go:15-90 |
| Heic.ConversionWritesPrefix | go/heic2jpg.go:60-87 | a conversion succeeds exactly when the intended bytes fit; success writes them all, and a failed write leaves the prefix that fits |
| Heic.EmptyExifGetsHeader | go/heic2jpg.go:60-81 | an empty non-nil payload still gets SOI and an APP1 header with length 2 |
| Heic.NilExifVerbatim | go/heic2jpg.go:56-84 | without a payload the encoder's output is written verbatim, SOI included |
| Heic.ConvertThenCompress | go/heic2jpg.go:60-84 | the compressor's EXIF scan finds a converted payload of 1 to 65530 bytes again at index 2; on a 65534-byte payload, whose length field wrapped to 00 00, the scan would panic, although the real decoder rejects such a file before the scan runs |
| Heic.CheckHeicArgs | go/heic2jpg.go:119-145 | conversion goes ahead exactly with three or more arguments, an existing input, an exact-case HEIC extension and an exact-case JPEG extension; each rejection names the first failing check |
| Heic.RunHeic2Jpg | go/heic2jpg.go:117-155 | a rejected argument list converts nothing; otherwise the output is the conversion's, success is reported exactly when both the checks and the conversion pass, and a failure report carries the conversion's own error |
| Heic.MixedCaseInputRejected | go/heic2jpg.go:134-138 | "photo.Heic" is not accepted as HEIC input |
| Heic.MixedCaseOutputRejected | go/heic2jpg.go:141-145 | "photo.Jpg" is not accepted as JPEG output |
| Heic.UpperCaseAccepted | go/heic2jpg.go:134-145 | upper-case ".HEIC" and ".JPEG" are accepted |
| CompressCli.PlanCompressCli | go/compress_cli.go:29-72 | a missing argument, a missing input and an unsupported extension are rejected, each exactly in its case and in that order; otherwise the first argument is compressed into the output path with the options from the flags |
| CompressCli.RunCompressCli | go/compress_cli.go:74-87 | a rejection runs nothing; otherwise the report is the compressor's outcome: a crash for the length panic, an error line for any other error, and on success both sizes as `FormatFileSize` text |
| CompressCli.DefaultFlagsGiveDefaultOptions | go/compress_cli.go:65-72 | about `OptionsFromFlags` (go/compress_cli.go:65-72): with no flags the options equal `DefaultCompressOptions` |
| CompressCli.StemAndExtension | go/compress_cli.go:53-54 | the stem followed by the extension is the input |
| CompressCli.DefaultOutputDiffers | go/compress_cli.go:50-63 | about `DefaultOutputPath` (go/compress_cli.go:50-63): the default output path is never the input path |
| CompressCli.DefaultOutputKeepsExtension | go/compress_cli.go:52-62 | about `DefaultOutputPath`: without -format the default output path has the input's extension |
| CompressCli.DefaultOutputTakesFormat | go/compress_cli.go:57-60 | about `DefaultOutputPath`: with a non-empty -format value f that holds no '.' and no '/', the default output path has the extension ".f" |
| CompressCli.DefaultRunKeepsFormat | go/compress_cli.go:50-63 | about `OutputPathFor` and `SelectOutputFormat`: with no flags a supported input is compressed to its own format by extension |
| Dispatch.WithoutSubcommand | go/main.go:25 | the argument list without the subcommand keeps the program name and shifts the rest down by one |
| Dispatch.ReservedMapping | go/main.go:13-32 | about `DispatchCommand` (go/main.go:11-51): with fewer than two arguments, or "help", the usage is shown; "heic2jpg" and "compress" run the converter and the compressor on the argument list without the subcommand |
| Dispatch.ReservedBeforeExistence | go/main.go:22-33 | about `DispatchCommand` (go/main.go:11-51): "heic2jpg", "compress" and "help" are dispatched the same way whether or not a file of that name exists, and never rejected |
| Dispatch.AutoDispatch | go/main.go:33-50 | about `DispatchCommand`: any other first argument is an unknown command exactly when it does not exist; an existing one goes to compression exactly when its extension is supported, to conversion exactly when it is ".heic" in any case, both with the argument list unchanged, and is rejected as an unsupported file otherwise |
| Dispatch.DispatchedPathIsAccepted | go/main.go:40-42 | a path the entry point sends to compression passes the compressor's own input checks |
| Dispatch.CaseMismatch | go/main.go:36-39 | "photo.Heic" is sent to the converter, which rejects it as not HEIC |
| Dispatch.MissingOutput | go/main.go:36-39 | a bare existing ".heic" path is sent to the converter, which reports too few arguments |

## Left out

- The pixel codecs (`image.Decode`, `jpeg.Encode`, `png.Encoder`, `gif.Encode`, `goheif.Decode`, `goheif.ExtractExif`) and `imaging.Resize` are not modelled. Their outcomes are fields of the environment records. An encoder is the list of writes it makes.
- An encoder's refusal of an image is not modelled. Examples are PNG's error for a non-positive size, and the error JPEG and GIF give for a side of 65536 pixels or more. In the model an encoder fails only through a failed write.
- The decoder's verdict (`CompressEnv.decoded`) is an input, not a function of the input bytes. For example, the model does not derive that `image.Decode` rejects a JPEG whose APP1 length field is below 2.
- With `-o` equal to the input path, `os.Create` (go/compress.go:129) truncates the input before the EXIF re-open (go/compress.go:139), so the EXIF payload is lost. The bytes the re-open reads (`CompressEnv.exifSource`) are an input, so the model does not derive this.
- The file system (`os.Stat`, `os.Open`, `os.MkdirAll`, `os.Create`, `Seek`, deferred `Close`) is not modelled. Each call's success is a field of the environment records, and so is the input's size.
- The EXIF window is the first 65536 bytes of the input, so one `Read` is assumed to fill the buffer as far as the file allows. A short read is not modelled.
- Compress.CompressImage: the floating-point compression ratio is not computed.
- Compress.CompressImage: the compressed width and height are the resize plan's target. `imaging.Resize`'s own handling of a zero or negative target is not modelled.
- Compress.CompressImage requires non-negative decoded bounds (`ProperBounds`), as the decoders report. It also requires a positive height when only a height cap is given, and a positive width when only a width cap is given. Those are the two divisions at go/compress.go:95 and 97. Go's float division by zero there gives an infinity or NaN, and converting that to `int` is implementation-specific. Runs with a zero side on the scale path, or with no resize option, are modelled.
- Resize.PlanResize computes in exact reals and integers. The float64 rounding of `int(float64(w) * scale)` and of the derived side is not modelled. For the derived side, the model truncates the exact quotient.
- FileSize.FormatFileSize returns the exact scaled amount and its unit. The `%.2f` rendering and the final text are not modelled.
- Paths.Ext treats only '/' as a path separator. The Windows separator `\` and volume names are not modelled.
- Paths.Lower lower-cases ASCII letters only. `strings.ToLower` on other Unicode letters is not modelled.
- `flag.Parse` is not modelled; `compressCli` starts from the parsed flag values and positional arguments. Printed text, `printUsage` and `flag.PrintDefaults` are modelled only as report tags.
- `fileExists` and the input existence checks are a boolean input (whether `os.Stat` reports "does not exist").
- `heic2jpgMain` is not part of this model. The body of `main` in go/heic2jpg.go stands in for it.
- The `-q` and `-pnglevel` values reach only the encoders, so they have no effect in the model.
- The other helpers in go/compress.go (`ReadImageFromFile`, `WriteImageToFile`, `EncodeImageToBuffer`, `DecodeImageFromBuffer`, `CopyFile`) are not part of this model. Neither the pipelines nor the entry points call them.
- convert-heif.ts and go/heic2jpg.js are not part of this model.
