/**
 * Output files and `writerSkipper`, the decorator that swallows the first bytes
 * written through it so that the encoder's own SOI marker is not written twice.
 */
module Writers {
  import opened Wrappers
  import opened Bytes
  import opened Exif

  /** The skip count left after `fed` bytes have gone through a skipper that started at `skip0`. */
  function SkipLeft(skip0: int, fed: nat): int
  {
    if skip0 <= 0 then skip0 else if fed >= skip0 then 0 else skip0 - fed
  }

  /** What a sink holding `base` should hold after `fed` bytes went through a skipper started at `skip0`. */
  function Stream(base: seq<byte>, fed: seq<byte>, skip0: int): seq<byte>
  {
    base + Drop(fed, skip0)
  }

  /** Feeding the remaining chunks only appends to what the first m chunks produce. */
  lemma StreamGrows(base: seq<byte>, fed0: seq<byte>, chunks: seq<seq<byte>>, m: nat, skip0: int)
    requires m <= |chunks|
    ensures var f := fed0 + Concat(chunks[..m]);
            Stream(base, fed0 + Concat(chunks), skip0)
              == Stream(base, f, skip0) + Drop(Concat(chunks[m..]), skip0 - |f|)
  {
    var f := fed0 + Concat(chunks[..m]);
    var rest := Concat(chunks[m..]);
    ConcatSplit(chunks, m);
    AppendAssoc(fed0, Concat(chunks[..m]), rest);
    assert fed0 + Concat(chunks) == f + rest;
    DropConcat(f, rest, skip0);
    AppendAssoc(base, Drop(f, skip0), Drop(rest, skip0 - |f|));
  }

  /** When every chunk went through, the sink holds the whole stream, which fit. */
  lemma CompletedRun(base: seq<byte>, fed0: seq<byte>, chunks: seq<seq<byte>>, skip0: int, written: seq<byte>, cap: int)
    requires written == Stream(base, fed0 + Concat(chunks[..|chunks|]), skip0) && |written| <= cap
    ensures var t := Stream(base, fed0 + Concat(chunks), skip0);
            |t| <= cap && written == Take(t, cap)
  {
    assert chunks[..|chunks|] == chunks;
  }

  /** A write that fails inside chunk j leaves the sink holding a prefix of the whole stream. */
  lemma FailedChunk(base: seq<byte>, fed0: seq<byte>, chunks: seq<seq<byte>>, j: nat, skip0: int, written: seq<byte>)
    requires j < |chunks|
    requires var e := Stream(base, fed0 + Concat(chunks[..j]) + chunks[j], skip0);
             |written| < |e| && written == e[..|written|]
    ensures var t := Stream(base, fed0 + Concat(chunks), skip0);
            |written| < |t| && written == Take(t, |written|)
  {
    var f := fed0 + Concat(chunks[..j + 1]);
    ConcatSnoc(chunks, j);
    assert fed0 + Concat(chunks[..j]) + chunks[j] == f;
    StreamGrows(base, fed0, chunks, j + 1, skip0);
    TakeTake(Stream(base, f, skip0), Drop(Concat(chunks[j + 1..]), skip0 - |f|), |written|);
  }

  /**
   * An output file. A failing write is modelled as a device that accepts only `room`
   * more bytes: a write that does not fit stores the bytes that fit and reports an
   * error together with their count, as `os.File.Write` does.
   */
  class Sink {
    var written: seq<byte>
    var room: nat

    constructor (room: nat)
      ensures written == [] && this.room == room
    {
      written := [];
      this.room := room;
    }

    method Write(data: seq<byte>) returns (n: nat, ok: bool)
      modifies this
      ensures ok <==> |data| <= old(room)
      ensures n == if ok then |data| else old(room)
      ensures written == old(written) + data[..n]
      ensures room == old(room) - n
    {
      if |data| <= room {
        n, ok := |data|, true;
      } else {
        n, ok := room, false;
      }
      written := written + data[..n];
      room := room - n;
    }
  }

  /**
   * `writerSkipper`: forwards to `w` everything written through it except the first
   * `bytesToSkip` bytes, however the writes split them. The ghost fields record the
   * starting count, what the sink held at the start, and every byte fed so far.
   */
  class WriterSkipper {
    const w: Sink
    var bytesToSkip: int
    ghost const skip0: int
    ghost const base: seq<byte>
    ghost var fed: seq<byte>

    /** Over any run of successful writes the sink holds the bytes fed, minus the first skip0 ones. */
    ghost predicate Valid()
      reads this, w
    {
      && bytesToSkip == SkipLeft(skip0, |fed|)
      && w.written == Stream(base, fed, skip0)
    }

    constructor (w: Sink, bytesToSkip: int)
      ensures this.w == w && this.bytesToSkip == bytesToSkip
      ensures skip0 == bytesToSkip && base == w.written && fed == []
      ensures Valid()
    {
      this.w := w;
      this.bytesToSkip := bytesToSkip;
      skip0 := bytesToSkip;
      base := w.written;
      fed := [];
    }

    method Write(data: seq<byte>) returns (n: int, ok: bool)
      requires Valid()
      modifies this, w
      // nothing left to skip: the call is the sink's own
      ensures old(bytesToSkip) <= 0 ==>
                && bytesToSkip == old(bytesToSkip)
                && (ok <==> |data| <= old(w.room))
                && n == (if ok then |data| else old(w.room))
                && w.written == old(w.written) + data[..n]
      // shorter than what is left to skip: swallowed whole, reported as written
      ensures |data| < old(bytesToSkip) ==>
                && ok && n == |data|
                && bytesToSkip == old(bytesToSkip) - |data|
                && w.written == old(w.written) && w.room == old(w.room)
      // reaches the boundary: the rest is forwarded; the count is cleared only on success
      ensures 0 < old(bytesToSkip) <= |data| ==>
                var rest := data[old(bytesToSkip)..];
                && (ok <==> |rest| <= old(w.room))
                && w.written == old(w.written) + rest[..if ok then |rest| else old(w.room)]
                && (ok ==> n == |data| && bytesToSkip == 0)
                && (!ok ==> n == old(w.room) && bytesToSkip == old(bytesToSkip))
      ensures old(bytesToSkip) >= 0 ==> bytesToSkip >= 0
      ensures ok <==> n == |data|
      ensures fed == old(fed) + data
      ensures |w.written| + w.room == old(|w.written| + w.room)
      ensures ok ==> Valid()
      ensures !ok ==> && w.room == 0
                      && |w.written| < |Stream(base, fed, skip0)|
                      && w.written == Stream(base, fed, skip0)[..|w.written|]
    {
      DropConcat(fed, data, skip0);
      AppendAssoc(base, Drop(fed, skip0), Drop(data, skip0 - |fed|));
      fed := fed + data;
      if bytesToSkip <= 0 {
        var m;
        m, ok := w.Write(data);
        return m, ok;
      }
      if |data| < bytesToSkip {
        bytesToSkip := bytesToSkip - |data|;
        return |data|, true;
      }
      var m;
      m, ok := w.Write(data[bytesToSkip..]);
      if ok {
        n := m + bytesToSkip;
        bytesToSkip := 0;
      } else {
        n := m;
      }
    }
  }

  /** The encoder writing its output, chunk by chunk, straight into a file; it stops at the first failed write. */
  method EncodeTo(file: Sink, chunks: seq<seq<byte>>) returns (ok: bool)
    modifies file
    ensures ok <==> |Concat(chunks)| <= old(file.room)
    ensures file.written == old(file.written) + Take(Concat(chunks), old(file.room))
  {
    ghost var w0 := file.written;
    ok := true;
    var j := 0;
    while j < |chunks|
      invariant 0 <= j <= |chunks|
      invariant |Concat(chunks[..j])| + file.room == old(file.room)
      invariant file.written == w0 + Concat(chunks[..j])
    {
      ConcatSnoc(chunks, j);
      AppendAssoc(w0, Concat(chunks[..j]), chunks[j]);
      var n;
      n, ok := file.Write(chunks[j]);
      if !ok {
        TakeInsideChunk(chunks, j, n);
        return;
      }
      j := j + 1;
    }
    assert chunks[..j] == chunks;
  }

  /** The encoder writing its output, chunk by chunk, through a skipper; it stops at the first failed write. */
  method EncodeThrough(s: WriterSkipper, chunks: seq<seq<byte>>) returns (ok: bool)
    requires s.Valid()
    modifies s, s.w
    ensures ok <==> |Stream(s.base, old(s.fed) + Concat(chunks), s.skip0)| <= old(|s.w.written| + s.w.room)
    ensures s.w.written == Take(Stream(s.base, old(s.fed) + Concat(chunks), s.skip0), old(|s.w.written| + s.w.room))
    ensures ok ==> s.Valid() && s.fed == old(s.fed) + Concat(chunks)
  {
    ghost var cap := |s.w.written| + s.w.room;
    ghost var fed0 := s.fed;
    ok := true;
    var j := 0;
    while j < |chunks|
      invariant 0 <= j <= |chunks|
      invariant s.Valid()
      invariant s.fed == fed0 + Concat(chunks[..j])
      invariant |s.w.written| + s.w.room == cap
    {
      ConcatSnoc(chunks, j);
      AppendAssoc(fed0, Concat(chunks[..j]), chunks[j]);
      var n;
      n, ok := s.Write(chunks[j]);
      if !ok {
        FailedChunk(s.base, fed0, chunks, j, s.skip0, s.w.written);
        return;
      }
      j := j + 1;
    }
    assert chunks[..j] == chunks;
    CompletedRun(s.base, fed0, chunks, s.skip0, s.w.written, cap);
  }

  /**
   * Which write fails when the file accepts only `room` bytes of a spliced file of `total`
   * bytes whose EXIF payload is `exifLength` bytes long.
   */
  function FailureAt(room: int, exifLength: nat, total: int): (f: Option<WriteFailure>)
    requires 6 + exifLength <= total
    ensures f == None <==> total <= room
    ensures f == Some(SoiWriteFailed) <==> room < 2
    ensures f == Some(MarkerWriteFailed) <==> 2 <= room < 6
    ensures f == Some(ExifWriteFailed) <==> 6 <= room < 6 + exifLength
    ensures f == Some(EncodeFailed) <==> 6 + exifLength <= room < total
  {
    if room < 2 then Some(SoiWriteFailed)
    else if room < 6 then Some(MarkerWriteFailed)
    else if room < 6 + exifLength then Some(ExifWriteFailed)
    else if room < total then Some(EncodeFailed)
    else None
  }

  /** The skipper's stream over the header already written is the whole spliced file. */
  lemma EncodeStage(w0: seq<byte>, headed: seq<byte>, encoded: seq<byte>, s: seq<byte>, base: seq<byte>, fed0: seq<byte>, room0: int)
    requires s == headed + Drop(encoded, 2) && base == w0 + headed && fed0 == [] && 0 <= room0
    ensures Stream(base, fed0 + encoded, 2) == w0 + s
    ensures Take(Stream(base, fed0 + encoded, 2), |w0| + room0) == w0 + Take(s, room0)
    ensures |Stream(base, fed0 + encoded, 2)| <= |w0| + room0 <==> |s| <= room0
  {
    assert fed0 + encoded == encoded;
    AppendAssoc(w0, headed, Drop(encoded, 2));
    TakeAppend(w0, s, room0);
  }

  /** The write that failed when relocating EXIF, in the order the writes happen. */
  datatype WriteFailure = SoiWriteFailed | MarkerWriteFailed | ExifWriteFailed | EncodeFailed

  /**
   * The EXIF splice shared by both pipelines: SOI, the APP1 header, the payload, then
   * the encoder through a skipper of 2. The file receives the spliced stream cut at
   * the room it had, and the failure names the first write that did not fit.
   */
  method WriteJpegWithExif(file: Sink, exif: seq<byte>, chunks: seq<seq<byte>>) returns (failure: Option<WriteFailure>)
    modifies file
    ensures var s := SplicedJpeg(exif, Concat(chunks));
            && file.written == old(file.written) + Take(s, old(file.room))
            && failure == FailureAt(old(file.room), |exif|, |s|)
  {
    ghost var s := SplicedJpeg(exif, Concat(chunks));
    ghost var w0, room0 := file.written, file.room;
    var header := App1Header(exif);
    ghost var headed := Soi + header + exif;
    assert s == headed + Drop(Concat(chunks), 2);
    assert s[0..2] == Soi && s[2..6] == header && s[6..6 + |exif|] == exif;
    assert |s| >= |headed| == 6 + |exif|;
    assert file.written == w0 + Take(s, 0);
    var n, ok := file.Write(Soi);
    Progress(w0, s, 0, Soi, n);
    if !ok {
      return Some(SoiWriteFailed);
    }
    n, ok := file.Write(header);
    Progress(w0, s, 2, header, n);
    if !ok {
      return Some(MarkerWriteFailed);
    }
    n, ok := file.Write(exif);
    Progress(w0, s, 6, exif, n);
    if !ok {
      return Some(ExifWriteFailed);
    }
    assert Take(s, 6 + |exif|) == headed;
    assert file.written == w0 + headed;
    var skipper := new WriterSkipper(file, 2);
    ghost var base, fed0 := skipper.base, skipper.fed;
    ok := EncodeThrough(skipper, chunks);
    EncodeStage(w0, headed, Concat(chunks), s, base, fed0, room0);
    failure := if ok then None else Some(EncodeFailed);
  }
}
