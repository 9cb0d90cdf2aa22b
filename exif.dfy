/**
 * The EXIF relocator: finding the APP1 segment (marker FF E1, then a big-endian length
 * that counts its own two bytes, ITU-T T.81 Annex B) in the first bytes of a JPEG
 * file, and the byte stream produced when that payload is spliced in front of a
 * freshly encoded JPEG.
 */
module Exif {
  import opened Bytes

  /** How many bytes of the source the compressor reads in its one `Read` call. */
  const WindowSize: nat := 65536

  /** Start Of Image. */
  const Soi: seq<byte> := [0xFF, 0xD8]

  /** The big-endian length field that follows a marker at `i`. */
  function SegmentLength(buf: seq<byte>, i: nat): nat
    requires i + 3 < |buf|
  {
    buf[i + 2] as int * 256 + buf[i + 3] as int
  }

  /**
   * What the scan accepts at index `i`: the bytes FF E1, a length field inside the
   * buffer, and a segment that ends inside the buffer. Nothing checks that `i` is a
   * segment boundary, and nothing checks that the length is at least 2.
   */
  predicate CompleteApp1At(buf: seq<byte>, i: nat)
  {
    && i + 3 < |buf|
    && buf[i] == 0xFF && buf[i + 1] == 0xE1
    && i + 2 + SegmentLength(buf, i) <= |buf|
  }

  /**
   * The outcome of the scan: no segment, the payload of the first accepted segment
   * with its index, or the index of a first accepted segment whose length field is 0
   * or 1, where `make([]byte, length-2)` makes Go panic.
   */
  datatype Extraction = NoExif | Found(at: nat, payload: seq<byte>) | LengthPanic(at: nat)

  /** The scan from index `from` on, one candidate index at a time. */
  function ScanFrom(buf: seq<byte>, from: nat): Extraction
    decreases |buf| - from
  {
    if from + 1 >= |buf| then NoExif
    else if CompleteApp1At(buf, from) then
      var len := SegmentLength(buf, from);
      if len < 2 then LengthPanic(from) else Found(from, buf[from + 4 .. from + 2 + len])
    else ScanFrom(buf, from + 1)
  }

  /**
   * The scan stops at the first accepted index and at no other: no result exactly when
   * no index is accepted, and otherwise the payload of the first accepted segment
   * (length - 2 bytes after the length field) or a panic when its length is below 2.
   */
  lemma {:induction false} ScanFromFirst(buf: seq<byte>, from: nat)
    ensures var r := ScanFrom(buf, from);
            && (r.NoExif? <==> forall i :: from <= i < |buf| ==> !CompleteApp1At(buf, i))
            && (!r.NoExif? ==> from <= r.at && CompleteApp1At(buf, r.at)
                               && forall i :: from <= i < r.at ==> !CompleteApp1At(buf, i))
            && (r.Found? ==> 2 <= SegmentLength(buf, r.at)
                             && r.payload == buf[r.at + 4 .. r.at + 2 + SegmentLength(buf, r.at)])
            && (r.LengthPanic? ==> SegmentLength(buf, r.at) < 2)
    decreases |buf| - from
  {
    if from + 1 < |buf| && !CompleteApp1At(buf, from) {
      ScanFromFirst(buf, from + 1);
    }
  }

  /**
   * The extraction loop of `CompressImage` over the bytes one `Read` returned: try
   * every index below n - 1, skip candidates whose length field or segment does not
   * fit, and stop at the first one that does. Every index it reads is below n.
   */
  method ExtractExif(buf: seq<byte>) returns (r: Extraction)
    ensures r == ScanFrom(buf, 0)
    ensures r.NoExif? <==> forall i :: 0 <= i < |buf| ==> !CompleteApp1At(buf, i)
    ensures !r.NoExif? ==> CompleteApp1At(buf, r.at) && forall i :: 0 <= i < r.at ==> !CompleteApp1At(buf, i)
    ensures r.Found? ==> 2 <= SegmentLength(buf, r.at)
                         && r.payload == buf[r.at + 4 .. r.at + 2 + SegmentLength(buf, r.at)]
    ensures r.LengthPanic? ==> SegmentLength(buf, r.at) < 2
  {
    ScanFromFirst(buf, 0);
    r := NoExif;
    var n := |buf|;
    var i := 0;
    while i < n - 1
      invariant 0 <= i
      invariant ScanFrom(buf, i) == ScanFrom(buf, 0)
    {
      if buf[i] == 0xFF && buf[i + 1] == 0xE1 {
        if i + 3 < n {
          // int(buf[i+2])<<8 | int(buf[i+3]): the low byte never overlaps the shifted one
          var length := buf[i + 2] as int * 256 + buf[i + 3] as int;
          if i + 2 + length <= n {
            if length - 2 < 0 {
              // make([]byte, length-2) panics
              return LengthPanic(i);
            }
            r := Found(i, buf[i + 4 .. i + 2 + length]);
            break;
          }
        }
      }
      i := i + 1;
    }
  }

  /** The two length bytes as written: uint8(n >> 8) and uint8(n & 0xff), each cut to 8 bits. */
  function LengthBytes(n: nat): seq<byte>
  {
    [((n / 256) % 256) as byte, (n % 256) as byte]
  }

  /** The APP1 marker and the length field 2 + |payload|. */
  function App1Header(payload: seq<byte>): seq<byte>
  {
    [0xFF, 0xE1] + LengthBytes(2 + |payload|)
  }

  /**
   * The file written when a payload is relocated: SOI, the APP1 header, the payload,
   * then the encoder's output without its first two bytes (its own SOI).
   */
  function SplicedJpeg(payload: seq<byte>, encoded: seq<byte>): seq<byte>
  {
    Soi + App1Header(payload) + payload + Drop(encoded, 2)
  }

  /** A length below 65536 survives the two truncated bytes. */
  lemma LengthBytesDecode(n: nat)
    requires n < 65536
    ensures LengthBytes(n)[0] as int * 256 + LengthBytes(n)[1] as int == n
  {
    assert (n / 256) % 256 == n / 256;
  }

  /** Encoding a decoded length field gives back the same two bytes. */
  lemma LengthBytesEncode(hi: byte, lo: byte)
    ensures LengthBytes(hi as int * 256 + lo as int) == [hi, lo]
  {
    var n := hi as int * 256 + lo as int;
    assert n / 256 == hi as int;
    assert n % 256 == lo as int;
  }

  /** When the encoder's output starts with its own SOI, that SOI is replaced by the splice's. */
  lemma EncoderSoiReplaced(payload: seq<byte>, body: seq<byte>)
    ensures SplicedJpeg(payload, Soi + body) == Soi + App1Header(payload) + payload + body
  {
    assert Drop(Soi + body, 2) == body;
  }

  /**
   * Splice then extract: scanning any prefix of a spliced file that holds the whole
   * segment finds the payload again, at index 2, whatever the encoder produced.
   */
  lemma SpliceThenExtract(payload: seq<byte>, encoded: seq<byte>, k: int)
    requires |payload| <= 65533
    requires 6 + |payload| <= k
    ensures ScanFrom(Take(SplicedJpeg(payload, encoded), k), 0) == Found(2, payload)
  {
    var s := SplicedJpeg(payload, encoded);
    var buf := Take(s, k);
    assert s[..6 + |payload|] == Soi + App1Header(payload) + payload;
    assert buf[..6 + |payload|] == s[..6 + |payload|];
    LengthBytesDecode(2 + |payload|);
    assert buf[1] == 0xD8;
    assert !CompleteApp1At(buf, 0) && !CompleteApp1At(buf, 1);
    assert SegmentLength(buf, 2) == 2 + |payload|;
    assert CompleteApp1At(buf, 2);
    assert buf[6 .. 6 + |payload|] == payload;
    assert ScanFrom(buf, 1) == ScanFrom(buf, 2) == Found(2, payload);
  }

  /**
   * Extract then splice: the relocated segment (marker, length bytes and payload) is
   * byte for byte the segment found in the source, and extracting from the result
   * finds the same payload.
   */
  lemma ExtractThenSplice(source: seq<byte>, encoded: seq<byte>, i: nat, p: seq<byte>)
    requires ScanFrom(source, 0) == Found(i, p)
    ensures CompleteApp1At(source, i)
    ensures CompleteApp1At(source, i) && App1Header(p) + p == source[i .. i + 2 + SegmentLength(source, i)]
    ensures ScanFrom(SplicedJpeg(p, encoded), 0) == Found(2, p)
  {
    ScanFromFirst(source, 0);
    assert SegmentLength(source, i) == 2 + |p|;
    LengthBytesEncode(source[i + 2], source[i + 3]);
    assert source[i .. i + 2 + SegmentLength(source, i)] == [source[i], source[i + 1], source[i + 2], source[i + 3]] + p;
    SpliceThenExtract(p, encoded, |SplicedJpeg(p, encoded)|);
  }

  /**
   * The length bytes are each cut to 8 bits: a 65534-byte payload gets the length field
   * 00 00, which makes the spliced file a malformed JPEG, and the compressor's scan of its
   * first k >= 6 bytes hits the panic at index 2.
   */
  lemma OversizedPayloadWraps(payload: seq<byte>, encoded: seq<byte>, k: int)
    requires |payload| == 65534 && 6 <= k
    ensures LengthBytes(2 + |payload|) == [0x00, 0x00]
    ensures ScanFrom(Take(SplicedJpeg(payload, encoded), k), 0) == LengthPanic(2)
  {
    var s := Take(SplicedJpeg(payload, encoded), k);
    assert s[1] == 0xD8 && s[2] == 0xFF && s[3] == 0xE1 && s[4] == 0x00 && s[5] == 0x00;
    assert !CompleteApp1At(s, 0) && !CompleteApp1At(s, 1) && CompleteApp1At(s, 2);
    assert ScanFrom(s, 1) == ScanFrom(s, 2) == LengthPanic(2);
  }

  /** A length field of 0 or 1 makes the scan panic; a length field of 2 gives an empty payload. */
  lemma ShortLengthFields()
    ensures ScanFrom([0xFF, 0xE1, 0x00, 0x01], 0) == LengthPanic(0)
    ensures ScanFrom([0xFF, 0xD8, 0xFF, 0xE1, 0x00, 0x02], 0) == Found(2, [])
  {
  }
}
