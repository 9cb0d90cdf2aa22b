/** Byte-sequence helpers shared by the EXIF relocator and the writers. */
module Bytes {

  /** An octet, as Go's `byte`. */
  newtype byte = b: int | 0 <= b < 256

  /** `s[k:]` for a count that may be non-positive (nothing dropped) or past the end (all dropped). */
  function Drop(s: seq<byte>, k: int): (r: seq<byte>)
    ensures |r| == if k <= 0 then |s| else if k >= |s| then 0 else |s| - k
  {
    if k <= 0 then s else if k >= |s| then [] else s[k..]
  }

  /** The first `n` bytes of `s`, or all of `s` when it is shorter. */
  function Take(s: seq<byte>, n: int): (r: seq<byte>)
    ensures |r| == if n <= 0 then 0 else if n >= |s| then |s| else n
  {
    if n <= 0 then [] else if n >= |s| then s else s[..n]
  }

  /** All chunks one after another, as a stream of successive writes delivers them. */
  function Concat(chunks: seq<seq<byte>>): seq<byte>
  {
    if chunks == [] then [] else Concat(chunks[..|chunks| - 1]) + chunks[|chunks| - 1]
  }

  lemma ConcatSnoc(chunks: seq<seq<byte>>, j: nat)
    requires j < |chunks|
    ensures Concat(chunks[..j + 1]) == Concat(chunks[..j]) + chunks[j]
  {
    assert chunks[..j + 1][..j] == chunks[..j];
  }

  /** Dropping from a concatenation drops from the first part, then whatever is left from the second. */
  lemma DropConcat(a: seq<byte>, b: seq<byte>, k: int)
    ensures Drop(a + b, k) == Drop(a, k) + Drop(b, k - |a|)
  {
    if k <= 0 {
    } else if k < |a| {
      assert (a + b)[k..] == a[k..] + b;
    } else if k >= |a| + |b| {
    } else {
      assert (a + b)[k..] == b[k - |a|..];
    }
  }

  lemma AppendAssoc(a: seq<byte>, b: seq<byte>, c: seq<byte>)
    ensures (a + b) + c == a + (b + c)
  {
  }

  /** Splitting the list of chunks splits the stream. */
  lemma {:induction false} ConcatSplit(chunks: seq<seq<byte>>, m: nat)
    requires m <= |chunks|
    ensures Concat(chunks) == Concat(chunks[..m]) + Concat(chunks[m..])
    decreases |chunks|
  {
    if m < |chunks| {
      var init := chunks[..|chunks| - 1];
      ConcatSplit(init, m);
      assert init[..m] == chunks[..m];
      assert chunks[m..][..|chunks[m..]| - 1] == init[m..];
    } else {
      assert chunks[..m] == chunks;
    }
  }

  /** Taking past a known prefix. */
  lemma TakeAppend(s: seq<byte>, t: seq<byte>, n: int)
    requires n >= 0
    ensures Take(s + t, |s| + n) == s + Take(t, n)
  {
    if n < |t| { assert (s + t)[..|s| + n] == s + t[..n]; }
  }

  /** Cutting the stream inside chunk j keeps the chunks before it and the start of chunk j. */
  lemma TakeInsideChunk(chunks: seq<seq<byte>>, j: nat, n: nat)
    requires j < |chunks| && n < |chunks[j]|
    ensures Take(Concat(chunks), |Concat(chunks[..j])| + n) == Concat(chunks[..j]) + chunks[j][..n]
    ensures |Concat(chunks)| > |Concat(chunks[..j])| + n
  {
    ConcatSplit(chunks, j + 1);
    ConcatSnoc(chunks, j);
    var before, after := Concat(chunks[..j]), Concat(chunks[j + 1..]);
    AppendAssoc(before, chunks[j], after);
    assert Concat(chunks) == before + (chunks[j] + after);
    TakeAppend(before, chunks[j] + after, n);
    TakeTake(chunks[j], after, n);
    assert Take(chunks[j], n) == chunks[j][..n];
  }

  /** Writing the next `n` bytes of a piece that sits at offset k of s extends the written prefix of s. */
  lemma Progress(w0: seq<byte>, s: seq<byte>, k: int, piece: seq<byte>, n: int)
    requires 0 <= k && k + |piece| <= |s| && s[k..k + |piece|] == piece && 0 <= n <= |piece|
    ensures (w0 + Take(s, k)) + piece[..n] == w0 + Take(s, k + n)
  {
    assert Take(s, k) + piece[..n] == Take(s, k + n);
  }

  /** A prefix of a prefix. */
  lemma TakeTake(s: seq<byte>, t: seq<byte>, n: int)
    requires n <= |s|
    ensures Take(s + t, n) == Take(s, n)
  {
    if n > 0 { assert (s + t)[..n] == s[..n]; }
  }
}
