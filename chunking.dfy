/**
 * The encryption demo's buffer chunking (`chunkArrayBuffer`) and its chunked
 * base 64 conversion of the downloaded ciphertext (`arrayBufferToBase64`).
 */
module Chunking {
  import opened Bytes
  import Base64

  /** `PROCESSING_CHUNK_SIZE`: 32 KiB. */
  const ProcessingChunkSize: nat := 32 * 1024

  /**
   * A chunk size that is a whole number of 3-byte base 64 groups
   * (3 × 10 KiB), used by the corrected conversion.
   */
  const AlignedChunkSize: nat := 30 * 1024

  /** The buffer cut into pieces of `n` bytes, the last one possibly shorter. */
  function ChunksOf(b: seq<byte>, n: nat): seq<seq<byte>>
    requires n > 0
    decreases |b|
  {
    if |b| == 0 then []
    else if |b| <= n then [b]
    else [b[..n]] + ChunksOf(b[n..], n)
  }

  /** The chunks laid end to end give back the buffer. */
  lemma {:induction false} ChunksOfFlatten(b: seq<byte>, n: nat)
    requires n > 0
    ensures Flatten(ChunksOf(b, n)) == b
    decreases |b|
  {
    if |b| == 0 {
    } else if |b| <= n {
      assert [b][1..] == [];
      assert b + [] == b;
    } else {
      var cs := ChunksOf(b, n);
      assert cs[0] == b[..n] && cs[1..] == ChunksOf(b[n..], n);
      ChunksOfFlatten(b[n..], n);
      assert Flatten(cs) == b[..n] + b[n..];
      SplitAt(b, n);
    }
  }

  /**
   * There are `ceil(|b| / n)` chunks; all but the last hold exactly `n` bytes
   * and the last holds between 1 and `n`.
   */
  lemma {:induction false} ChunksOfShape(b: seq<byte>, n: nat)
    requires n > 0
    ensures |ChunksOf(b, n)| == CeilDiv(|b|, n)
    ensures forall k | 0 <= k < |ChunksOf(b, n)| - 1 :: |ChunksOf(b, n)[k]| == n
    ensures |ChunksOf(b, n)| > 0 ==> 0 < |ChunksOf(b, n)[|ChunksOf(b, n)| - 1]| <= n
    decreases |b|
  {
    var cs := ChunksOf(b, n);
    CeilDivFacts(|b|, n);
    if |b| > n {
      CeilDivFacts(|b| - n, n);
      var rest := ChunksOf(b[n..], n);
      ChunksOfShape(b[n..], n);
      assert cs == [b[..n]] + rest;
      assert CeilDiv(|b|, n) == CeilDiv(|b| - n, n) + 1;
      forall k | 0 <= k < |cs| - 1
        ensures |cs[k]| == n
      {
        if k > 0 {
          assert cs[k] == rest[k - 1];
        }
      }
      assert cs[|cs| - 1] == rest[|rest| - 1];
    }
  }

  /** The start of chunk `k`: `k` steps of `n` bytes. */
  function Offset(k: nat, n: nat): nat
  {
    if k == 0 then 0 else Offset(k - 1, n) + n
  }

  /** `Offset(k, n)` is the product `k * n` the source computes. */
  lemma {:induction false} OffsetIsProduct(k: nat, n: nat)
    ensures Offset(k, n) == k * n
  {
    if k > 0 {
      OffsetIsProduct(k - 1, n);
      MulSucc(k - 1, n);
    }
  }

  /** Chunk `k` is the slice `[k * n, min(k * n + n, |b|))` of the buffer. */
  lemma ChunksOfAt(b: seq<byte>, n: nat, k: nat)
    requires n > 0 && k < |ChunksOf(b, n)|
    ensures k * n <= Min(k * n + n, |b|) <= |b|
    ensures ChunksOf(b, n)[k] == b[k * n .. Min(k * n + n, |b|)]
  {
    ChunkAtOffset(b, n, k);
    OffsetIsProduct(k, n);
  }

  /** Chunk `k` starts after `k` steps of `n` bytes. */
  lemma {:induction false} ChunkAtOffset(b: seq<byte>, n: nat, k: nat)
    requires n > 0 && k < |ChunksOf(b, n)|
    ensures Offset(k, n) <= Min(Offset(k, n) + n, |b|) <= |b|
    ensures ChunksOf(b, n)[k] == b[Offset(k, n) .. Min(Offset(k, n) + n, |b|)]
    decreases |b|
  {
    if k > 0 {
      assert |b| > n;
      var rest := b[n..];
      assert ChunksOf(b, n) == [b[..n]] + ChunksOf(rest, n);
      ChunkAtOffset(rest, n, k - 1);
      var s := Offset(k - 1, n);
      var t := Min(s + n, |rest|);
      assert Offset(k, n) == s + n && Min(Offset(k, n) + n, |b|) == t + n;
      assert ChunksOf(b, n)[k] == rest[s..t];
      SliceOfSuffix(b, n, s, t);
    }
  }

  /**
   * `chunkArrayBuffer`: cuts the buffer into `ceil(|buffer| / chunkSize)`
   * slices, slice `i` starting at `i * chunkSize`.
   */
  method ChunkArrayBuffer(buffer: seq<byte>, chunkSize: nat) returns (chunks: seq<seq<byte>>)
    requires chunkSize > 0
    ensures chunks == ChunksOf(buffer, chunkSize)
    ensures |chunks| == CeilDiv(|buffer|, chunkSize)
    ensures forall k | 0 <= k < |chunks| - 1 :: |chunks[k]| == chunkSize
    ensures |chunks| > 0 ==> 0 < |chunks[|chunks| - 1]| <= chunkSize
    ensures Flatten(chunks) == buffer
  {
    chunks := [];
    var totalChunks := CeilDiv(|buffer|, chunkSize);
    ghost var spec := ChunksOf(buffer, chunkSize);
    ChunksOfShape(buffer, chunkSize);
    for i := 0 to totalChunks
      invariant chunks == spec[..i]
    {
      var start := i * chunkSize;
      var end := Min(start + chunkSize, |buffer|);
      ChunksOfAt(buffer, chunkSize, i);
      chunks := chunks + [buffer[start..end]];
      assert chunks == spec[..i + 1];
    }
    assert chunks == spec;
    ChunksOfFlatten(buffer, chunkSize);
  }

  /** The base 64 encodings of the chunks, concatenated in order. */
  function EncodeEach(chunks: seq<seq<byte>>): string
  {
    if chunks == [] then [] else Base64.Encode(chunks[0]) + EncodeEach(chunks[1..])
  }

  lemma {:induction false} EncodeEachAppend(chunks: seq<seq<byte>>, c: seq<byte>)
    ensures EncodeEach(chunks + [c]) == EncodeEach(chunks) + Base64.Encode(c)
  {
    if chunks == [] {
      assert chunks + [c] == [c];
      assert [c][1..] == [];
    } else {
      assert (chunks + [c])[0] == chunks[0];
      assert (chunks + [c])[1..] == chunks[1..] + [c];
      EncodeEachAppend(chunks[1..], c);
    }
  }

  /** One more chunk of a prefix appends that chunk's encoding. */
  lemma EncodeEachPrefix(chunks: seq<seq<byte>>, i: nat)
    requires i < |chunks|
    ensures EncodeEach(chunks[..i + 1]) == EncodeEach(chunks[..i]) + Base64.Encode(chunks[i])
  {
    assert chunks[..i + 1] == chunks[..i] + [chunks[i]];
    EncodeEachAppend(chunks[..i], chunks[i]);
  }

  /** The loop of `arrayBufferToBase64`, for a given chunk size. */
  method EncodeChunked(buffer: seq<byte>, chunkSize: nat) returns (base64: string)
    requires chunkSize > 0
    ensures base64 == EncodeEach(ChunksOf(buffer, chunkSize))
  {
    var chunks := ChunkArrayBuffer(buffer, chunkSize);
    base64 := "";
    for i := 0 to |chunks|
      invariant base64 == EncodeEach(chunks[..i])
    {
      EncodeEachPrefix(chunks, i);
      base64 := base64 + Base64.Encode(chunks[i]);
    }
    assert chunks[..|chunks|] == chunks;
  }

  /**
   * `arrayBufferToBase64` as written: per-chunk encodings of 32 KiB chunks,
   * concatenated. It equals the encoding of the whole buffer exactly when
   * the buffer fits in one chunk.
   */
  method ArrayBufferToBase64(buffer: seq<byte>) returns (base64: string)
    ensures base64 == EncodeEach(ChunksOf(buffer, ProcessingChunkSize))
    ensures base64 == Base64.Encode(buffer) <==> |buffer| <= ProcessingChunkSize
  {
    base64 := EncodeChunked(buffer, ProcessingChunkSize);
    PerChunkEncoding(buffer);
  }

  /**
   * The corrected conversion: chunks of a multiple of three bytes, so that
   * the concatenation is the encoding of the whole buffer for every buffer.
   */
  method ArrayBufferToBase64Aligned(buffer: seq<byte>) returns (base64: string)
    ensures base64 == Base64.Encode(buffer)
  {
    base64 := EncodeChunked(buffer, AlignedChunkSize);
    AlignedChunkSizeEncodesWhole(buffer);
  }

  /** 30 KiB chunks are whole 3-byte groups, so encoding them one by one encodes the buffer. */
  lemma AlignedChunkSizeEncodesWhole(b: seq<byte>)
    ensures EncodeEach(ChunksOf(b, AlignedChunkSize)) == Base64.Encode(b)
  {
    AlignedChunksEncodeWhole(b, AlignedChunkSize);
  }

  /** With a chunk size divisible by three, encoding chunk by chunk is encoding the whole. */
  lemma {:induction false} AlignedChunksEncodeWhole(b: seq<byte>, n: nat)
    requires n > 0 && n % 3 == 0
    ensures EncodeEach(ChunksOf(b, n)) == Base64.Encode(b)
    decreases |b|
  {
    var cs := ChunksOf(b, n);
    if |b| == 0 {
    } else if |b| <= n {
      assert cs[1..] == [];
      assert Base64.Encode(b) + [] == Base64.Encode(b);
    } else {
      assert cs[0] == b[..n] && cs[1..] == ChunksOf(b[n..], n);
      AlignedChunksEncodeWhole(b[n..], n);
      Base64.EncodeConcat(b[..n], b[n..]);
      SplitAt(b, n);
    }
  }

  /**
   * With 32 KiB chunks (32768 = 3 × 10922 + 2), the first chunk's encoding
   * ends in a pad character; for any buffer longer than one chunk that pad
   * lands inside the result, where the encoding of the whole buffer has none.
   */
  lemma PerChunkEncoding(b: seq<byte>)
    ensures EncodeEach(ChunksOf(b, ProcessingChunkSize)) == Base64.Encode(b) <==> |b| <= ProcessingChunkSize
  {
    var n := ProcessingChunkSize;
    var cs := ChunksOf(b, n);
    if |b| == 0 {
    } else if |b| <= n {
      assert cs[1..] == [];
      assert Base64.Encode(b) + [] == Base64.Encode(b);
    } else {
      FirstChunkPad(b);
      var whole := Base64.Encode(b);
      if EncodeEach(cs) == whole {
        assert whole[43691] == '=';
        Base64.EncodePadding(b);
        PadPastFirstChunk(|b|);
      }
    }
  }

  /**
   * When the chunk size leaves a remainder of two modulo three, the first
   * chunk's encoding, which starts the per-chunk output, ends in a pad
   * character.
   */
  lemma FirstChunkEndsInPad(b: seq<byte>, n: nat)
    requires 0 < n < |b| && n % 3 == 2
    ensures 0 < |Base64.Encode(b[..n])| <= |EncodeEach(ChunksOf(b, n))|
    ensures EncodeEach(ChunksOf(b, n))[|Base64.Encode(b[..n])| - 1] == '='
  {
    var first := Base64.Encode(b[..n]);
    assert 0 < |first| && first[|first| - 1] == '=' by {
      Base64.EncodePadding(b[..n]);
    }
    var cs := ChunksOf(b, n);
    assert cs[0] == b[..n];
    assert EncodeEach(cs) == first + EncodeEach(cs[1..]);
  }

  /** Per-chunk output for a buffer over 32 KiB has a pad character at index 43691. */
  lemma FirstChunkPad(b: seq<byte>)
    requires |b| > ProcessingChunkSize
    ensures |EncodeEach(ChunksOf(b, ProcessingChunkSize))| > 43691
    ensures EncodeEach(ChunksOf(b, ProcessingChunkSize))[43691] == '='
  {
    FirstChunkEndsInPad(b, ProcessingChunkSize);
    assert |Base64.Encode(b[..ProcessingChunkSize])| == 43692;
  }

  /**
   * A buffer longer than 32 KiB whose length is not a multiple of three has
   * an encoding longer than 43693 characters.
   */
  lemma PadPastFirstChunk(len: nat)
    requires len > ProcessingChunkSize
    ensures len % 3 != 0 ==> 4 * CeilDiv(len, 3) - 2 > 43691
  {
  }
}
