/**
 * The copy of a decrypted word array into a byte array in the encryption
 * demo's download path. The cipher library keeps data as 32-bit words,
 * most significant byte first, plus a count of significant bytes
 * (`sigBytes`); the demo copies those bytes out 32 KiB at a time.
 */
module WordUnpack {
  import opened Bytes
  import Chunking

  /** `words[i]`, or 0 where JavaScript would read `undefined` (which `>>>` turns into 0). */
  function WordAt(words: seq<bv32>, i: nat): bv32
  {
    if i < |words| then words[i] else 0
  }

  /** Byte `k` of a word, most significant first. */
  function ByteOfWord(w: bv32, k: nat): byte
    requires k < 4
  {
    if k == 0 then (w >> 24) as byte
    else if k == 1 then ((w >> 16) & 0xFF) as byte
    else if k == 2 then ((w >> 8) & 0xFF) as byte
    else (w & 0xFF) as byte
  }

  /** `ByteOfWord` is the demo's `(w >>> (24 - k * 8)) & 0xff`. */
  lemma ByteOfWordShift(w: bv32, k: nat)
    requires k < 4
    ensures ByteOfWord(w, k) == ((w >> (24 - k * 8)) & 0xFF) as byte
  {
    if k == 0 {
      assert ((w >> (24 - k * 8)) & 0xFF) == ((w >> 24) & 0xFF);
    } else if k == 1 {
      assert ((w >> (24 - k * 8)) & 0xFF) == ((w >> 16) & 0xFF);
    } else if k == 2 {
      assert ((w >> (24 - k * 8)) & 0xFF) == ((w >> 8) & 0xFF);
    } else {
      assert ((w >> (24 - k * 8)) & 0xFF) == ((w >> 0) & 0xFF);
    }
  }

  /** Byte `j` of the word array: byte `j % 4` of word `j >>> 2`. */
  function ByteAt(words: seq<bv32>, j: nat): byte
  {
    ByteOfWord(WordAt(words, j / 4), j % 4)
  }

  /** The first `n` bytes of the word array, read one byte at a time from the front. */
  function Unpacked(words: seq<bv32>, n: nat): (b: seq<byte>)
    ensures |b| == n
    ensures forall j | 0 <= j < n :: b[j] == ByteAt(words, j)
  {
    seq(n, (j: nat) => ByteAt(words, j))
  }

  /**
   * Copies the significant bytes out of the word array. A negative
   * `sigBytes` makes the `Uint8Array` constructor throw (`None`). The outer
   * loop steps through 32 KiB windows and `CopyWindow` fills one window.
   * `written` is a trace kept by the body: the indices in the order they
   * are written.
   */
  method DecryptedBytes(words: seq<bv32>, sigBytes: int) returns (r: Option<array<byte>>, ghost written: seq<nat>)
    ensures r.None? <==> sigBytes < 0
    ensures r.Some? ==> fresh(r.value) && r.value.Length == sigBytes
    ensures r.Some? ==> r.value[..] == Unpacked(words, r.value.Length)
    ensures r.Some? ==> |written| == sigBytes && forall k | 0 <= k < |written| :: written[k] == k
  {
    written := [];
    if sigBytes < 0 {
      return None, written;
    }
    var bytes := new byte[sigBytes];
    var i := 0;
    while i < sigBytes
      invariant 0 <= i
      invariant |written| == Min(i, sigBytes)
      invariant forall k | 0 <= k < |written| :: written[k] == k
      invariant forall k | 0 <= k < |written| :: bytes[k] == ByteAt(words, k)
      decreases sigBytes - i
    {
      var end := Min(i + Chunking.ProcessingChunkSize, sigBytes);
      ghost var window: seq<nat>;
      window := CopyWindow(bytes, words, i, end);
      written := written + window;
      i := i + Chunking.ProcessingChunkSize;
    }
    r := Some(bytes);
  }

  /**
   * The inner loop of the copy: fills `bytes[start..end]` from the word
   * array, front to back, and leaves every other byte alone. `indices` is a
   * trace kept by the body: the indices in the order they are written.
   */
  method CopyWindow(bytes: array<byte>, words: seq<bv32>, start: nat, end: nat) returns (ghost indices: seq<nat>)
    requires start <= end <= bytes.Length
    modifies bytes
    ensures forall k | 0 <= k < bytes.Length :: bytes[k] == if start <= k < end then ByteAt(words, k) else old(bytes[k])
    ensures |indices| == end - start && forall t | 0 <= t < |indices| :: indices[t] == start + t
  {
    indices := [];
    var j := start;
    while j < end
      invariant start <= j <= end
      invariant |indices| == j - start && forall t | 0 <= t < |indices| :: indices[t] == start + t
      invariant forall k | 0 <= k < bytes.Length :: bytes[k] == if start <= k < j then ByteAt(words, k) else old(bytes[k])
    {
      var x := ((WordAt(words, j / 4) >> (24 - (j % 4) * 8)) & 0xFF) as byte;
      assert x == ByteAt(words, j) by {
        ByteOfWordShift(WordAt(words, j / 4), j % 4);
      }
      bytes[j] := x;
      indices := indices + [j];
      j := j + 1;
    }
  }

  /** Four bytes, most significant first, as one word. */
  function PackWord(b0: byte, b1: byte, b2: byte, b3: byte): bv32
  {
    (b0 as bv32 << 24) | (b1 as bv32 << 16) | (b2 as bv32 << 8) | b3 as bv32
  }

  /** `b[i]`, or 0 past the end. */
  function ByteOr0(b: seq<byte>, i: nat): byte
  {
    if i < |b| then b[i] else 0
  }

  /**
   * Packs bytes into big-endian words, the last word padded with zero bytes:
   * the word layout the copy loop reads. This packer is the model's own and
   * serves as the copy loop's inverse.
   */
  function Pack(b: seq<byte>): (words: seq<bv32>)
    ensures |words| == CeilDiv(|b|, 4)
    decreases |b|
  {
    CeilDivFacts(|b|, 4);
    if |b| == 0 then []
    else if |b| <= 4 then [PackWord(ByteOr0(b, 0), ByteOr0(b, 1), ByteOr0(b, 2), ByteOr0(b, 3))]
    else
      CeilDivFacts(|b| - 4, 4);
      [PackWord(b[0], b[1], b[2], b[3])] + Pack(b[4..])
  }

  lemma WordRoundTrip(b0: byte, b1: byte, b2: byte, b3: byte)
    ensures ByteOfWord(PackWord(b0, b1, b2, b3), 0) == b0
    ensures ByteOfWord(PackWord(b0, b1, b2, b3), 1) == b1
    ensures ByteOfWord(PackWord(b0, b1, b2, b3), 2) == b2
    ensures ByteOfWord(PackWord(b0, b1, b2, b3), 3) == b3
  {
  }

  lemma WordBytesRoundTrip(w: bv32)
    ensures PackWord(ByteOfWord(w, 0), ByteOfWord(w, 1), ByteOfWord(w, 2), ByteOfWord(w, 3)) == w
  {
  }

  /** Word `i` of the packed array holds bytes `4i` to `4i + 3`. */
  lemma {:induction false} PackAt(b: seq<byte>, i: nat)
    requires i < |Pack(b)|
    ensures Pack(b)[i] == PackWord(ByteOr0(b, 4 * i), ByteOr0(b, 4 * i + 1), ByteOr0(b, 4 * i + 2), ByteOr0(b, 4 * i + 3))
    decreases |b|
  {
    if i > 0 {
      assert |b| > 4;
      PackAt(b[4..], i - 1);
      assert Pack(b)[i] == Pack(b[4..])[i - 1];
      assert 4 * (i - 1) + 4 == 4 * i;
      assert ByteOr0(b[4..], 4 * (i - 1)) == ByteOr0(b, 4 * i);
      assert ByteOr0(b[4..], 4 * (i - 1) + 1) == ByteOr0(b, 4 * i + 1);
      assert ByteOr0(b[4..], 4 * (i - 1) + 2) == ByteOr0(b, 4 * i + 2);
      assert ByteOr0(b[4..], 4 * (i - 1) + 3) == ByteOr0(b, 4 * i + 3);
    }
  }

  /** Byte `4i + d` of a word array is byte `d` of word `i`. */
  lemma ByteAtWord(words: seq<bv32>, i: nat, d: nat)
    requires i < |words| && d < 4
    ensures ByteAt(words, 4 * i + d) == ByteOfWord(words[i], d)
  {
    DivUnique(4 * i + d, 4, i, d);
    assert (4 * i + d) % 4 == d;
  }

  /** Byte `d` of packed word `i` is byte `4i + d` of the input (or 0 past its end). */
  lemma ByteOfPackedWord(b: seq<byte>, i: nat, d: nat)
    requires d < 4
    ensures ByteOfWord(PackWord(ByteOr0(b, 4 * i), ByteOr0(b, 4 * i + 1), ByteOr0(b, 4 * i + 2), ByteOr0(b, 4 * i + 3)), d)
      == ByteOr0(b, 4 * i + d)
  {
    WordRoundTrip(ByteOr0(b, 4 * i), ByteOr0(b, 4 * i + 1), ByteOr0(b, 4 * i + 2), ByteOr0(b, 4 * i + 3));
  }

  /** Byte `j` of the packed array is byte `j` of the input. */
  lemma PackedByteAt(b: seq<byte>, j: nat)
    requires j < |b|
    ensures ByteAt(Pack(b), j) == b[j]
  {
    var i, d := j / 4, j % 4;
    assert j == 4 * i + d;
    CeilDivBound(|b|, 4, i);
    PackAt(b, i);
    ByteAtWord(Pack(b), i, d);
    ByteOfPackedWord(b, i, d);
  }

  /** Unpacking the packed bytes gives them back. */
  lemma UnpackPack(b: seq<byte>)
    ensures Unpacked(Pack(b), |b|) == b
  {
    forall j | 0 <= j < |b|
      ensures Unpacked(Pack(b), |b|)[j] == b[j]
    {
      PackedByteAt(b, j);
    }
  }

  /** Word `i` of the packed bytes of a word array is word `i` of that array. */
  lemma RepackedWordAt(words: seq<bv32>, i: nat)
    requires i < |words|
    ensures i < |Pack(Unpacked(words, 4 * |words|))|
    ensures Pack(Unpacked(words, 4 * |words|))[i] == words[i]
  {
    var b := Unpacked(words, 4 * |words|);
    DivUnique(4 * |words| + 3, 4, |words|, 3);
    PackAt(b, i);
    ByteAtWord(words, i, 0);
    ByteAtWord(words, i, 1);
    ByteAtWord(words, i, 2);
    ByteAtWord(words, i, 3);
    WordBytesRoundTrip(words[i]);
  }

  /** Packing all the bytes of a word array gives the word array back. */
  lemma PackUnpack(words: seq<bv32>)
    ensures Pack(Unpacked(words, 4 * |words|)) == words
  {
    var p := Pack(Unpacked(words, 4 * |words|));
    DivUnique(4 * |words| + 3, 4, |words|, 3);
    forall i | 0 <= i < |words|
      ensures p[i] == words[i]
    {
      RepackedWordAt(words, i);
    }
  }
}
