/**
 * Vocabulary shared by both demo components: octets, optional and
 * failing results, and the concatenation of a sequence of chunks.
 */
module Bytes {

  /** One octet, as held in a JavaScript `Uint8Array`. */
  type byte = bv8

  datatype Option<+T> = None | Some(value: T)

  datatype Result<+T, +E> = Ok(value: T) | Err(error: E)

  /** The octet with value `n`, counted up from 0. */
  function ByteOfInt(n: nat): (x: byte)
    requires n < 256
    ensures x as int == n
  {
    if n == 0 then 0 else ByteOfInt(n - 1) + 1
  }

  function Min(a: int, b: int): int
  {
    if a <= b then a else b
  }

  /** `Math.ceil(a / n)` for a non-negative `a` and a positive `n`. */
  function CeilDiv(a: nat, n: nat): nat
    requires n > 0
  {
    (a + n - 1) / n
  }

  /** The chunks laid end to end, first chunk first. */
  function Flatten<T>(chunks: seq<seq<T>>): seq<T>
  {
    if chunks == [] then [] else chunks[0] + Flatten(chunks[1..])
  }

  /** A sequence is its prefix followed by the rest. */
  lemma SplitAt<T>(s: seq<T>, n: nat)
    requires n <= |s|
    ensures s[..n] + s[n..] == s
  {
  }

  /** A slice of a suffix is a slice of the whole, shifted by the suffix's start. */
  lemma SliceOfSuffix<T>(s: seq<T>, n: nat, i: nat, j: nat)
    requires n <= |s| && i <= j <= |s| - n
    ensures s[n..][i..j] == s[i + n .. j + n]
  {
  }

  /** Appending one chunk appends its bytes to the flattened whole. */
  lemma {:induction false} FlattenAppend<T>(chunks: seq<seq<T>>, c: seq<T>)
    ensures Flatten(chunks + [c]) == Flatten(chunks) + c
  {
    if chunks == [] {
      assert chunks + [c] == [c];
      assert [c][1..] == [];
    } else {
      assert (chunks + [c])[0] == chunks[0];
      assert (chunks + [c])[1..] == chunks[1..] + [c];
      FlattenAppend(chunks[1..], c);
    }
  }

  /** `i * n < len` exactly when `i` is below `ceil(len / n)`. */
  lemma CeilDivBound(len: nat, n: nat, i: nat)
    requires n > 0
    ensures i < CeilDiv(len, n) <==> i * n < len
  {
    var q := CeilDiv(len, n);
    var r := (len + n - 1) % n;
    assert len + n - 1 == q * n + r;
    if i < q {
      MulMonotone(i + 1, q, n);
      assert (i + 1) * n == i * n + n;
    } else {
      MulMonotone(q, i, n);
    }
  }

  /** Division is determined by any quotient-remainder decomposition. */
  lemma DivUnique(x: int, n: int, q: int, r: int)
    requires n > 0 && 0 <= r < n && x == q * n + r
    ensures x / n == q
  {
    var q', r' := x / n, x % n;
    assert x == q' * n + r';
    var d := q - q';
    assert d * n == q * n - q' * n;
    if d >= 1 {
      MulMonotone(1, d, n);
    }
  }

  lemma CeilDivFacts(len: nat, n: nat)
    requires n > 0
    ensures CeilDiv(0, n) == 0
    ensures 0 < len <= n ==> CeilDiv(len, n) == 1
    ensures CeilDiv(len + n, n) == CeilDiv(len, n) + 1
  {
    DivUnique(n - 1, n, 0, n - 1);
    if 0 < len <= n {
      DivUnique(len + n - 1, n, 1, len - 1);
    }
    var q := CeilDiv(len, n);
    var r := (len + n - 1) % n;
    DivUnique(len + n + n - 1, n, q + 1, r);
  }

  /** One more multiple of `n` is `n` more. */
  lemma MulSucc(k: nat, n: nat)
    ensures k * n + n == (k + 1) * n
  {
  }

  lemma MulMonotone(a: nat, b: nat, n: nat)
    requires a <= b
    ensures a * n <= b * n
  {
    assert b * n == a * n + (b - a) * n;
  }
}
