/**
 * Base 64 encoding with the standard alphabet and `=` padding, as in
 * section 4 of RFC 4648. The browser's `btoa` and `atob` work on "binary
 * strings", strings whose character codes are all below 256; the demo moves
 * between bytes and binary strings with `String.fromCharCode` and
 * `charCodeAt`.
 */
module Base64 {
  import opened Bytes

  /** A character code below 256, as held in a binary string. */
  predicate IsOctet(c: char)
  {
    c as int < 256
  }

  /** Every character code is below 256. */
  predicate IsBinary(s: string)
  {
    forall i | 0 <= i < |s| :: IsOctet(s[i])
  }

  /** `String.fromCharCode.apply(null, bytes)`: one character per byte, with the byte as its code. */
  function BinaryString(b: seq<byte>): (s: string)
    ensures |s| == |b| && IsBinary(s)
    ensures forall i | 0 <= i < |b| :: s[i] as int == b[i] as int
  {
    seq(|b|, i requires 0 <= i < |b| => (b[i] as int) as char)
  }

  /** `s.split("").map((char) => char.charCodeAt(0))` stored into a `Uint8Array`. */
  function CharCodes(s: string): (b: seq<byte>)
    requires IsBinary(s)
    ensures |b| == |s|
    ensures forall i | 0 <= i < |s| :: b[i] as int == s[i] as int
  {
    seq(|s|, i requires 0 <= i < |s| => ByteOfInt(s[i] as int))
  }

  /** Reading the codes of the binary string of some bytes gives the bytes back. */
  lemma CharCodesOfBinaryString(b: seq<byte>)
    ensures CharCodes(BinaryString(b)) == b
  {
    var r := CharCodes(BinaryString(b));
    forall i | 0 <= i < |b|
      ensures r[i] == b[i]
    {
      assert r[i] as int == b[i] as int;
    }
  }

  lemma BinaryStringConcat(a: seq<byte>, b: seq<byte>)
    ensures BinaryString(a + b) == BinaryString(a) + BinaryString(b)
  {
    var l, r := BinaryString(a + b), BinaryString(a) + BinaryString(b);
    forall i | 0 <= i < |a| + |b|
      ensures l[i] == r[i]
    {
      assert l[i] as int == r[i] as int;
    }
  }

  /** The character of the alphabet for a 6-bit value. */
  function SextetChar(v: int): (c: char)
    requires 0 <= v < 64
    ensures c != '='
  {
    if v < 26 then (('A' as int) + v) as char
    else if v < 52 then (('a' as int) + v - 26) as char
    else if v < 62 then (('0' as int) + v - 52) as char
    else if v == 62 then '+'
    else '/'
  }

  /** The 6-bit value of an alphabet character, or `None` for any other character. */
  function CharSextet(c: char): (r: Option<int>)
    ensures r.Some? ==> 0 <= r.value < 64
  {
    if 'A' <= c <= 'Z' then Some(c as int - 'A' as int)
    else if 'a' <= c <= 'z' then Some(c as int - 'a' as int + 26)
    else if '0' <= c <= '9' then Some(c as int - '0' as int + 52)
    else if c == '+' then Some(62)
    else if c == '/' then Some(63)
    else None
  }

  lemma SextetRoundTrip(v: int)
    requires 0 <= v < 64
    ensures CharSextet(SextetChar(v)) == Some(v)
  {
  }

  /**
   * Three characters become four: their 24 bits, most significant first,
   * cut into four 6-bit values.
   */
  function EncodeGroup(a: char, b: char, c: char): seq<char>
    requires IsOctet(a) && IsOctet(b) && IsOctet(c)
  {
    var x, y, z := a as int, b as int, c as int;
    [SextetChar(x / 4), SextetChar(x % 4 * 16 + y / 16), SextetChar(y % 16 * 4 + z / 64), SextetChar(z % 64)]
  }

  /** A final single character: two characters and two pad characters. */
  function EncodeLastOne(a: char): seq<char>
    requires IsOctet(a)
  {
    var x := a as int;
    [SextetChar(x / 4), SextetChar(x % 4 * 16), '=', '=']
  }

  /** A final pair of characters: three characters and one pad character. */
  function EncodeLastTwo(a: char, b: char): seq<char>
    requires IsOctet(a) && IsOctet(b)
  {
    var x, y := a as int, b as int;
    [SextetChar(x / 4), SextetChar(x % 4 * 16 + y / 16), SextetChar(y % 16 * 4), '=']
  }

  /** `btoa` on a binary string. */
  function Btoa(s: string): (r: string)
    requires IsBinary(s)
    ensures |r| == 4 * CeilDiv(|s|, 3)
    decreases |s|
  {
    CeilDivFacts(|s|, 3);
    if |s| == 0 then []
    else if |s| == 1 then EncodeLastOne(s[0])
    else if |s| == 2 then EncodeLastTwo(s[0], s[1])
    else
      CeilDivFacts(|s| - 3, 3);
      EncodeGroup(s[0], s[1], s[2]) + Btoa(s[3..])
  }

  /**
   * Four characters become up to three. Padding is accepted only in the last
   * quantum (`last`); the low bits the padding drops are ignored, as `atob`
   * ignores them.
   */
  function DecodeQuantum(q: seq<char>, last: bool): (r: Option<string>)
    requires |q| == 4
    ensures r.Some? ==> IsBinary(r.value)
    ensures r.Some? ==> if last then 1 <= |r.value| <= 3 else |r.value| == 3
  {
    var s0, s1 := CharSextet(q[0]), CharSextet(q[1]);
    if s0.None? || s1.None? then None
    else
      var a := (s0.value * 4 + s1.value / 16) as char;
      if last && q[2] == '=' && q[3] == '=' then Some([a])
      else
        var s2 := CharSextet(q[2]);
        if s2.None? then None
        else
          var b := (s1.value % 16 * 16 + s2.value / 4) as char;
          if last && q[3] == '=' then Some([a, b])
          else
            var s3 := CharSextet(q[3]);
            if s3.None? then None
            else Some([a, b, (s2.value % 4 * 64 + s3.value) as char])
  }

  /** `atob` on a padded input; `None` where `atob` throws. */
  function Atob(s: string): (r: Option<string>)
    ensures r.Some? ==> IsBinary(r.value)
    ensures r.Some? ==> |s| % 4 == 0 && 3 * (|s| / 4) - 2 <= |r.value| <= 3 * (|s| / 4)
    decreases |s|
  {
    if |s| == 0 then Some([])
    else if |s| < 4 then None
    else
      match DecodeQuantum(s[..4], |s| == 4)
      case None => None
      case Some(q) =>
        match Atob(s[4..])
        case None => None
        case Some(rest) => Some(q + rest)
  }

  /** `btoa(String.fromCharCode.apply(null, bytes))`. */
  function Encode(b: seq<byte>): (s: string)
    ensures |s| == 4 * CeilDiv(|b|, 3)
  {
    Btoa(BinaryString(b))
  }

  /** The bytes of `atob(s)`, read out with `charCodeAt`. */
  function Decode(s: string): (r: Option<seq<byte>>)
    ensures r.Some? <==> Atob(s).Some?
    ensures r.Some? ==> |s| % 4 == 0 && 3 * (|s| / 4) - 2 <= |r.value| <= 3 * (|s| / 4)
    ensures r.Some? ==> |r.value| == |Atob(s).value|
    ensures r.Some? ==> forall i | 0 <= i < |r.value| :: r.value[i] as int == Atob(s).value[i] as int
  {
    match Atob(s)
    case None => None
    case Some(t) => Some(CharCodes(t))
  }

  /**
   * The 6-bit values of three octets put back together give the octets:
   * with x = 4q + r, y = 16u + v and z = 64w + t, the sextets are q,
   * 16r + u, 4v + w and t.
   */
  lemma GroupArith(x: int, y: int, z: int)
    requires 0 <= x < 256 && 0 <= y < 256 && 0 <= z < 256
    ensures x / 4 * 4 + (x % 4 * 16 + y / 16) / 16 == x
    ensures (x % 4 * 16 + y / 16) % 16 * 16 + (y % 16 * 4 + z / 64) / 4 == y
    ensures (y % 16 * 4 + z / 64) % 4 * 64 + z % 64 == z
  {
    var q, r, u, v, w, t := x / 4, x % 4, y / 16, y % 16, z / 64, z % 64;
    assert 0 <= u < 16 && 0 <= w < 4;
    var s1, s2 := r * 16 + u, v * 4 + w;
    assert s1 / 16 == r && s1 % 16 == u;
    assert s2 / 4 == v && s2 % 4 == w;
  }

  lemma GroupRoundTrip(a: char, b: char, c: char, last: bool)
    requires IsOctet(a) && IsOctet(b) && IsOctet(c)
    ensures DecodeQuantum(EncodeGroup(a, b, c), last) == Some([a, b, c])
  {
    var x, y, z := a as int, b as int, c as int;
    SextetRoundTrip(x / 4);
    SextetRoundTrip(x % 4 * 16 + y / 16);
    SextetRoundTrip(y % 16 * 4 + z / 64);
    SextetRoundTrip(z % 64);
    GroupArith(x, y, z);
  }

  lemma LastOneRoundTrip(a: char)
    requires IsOctet(a)
    ensures DecodeQuantum(EncodeLastOne(a), true) == Some([a])
  {
    var x := a as int;
    SextetRoundTrip(x / 4);
    SextetRoundTrip(x % 4 * 16);
    assert x / 4 * 4 + x % 4 * 16 / 16 == x;
  }

  lemma LastTwoRoundTrip(a: char, b: char)
    requires IsOctet(a) && IsOctet(b)
    ensures DecodeQuantum(EncodeLastTwo(a, b), true) == Some([a, b])
  {
    var x, y := a as int, b as int;
    SextetRoundTrip(x / 4);
    SextetRoundTrip(x % 4 * 16 + y / 16);
    SextetRoundTrip(y % 16 * 4);
    assert x / 4 * 4 + (x % 4 * 16 + y / 16) / 16 == x;
    assert (x % 4 * 16 + y / 16) % 16 * 16 + y % 16 * 4 / 4 == y;
  }

  lemma SplitThree<T>(s: seq<T>)
    requires |s| >= 3
    ensures s == [s[0], s[1], s[2]] + s[3..]
  {
  }

  /** `atob` undoes `btoa` on binary strings. */
  lemma {:induction false} AtobBtoa(s: string)
    requires IsBinary(s)
    ensures Atob(Btoa(s)) == Some(s)
    decreases |s|
  {
    if |s| == 1 {
      AtobLastOne(s[0]);
      assert s == [s[0]];
    } else if |s| == 2 {
      AtobLastTwo(s[0], s[1]);
      assert s == [s[0], s[1]];
    } else if |s| >= 3 {
      AtobBtoa(s[3..]);
      AtobGroupThen(s[0], s[1], s[2], s[3..]);
      SplitThree(s);
    }
  }

  lemma AtobLastOne(a: char)
    requires IsOctet(a)
    ensures Atob(EncodeLastOne(a)) == Some([a])
  {
    var e := EncodeLastOne(a);
    LastOneRoundTrip(a);
    assert e[..4] == e && e[4..] == [];
    assert [a] + [] == [a];
  }

  lemma AtobLastTwo(a: char, b: char)
    requires IsOctet(a) && IsOctet(b)
    ensures Atob(EncodeLastTwo(a, b)) == Some([a, b])
  {
    var e := EncodeLastTwo(a, b);
    LastTwoRoundTrip(a, b);
    assert e[..4] == e && e[4..] == [];
    assert [a, b] + [] == [a, b];
  }

  /** A full group in front of a decodable encoding decodes to the group in front. */
  lemma AtobGroupThen(a: char, b: char, c: char, rest: string)
    requires IsOctet(a) && IsOctet(b) && IsOctet(c) && IsBinary(rest)
    requires Atob(Btoa(rest)) == Some(rest)
    ensures IsBinary([a, b, c] + rest)
    ensures Atob(Btoa([a, b, c] + rest)) == Some([a, b, c] + rest)
  {
    var x := [a, b, c] + rest;
    assert x[0] == a && x[1] == b && x[2] == c && x[3..] == rest;
    var g := EncodeGroup(a, b, c);
    var e := Btoa(x);
    assert e == g + Btoa(rest);
    assert e[..4] == g;
    assert e[4..] == Btoa(rest);
    GroupRoundTrip(a, b, c, |e| == 4);
  }

  /** Decoding undoes encoding: `atob` gives back the bytes given to `btoa`. */
  lemma DecodeEncode(b: seq<byte>)
    ensures Decode(Encode(b)) == Some(b)
  {
    AtobBtoa(BinaryString(b));
    CharCodesOfBinaryString(b);
  }

  /** Encoding a whole number of 3-character groups ahead of `rest` needs no padding in between. */
  lemma {:induction false} BtoaConcat(s: string, rest: string)
    requires IsBinary(s) && IsBinary(rest) && |s| % 3 == 0
    ensures IsBinary(s + rest)
    ensures Btoa(s + rest) == Btoa(s) + Btoa(rest)
    decreases |s|
  {
    var sr := s + rest;
    if |s| == 0 {
      assert sr == rest;
    } else {
      assert sr[..3] == s[..3];
      assert sr[3..] == s[3..] + rest;
      BtoaConcat(s[3..], rest);
    }
  }

  /** Encoding a whole number of 3-byte groups ahead of `rest` needs no padding in between. */
  lemma EncodeConcat(a: seq<byte>, rest: seq<byte>)
    requires |a| % 3 == 0
    ensures Encode(a + rest) == Encode(a) + Encode(rest)
  {
    BinaryStringConcat(a, rest);
    BtoaConcat(BinaryString(a), BinaryString(rest));
  }

  /**
   * The pad character appears only among the last two characters, and only
   * when the input length is not a multiple of three.
   */
  lemma {:induction false} BtoaPadOnlyAtEnd(s: string)
    requires IsBinary(s)
    ensures forall k | 0 <= k < |Btoa(s)| && Btoa(s)[k] == '=' ::
      |s| % 3 != 0 && k >= |Btoa(s)| - 2
    decreases |s|
  {
    if |s| >= 3 {
      var t := Btoa(s[3..]);
      BtoaPadOnlyAtEnd(s[3..]);
      assert Btoa(s) == EncodeGroup(s[0], s[1], s[2]) + t;
      forall k | 0 <= k < |Btoa(s)| && Btoa(s)[k] == '='
        ensures |s| % 3 != 0 && k >= |Btoa(s)| - 2
      {
        assert k >= 4 && t[k - 4] == '=';
      }
    }
  }

  /** A length of 3k + 2 ends in a pad character. */
  lemma {:induction false} BtoaPadLast(s: string)
    requires IsBinary(s) && |s| % 3 == 2
    ensures Btoa(s)[|Btoa(s)| - 1] == '='
    decreases |s|
  {
    if |s| == 2 {
      assert Btoa(s) == EncodeLastTwo(s[0], s[1]);
    } else {
      var t := Btoa(s[3..]);
      BtoaPadLast(s[3..]);
      assert Btoa(s) == EncodeGroup(s[0], s[1], s[2]) + t;
    }
  }

  /**
   * The pad character appears only among the last two characters, and only
   * when the input length is not a multiple of three; a length of 3k + 2
   * ends in one.
   */
  lemma EncodePadding(b: seq<byte>)
    ensures forall k | 0 <= k < |Encode(b)| && Encode(b)[k] == '=' ::
      |b| % 3 != 0 && k >= |Encode(b)| - 2
    ensures |b| % 3 == 2 ==> Encode(b)[|Encode(b)| - 1] == '='
  {
    BtoaPadOnlyAtEnd(BinaryString(b));
    if |b| % 3 == 2 {
      BtoaPadLast(BinaryString(b));
    }
  }
}
