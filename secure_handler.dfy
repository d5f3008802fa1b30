/**
 * The pure helpers of the encryption demo component (`SecureFileHandler`):
 * the file-type sniffer that looks at the decrypted bytes, including its
 * printable-text heuristic, and the status-colour lookup.
 */
module SecureFileHandler {
  import opened Bytes
  import opened FileTypes

  /** A printable ASCII character, a tab, a line feed or a carriage return. */
  predicate IsTextByte(x: byte)
  {
    (32 <= x && x <= 126) || x == 9 || x == 10 || x == 13
  }

  /** `bytes.every(isTextByte)`: vacuously true of the empty input. */
  predicate AllText(bytes: seq<byte>)
  {
    forall i | 0 <= i < |bytes| :: IsTextByte(bytes[i])
  }

  /**
   * Sniffs the MIME type of a decrypted buffer. An absent buffer is passed
   * as the empty sequence; both return octet-stream.
   */
  function DetectFileType(bytes: seq<byte>): (m: Mime)
    ensures |bytes| == 0 ==> m == OctetStream
    ensures m == Jpeg <==> StartsWith(bytes, JpegMagic)
    ensures m == Png <==> StartsWith(bytes, PngMagic)
    ensures m == Pdf <==> StartsWith(bytes, PdfMagic)
    ensures m == TextPlain <==>
      && |bytes| > 0
      && !StartsWith(bytes, JpegMagic)
      && !StartsWith(bytes, PngMagic)
      && !StartsWith(bytes, PdfMagic)
      && forall i | 0 <= i < |bytes| :: IsTextByte(bytes[i])
  {
    SignaturesExclusive(bytes);
    PrefixByBytes(bytes);
    if |bytes| == 0 then
      OctetStream
    else if ByteIs(bytes, 0, 0xFF) && ByteIs(bytes, 1, 0xD8) && ByteIs(bytes, 2, 0xFF) then
      Jpeg
    else if ByteIs(bytes, 0, 0x89) && ByteIs(bytes, 1, 0x50) && ByteIs(bytes, 2, 0x4E) && ByteIs(bytes, 3, 0x47) then
      Png
    else if ByteIs(bytes, 0, 0x25) && ByteIs(bytes, 1, 0x50) && ByteIs(bytes, 2, 0x44) && ByteIs(bytes, 3, 0x46) then
      Pdf
    else if AllText(bytes) then
      TextPlain
    else
      OctetStream
  }

  /** The byte-by-byte comparisons of the sniffer are prefix tests. */
  lemma PrefixByBytes(b: seq<byte>)
    ensures StartsWith(b, JpegMagic) <==> ByteIs(b, 0, 0xFF) && ByteIs(b, 1, 0xD8) && ByteIs(b, 2, 0xFF)
    ensures StartsWith(b, PngMagic) <==>
      ByteIs(b, 0, 0x89) && ByteIs(b, 1, 0x50) && ByteIs(b, 2, 0x4E) && ByteIs(b, 3, 0x47)
    ensures StartsWith(b, PdfMagic) <==>
      ByteIs(b, 0, 0x25) && ByteIs(b, 1, 0x50) && ByteIs(b, 2, 0x44) && ByteIs(b, 3, 0x46)
  {
    if 3 <= |b| {
      assert b[..3] == [b[0], b[1], b[2]];
    }
    if 4 <= |b| {
      assert b[..4] == [b[0], b[1], b[2], b[3]];
    }
  }

  /**
   * The `%PDF` header is itself printable text, so the PDF verdict depends on
   * the PDF test coming before the text heuristic.
   */
  lemma PdfBeforeText(b: seq<byte>)
    requires StartsWith(b, PdfMagic) && AllText(b)
    ensures DetectFileType(b) == Pdf && DetectFileType(b) != TextPlain
  {
  }

  /**
   * The text heuristic reads every byte: a text input with one byte changed to
   * a control character is no longer text, wherever that byte is.
   */
  lemma {:induction false} OneControlByteSpoilsText(b: seq<byte>, i: nat)
    requires DetectFileType(b) == TextPlain && i < |b|
    ensures DetectFileType(b[i := 0]) == OctetStream
  {
    var b' := b[i := 0];
    assert !IsTextByte(b'[i]);
    PrefixByBytes(b');
    PrefixByBytes(b);
    SignaturesExclusive(b');
  }

  /** The CSS class of the status line for a status type: `colors[type] || ""`. */
  function StatusColor(statusType: string): (cls: string)
    ensures statusType == "error" ==> cls == "text-red-600"
    ensures statusType == "success" ==> cls == "text-green-600"
    ensures statusType == "info" ==> cls == "text-blue-600"
    ensures cls != "" <==> statusType in {"error", "success", "info"}
  {
    var colors := map["error" := "text-red-600", "success" := "text-green-600", "info" := "text-blue-600"];
    if statusType in colors then colors[statusType] else ""
  }
}
