/**
 * The MIME types the sniffers can report and the magic numbers they look for:
 * the JPEG start-of-image marker followed by the first byte of the next marker
 * (ITU-T T.81, Annex B), the first four bytes of the PNG signature
 * (ISO/IEC 15948, section 5.2) and the `%PDF` header (ISO 32000-1,
 * section 7.5.2).
 */
module FileTypes {
  import opened Bytes

  datatype Mime = Jpeg | Png | Pdf | TextPlain | OctetStream

  /** The MIME type string the sniffers return for `m`. */
  function MimeType(m: Mime): string
  {
    match m
    case Jpeg => "image/jpeg"
    case Png => "image/png"
    case Pdf => "application/pdf"
    case TextPlain => "text/plain"
    case OctetStream => "application/octet-stream"
  }

  /** Distinct types have distinct strings, so the string identifies the type. */
  lemma MimeTypeInjective(m: Mime, m': Mime)
    requires MimeType(m) == MimeType(m')
    ensures m == m'
  {
  }

  const JpegMagic: seq<byte> := [0xFF, 0xD8, 0xFF]
  const PngMagic: seq<byte> := [0x89, 0x50, 0x4E, 0x47]
  const PdfMagic: seq<byte> := [0x25, 0x50, 0x44, 0x46]

  predicate StartsWith(b: seq<byte>, prefix: seq<byte>)
  {
    |prefix| <= |b| && b[..|prefix|] == prefix
  }

  /**
   * `bytes[i] === x` in JavaScript: reading past the end yields `undefined`,
   * which equals no byte value.
   */
  predicate ByteIs(bytes: seq<byte>, i: nat, x: byte)
  {
    i < |bytes| && bytes[i] == x
  }

  /** At most one of the three signatures can match a given input. */
  lemma {:induction false} SignaturesExclusive(b: seq<byte>)
    ensures !(StartsWith(b, JpegMagic) && StartsWith(b, PngMagic))
    ensures !(StartsWith(b, JpegMagic) && StartsWith(b, PdfMagic))
    ensures !(StartsWith(b, PngMagic) && StartsWith(b, PdfMagic))
  {
    if StartsWith(b, JpegMagic) {
      assert b[0] == b[..3][0] == 0xFF;
    }
    if StartsWith(b, PngMagic) {
      assert b[0] == b[..4][0] == 0x89;
    }
  }
}
