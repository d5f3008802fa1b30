/**
 * The pure helpers of the download demo component (`App`): its signature-only
 * file-type sniffer, the MIME-type-to-extension table and the name given to
 * the downloaded file.
 */
module App {
  import opened Bytes
  import opened FileTypes
  import SecureFileHandler

  /**
   * Sniffs the MIME type of the first chunk of a download. A missing chunk
   * (`new Uint8Array(undefined)`) is passed as the empty sequence.
   */
  function DetectFileType(bytes: seq<byte>): (m: Mime)
    ensures m != TextPlain
    ensures m == Jpeg <==> StartsWith(bytes, JpegMagic)
    ensures m == Png <==> StartsWith(bytes, PngMagic)
    ensures m == Pdf <==> StartsWith(bytes, PdfMagic)
    ensures m == OctetStream <==>
      !StartsWith(bytes, JpegMagic) && !StartsWith(bytes, PngMagic) && !StartsWith(bytes, PdfMagic)
  {
    SignaturesExclusive(bytes);
    SecureFileHandler.PrefixByBytes(bytes);
    if ByteIs(bytes, 0, 0xFF) && ByteIs(bytes, 1, 0xD8) && ByteIs(bytes, 2, 0xFF) then
      Jpeg
    else if ByteIs(bytes, 0, 0x89) && ByteIs(bytes, 1, 0x50) && ByteIs(bytes, 2, 0x4E) && ByteIs(bytes, 3, 0x47) then
      Png
    else if ByteIs(bytes, 0, 0x25) && ByteIs(bytes, 1, 0x50) && ByteIs(bytes, 2, 0x44) && ByteIs(bytes, 3, 0x46) then
      Pdf
    else
      OctetStream
  }

  /**
   * The two sniffers agree on the three signatures; where the encryption
   * demo's sniffer says text, this one says octet-stream.
   */
  lemma AgreesWithSecureSniffer(b: seq<byte>)
    ensures DetectFileType(b) ==
      var s := SecureFileHandler.DetectFileType(b);
      if s == TextPlain then OctetStream else s
  {
  }

  /** Only the first four bytes are inspected. */
  lemma {:induction false} DependsOnFirstFourBytes(a: seq<byte>, b: seq<byte>)
    requires a[..Min(4, |a|)] == b[..Min(4, |b|)]
    ensures DetectFileType(a) == DetectFileType(b)
  {
    assert |a| < 4 ==> a[..Min(4, |a|)] == a;
    assert |b| < 4 ==> b[..Min(4, |b|)] == b;
    PrefixFirstFour(a);
    PrefixFirstFour(b);
  }

  /** Each signature test is a test on the first (up to) four bytes. */
  lemma PrefixFirstFour(b: seq<byte>)
    ensures StartsWith(b, JpegMagic) <==> StartsWith(b[..Min(4, |b|)], JpegMagic)
    ensures StartsWith(b, PngMagic) <==> StartsWith(b[..Min(4, |b|)], PngMagic)
    ensures StartsWith(b, PdfMagic) <==> StartsWith(b[..Min(4, |b|)], PdfMagic)
  {
    var p := b[..Min(4, |b|)];
    if 3 <= |b| {
      assert p[..3] == b[..3];
    }
    if 4 <= |b| {
      assert p[..4] == b[..4];
    }
  }

  /** `extensions[mimeType] || ""` over the component's extension table. */
  function FileExtension(mimeType: string): (ext: string)
    ensures ext == ".jpg" <==> mimeType == "image/jpeg"
    ensures ext == ".png" <==> mimeType == "image/png"
    ensures ext == ".pdf" <==> mimeType == "application/pdf"
    ensures ext == "" <==> mimeType !in {"image/jpeg", "image/png", "application/pdf"}
  {
    var extensions := map[
      "image/jpeg" := ".jpg",
      "image/png" := ".png",
      "application/pdf" := ".pdf",
      "application/octet-stream" := ""
    ];
    if mimeType in extensions then extensions[mimeType] else ""
  }

  /** The name the download is offered under before its extension is known. */
  function SuggestedFileName(blobId: string): (name: string)
    ensures |name| == |blobId| + 5 && name[..5] == "file-" && name[5..] == blobId
  {
    "file-" + blobId
  }

  /**
   * The downloaded file's name: the suggested name plus the extension of the
   * type sniffed from the first chunk, one of the three table extensions or
   * nothing.
   */
  function DownloadFileName(suggestedFileName: string, firstChunk: seq<byte>): (name: string)
    ensures |suggestedFileName| <= |name| && name[..|suggestedFileName|] == suggestedFileName
    ensures name[|suggestedFileName|..] in {"", ".jpg", ".png", ".pdf"}
  {
    suggestedFileName + FileExtension(MimeType(DetectFileType(firstChunk)))
  }

  /**
   * The extension appended to the download's name is fixed by the signature
   * the first chunk starts with, and is empty when none matches.
   */
  lemma DownloadFileNameBySignature(suggestedFileName: string, firstChunk: seq<byte>)
    ensures StartsWith(firstChunk, JpegMagic) ==>
      DownloadFileName(suggestedFileName, firstChunk) == suggestedFileName + ".jpg"
    ensures StartsWith(firstChunk, PngMagic) ==>
      DownloadFileName(suggestedFileName, firstChunk) == suggestedFileName + ".png"
    ensures StartsWith(firstChunk, PdfMagic) ==>
      DownloadFileName(suggestedFileName, firstChunk) == suggestedFileName + ".pdf"
    ensures DownloadFileName(suggestedFileName, firstChunk) == suggestedFileName <==>
      !StartsWith(firstChunk, JpegMagic) && !StartsWith(firstChunk, PngMagic) && !StartsWith(firstChunk, PdfMagic)
  {
    var ext := FileExtension(MimeType(DetectFileType(firstChunk)));
    assert DownloadFileName(suggestedFileName, firstChunk) == suggestedFileName + ext;
    if suggestedFileName + ext == suggestedFileName {
      assert |ext| == 0;
    }
  }

  /**
   * A blob `abc123` whose first chunk starts with the PNG signature is saved
   * as `file-abc123.png`.
   */
  lemma PngDownloadName()
    ensures DownloadFileName(SuggestedFileName("abc123"), [0x89, 0x50, 0x4E, 0x47, 0, 0, 0, 0, 0, 0])
      == "file-abc123.png"
  {
    var chunk: seq<byte> := [0x89, 0x50, 0x4E, 0x47, 0, 0, 0, 0, 0, 0];
    assert chunk[..4] == PngMagic;
    DownloadFileNameBySignature(SuggestedFileName("abc123"), chunk);
  }
}
