# Byte routines of the Walrus storage demos, in Dafny

This project models the byte and sequence logic inside the two React demo
components of the Walrus file-storage demo:

- `sdk-demo-use/src/temp.js` (`SecureFileHandler`), the encryption demo:
  - its file-type sniffer with the printable-text heuristic, and the status-colour lookup;
  - `chunkArrayBuffer`;
  - the chunked base 64 conversion `arrayBufferToBase64` of a downloaded ciphertext;
  - the copy of a decrypted word array into a byte array, 32 KiB at a time.
- `sdk-demo-use/src/App.js` (`App`), the download demo:
  - its signature-only sniffer, the MIME-type-to-extension table and the downloaded file's name;
  - `downloadStreamAsFile`. It reads one chunk of a response body, sniffs it, then re-emits that chunk and the rest of the body into a new stream. It collects that stream into a blob.

Modules:

| file | module | what it holds |
|---|---|---|
| `bytes.dfy` | `Bytes` | octets (`bv8`), `Option`, `Result`, `Flatten`, `CeilDiv` and small sequence and arithmetic lemmas |
| `filetypes.dfy` | `FileTypes` | the MIME types and the JPEG, PNG and `%PDF` signatures |
| `secure_handler.dfy` | `SecureFileHandler` | `detectFileType` and `getStatusColor` of the encryption demo |
| `app.dfy` | `App` | `detectFileType`, `getFileExtension` and the file names of the download demo |
| `stream_download.dfy` | `StreamDownload` | the body reader and stream controller as classes, and `downloadStreamAsFile` as a method |
| `base64.dfy` | `Base64` | `btoa` and `atob` on binary strings, after section 4 of RFC 4648, with `String.fromCharCode` and `charCodeAt` |
| `chunking.dfy` | `Chunking` | `chunkArrayBuffer` and `arrayBufferToBase64` as loops, with the corrected conversion |
| `word_unpack.dfy` | `WordUnpack` | the nested copy loop over an `array<bv8>`, and a big-endian packer it inverts |

Modelling choices:

- A missing input (`undefined`, an absent first chunk) is passed as the empty sequence. Both sniffers answer octet-stream for it, as the code does.
- `chunkArrayBuffer` requires a positive chunk size. With size 0 the JavaScript loop bound is `Infinity` or `NaN`, and the only caller passes 32768.
- The body reader is a class whose `pending` field holds the chunks still to come. `failsAtEnd` says whether the transport fails after them instead of ending the body.
- The stream controller is a class whose `queue` field holds the enqueued items, with `None` for `undefined`. `downloadStreamAsFile` drives both objects, and the new stream's `pull` is the method `PullAll`.

Two behaviours of the code worth stating:

- A body with no chunks gives no file. `start` enqueues `undefined` (`App.js:55`), and collecting the stream then fails (`NotBytes`).
- The 32 KiB chunking in `arrayBufferToBase64` changes the result for buffers over 32 KiB. See Findings.

## Model

| member | source | states |
|---|---|---|
| FileTypes.MimeTypeInjective | sdk-demo-use/src/temp.js:65-109 | the five verdicts are five distinct MIME strings, so the string names the verdict |
| FileTypes.SignaturesExclusive | sdk-demo-use/src/temp.js:71-89 | no input starts with two of the JPEG, PNG and `%PDF` signatures, so the order of those three tests decides nothing |
| SecureFileHandler.DetectFileType | sdk-demo-use/src/temp.js:65-109 | empty input is octet-stream; jpeg, png and pdf exactly when the input starts with that signature; text exactly when the input is non-empty, matches no signature and every byte is printable ASCII, tab, LF or CR; octet-stream otherwise |
| SecureFileHandler.PrefixByBytes | sdk-demo-use/src/temp.js:71-89 | each chain of `bytes[i] === x` tests holds exactly when the input starts with the signature; reads past the end never match, so inputs shorter than the signature never match |
| SecureFileHandler.PdfBeforeText | sdk-demo-use/src/temp.js:82-104 | an input that starts with `%PDF` and is all printable text is reported as PDF, not text |
| SecureFileHandler.OneControlByteSpoilsText | sdk-demo-use/src/temp.js:92-98 | the text test reads every byte: setting any one byte of a text input to 0 makes it octet-stream |
| SecureFileHandler.StatusColor | sdk-demo-use/src/temp.js:111-118 | error, success and info get the red, green and blue classes; the class is non-empty exactly for those three types |
| App.DetectFileType | sdk-demo-use/src/App.js:87-111 | jpeg, png and pdf exactly when the first chunk starts with that signature, octet-stream exactly when none matches; never text |
| App.AgreesWithSecureSniffer | sdk-demo-use/src/App.js:87-111 | this sniffer equals the encryption demo's sniffer with its text verdict replaced by octet-stream |
| App.PrefixFirstFour | sdk-demo-use/src/App.js:90-108 | each signature test holds on the input exactly when it holds on the input's first four bytes |
| App.DependsOnFirstFourBytes | sdk-demo-use/src/App.js:88-110 | two inputs with the same first (up to) four bytes get the same verdict |
| App.FileExtension | sdk-demo-use/src/App.js:113-121 | `.jpg`, `.png` and `.pdf` exactly for the JPEG, PNG and PDF types; the empty extension exactly for every other string, octet-stream included |
| App.SuggestedFileName | sdk-demo-use/src/App.js:37 | the suggested name is `file-` followed by the blob id, unchanged |
| App.DownloadFileName | sdk-demo-use/src/App.js:74 | the saved name starts with the suggested name, followed by `.jpg`, `.png`, `.pdf` or nothing |
| App.DownloadFileNameBySignature | sdk-demo-use/src/App.js:74 | the saved name is the suggested name plus `.jpg`, `.png` or `.pdf` by the first chunk's signature; it is the bare suggested name exactly when no signature matches |
| App.PngDownloadName | sdk-demo-use/src/App.js:74 | blob `abc123` whose first chunk starts with the PNG signature is saved as `file-abc123.png` |
| StreamDownload.BodyReader.Read | sdk-demo-use/src/App.js:60 | a read returns and removes the next chunk; with none left it reports done, or a failure when the transport fails |
| StreamDownload.StreamController.Enqueue | sdk-demo-use/src/App.js:62 | an open stream's queue gains the item at its end |
| StreamDownload.StreamController.Close | sdk-demo-use/src/App.js:64 | closing keeps the queue and marks the stream closed |
| StreamDownload.CollectBlob | sdk-demo-use/src/App.js:69-70 | collecting succeeds exactly when every queued item is bytes; otherwise it fails as not-bytes |
| StreamDownload.CollectItems | sdk-demo-use/src/App.js:69-70 | collecting a stream of chunks gives the chunks' bytes end to end |
| StreamDownload.PullAll | sdk-demo-use/src/App.js:57-66 | drains the body: the queue gains every remaining chunk in order, the stream is closed only when the body reports done, and a failed read leaves it open and is reported |
| StreamDownload.DownloadStreamAsFile | sdk-demo-use/src/App.js:45-85 | the type is sniffed after exactly one read; a failed read fails the download; an empty body emits `undefined` and fails; otherwise the new stream emits the first chunk then every later chunk in order, the file holds exactly the body's bytes, and it is named suggested name plus the first chunk's extension |
| Base64.BinaryString | sdk-demo-use/src/temp.js:55 | one character per byte, whose code is the byte |
| Base64.CharCodes | sdk-demo-use/src/temp.js:149-151 | one byte per character of a binary string, byte `i` being the code of character `i` |
| Base64.CharCodesOfBinaryString | sdk-demo-use/src/temp.js:147-151 | reading back the character codes of the binary string of some bytes gives those bytes |
| Base64.Btoa | sdk-demo-use/src/temp.js:56 | the encoding of `n` characters is `4 * ceil(n / 3)` characters long |
| Base64.Atob | sdk-demo-use/src/temp.js:148 | a successful decode is a binary string; only input whose length is a multiple of four decodes, to between `3k - 2` and `3k` characters for `4k` characters of input |
| Base64.Encode | sdk-demo-use/src/temp.js:55-56 | the base 64 of `n` bytes is `4 * ceil(n / 3)` characters long; `Base64.DecodeEncode` proves that `Decode` inverts it |
| Base64.Decode | sdk-demo-use/src/temp.js:147-151 | decoding succeeds exactly when `atob` does, and byte `i` is the code of character `i` of its result; a `4k`-character input gives `3k - 2` to `3k` bytes |
| Base64.AtobBtoa | sdk-demo-use/src/temp.js:56 | `atob` undoes `btoa` on every binary string |
| Base64.DecodeEncode | sdk-demo-use/src/temp.js:147-151 | decoding the base 64 of some bytes and reading the character codes gives the bytes back |
| Base64.EncodeConcat | sdk-demo-use/src/temp.js:53-56 | the encoding of a multiple of three bytes followed by more bytes is the two encodings end to end |
| Base64.EncodePadding | sdk-demo-use/src/temp.js:56 | a pad character occurs only in the last two places and only when the length is not a multiple of three; a length of 3k + 2 ends in one |
| Chunking.ChunksOfFlatten | sdk-demo-use/src/temp.js:36-47 | the chunks laid end to end give back the buffer |
| Chunking.ChunksOfShape | sdk-demo-use/src/temp.js:38-44 | there are `ceil(len / n)` chunks, all but the last of `n` bytes and the last of 1 to `n` bytes |
| Chunking.ChunksOfAt | sdk-demo-use/src/temp.js:41-43 | chunk `i` is the slice from `i * n` to `min(i * n + n, len)` |
| Chunking.ChunkArrayBuffer | sdk-demo-use/src/temp.js:36-47 | the loop returns `ceil(len / chunkSize)` chunks, all but the last of full size and the last non-empty, whose concatenation is the buffer |
| Chunking.EncodeEachAppend | sdk-demo-use/src/temp.js:53-56 | one more chunk appends its encoding to the concatenated encodings |
| Chunking.EncodeChunked | sdk-demo-use/src/temp.js:50-62 | the loop's result is the per-chunk encodings, concatenated in chunk order |
| Chunking.ArrayBufferToBase64 | sdk-demo-use/src/temp.js:49-63 | with 32 KiB chunks the result is the base 64 of the whole buffer exactly when the buffer is at most 32 KiB |
| Chunking.PerChunkEncoding | sdk-demo-use/src/temp.js:14 | encoding 32 KiB chunks one by one equals encoding the whole buffer exactly when there is at most one chunk |
| Chunking.FirstChunkEndsInPad | sdk-demo-use/src/temp.js:53-56 | with a chunk size of 3k + 2, the first chunk's encoding ends in a pad character and is the start of the per-chunk result |
| Chunking.FirstChunkPad | sdk-demo-use/src/temp.js:14 | for a buffer over 32768 bytes the per-chunk result has a pad character at index 43691 |
| Chunking.AlignedChunksEncodeWhole | sdk-demo-use/src/temp.js:49-63 | with a chunk size divisible by three, per-chunk encoding equals whole-buffer encoding for every buffer |
| Chunking.AlignedChunkSizeEncodesWhole | sdk-demo-use/src/temp.js:49-63 | with 30 KiB chunks, per-chunk encoding equals whole-buffer encoding for every buffer |
| Chunking.ArrayBufferToBase64Aligned | sdk-demo-use/src/temp.js:49-63 | the corrected conversion returns the base 64 of the whole buffer for every buffer |
| WordUnpack.ByteOfWordShift | sdk-demo-use/src/temp.js:226 | `(w >>> (24 - k * 8)) & 0xff` is byte `k` of the word, most significant first |
| WordUnpack.CopyWindow | sdk-demo-use/src/temp.js:224-227 | the inner loop sets every byte of its window from the words, leaves every other byte alone, and writes the window's indices once each, in order |
| WordUnpack.DecryptedBytes | sdk-demo-use/src/temp.js:220-229 | a negative `sigBytes` throws; otherwise the fresh array has `sigBytes` bytes, byte `j` is byte `j % 4` of word `j >>> 2` (0 past the words), and each index is written exactly once, in order |
| WordUnpack.Pack | sdk-demo-use/src/temp.js:140-142 | the model's own big-endian packer, in the word layout the copy loop reads: `n` bytes pack into `ceil(n / 4)` words |
| WordUnpack.PackAt | sdk-demo-use/src/temp.js:140-142 | word `i` holds bytes `4i` to `4i + 3`, most significant first, with zero bytes past the end |
| WordUnpack.WordRoundTrip | sdk-demo-use/src/temp.js:226 | the four bytes read out of a packed word are the four bytes packed |
| WordUnpack.WordBytesRoundTrip | sdk-demo-use/src/temp.js:226 | packing the four bytes read out of a word gives the word |
| WordUnpack.ByteAtWord | sdk-demo-use/src/temp.js:226 | index `4i + d` reads byte `d` of word `i` |
| WordUnpack.PackedByteAt | sdk-demo-use/src/temp.js:226 | byte `j` read out of the packed bytes is input byte `j` |
| WordUnpack.UnpackPack | sdk-demo-use/src/temp.js:220-227 | unpacking `n` bytes from the packed words gives back the `n` bytes |
| WordUnpack.PackUnpack | sdk-demo-use/src/temp.js:140-142 | packing every byte of a word array gives back the word array |

## Left out

- Network and browser I/O are not modelled: `fetch`, `response.arrayBuffer()`, `response.json()`, `FileReader`, `Blob` types, `URL.createObjectURL`, the anchor element and its click. The blob is modelled only as the bytes collected from the stream.
- CryptoJS SHA-256 key derivation and AES encryption and decryption (`temp.js:132`, `140-143`, `216-217`) are foreign library calls. They are left out. The decrypted result enters the model as its `words` and `sigBytes`. The download path derives its key from the fixed password `"123456"` (`temp.js:216`), not from the password entered; this is noted, not modelled.
- CryptoJS's own word-array construction is not part of this model. `WordUnpack.Pack` is the model's own big-endian packer in the same word layout, used as the inverse of the copy loop.
- Progress percentages (`temp.js:59`, `228`) are floating-point values written to React state. They are left out.
- React state, rendering, `resetStatus` and `updateStatus`, and the control flow of `handleUpload`, `handleDownload`, `handleFileChange` and `handleBlobIdSubmit` are left out. `getStatusColor` takes the status type as a parameter instead of reading it from state.
- `UPLOAD_CHUNK_SIZE` (`temp.js:13`) is declared but never used, so it has no counterpart.
- `handleBlobIdSubmit` does not check `response.ok` (`App.js:34-37`): an error response's body would be downloaded as a file. A null body is also not modelled.
- The default file name `"download"` (`App.js:45`) is not modelled: the only caller always passes a name.
- The reader lock protocol (`getReader`, `releaseLock`) and the asynchronous scheduling of `pull` are not modelled. `StreamDownload.PullAll` drains the body eagerly in one call; ordering and content are what the model keeps.
- Every chunk a body reader delivers is modelled as bytes. Non-`Uint8Array` chunks other than `undefined` are not modelled.
- App.FileExtension: keys inherited from `Object.prototype` (such as `"constructor"`) are truthy in the JavaScript lookup, but the model maps every key outside the table to `""`. The sniffer never produces such a key.
- SecureFileHandler.StatusColor: the same holds for inherited keys. The component only sets the types `""`, `info`, `error` and `success`.
- Base64.Atob: only padded input is accepted, with a length that is a multiple of four. The browser's forgiving decoder also strips ASCII whitespace and accepts unpadded input; that leniency is not modelled. Like the browser, the model ignores the low bits that padding drops.
- Base64.Btoa: only binary strings are accepted. The browser throws on a character code of 256 or more, but every caller passes a binary string.
- String.fromCharCode.apply's limit on the argument count is not modelled. The 32 KiB chunks stay below it.
- WordUnpack.DecryptedBytes: `sigBytes` and the indices are unbounded integers. `j >>> 2` is modelled as `j / 4`; the two agree for every index below 2^32, and larger indices are not modelled.
- The storage client package (`sdk-demo/`) is a thin wrapper over `fetch` and is not part of this model.

## Findings

| source | as written | input that shows it | evidently intended | confidence | as-written member | corrected member |
|---|---|---|---|---|---|---|
| sdk-demo-use/src/temp.js:14 | `arrayBufferToBase64` encodes 32768-byte chunks one by one and concatenates them. 32768 is 3 · 10922 + 2, so every full chunk's encoding ends in `=` | any ciphertext of 32769 bytes: the result has `=` at index 43691, and the base 64 of the whole buffer has no `=` before its last two places | the base 64 of the whole ciphertext, which `CryptoJS.AES.decrypt` parses (line 217); a chunk size that is a multiple of three (30 KiB here) gives it | not executed | Chunking.ArrayBufferToBase64 | Chunking.ArrayBufferToBase64Aligned |
