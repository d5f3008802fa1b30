/**
 * `downloadStreamAsFile` of the download demo: read one chunk of the response
 * body, sniff its type, then re-emit that chunk followed by the rest of the
 * body into a new stream, collect the new stream into a blob and name the
 * file after the sniffed type.
 */
module StreamDownload {
  import opened Bytes
  import opened FileTypes
  import App

  /** What one `reader.read()` gives: a chunk, the end of the body, or a rejected read. */
  datatype ReadResult = Chunk(value: seq<byte>) | Done | Failed

  datatype DownloadError =
    | ReadFailed   // a read of the response body rejected
    | NotBytes     // the new stream held a chunk that is not bytes (`undefined`)

  datatype DownloadedFile = DownloadedFile(name: string, contents: seq<byte>)

  /**
   * A reader over a response body: the chunks still to come and whether the
   * transport fails after them instead of ending the body.
   */
  class BodyReader {
    var pending: seq<seq<byte>>
    var failsAtEnd: bool
    ghost var readCount: nat

    constructor (chunks: seq<seq<byte>>, failsAtEnd: bool)
      ensures pending == chunks && this.failsAtEnd == failsAtEnd && readCount == 0
    {
      pending := chunks;
      this.failsAtEnd := failsAtEnd;
      readCount := 0;
    }

    method Read() returns (r: ReadResult)
      modifies this
      ensures readCount == old(readCount) + 1 && failsAtEnd == old(failsAtEnd)
      ensures old(pending) != [] ==> r == Chunk(old(pending)[0]) && pending == old(pending)[1..]
      ensures old(pending) == [] ==> pending == [] && r == (if failsAtEnd then Failed else Done)
    {
      readCount := readCount + 1;
      if pending != [] {
        r := Chunk(pending[0]);
        pending := pending[1..];
      } else if failsAtEnd {
        r := Failed;
      } else {
        r := Done;
      }
    }
  }

  /**
   * The controller of the re-emitted stream: the items enqueued so far
   * (`None` for `undefined`) and whether the stream is closed.
   */
  class StreamController {
    var queue: seq<Option<seq<byte>>>
    var closed: bool

    constructor ()
      ensures queue == [] && !closed
    {
      queue := [];
      closed := false;
    }

    method Enqueue(item: Option<seq<byte>>)
      requires !closed
      modifies this
      ensures queue == old(queue) + [item] && !closed
    {
      queue := queue + [item];
    }

    method Close()
      requires !closed
      modifies this
      ensures closed && queue == old(queue)
    {
      closed := true;
    }
  }

  /** Chunks as stream items. */
  function Items(chunks: seq<seq<byte>>): (items: seq<Option<seq<byte>>>)
    ensures |items| == |chunks|
  {
    if chunks == [] then [] else [Some(chunks[0])] + Items(chunks[1..])
  }

  /**
   * `new Response(stream).blob()` on a closed stream: the items' bytes in
   * order, or a rejection when an item is not bytes.
   */
  function CollectBlob(queue: seq<Option<seq<byte>>>): (r: Result<seq<byte>, DownloadError>)
    ensures r.Ok? <==> forall i | 0 <= i < |queue| :: queue[i].Some?
    ensures r.Err? ==> r.error == NotBytes
  {
    if queue == [] then Ok([])
    else if queue[0].None? then Err(NotBytes)
    else
      match CollectBlob(queue[1..])
      case Err(e) => Err(e)
      case Ok(rest) => Ok(queue[0].value + rest)
  }

  /** Collecting the items of a chunk sequence gives the chunks' bytes end to end. */
  lemma {:induction false} CollectItems(chunks: seq<seq<byte>>)
    ensures CollectBlob(Items(chunks)) == Ok(Flatten(chunks))
  {
    if chunks != [] {
      var items := Items(chunks);
      assert items[0] == Some(chunks[0]) && items[1..] == Items(chunks[1..]);
      CollectItems(chunks[1..]);
    }
  }

  /**
   * The new stream's `pull`: moves every remaining chunk of the body into the
   * new stream, in order, and closes it when the body ends; a failed read
   * leaves it open and is reported.
   */
  method PullAll(stream: BodyReader, controller: StreamController) returns (failed: bool)
    requires !controller.closed
    modifies stream, controller
    ensures stream.pending == [] && stream.failsAtEnd == old(stream.failsAtEnd)
    ensures failed == stream.failsAtEnd
    ensures failed ==> !controller.closed && controller.queue == old(controller.queue) + Items(old(stream.pending))
    ensures !failed ==> controller.closed && controller.queue == old(controller.queue) + Items(old(stream.pending))
  {
    while true
      invariant stream.failsAtEnd == old(stream.failsAtEnd)
      invariant !controller.closed
      invariant controller.queue + Items(stream.pending) == old(controller.queue) + Items(old(stream.pending))
      decreases |stream.pending|
    {
      ghost var before := stream.pending;
      var next := stream.Read();
      if next.Done? {
        break;
      } else if next.Failed? {
        return true;
      }
      assert Items(before) == [Some(next.value)] + Items(stream.pending);
      controller.Enqueue(Some(next.value));
    }
    controller.Close();
    failed := false;
  }

  /**
   * Downloads a response body as a named file. On a body with at least one
   * chunk and no read failure, the new stream emits the first chunk and then
   * every later chunk in order, so the file holds exactly the body's bytes;
   * its name is the suggested name plus the extension sniffed from the first
   * chunk, read before any other chunk. An empty body puts `undefined` into
   * the new stream, which makes collecting it fail.
   *
   * `emitted` and `readsAtSniff` are a trace kept by the body: the items the
   * new stream received, and the number of reads made when the type was
   * sniffed.
   */
  method DownloadStreamAsFile(stream: BodyReader, suggestedFileName: string)
    returns (r: Result<DownloadedFile, DownloadError>, ghost emitted: seq<Option<seq<byte>>>, ghost readsAtSniff: nat)
    modifies stream
    ensures stream.pending == []
    ensures old(stream.failsAtEnd) ==> r == Err(ReadFailed)
    ensures !old(stream.failsAtEnd) && old(stream.pending) == [] ==> emitted == [None] && r == Err(NotBytes)
    ensures !old(stream.failsAtEnd) && old(stream.pending) != [] ==>
      && emitted == Items(old(stream.pending))
      && r == Ok(DownloadedFile(
           App.DownloadFileName(suggestedFileName, old(stream.pending)[0]),
           Flatten(old(stream.pending))))
    ensures readsAtSniff == 1
  {
    ghost var body := stream.pending;
    emitted := [];
    var firstChunk := stream.Read();
    readsAtSniff := stream.readCount - old(stream.readCount);
    if firstChunk.Failed? {
      return Err(ReadFailed), emitted, readsAtSniff;
    }
    var firstBytes := if firstChunk.Chunk? then firstChunk.value else [];
    var fileType := App.DetectFileType(firstBytes);

    // start(controller)
    var controller := new StreamController();
    var firstItem := if firstChunk.Chunk? then Some(firstChunk.value) else None;
    controller.Enqueue(firstItem);

    var failed := PullAll(stream, controller);
    if failed {
      return Err(ReadFailed), controller.queue, readsAtSniff;
    }
    emitted := controller.queue;
    if body != [] {
      assert Items(body) == [Some(body[0])] + Items(body[1..]);
      assert emitted == Items(body);
      CollectItems(body);
    } else {
      assert emitted == [None];
    }

    var blob := CollectBlob(controller.queue);
    if blob.Err? {
      return Err(blob.error), emitted, readsAtSniff;
    }
    var name := suggestedFileName + App.FileExtension(MimeType(fileType));
    r := Ok(DownloadedFile(name, blob.value));
  }
}
