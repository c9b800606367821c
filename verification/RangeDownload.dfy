/**
 * A file fetched range by range: a HEAD request learns the size, each GET asks for one range, its
 * body arrives partly with the header and partly afterwards, and both parts go to the sink.
 */
module RangeDownload {
  import opened Decimal
  import ContentRange

  type Byte = n: nat | n < 256

  /** std::size_t and its arithmetic. */
  type Size = n: nat | n < LIMIT

  /** Bytes in memory. */
  type Data = s: seq<Byte> | |s| < LIMIT

  function Add(a: Size, b: Size): Size {
    if a + b < LIMIT then a + b else a + b - LIMIT
  }

  function Sub(a: Size, b: Size): Size {
    if b <= a then a - b else a + LIMIT - b
  }

  /** Sums and differences wrap around at 2^64. */
  lemma SizesWrap(a: Size)
    ensures Add(a, 0) == a && Sub(a, a) == 0
    ensures Add(0xFFFF_FFFF_FFFF_FFFF, 1) == 0 && Sub(0, 1) == 0xFFFF_FFFF_FFFF_FFFF
    ensures Sub(Add(a, 1), 1) == a
  {
  }

  function Min(a: nat, b: nat): nat {
    if a < b then a else b
  }

  datatype Status = Status(current: Size, start: Size, end: Size, total: Size, unit: string, complete: bool)
  datatype Request = Request(start: Size, end: Size, size: Size)

  /** What the listener of a layer download hears. */
  datatype Notice = Started | Updated(current: nat, total: nat) | Completed | Failed

  datatype Sink = Sink(content: seq<Byte>, started: bool, notices: seq<Notice>) {

    function Written(data: Data): Sink {
      this.(content := content + data)
    }

    function Told(status: Status): Sink {
      Sink(content, true,
           notices + (if started then [] else [Started]) +
           [if status.complete then Completed else Updated(status.current, status.total)])
    }

    function ToldFailure(): Sink {
      this.(notices := notices + [Failed])
    }
  }

  /** The layer download task in its role as destination and reporter. */
  class LayerDownloadTask {
    const bufferSize: Size
    var file: seq<Byte>
    var downloadStarted: bool
    ghost var notices: seq<Notice>

    constructor (bufferSize: Size)
      ensures this.bufferSize == bufferSize && View() == Sink([], false, [])
    {
      this.bufferSize := bufferSize;
      file, downloadStarted, notices := [], false, [];
    }

    ghost function View(): Sink
      reads this
    {
      Sink(file, downloadStarted, notices)
    }

    /** Appends to the file. */
    method Write(data: Data) returns (n: nat)
      modifies this`file
      ensures View() == old(View()).Written(data) && n == |data|
    {
      file := file + data;
      n := |data|;
    }

    /** An error is passed on, whatever the status says. */
    method OnDownloadUpdate(error: bool, status: Status)
      modifies this`downloadStarted, this`notices
      ensures View() == if error then old(View()).ToldFailure() else old(View()).Told(status)
    {
      if error {
        notices := notices + [Failed];
        return;
      }
      if !downloadStarted {
        downloadStarted := true;
        notices := notices + [Started];
      }
      notices := notices + [if status.complete then Completed else Updated(status.current, status.total)];
    }
  }

  /** The asynchronous operation the client waits for. */
  datatype Pending = Head | Reply | Body(bytes: Size) | Ended | Thrown

  datatype Transfer = Transfer(
    bufferSize: Size,
    status: Status,
    chunkSize: Size,
    request: Request,
    pending: Pending,
    requests: seq<Request>,
    sink: Sink) {

    function Reported(complete: bool): Transfer {
      var now := status.(complete := complete);
      this.(status := now, sink := sink.Told(now))
    }

    function Requested(r: Request): Transfer {
      this.(request := r, requests := requests + [r], pending := Reply)
    }

    /** The HEAD reply announces `length` bytes. */
    function OnHead(length: Size, unit: string): Transfer {
      var known := this.(status := Status(0, 0, 0, length, unit, false)).Reported(false);
      var size := Min(bufferSize, length);
      known.Requested(Request(0, Sub(size, 1), size))
    }

    function ReadPartialContent(bytes: Size): Transfer {
      if bytes == 0 then Reported(true).(pending := Ended) else this.(pending := Body(bytes))
    }

    /** A GET reply: the numbers of its Content-Range, its Content-Length, and the body bytes that came with the header. */
    function OnReply(numbers: ContentRange.Numbers, length: Size, excess: Data): Transfer
      requires ContentRange.InRange(numbers)
    {
      match numbers
      case NoUnit => this.(pending := Thrown)
      case Numbers(start, end, total) =>
        if start.None? then this.(pending := Thrown)
        else if end.None? then this.(status := status.(start := start.value), pending := Thrown)
        else if total.None? then this.(status := status.(start := start.value, end := end.value), pending := Thrown)
        else
          this.(status := status.(start := start.value, end := end.value, total := total.value)).Content(length, excess)
    }

    /** `length` bytes are on their way, of which `excess` have arrived. */
    function Content(length: Size, excess: Data): Transfer {
      var now := status.(current := Add(status.current, length));
      this.(status := now, chunkSize := length, sink := sink.Written(excess)).ReadPartialContent(Sub(length, |excess|))
    }

    /** A GET reply whose Content-Length does not convert: the numbers are stored as far as they convert. */
    function BadLength(numbers: ContentRange.Numbers): Transfer
      requires ContentRange.InRange(numbers)
    {
      if AllConvert(numbers)
      then this.(status := status.(start := numbers.start.value, end := numbers.end.value, total := numbers.total.value),
                 pending := Thrown)
      else OnReply(numbers, 0, [])
    }

    /** The range after the current one. */
    function NextRequest(bytes: Size): Request {
      var endIndex := Sub(status.total, 1);
      var nextStart := Add(status.end, 1);
      var nextSize := if Add(chunkSize, nextStart) < endIndex then chunkSize else Add(Sub(endIndex, nextStart), 1);
      Request(nextStart, Sub(Add(nextStart, nextSize), 1), bytes)
    }

    /** The rest of the body has been read. */
    function OnBody(remainder: Data): Transfer {
      var written := this.(sink := sink.Written(remainder));
      if status.current < status.total then written.Reported(false).Requested(NextRequest(|remainder|))
      else written.Reported(true).(pending := Ended)
    }
  }

  predicate AllConvert(numbers: ContentRange.Numbers) {
    numbers.Numbers? && numbers.start.Some? && numbers.end.Some? && numbers.total.Some?
  }

  function Opened(bufferSize: Size, sink: Sink): Transfer {
    Transfer(bufferSize, Status(0, 0, 0, 0, "", false), 0, Request(0, 0, 0), Head, [], sink)
  }

  class FileTransferClient {
    const destination: LayerDownloadTask
    var status: Status
    var chunkSize: Size
    var currentRequest: Request
    ghost var pending: Pending
    ghost var requests: seq<Request>

    ghost function View(): Transfer
      reads this, destination
    {
      Transfer(destination.bufferSize, status, chunkSize, currentRequest, pending, requests, destination.View())
    }

    constructor (destination: LayerDownloadTask)
      ensures this.destination == destination && View() == Opened(destination.bufferSize, destination.View())
    {
      this.destination := destination;
      status, chunkSize, currentRequest := Status(0, 0, 0, 0, "", false), 0, Request(0, 0, 0);
      pending, requests := Head, [];
    }

    method OnHeadResponse(length: Size, unit: string)
      modifies this, destination
      ensures View() == old(View()).OnHead(length, unit)
    {
      status := Status(0, 0, 0, length, unit, false);
      destination.OnDownloadUpdate(false, status);
      var size := Min(destination.bufferSize, length);
      currentRequest := Request(0, Sub(size, 1), size);
      RequestPartialContent();
    }

    method RequestPartialContent()
      modifies this`requests, this`pending
      ensures View() == old(View()).Requested(currentRequest)
    {
      requests := requests + [currentRequest];
      pending := Reply;
    }

    method OnServerResponse(contentRange: string, length: Size, excess: Data)
      modifies this, destination
      ensures View() == old(View()).OnReply(ContentRange.ParseContentRange(contentRange, old(status.unit)), length, excess)
    {
      var stored := StoreNumbers(contentRange);
      if !stored {
        return;
      }
      TakeContent(length, excess);
    }

    method TakeContent(length: Size, excess: Data)
      modifies this, destination
      ensures View() == old(View()).Content(length, excess)
    {
      status := status.(current := Add(status.current, length));
      chunkSize := length;
      if |excess| > 0 {
        var written := destination.Write(excess);
      } else {
        assert destination.file + excess == destination.file;
      }
      ReadPartialContent(Sub(length, |excess|));
    }

    /** start, end and total in turn, up to the first that does not convert. */
    method StoreNumbers(contentRange: string) returns (stored: bool)
      modifies this`status, this`pending
      ensures stored == AllConvert(ContentRange.ParseContentRange(contentRange, old(status.unit)))
      ensures !stored ==> View() == old(View()).OnReply(ContentRange.ParseContentRange(contentRange, old(status.unit)), 0, [])
      ensures stored ==> var numbers := ContentRange.ParseContentRange(contentRange, old(status.unit));
                         status == old(status).(start := numbers.start.value, end := numbers.end.value, total := numbers.total.value)
      ensures stored ==> pending == old(pending)
    {
      var numbers := ContentRange.ParseContentRange(contentRange, status.unit);
      if numbers.NoUnit? || numbers.start.None? {
        pending := Thrown;
        return false;
      }
      status := status.(start := numbers.start.value);
      if numbers.end.None? {
        pending := Thrown;
        return false;
      }
      status := status.(end := numbers.end.value);
      if numbers.total.None? {
        pending := Thrown;
        return false;
      }
      status := status.(total := numbers.total.value);
      return true;
    }

    method OnUnmeasuredResponse(contentRange: string)
      modifies this
      ensures View() == old(View()).BadLength(ContentRange.ParseContentRange(contentRange, old(status.unit)))
    {
      var stored := StoreNumbers(contentRange);
      pending := Thrown;
    }

    method ReadPartialContent(bytes: Size)
      modifies this, destination
      ensures View() == old(View()).ReadPartialContent(bytes)
    {
      if bytes == 0 {
        status := status.(complete := true);
        destination.OnDownloadUpdate(false, status);
        pending := Ended;
      } else {
        pending := Body(bytes);
      }
    }

    method OnBodyRead(remainder: Data)
      modifies this, destination
      ensures View() == old(View()).OnBody(remainder)
    {
      var written := destination.Write(remainder);
      if status.current < status.total {
        var endIndex := Sub(status.total, 1);
        var nextStart := Add(status.end, 1);
        var nextSize := if Add(chunkSize, nextStart) < endIndex then chunkSize else Add(Sub(endIndex, nextStart), 1);
        var nextEnd := Sub(Add(nextStart, nextSize), 1);
        status := status.(complete := false);
        destination.OnDownloadUpdate(false, status);
        currentRequest := Request(nextStart, nextEnd, |remainder|);
        RequestPartialContent();
      } else {
        status := status.(complete := true);
        destination.OnDownloadUpdate(false, status);
        pending := Ended;
      }
    }
  }
}
