/**
 * Downloads over the texts of the replies. The runs are stated over any way of reading texts, and
 * the client's own way is one of them.
 */
module TextRuns {
  import opened Wrappers
  import opened Decimal
  import opened RangeDownload
  import opened RangeRuns
  import ContentRange
  import opened Replies

  /** How a reply to GET is read. */
  type Reader = (Transfer, Input) -> Outcome

  /** Which header texts announce a length, and which numbers to a client that reckons in a unit. */
  type Offers = (string, string, nat, ContentRange.Numbers) -> bool

  function GetReader(names: Names): Reader {
    (t: Transfer, received: Input) => Receive(names, t, GetVerb, received)
  }

  ghost function PrintedOffers(names: Names): Offers {
    (head: string, unit: string, length: nat, numbers: ContentRange.Numbers) => Offer(names, head, unit, length, numbers)
  }

  /** The reader takes an offer for what it offers. */
  ghost predicate ReadsOffers(offers: Offers, read: Reader) {
    forall t: Transfer, head: string, length: Size, numbers: ContentRange.Numbers, excess: seq<Byte> |
      offers(head, t.status.unit, length, numbers) && length >= 1 && ContentRange.InRange(numbers) && |head| + |excess| < LIMIT ::
      read(t, head + Characters(excess)) == Taken(t.OnReply(numbers, length, excess))
  }

  lemma ClientReadsOffers(names: Names)
    ensures ReadsOffers(PrintedOffers(names), GetReader(names))
  {
    forall t: Transfer, head: string, length: Size, numbers: ContentRange.Numbers, excess: seq<Byte> |
      PrintedOffers(names)(head, t.status.unit, length, numbers) && length >= 1 && ContentRange.InRange(numbers) && |head| + |excess| < LIMIT
      ensures GetReader(names)(t, head + Characters(excess)) == Taken(t.OnReply(numbers, length, excess))
    {
      ReceiveOffer(names, t, head, length, numbers, excess);
    }
  }

  function Served(t: Transfer, file: seq<Byte>, s: Serve): ContentRange.Numbers {
    ContentRange.Numbers(Some(t.request.start), Some(s.end), Some(|file|))
  }

  /** A text that offers what the server serves. */
  predicate Answers(offers: Offers, head: string, t: Transfer, file: seq<Byte>, s: Serve)
    requires Honest(file, t.request, s)
  {
    offers(head, t.status.unit, s.end - t.request.start + 1, Served(t, file, s)) && |head| + s.excess < LIMIT
  }

  /** What arrives first: the text, and the bytes that come with it. */
  function Arriving(t: Transfer, file: seq<Byte>, s: Serve, head: string): string
    requires Honest(file, t.request, s)
  {
    head + Characters(file[t.request.start..t.request.start + s.excess])
  }

  /** The text of an honest reply makes the client take the honest step. */
  lemma HonestText(offers: Offers, read: Reader, t: Transfer, file: seq<Byte>, s: Serve, head: string)
    requires ReadsOffers(offers, read)
    requires |file| < LIMIT && Honest(file, t.request, s) && Answers(offers, head, t, file, s)
    ensures read(t, Arriving(t, file, s, head)) == Taken(Replied(t, file, s))
  {
    var start := t.request.start;
    var excess := file[start..start + s.excess];
    OfferRead(offers, read, t, head, s.end - start + 1, Served(t, file, s), excess);
    assert Arriving(t, file, s, head) == head + Characters(excess);
    ServedReplied(t, file, s);
  }

  lemma OfferRead(offers: Offers, read: Reader, t: Transfer, head: string, length: Size, numbers: ContentRange.Numbers, excess: seq<Byte>)
    requires ReadsOffers(offers, read)
    requires offers(head, t.status.unit, length, numbers) && length >= 1 && ContentRange.InRange(numbers) && |head| + |excess| < LIMIT
    ensures read(t, head + Characters(excess)) == Taken(t.OnReply(numbers, length, excess))
  {
  }

  lemma ServedReplied(t: Transfer, file: seq<Byte>, s: Serve)
    requires |file| < LIMIT && Honest(file, t.request, s)
    ensures var start := t.request.start;
            t.OnReply(Served(t, file, s), s.end - start + 1, file[start..start + s.excess]) == Replied(t, file, s)
  {
  }

  /** One request answered in full: header text with the first bytes, then the bytes still missing. */
  function TextRound(read: Reader, t: Transfer, file: seq<Byte>, s: Serve, head: string): Option<Transfer>
    requires |file| < LIMIT && Honest(file, t.request, s) && |head| + s.excess < LIMIT
  {
    match read(t, Arriving(t, file, s, head))
    case Taken(replied) =>
      Some(if replied.pending.Body? then replied.OnBody(file[t.request.start + s.excess..s.end + 1]) else replied)
    case _ => None
  }

  lemma TextRoundIsRound(offers: Offers, read: Reader, t: Transfer, file: seq<Byte>, s: Serve, head: string)
    requires ReadsOffers(offers, read)
    requires |file| < LIMIT && Honest(file, t.request, s) && Answers(offers, head, t, file, s)
    ensures TextRound(read, t, file, s, head) == Some(Round(t, file, s))
  {
    HonestText(offers, read, t, file, s, head);
  }

  ghost predicate AreAnswered(offers: Offers, t: Transfer, file: seq<Byte>, serves: seq<Serve>, heads: seq<string>)
    requires |file| < LIMIT && IsServed(t, file, serves) && |heads| == |serves|
    decreases |serves|
  {
    serves != [] ==>
      Answers(offers, heads[0], t, file, serves[0]) && AreAnswered(offers, Round(t, file, serves[0]), file, serves[1..], heads[1..])
  }

  /** A run over texts, from the reply to the HEAD request on. */
  function TextRun(read: Reader, t: Transfer, file: seq<Byte>, serves: seq<Serve>, heads: seq<string>): Option<Transfer>
    requires |file| < LIMIT && |heads| == |serves|
    decreases |serves|
  {
    if serves == [] then Some(t)
    else if !Honest(file, t.request, serves[0]) || |heads[0]| + serves[0].excess >= LIMIT then None
    else
      match TextRound(read, t, file, serves[0], heads[0])
      case None => None
      case Some(after) => TextRun(read, after, file, serves[1..], heads[1..])
  }

  /** Reading the texts of honest replies is the download of RangeRuns. */
  lemma {:induction false} TextRunIsRun(offers: Offers, read: Reader, t: Transfer, file: seq<Byte>, serves: seq<Serve>, heads: seq<string>)
    requires |file| < LIMIT && IsServed(t, file, serves) && |heads| == |serves| && AreAnswered(offers, t, file, serves, heads)
    requires ReadsOffers(offers, read)
    ensures TextRun(read, t, file, serves, heads) == Some(Run(t, file, serves))
    decreases |serves|
  {
    if serves != [] {
      TextRoundIsRound(offers, read, t, file, serves[0], heads[0]);
      TextRunIsRun(offers, read, Round(t, file, serves[0]), file, serves[1..], heads[1..]);
    }
  }

  lemma HeadText(names: Names, d: Download, head: Reply, range: string)
    requires |d.file| >= 1 && head.Announces(names, |d.file|, range) && |head.Printed()| < LIMIT
    requires d.unit == AcceptsRanges(names, head.fields)
    ensures Receive(names, Opened(d.bufferSize, Sink(d.prior, false, [])), HeadVerb, head.Printed()) == Taken(d.Begin())
  {
    assert head.Printed() + Characters([]) == head.Printed();
    ReceiveAnnounced(names, Opened(d.bufferSize, Sink(d.prior, false, [])), HeadVerb, head, |d.file|, range, []);
  }

  /** What is left to say of a run once its texts are read. */
  ghost predicate ReadsExactly(run: Option<Transfer>, d: Download, serves: seq<Serve>) {
    && run.Some? && run.value.status.current <= |d.file|
    && run.value.sink.content == d.prior + d.file[..run.value.status.current]
    && (run.value.pending == Ended ==> (run.value.sink.content == d.prior + d.file <==> !Premature(d.file, serves)))
  }

  lemma ServedTextsAreExact(names: Names, d: Download, serves: seq<Serve>, heads: seq<string>)
    requires |heads| == |serves| && d.ServedBy(serves)
    requires AreAnswered(PrintedOffers(names), d.Begin(), d.file, serves, heads)
    ensures ReadsExactly(TextRun(GetReader(names), d.Begin(), d.file, serves, heads), d, serves)
  {
    ClientReadsOffers(names);
    TextRunIsRun(PrintedOffers(names), GetReader(names), d.Begin(), d.file, serves, heads);
    RunReadsExactly(d, serves);
  }

  lemma RunReadsExactly(d: Download, serves: seq<Serve>)
    requires d.ServedBy(serves)
    ensures ReadsExactly(Some(d.After(serves)), d, serves)
  {
    DownloadIsExact(d, serves);
  }

  /**
   * From texts to bytes in the sink: the reply to HEAD, then any honest replies, whatever other
   * fields they carry and wherever their bytes are cut.
   */
  lemma TextDownloadIsExact(names: Names, d: Download, head: Reply, range: string, serves: seq<Serve>, heads: seq<string>)
    requires |d.file| >= 1 && head.Announces(names, |d.file|, range) && |head.Printed()| < LIMIT
    requires d.unit == AcceptsRanges(names, head.fields) && |heads| == |serves| && d.ServedBy(serves)
    requires AreAnswered(PrintedOffers(names), d.Begin(), d.file, serves, heads)
    ensures var first := Receive(names, Opened(d.bufferSize, Sink(d.prior, false, [])), HeadVerb, head.Printed());
            first.Taken? && ReadsExactly(TextRun(GetReader(names), first.transfer, d.file, serves, heads), d, serves)
  {
    HeadText(names, d, head, range);
    ServedTextsAreExact(names, d, serves, heads);
  }
}
