/** The download client reading whole replies, from the bytes of the header block on. */
module Replies {
  import opened Wrappers
  import opened Decimal
  import Text
  import Sequences
  import opened HeaderEnd
  import opened HeaderBlock
  import ContentRange
  import opened RangeDownload

  // ---------------------------------------------------------------------------------------
  // Field names, compared without regard to case
  // ---------------------------------------------------------------------------------------

  function Lower(c: char): char {
    if 'A' <= c <= 'Z' then c + 32 as char else c
  }

  predicate Same(a: string, b: string) {
    |a| == |b| && forall i | 0 <= i < |a| :: Lower(a[i]) == Lower(b[i])
  }

  type Word = bv64

  function Mix(h: Word, c: Word): Word {
    h ^ (c + 0x9e3779b9 + (h << 6) + (h >> 2))
  }

  function Hashed(word: char -> Word, s: string): Word {
    if s == [] then 0 else Mix(Hashed(word, s[..|s| - 1]), word(Lower(s[|s| - 1])))
  }

  /** The hash of a field name, over any hash of its characters. */
  method Hash(word: char -> Word, s: string) returns (h: Word)
    ensures h == Hashed(word, s)
  {
    h := 0;
    for i := 0 to |s|
      invariant h == Hashed(word, s[..i])
    {
      assert s[..i + 1][..i] == s[..i];
      h := Mix(h, word(Lower(s[i])));
    }
    assert s[..|s|] == s;
  }

  lemma MixIs(h: Word, c: Word)
    ensures Mix(h, c) == h ^ (c + 0x9e3779b9 + (h << 6) + (h >> 2))
  {
  }

  /** Names that compare equal have one hash, so a look-up finds them. */
  lemma {:induction false} SameHashAlike(word: char -> Word, a: string, b: string)
    requires Same(a, b)
    ensures Hashed(word, a) == Hashed(word, b)
    decreases |a|
  {
    if a != [] {
      SameHashAlike(word, a[..|a| - 1], b[..|b| - 1]);
    }
  }

  function Lookup(fields: seq<Field>, name: string): Option<string> {
    if fields == [] then None
    else if Same(fields[0].name, name) then Some(fields[0].value)
    else Lookup(fields[1..], name)
  }

  /** Some field has the name, and every field that has it has this value. */
  predicate Only(fields: seq<Field>, name: string, value: string) {
    && (exists f | f in fields :: Same(f.name, name))
    && (forall f | f in fields && Same(f.name, name) :: f.value == value)
  }

  lemma {:induction false} LookupOnly(fields: seq<Field>, name: string, value: string)
    requires Only(fields, name, value)
    ensures Lookup(fields, name) == Some(value)
  {
    if !Same(fields[0].name, name) {
      LookupOnly(fields[1..], name, value);
    }
  }

  // ---------------------------------------------------------------------------------------
  // From received characters to a step of the transfer
  // ---------------------------------------------------------------------------------------

  /** The field names looked up, and the two range units with a meaning of their own. */
  datatype Names = Names(length: string, range: string, location: string, accepts: string, bytes: string, none: string)

  const HTTP := Names("Content-Length", "Content-Range", "Location", "Accept-Ranges", "bytes", "none")

  datatype Verb = HeadVerb | GetVerb

  /** A reply is taken as a step of the transfer, or it changes nothing. */
  datatype Outcome = Taken(transfer: Transfer) | Redirected | Unreadable | Throws | Ignored

  /** The announced length, zero when there is none, and None where its conversion throws. */
  function ContentLength(names: Names, fields: seq<Field>): Option<nat> {
    match Lookup(fields, names.length)
    case None => Some(0)
    case Some(text) => Stoull(text)
  }

  function AcceptsRanges(names: Names, fields: seq<Field>): string {
    match Lookup(fields, names.accepts)
    case None => names.bytes
    case Some(unit) => if unit == names.none then names.bytes else unit
  }

  predicate IsPartial(names: Names, fields: seq<Field>) {
    Lookup(fields, names.length).Some? && Lookup(fields, names.range).Some?
  }

  function Bytes(s: string): (data: seq<Byte>)
    ensures |data| == |s|
  {
    seq(|s|, i requires 0 <= i < |s| => (s[i] as int) % 256)
  }

  function Characters(data: seq<Byte>): (s: string)
    ensures |s| == |data|
  {
    seq(|data|, i requires 0 <= i < |data| => data[i] as char)
  }

  lemma BytesBack(data: seq<Byte>)
    ensures Bytes(Characters(data)) == data
  {
  }

  function OnFields(names: Names, t: Transfer, verb: Verb, fields: seq<Field>, excess: Data): Outcome {
    var length := ContentLength(names, fields);
    if Lookup(fields, names.location).Some? && length.None? then Throws
    else if Lookup(fields, names.location).Some? && length == Some(0) then Redirected
    else if !IsPartial(names, fields) then Ignored
    else if length.None? then
      if verb == HeadVerb then Throws
      else Taken(t.BadLength(ContentRange.ParseContentRange(Lookup(fields, names.range).value, t.status.unit)))
    else if verb == HeadVerb then Taken(t.OnHead(length.value, AcceptsRanges(names, fields)))
    else Taken(t.OnReply(ContentRange.ParseContentRange(Lookup(fields, names.range).value, t.status.unit), length.value, excess))
  }

  /** Characters in memory. */
  type Input = s: string | |s| < LIMIT

  /** What is found in everything read so far: the header block up to the first empty line, and bytes after it. */
  datatype Parsed = NoBlankLine | Head(response: Response, excess: Data)

  function Parse(received: Input): Parsed {
    match Text.Find(received, BLANK)
    case None => NoBlankLine
    case Some(at) => Parsed.Head(ParseResponse(received[..at + 4]), Bytes(received[at + 4..]))
  }

  function OnParsed(names: Names, t: Transfer, verb: Verb, parsed: Parsed): Outcome {
    match parsed
    case Head(Response(_, _, fields), excess) => OnFields(names, t, verb, fields, excess)
    case Head(_, _) => Unreadable
    case NoBlankLine => Ignored
  }

  function Receive(names: Names, t: Transfer, verb: Verb, received: Input): Outcome {
    OnParsed(names, t, verb, Parse(received))
  }

  /** With the names of the protocol. */
  function ReceiveHttp(t: Transfer, verb: Verb, received: Input): Outcome {
    Receive(HTTP, t, verb, received)
  }

  predicate Took(before: Transfer, after: Transfer, taken: bool, outcome: Outcome) {
    if taken then outcome == Taken(after) else !outcome.Taken? && after == before
  }

  /** The reply handler: what it takes is a step of the client, anything else leaves the client alone. */
  method OnReceived(client: FileTransferClient, verb: Verb, received: Input) returns (taken: bool)
    modifies client, client.destination
    ensures Took(old(client.View()), client.View(), taken, ReceiveHttp(old(client.View()), verb, received))
  {
    taken := OnHeader(HTTP, client, verb, Parse(received));
  }

  method OnHeader(names: Names, client: FileTransferClient, verb: Verb, parsed: Parsed) returns (taken: bool)
    modifies client, client.destination
    ensures Took(old(client.View()), client.View(), taken, OnParsed(names, old(client.View()), verb, parsed))
  {
    if parsed.NoBlankLine? || !parsed.response.Response? {
      return false;
    }
    taken := TakeFields(names, client, verb, parsed.response.headers, parsed.excess);
  }

  method TakeFields(names: Names, client: FileTransferClient, verb: Verb, fields: seq<Field>, excess: Data) returns (taken: bool)
    modifies client, client.destination
    ensures Took(old(client.View()), client.View(), taken, OnFields(names, old(client.View()), verb, fields, excess))
  {
    var length := ContentLength(names, fields);
    if Lookup(fields, names.location).Some? && (length.None? || length.value == 0) {
      return false;
    }
    if !IsPartial(names, fields) || (length.None? && verb == HeadVerb) {
      return false;
    }
    if length.None? {
      client.OnUnmeasuredResponse(Lookup(fields, names.range).value);
    } else if verb == HeadVerb {
      client.OnHeadResponse(length.value, AcceptsRanges(names, fields));
    } else {
      client.OnServerResponse(Lookup(fields, names.range).value, length.value, excess);
    }
    return true;
  }

  // ---------------------------------------------------------------------------------------
  // Honest replies in full
  // ---------------------------------------------------------------------------------------

  datatype Reply = Reply(version: string, status: string, fields: seq<Field>)
  {
    function Printed(): string {
      Block("HTTP/" + version + " " + status, fields)
    }

    /** What may be printed and read back. */
    predicate Printable() {
      && Clean(version) && Clean(status) && ' ' !in version && CleanFields(fields)
      && forall f | f in fields :: ':' !in f.name && (f.value == [] || f.value[0] != ' ')
    }

    predicate Announces(names: Names, length: nat, range: string) {
      Printable() && Only(fields, names.length, Print(length)) && Only(fields, names.range, range)
    }
  }

  lemma ReceivePrinted(names: Names, t: Transfer, verb: Verb, reply: Reply, excess: seq<Byte>)
    requires reply.Printable() && |reply.Printed() + Characters(excess)| < LIMIT
    ensures Receive(names, t, verb, reply.Printed() + Characters(excess)) ==
            OnFields(names, t, verb, reply.fields, excess)
  {
    PrintedParses(reply, excess);
  }

  lemma PrintedParses(reply: Reply, excess: seq<Byte>)
    requires reply.Printable() && |reply.Printed() + Characters(excess)| < LIMIT
    ensures Parse(reply.Printed() + Characters(excess)) ==
            Parsed.Head(Response(reply.version, reply.status, reply.fields), excess)
  {
    var block := reply.Printed();
    var received := block + Characters(excess);
    BlockAgreement(reply.version, reply.status, reply.fields, Characters(excess));
    assert received[..|block|] == block && received[|block|..] == Characters(excess);
    BytesBack(excess);
  }

  lemma FieldsAnnounced(names: Names, t: Transfer, verb: Verb, fields: seq<Field>, length: nat, range: string, excess: Data)
    requires Only(fields, names.length, Print(length)) && Only(fields, names.range, range) && 1 <= length < LIMIT
    ensures OnFields(names, t, verb, fields, excess) ==
            Taken(if verb == HeadVerb then t.OnHead(length, AcceptsRanges(names, fields))
                  else t.OnReply(ContentRange.ParseContentRange(range, t.status.unit), length, excess))
  {
    LookupOnly(fields, names.length, Print(length));
    LookupOnly(fields, names.range, range);
    StoullOfPrint(length, []);
    assert Print(length) + [] == Print(length);
    assert ContentLength(names, fields) == Some(length);
  }

  /** Any other fields may stand around the two that announce the content. */
  lemma ReceiveAnnounced(names: Names, t: Transfer, verb: Verb, reply: Reply, length: nat, range: string, excess: seq<Byte>)
    requires reply.Announces(names, length, range) && 1 <= length < LIMIT
    requires |reply.Printed() + Characters(excess)| < LIMIT
    ensures Receive(names, t, verb, reply.Printed() + Characters(excess)) ==
            Taken(if verb == HeadVerb then t.OnHead(length, AcceptsRanges(names, reply.fields))
                  else t.OnReply(ContentRange.ParseContentRange(range, t.status.unit), length, excess))
  {
    ReceivePrinted(names, t, verb, reply, excess);
    FieldsAnnounced(names, t, verb, reply.fields, length, range, excess);
  }

  /** The text announces `length` bytes, and these numbers to a client that reckons in `unit`. */
  ghost predicate Offer(names: Names, head: string, unit: string, length: nat, numbers: ContentRange.Numbers) {
    exists reply: Reply, range: string ::
      head == reply.Printed() && reply.Announces(names, length, range) && ContentRange.ParseContentRange(range, unit) == numbers
  }

  /** A reply with the standard form of the field does: unit, first and last position, size. */
  lemma StandardOffer(names: Names, reply: Reply, unit: string, start: nat, end: nat, total: nat)
    requires start <= end < total < LIMIT
    requires reply.Announces(names, end - start + 1, ContentRange.ContentRangeHeader(unit, start, end, total))
    ensures Offer(names, reply.Printed(), unit, end - start + 1, ContentRange.Numbers(Some(start), Some(end), Some(total)))
  {
    ContentRange.ContentRangeRoundTrip(unit, start, end, total);
  }

  /** What an offer and the bytes that come with it make of the transfer. */
  lemma ReceiveOffer(names: Names, t: Transfer, head: string, length: Size, numbers: ContentRange.Numbers, excess: seq<Byte>)
    requires Offer(names, head, t.status.unit, length, numbers) && length >= 1 && ContentRange.InRange(numbers)
    requires |head| + |excess| < LIMIT
    ensures Receive(names, t, GetVerb, head + Characters(excess)) == Taken(t.OnReply(numbers, length, excess))
  {
    var reply: Reply, range: string :|
      head == reply.Printed() && reply.Announces(names, length, range) && ContentRange.ParseContentRange(range, t.status.unit) == numbers;
    ReceiveNumbers(names, t, reply, length, range, numbers, excess);
  }

  lemma ReceiveNumbers(names: Names, t: Transfer, reply: Reply, length: Size, range: string, numbers: ContentRange.Numbers, excess: seq<Byte>)
    requires reply.Announces(names, length, range) && length >= 1 && ContentRange.ParseContentRange(range, t.status.unit) == numbers
    requires |reply.Printed() + Characters(excess)| < LIMIT
    ensures Receive(names, t, GetVerb, reply.Printed() + Characters(excess)) == Taken(t.OnReply(numbers, length, excess))
  {
    ReceiveAnnounced(names, t, GetVerb, reply, length, range, excess);
  }

  // ---------------------------------------------------------------------------------------
  // The protocol's own names
  // ---------------------------------------------------------------------------------------

  /** The same character, or the other case of the same ASCII letter. */
  predicate AlikeChar(c: char, d: char) {
    c == d || ('A' <= c <= 'Z' && d as int == c as int + 32) || ('A' <= d <= 'Z' && c as int == d as int + 32)
  }

  predicate Alike(a: string, b: string) {
    |a| == |b| && forall i | 0 <= i < |a| :: AlikeChar(a[i], b[i])
  }

  /** Names are the same to a look-up exactly when they are alike up to the case of letters. */
  lemma SameIsAlike(a: string, b: string)
    ensures Same(a, b) <==> Alike(a, b)
  {
    if |a| == |b| {
      forall i | 0 <= i < |a| ensures Lower(a[i]) == Lower(b[i]) <==> AlikeChar(a[i], b[i]) {
        LowerAlike(a[i], b[i]);
      }
    }
  }

  lemma LowerAlike(c: char, d: char)
    ensures Lower(c) == Lower(d) <==> AlikeChar(c, d)
  {
  }

  /** The field is there, in any case, and says the same wherever it is. */
  predicate Carries(fields: seq<Field>, name: string, value: string) {
    && (exists f | f in fields :: Alike(f.name, name))
    && (forall f | f in fields && Alike(f.name, name) :: f.value == value)
  }

  predicate Lacks(fields: seq<Field>, name: string) {
    forall f | f in fields :: !Alike(f.name, name)
  }

  lemma CarriesOnly(fields: seq<Field>, name: string, value: string)
    requires Carries(fields, name, value)
    ensures Only(fields, name, value) && Lookup(fields, name) == Some(value)
  {
    forall f: Field {
      SameIsAlike(f.name, name);
    }
    LookupOnly(fields, name, value);
  }

  lemma {:induction false} LacksNone(fields: seq<Field>, name: string)
    requires Lacks(fields, name)
    ensures Lookup(fields, name) == None
  {
    if fields != [] {
      SameIsAlike(fields[0].name, name);
      LacksNone(fields[1..], name);
    }
  }

  lemma NamesAre()
    ensures HTTP.length == "Content-Length" && HTTP.range == "Content-Range" && HTTP.location == "Location"
    ensures HTTP.accepts == "Accept-Ranges" && HTTP.bytes == "bytes" && HTTP.none == "none"
  {
  }

  /** One line of a printed reply, among others. */
  lemma LineAmongLines(before: seq<Field>, name: string, value: string, after: seq<Field>)
    ensures Lines(before + [Field(name, value)] + after) ==
            Lines(before) + (name + ": " + value + "\r\n") + Lines(after)
  {
    var f := Field(name, value);
    LinesSnoc(before, f);
    LinesOfBoth(before + [f], after);
  }

  lemma {:induction false} LinesOfBoth(a: seq<Field>, b: seq<Field>)
    ensures Lines(a + b) == Lines(a) + Lines(b)
  {
    if a == [] {
      assert a + b == b;
    } else {
      assert (a + b)[1..] == a[1..] + b;
      LinesOfBoth(a[1..], b);
      Sequences.Associative(FieldLine(a[0]) + CRLF, Lines(a[1..]), Lines(b));
    }
  }

  /** The text of a reply: its status line, a line for each field, an empty line, and what follows. */
  function ReplyText(reply: Reply, excess: seq<Byte>): string {
    "HTTP/" + reply.version + " " + reply.status + "\r\n" + Lines(reply.fields) + "\r\n" + Characters(excess)
  }

  lemma ReplyIsText(reply: Reply, excess: seq<Byte>)
    ensures reply.Printed() + Characters(excess) == ReplyText(reply, excess)
  {
  }

  /** The unit a reply announces: what its field says, unless that is none. */
  lemma UnitAnnounced(fields: seq<Field>, unit: string)
    ensures Lacks(fields, "Accept-Ranges") ==> AcceptsRanges(HTTP, fields) == "bytes"
    ensures Carries(fields, "Accept-Ranges", unit) ==> AcceptsRanges(HTTP, fields) == if unit == "none" then "bytes" else unit
  {
    NamesAre();
    if Lacks(fields, "Accept-Ranges") {
      LacksNone(fields, "Accept-Ranges");
    }
    if Carries(fields, "Accept-Ranges", unit) {
      CarriesOnly(fields, "Accept-Ranges", unit);
    }
  }

  /**
   * Whatever state the client is in: a reply to HEAD with a Content-Length and a Content-Range, in any
   * case and among any other fields, is taken as the announcement of that many bytes.
   */
  lemma HeadReplyTaken(t: Transfer, reply: Reply, n: nat, range: string, unit: string, excess: seq<Byte>)
    requires reply.Printable() && |ReplyText(reply, excess)| < LIMIT
    requires 1 <= n < LIMIT && Carries(reply.fields, "Content-Length", Print(n)) && Carries(reply.fields, "Content-Range", range)
    ensures Lacks(reply.fields, "Accept-Ranges") ==>
              ReceiveHttp(t, HeadVerb, ReplyText(reply, excess)) == Taken(t.OnHead(n, "bytes"))
    ensures Carries(reply.fields, "Accept-Ranges", unit) && unit != "none" ==>
              ReceiveHttp(t, HeadVerb, ReplyText(reply, excess)) == Taken(t.OnHead(n, unit))
  {
    AnnouncedByName(reply, n, range);
    ReplyIsText(reply, excess);
    ReceiveAnnounced(HTTP, t, HeadVerb, reply, n, range, excess);
    UnitAnnounced(reply.fields, unit);
  }

  /** And a reply to GET as that many bytes of that range, the first of them behind the reply.fields. */
  lemma GetReplyTaken(t: Transfer, reply: Reply, n: nat, range: string, excess: seq<Byte>)
    requires reply.Printable() && |ReplyText(reply, excess)| < LIMIT
    requires 1 <= n < LIMIT && Carries(reply.fields, "Content-Length", Print(n)) && Carries(reply.fields, "Content-Range", range)
    ensures ReceiveHttp(t, GetVerb, ReplyText(reply, excess)) ==
            Taken(t.OnReply(ContentRange.ParseContentRange(range, t.status.unit), n, excess))
  {
    AnnouncedByName(reply, n, range);
    ReplyIsText(reply, excess);
    ReceiveAnnounced(HTTP, t, GetVerb, reply, n, range, excess);
  }

  lemma AnnouncedByName(reply: Reply, n: nat, range: string)
    requires reply.Printable()
    requires Carries(reply.fields, "Content-Length", Print(n)) && Carries(reply.fields, "Content-Range", range)
    ensures reply.Announces(HTTP, n, range)
  {
    NamesAre();
    CarriesOnly(reply.fields, "Content-Length", Print(n));
    CarriesOnly(reply.fields, "Content-Range", range);
  }

  /** A reply with a location and no content is a redirect; without both of the other fields it is ignored. */
  lemma OtherReplies(t: Transfer, verb: Verb, fields: seq<Field>, location: string, excess: Data)
    ensures Carries(fields, "Location", location) && (Lacks(fields, "Content-Length") || Carries(fields, "Content-Length", "0")) ==>
              OnFields(HTTP, t, verb, fields, excess) == Redirected
    ensures Lacks(fields, "Location") && (Lacks(fields, "Content-Length") || Lacks(fields, "Content-Range")) ==>
              OnFields(HTTP, t, verb, fields, excess) == Ignored
  {
    NamesAre();
    if Carries(fields, "Location", location) {
      CarriesOnly(fields, "Location", location);
    }
    if Carries(fields, "Content-Length", "0") {
      CarriesOnly(fields, "Content-Length", "0");
      ZeroReads();
    }
    if Lacks(fields, "Location") {
      LacksNone(fields, "Location");
    }
    if Lacks(fields, "Content-Length") {
      LacksNone(fields, "Content-Length");
    }
    if Lacks(fields, "Content-Range") {
      LacksNone(fields, "Content-Range");
    }
  }

  /** A text whose first line has no space is unreadable once its empty line has come, and before that ignored. */
  lemma UnreadableText(t: Transfer, verb: Verb, line: string, excess: seq<Byte>)
    requires Clean(line) && ' ' !in line && |line| + |excess| + 4 < LIMIT
    ensures ReceiveHttp(t, verb, Block(line, []) + Characters(excess)) == Unreadable
    ensures ReceiveHttp(t, verb, line) == Ignored
  {
    var block := Block(line, []);
    var received := block + Characters(excess);
    SearchFindsEnd(line, [], Characters(excess));
    assert received[..|block|] == block;
    assert block == line + [CR] + [LF] + CRLF;
    LineSplits(line + [CR], CRLF);
    BlankHasCr(line);
  }

  lemma BlankHasCr(text: string)
    ensures Text.Find(text, BLANK).Some? ==> CR in text
  {
    if Text.Find(text, BLANK).Some? {
      var at := Text.Find(text, BLANK).value;
      assert text[at..at + |BLANK|][0] == text[at];
    }
  }

  lemma ZeroReads()
    ensures Stoull("0") == Some(0)
  {
    StoullOfPrint(0, []);
    assert Print(0) + [] == "0";
  }
}
