/** The Content-Range header of a reply (RFC 9110, section 14.4). */
module ContentRange {
  import opened Wrappers
  import opened Decimal
  import Text

  function ContentRangeHeader(unit: string, start: nat, end: nat, total: nat): string {
    unit + " " + Print(start) + "-" + Print(end) + "/" + Print(total)
  }

  /** The three numbers, each None where its conversion throws. */
  datatype Numbers = NoUnit | Numbers(start: Option<nat>, end: Option<nat>, total: Option<nat>)

  predicate InRange(n: Numbers) {
    n.Numbers? ==>
      && (n.start.Some? ==> n.start.value < LIMIT)
      && (n.end.Some? ==> n.end.value < LIMIT)
      && (n.total.Some? ==> n.total.value < LIMIT)
  }

  /** substr(find(c) + 1): what follows the first c, or everything when there is none. */
  function AfterFirst(s: string, c: char): string {
    if Text.IndexOf(s, c) < |s| then s[Text.IndexOf(s, c) + 1..] else s
  }

  function ParseNumbers(captured: string): Numbers {
    var range := captured[..Text.IndexOf(captured, '/')];
    Numbers(Stoull(range[..Text.IndexOf(range, '-')]), Stoull(AfterFirst(range, '-')), Stoull(AfterFirst(captured, '/')))
  }

  /** The unit is cut out, then the rest is taken apart at the slash and the dash. */
  function ParseContentRange(header: string, unit: string): (n: Numbers)
    ensures InRange(n)
  {
    match Text.Find(header, unit)
    case None => NoUnit
    case Some(at) => ParseNumbers(header[..at] + header[at + |unit|..])
  }

  lemma SplitAt(before: string, c: char, rest: string)
    requires c !in before
    ensures var s := before + [c] + rest;
            s[..Text.IndexOf(s, c)] == before && AfterFirst(s, c) == rest
  {
    Text.IndexOfSplit(before, c, rest);
  }

  lemma NumbersReadBack(start: nat, end: nat, total: nat)
    requires start < LIMIT && end < LIMIT && total < LIMIT
    ensures ParseNumbers([' '] + Print(start) + ['-'] + Print(end) + ['/'] + Print(total)) ==
            Numbers(Some(start), Some(end), Some(total))
  {
    var first := [' '] + Print(start);
    var range := first + ['-'] + Print(end);
    assert forall c | c in range :: c == ' ' || c == '-' || IsDigit(c);
    SplitAt(range, '/', Print(total));
    assert forall c | c in first :: c == ' ' || IsDigit(c);
    SplitAt(first, '-', Print(end));
    assert first == [' '] + (Print(start) + []) && Print(end) == Print(end) + [] && Print(total) == Print(total) + [];
    StoullOfPrint(start, []);
    StoullOfPrint(end, []);
    StoullOfPrint(total, []);
  }

  /** A well-formed Content-Range is read back, in any unit. */
  lemma ContentRangeRoundTrip(unit: string, start: nat, end: nat, total: nat)
    requires start < LIMIT && end < LIMIT && total < LIMIT
    ensures ParseContentRange(ContentRangeHeader(unit, start, end, total), unit) == Numbers(Some(start), Some(end), Some(total))
  {
    var captured := [' '] + Print(start) + ['-'] + Print(end) + ['/'] + Print(total);
    var header := ContentRangeHeader(unit, start, end, total);
    assert header == unit + captured;
    assert header[..0] + header[0 + |unit|..] == captured;
    NumbersReadBack(start, end, total);
  }
}
