/** Downloads of a file from a server that answers honestly, over every way it may answer. */
module RangeRuns {
  import Wrappers
  import Division
  import opened Decimal
  import ContentRange
  import opened RangeDownload

  /**
   * How the server answers one request: up to and including which byte, and how many of those
   * bytes arrive together with the header.
   */
  datatype Serve = Serve(end: nat, excess: nat)

  /** It answers from the requested start, perhaps short, with bytes of the file. */
  predicate Honest(file: seq<Byte>, r: Request, s: Serve) {
    r.start <= s.end <= r.end && s.end < |file| && s.excess <= s.end - r.start + 1
  }

  /** The whole reply arrived with its header. */
  predicate AllWithHeader(r: Request, s: Serve) {
    s.excess == s.end - r.start + 1
  }

  function Replied(t: Transfer, file: seq<Byte>, s: Serve): Transfer
    requires |file| < LIMIT && Honest(file, t.request, s)
  {
    var start := t.request.start;
    t.OnReply(ContentRange.Numbers(Wrappers.Some(start), Wrappers.Some(s.end), Wrappers.Some(|file|)), s.end - start + 1, file[start..start + s.excess])
  }

  /** One request answered, header and body. */
  function Round(t: Transfer, file: seq<Byte>, s: Serve): Transfer
    requires |file| < LIMIT && Honest(file, t.request, s)
  {
    var replied := Replied(t, file, s);
    if replied.pending.Body? then replied.OnBody(file[t.request.start + s.excess..s.end + 1]) else replied
  }

  // ---------------------------------------------------------------------------------------
  // The arithmetic of requests
  // ---------------------------------------------------------------------------------------

  predicate InFile(r: Request, total: nat) {
    r.start <= r.end < total
  }

  /** The first request asks for bytes of the file iff there are any and the sink takes any. */
  lemma FirstRequestExactly(t: Transfer, length: Size, unit: string)
    ensures InFile(t.OnHead(length, unit).request, length) <==> length >= 1 && t.bufferSize >= 1
  {
  }

  /** The last byte asked for from `start` on: a whole chunk, unless at most one byte more than that is left. */
  function NextEnd(chunk: nat, start: nat, total: nat): int {
    if chunk + start < total - 1 then start + chunk - 1 else total - 1
  }

  /** A next request asks for bytes of the file iff chunk size plus offset does not overflow 64 bits. */
  lemma NextRequestExactly(t: Transfer, bytes: Size)
    requires 1 <= t.chunkSize && t.status.end + 1 < t.status.total
    ensures InFile(t.NextRequest(bytes), t.status.total) <==> t.chunkSize + t.status.end + 1 < LIMIT
    ensures t.chunkSize + t.status.end + 1 < LIMIT ==>
              var r := t.NextRequest(bytes);
              && r.start == t.status.end + 1
              && r.end == NextEnd(t.chunkSize, r.start, t.status.total)
              && r.end - r.start + 1 <= t.chunkSize + 1
  {
  }

  /**
   * n replies, the last of `last` bytes and none longer than `chunk` or than the one before it, can
   * end short of the file so far up that adding `last` once more overflows.
   */
  predicate Tips(total: nat, chunk: nat, n: nat, last: nat) {
    && 1 <= n && 1 <= last <= chunk
    && n * last < total && last + total > LIMIT && (n - 1) * chunk + 2 * last >= LIMIT
  }

  /** Downloads whose every request lies in the file: AddressableExactly. */
  ghost predicate Addressable(file: seq<Byte>, bufferSize: nat) {
    1 <= |file| < LIMIT && bufferSize >= 1 && !exists n: nat, last: nat :: Tips(|file|, Min(bufferSize, |file|), n, last)
  }

  /** A file whose size fits in 64 bits together with one chunk is addressable. */
  lemma SmallIsAddressable(file: seq<Byte>, bufferSize: nat)
    requires 1 <= |file| && bufferSize >= 1 && |file| + Min(bufferSize, |file|) <= LIMIT
    ensures Addressable(file, bufferSize)
  {
  }

  // ---------------------------------------------------------------------------------------
  // One round
  // ---------------------------------------------------------------------------------------

  /** The offsets that n replies can reach, the last of `last` bytes, none longer than `chunk` or the one before. */
  predicate Spans(n: nat, last: nat, chunk: nat, offset: nat) {
    1 <= n && 1 <= last <= chunk && n * last <= offset <= (n - 1) * chunk + last
  }

  ghost predicate Reachable(last: nat, chunk: nat, offset: nat) {
    exists n: nat :: Spans(n, last, chunk, offset)
  }

  lemma ReachableDoesNotTip(last: nat, chunk: nat, offset: nat, total: nat)
    requires Reachable(last, chunk, offset) && offset < total
    requires !exists n: nat, last: nat :: Tips(total, chunk, n, last)
    ensures last + offset < LIMIT
  {
    var n: nat :| Spans(n, last, chunk, offset);
    assert !Tips(total, chunk, n, last);
  }

  /** One more reply, not longer than the last. */
  lemma ReachableGoesOn(last: nat, chunk: nat, offset: nat, next: nat)
    requires Reachable(last, chunk, offset) && 1 <= next <= last
    ensures Reachable(next, chunk, offset + next)
  {
    var n: nat :| Spans(n, last, chunk, offset);
    OneMore(n, last, chunk, next);
    assert Spans(n + 1, next, chunk, offset + next);
  }

  lemma OneMore(n: nat, last: nat, chunk: nat, next: nat)
    requires 1 <= n && next <= last <= chunk
    ensures (n + 1) * next <= n * last + next && (n - 1) * chunk + last <= n * chunk
  {
    assert (n + 1) * next == n * next + next;
    Scales(n, next, last);
    assert (n - 1) * chunk + chunk == n * chunk;
  }

  lemma Scales(n: nat, a: nat, b: nat)
    requires a <= b
    ensures n * a <= n * b
  {
  }

  lemma FirstReachable(last: nat, chunk: nat)
    requires 1 <= last <= chunk
    ensures Reachable(last, chunk, last)
  {
    assert Spans(1, last, chunk, last);
  }

  /** Waiting for the reply to a request for what comes after the bytes of the file in the sink. */
  ghost predicate Following(t: Transfer, file: seq<Byte>, prior: seq<Byte>) {
    var pos := t.request.start;
    && t.pending == Reply && pos <= |file| < LIMIT && (pos == |file| ==> pos == 0)
    && t.sink.content == prior + file[..pos] && t.sink.started
    && t.status.current == pos && t.status.total == |file| && !t.status.complete
    && (pos > 0 ==> t.status.end + 1 == pos)
  }

  lemma ReplyEffect(t: Transfer, file: seq<Byte>, prior: seq<Byte>, s: Serve)
    requires Following(t, file, prior) && Honest(file, t.request, s)
    ensures var start := t.request.start;
            var length := s.end - start + 1;
            var got := t.(status := t.status.(start := start, end := s.end, current := s.end + 1),
                          chunkSize := length,
                          sink := t.sink.Written(file[start..start + s.excess]));
            Replied(t, file, s) == got.ReadPartialContent(length - s.excess)
  {
  }

  /** What a round has put into the sink. */
  lemma RoundWrites(t: Transfer, file: seq<Byte>, prior: seq<Byte>, s: Serve)
    requires Following(t, file, prior) && Honest(file, t.request, s)
    ensures Round(t, file, s).sink.content == prior + file[..s.end + 1]
    ensures Round(t, file, s).status.current == s.end + 1 && Round(t, file, s).status.end == s.end
    ensures Replied(t, file, s).pending.Body? ==> |file[t.request.start + s.excess..s.end + 1]| == Replied(t, file, s).pending.bytes
  {
    ReplyEffect(t, file, prior, s);
    var start := t.request.start;
    TwoWrites(prior, file, start, start + s.excess, s.end + 1);
  }

  lemma TwoWrites(prior: seq<Byte>, file: seq<Byte>, a: nat, b: nat, c: nat)
    requires a <= b <= c <= |file|
    ensures prior + file[..a] + file[a..b] == prior + file[..b]
    ensures prior + file[..b] + file[b..c] == prior + file[..c]
    ensures b == c ==> prior + file[..b] == prior + file[..c]
  {
    assert file[..a] + file[a..b] == file[..b] && file[..b] + file[b..c] == file[..c];
  }

  /** When a round ends the download, and what the next request is when it does not. */
  lemma RoundGoesOn(t: Transfer, file: seq<Byte>, prior: seq<Byte>, s: Serve)
    requires Following(t, file, prior) && Honest(file, t.request, s)
    ensures var after := Round(t, file, s);
            var ends := AllWithHeader(t.request, s) || s.end + 1 == |file|;
            && (ends ==> after.pending == Ended && after.status.complete && after.requests == t.requests)
            && (!ends ==> Following(after, file, prior) && after.request.start == s.end + 1)
            && (!ends ==> after.requests == t.requests + [after.request] && after.chunkSize == s.end - t.request.start + 1)
            && (!ends ==> after.request == after.NextRequest(after.request.size))
            && after.sink.notices == t.sink.notices + [if ends then Completed else Updated(s.end + 1, |file|)]
            && after.bufferSize == t.bufferSize
  {
    ReplyEffect(t, file, prior, s);
    RoundWrites(t, file, prior, s);
  }

  // ---------------------------------------------------------------------------------------
  // One round of an addressable download
  // ---------------------------------------------------------------------------------------

  /** How much is asked for: a chunk, or the rest of the file if that is at most one byte more. */
  ghost predicate Sized(t: Transfer, file: seq<Byte>) {
    var chunk, pos := Min(t.bufferSize, |file|), t.request.start;
    var size := if pos == 0 then chunk else t.chunkSize;
    && Addressable(file, t.bufferSize)
    && InFile(t.request, |file|) && t.request.end - pos + 1 <= size + 1
    && (t.request.end - pos + 1 <= size || (t.request.end + 1 == |file| && pos > 0))
    && (if pos == 0 then t.request.end + 1 == chunk else 1 <= size <= chunk && Reachable(size, chunk, pos))
  }

  lemma RoundStaysSized(t: Transfer, file: seq<Byte>, prior: seq<Byte>, s: Serve)
    requires Following(t, file, prior) && Sized(t, file) && Honest(file, t.request, s)
    requires !AllWithHeader(t.request, s) && s.end + 1 < |file|
    ensures var after := Round(t, file, s);
            Sized(after, file) && after.request.end == NextEnd(after.chunkSize, after.request.start, |file|)
  {
    RoundGoesOn(t, file, prior, s);
    NextReachable(t, file, s);
    var after := Round(t, file, s);
    NextRequestExactly(after, after.request.size);
  }

  /** A reply short of the end of the file leaves an offset from which the next chunk does not overflow. */
  lemma NextReachable(t: Transfer, file: seq<Byte>, s: Serve)
    requires Sized(t, file) && Honest(file, t.request, s) && s.end + 1 < |file|
    ensures var length, chunk := s.end - t.request.start + 1, Min(t.bufferSize, |file|);
            1 <= length <= chunk && Reachable(length, chunk, s.end + 1) && length + s.end + 1 < LIMIT
  {
    var length, chunk := s.end - t.request.start + 1, Min(t.bufferSize, |file|);
    if t.request.start == 0 {
      FirstReachable(length, chunk);
    } else {
      ReachableGoesOn(t.chunkSize, chunk, t.request.start, length);
    }
    ReachableDoesNotTip(length, chunk, s.end + 1, |file|);
  }

  // ---------------------------------------------------------------------------------------
  // Every download
  // ---------------------------------------------------------------------------------------

  /** What is downloaded, in which unit and chunks, and what the file to write already holds. */
  datatype Download = Download(file: Data, unit: string, bufferSize: Size, prior: seq<Byte>) {

    function Begin(): Transfer {
      Opened(bufferSize, Sink(prior, false, [])).OnHead(|file|, unit)
    }

    ghost predicate ServedBy(serves: seq<Serve>) {
      IsServed(Begin(), file, serves)
    }

    function After(serves: seq<Serve>): Transfer
      requires ServedBy(serves)
    {
      Run(Begin(), file, serves)
    }
  }

  /** The replies of an honest server, one for each request made. */
  ghost predicate IsServed(t: Transfer, file: seq<Byte>, serves: seq<Serve>)
    requires |file| < LIMIT
    decreases |serves|
  {
    serves != [] ==>
      && t.pending == Reply && Honest(file, t.request, serves[0])
      && IsServed(Round(t, file, serves[0]), file, serves[1..])
  }

  function Run(t: Transfer, file: seq<Byte>, serves: seq<Serve>): Transfer
    requires |file| < LIMIT && IsServed(t, file, serves)
    decreases |serves|
  {
    if serves == [] then t else Run(Round(t, file, serves[0]), file, serves[1..])
  }

  lemma ServedFirst(t: Transfer, file: seq<Byte>, serves: seq<Serve>)
    requires |file| < LIMIT && IsServed(t, file, serves) && serves != []
    ensures t.pending == Reply && Honest(file, t.request, serves[0])
    ensures IsServed(Round(t, file, serves[0]), file, serves[1..])
    ensures Run(t, file, serves) == Run(Round(t, file, serves[0]), file, serves[1..])
  {
  }

  lemma ServedOne(t: Transfer, file: seq<Byte>, s: Serve)
    requires |file| < LIMIT && t.pending == Reply && Honest(file, t.request, s)
    ensures IsServed(t, file, [s]) && Run(t, file, [s]) == Round(t, file, s)
  {
    var after := Round(t, file, s);
    assert [s][1..] == [];
    assert IsServed(after, file, []) && Run(after, file, []) == after;
  }

  lemma ServedCons(t: Transfer, file: seq<Byte>, s: Serve, rest: seq<Serve>)
    requires |file| < LIMIT && t.pending == Reply && Honest(file, t.request, s) && IsServed(Round(t, file, s), file, rest)
    ensures IsServed(t, file, [s] + rest) && Run(t, file, [s] + rest) == Run(Round(t, file, s), file, rest)
  {
    var all := [s] + rest;
    assert all[0] == s && all[1..] == rest;
  }

  /** One more reply at the end of a run. */
  lemma {:induction false} ServedSnoc(t: Transfer, file: seq<Byte>, serves: seq<Serve>, s: Serve)
    requires |file| < LIMIT && IsServed(t, file, serves)
    requires Run(t, file, serves).pending == Reply && Honest(file, Run(t, file, serves).request, s)
    ensures IsServed(t, file, serves + [s]) && Run(t, file, serves + [s]) == Round(Run(t, file, serves), file, s)
    decreases |serves|
  {
    if serves == [] {
      assert serves + [s] == [s];
      ServedOne(t, file, s);
    } else {
      var first, rest := serves[0], serves[1..];
      ServedSnoc(Round(t, file, first), file, rest, s);
      ServedCons(t, file, first, rest + [s]);
      assert serves + [s] == [first] + (rest + [s]);
    }
  }

  /** What survives every honestly answered request holds after every run, over the replies so far. */
  lemma {:induction false} RunInvariant(inv: (Transfer, seq<Serve>) -> bool, t: Transfer, file: seq<Byte>, before: seq<Serve>, serves: seq<Serve>)
    requires |file| < LIMIT && inv(t, before) && IsServed(t, file, serves) && Keeps(inv, file)
    ensures inv(Run(t, file, serves), before + serves)
    decreases |serves|
  {
    if serves == [] {
      assert before + serves == before;
    } else {
      var s, rest := serves[0], serves[1..];
      ServedFirst(t, file, serves);
      KeepsAt(inv, t, file, before, s);
      RunInvariant(inv, Round(t, file, s), file, before + [s], rest);
      assert before + [s] + rest == before + serves;
    }
  }

  ghost predicate Keeps(inv: (Transfer, seq<Serve>) -> bool, file: seq<Byte>)
    requires |file| < LIMIT
  {
    forall u, done, s {:trigger inv(Round(u, file, s), done + [s])} |
      inv(u, done) && u.pending == Reply && Honest(file, u.request, s) :: inv(Round(u, file, s), done + [s])
  }

  lemma KeepsAt(inv: (Transfer, seq<Serve>) -> bool, u: Transfer, file: seq<Byte>, done: seq<Serve>, s: Serve)
    requires |file| < LIMIT && Keeps(inv, file) && inv(u, done) && u.pending == Reply && Honest(file, u.request, s)
    ensures inv(Round(u, file, s), done + [s])
  {
  }

  /** The listener hears one start, the announcement, one update per reply but the last, then completion. */
  function NoticesOf(file: seq<Byte>, serves: seq<Serve>, ended: bool): seq<Notice> {
    [Started, Updated(0, |file|)] +
    seq(|serves|, i requires 0 <= i < |serves| =>
      if ended && i == |serves| - 1 then Completed else Updated(serves[i].end + 1, |file|))
  }

  /** Each request starts where the reply before it ended; the first starts at 0. */
  ghost predicate Contiguous(requests: seq<Request>, serves: seq<Serve>)
    requires |requests| >= |serves|
  {
    && (requests != [] ==> requests[0].start == 0)
    && forall i | 0 < i < |requests| && i <= |serves| :: FollowsOn(requests, serves, i)
  }

  predicate FollowsOn(requests: seq<Request>, serves: seq<Serve>, i: nat)
    requires 0 < i < |requests| && i <= |serves|
  {
    requests[i].start == serves[i - 1].end + 1
  }

  /** The reply is the last the client waits for. */
  predicate Ends(file: seq<Byte>, r: Request, s: Serve) {
    AllWithHeader(r, s) || s.end + 1 == |file|
  }

  /** The requests made, the replies given, and nothing asked after a reply that ended the download. */
  ghost predicate Ledger(file: seq<Byte>, requests: seq<Request>, serves: seq<Serve>) {
    && |serves| <= |requests| <= |serves| + 1 && Contiguous(requests, serves)
    && (forall i | 0 <= i < |serves| :: Honest(file, requests[i], serves[i]))
    && (forall i | 0 <= i < |serves| && i + 1 < |requests| :: !Ends(file, requests[i], serves[i]))
  }

  ghost predicate Position(t: Transfer, file: seq<Byte>, prior: seq<Byte>, serves: seq<Serve>) {
    var n := |serves|;
    && t.status.current <= |file| && t.sink.content == prior + file[..t.status.current]
    && n <= t.status.current == OffsetAt(serves, n)
    && (n > 0 ==> t.status.current == t.status.end + 1)
  }

  ghost predicate Reached(t: Transfer, file: seq<Byte>, prior: seq<Byte>, serves: seq<Serve>) {
    var n := |serves|;
    && Ledger(file, t.requests, serves)
    && Position(t, file, prior, serves)
    && t.sink.notices == NoticesOf(file, serves, t.pending == Ended)
    && (t.pending == Reply || t.pending == Ended)
    && (t.pending == Reply ==> Following(t, file, prior) && |t.requests| == n + 1 && t.request == t.requests[n])
    && (t.pending == Ended ==> n > 0 && |t.requests| == n && t.status.complete && Ends(file, t.requests[n - 1], serves[n - 1]))
  }

  lemma BeginReached(d: Download)
    ensures Reached(d.Begin(), d.file, d.prior, [])
  {
    assert d.prior + d.file[..0] == d.prior;
    assert NoticesOf(d.file, [], false) == [Started, Updated(0, |d.file|)];
  }

  lemma LedgerGrows(file: seq<Byte>, requests: seq<Request>, serves: seq<Serve>, s: Serve, next: seq<Request>)
    requires Ledger(file, requests, serves) && |requests| == |serves| + 1
    requires Honest(file, requests[|serves|], s)
    requires next == [] || (|next| == 1 && !Ends(file, requests[|serves|], s) && next[0].start == s.end + 1)
    ensures Ledger(file, requests + next, serves + [s])
  {
    var all, given := requests + next, serves + [s];
    var n := |serves|;
    assert all[..n + 1] == requests && (next != [] ==> all[n + 1] == next[0]);
    assert forall i | 0 <= i <= n :: all[i] == requests[i];
    assert given[n] == s && forall i | 0 <= i < n :: given[i] == serves[i];
    ContiguousGrows(requests, serves, s, next);
    forall i | 0 <= i < |given| ensures Honest(file, all[i], given[i]) {
      assert i < n ==> Honest(file, requests[i], serves[i]);
    }
    forall i | 0 <= i < |given| && i + 1 < |all| ensures !Ends(file, all[i], given[i]) {
      assert i < n ==> !Ends(file, requests[i], serves[i]);
    }
  }

  lemma ContiguousGrows(requests: seq<Request>, serves: seq<Serve>, s: Serve, next: seq<Request>)
    requires |requests| == |serves| + 1 && Contiguous(requests, serves)
    requires next == [] || (|next| == 1 && next[0].start == s.end + 1)
    ensures Contiguous(requests + next, serves + [s])
  {
    var all, given := requests + next, serves + [s];
    assert all[0] == requests[0];
    forall i | 0 < i < |all| && i <= |given| ensures FollowsOn(all, given, i) {
      assert i < |requests| ==> FollowsOn(requests, serves, i) && all[i] == requests[i] && given[i - 1] == serves[i - 1];
    }
  }

  lemma NoticesGrow(file: seq<Byte>, serves: seq<Serve>, s: Serve, ended: bool)
    ensures NoticesOf(file, serves + [s], ended) ==
            NoticesOf(file, serves, false) + [if ended then Completed else Updated(s.end + 1, |file|)]
  {
  }

  lemma RoundReached(t: Transfer, file: seq<Byte>, prior: seq<Byte>, serves: seq<Serve>, s: Serve)
    requires |file| < LIMIT && Reached(t, file, prior, serves) && t.pending == Reply && Honest(file, t.request, s)
    ensures Reached(Round(t, file, s), file, prior, serves + [s])
  {
    RoundWrites(t, file, prior, s);
    RoundGoesOn(t, file, prior, s);
    var after := Round(t, file, s);
    var next := if Ends(file, t.request, s) then [] else [after.request];
    assert after.requests == t.requests + next;
    LedgerGrows(file, t.requests, serves, s, next);
    NoticesGrow(file, serves, s, after.pending == Ended);
    assert Position(after, file, prior, serves + [s]);
  }

  ghost function ReachedBy(d: Download): (Transfer, seq<Serve>) -> bool {
    (t: Transfer, serves: seq<Serve>) => Reached(t, d.file, d.prior, serves)
  }

  lemma RunReached(d: Download, serves: seq<Serve>)
    requires d.ServedBy(serves)
    ensures Reached(d.After(serves), d.file, d.prior, serves)
  {
    var inv := ReachedBy(d);
    BeginReached(d);
    forall u, done, s | inv(u, done) && u.pending == Reply && Honest(d.file, u.request, s) ensures inv(Round(u, d.file, s), done + [s]) {
      RoundReached(u, d.file, d.prior, done, s);
    }
    RunInvariant(inv, d.Begin(), d.file, [], serves);
    assert [] + serves == serves;
  }

  /** A reply short of the end of the file arrived wholly with its header. */
  ghost predicate Premature(file: seq<Byte>, serves: seq<Serve>) {
    exists i | 0 <= i < |serves| :: PrematureAt(file, serves, i)
  }

  predicate PrematureAt(file: seq<Byte>, serves: seq<Serve>, i: nat)
    requires i < |serves|
  {
    serves[i].excess == serves[i].end + 1 - OffsetAt(serves, i) && serves[i].end + 1 < |file|
  }

  /**
   * Against every honest server, for every file, chunk size and earlier content, the sink gains the
   * bytes before the current offset, the offset is where the last reply ended, and requests follow on
   * the replies. When the download has ended, it has appended the file exactly unless a reply short of
   * its end came whole with its header; that one reply makes the client report completion early. A
   * whole download leaves the file itself exactly if nothing was there before.
   */
  lemma DownloadIsExact(d: Download, serves: seq<Serve>)
    requires d.ServedBy(serves)
    ensures var t := d.After(serves);
            && t.status.current == OffsetAt(serves, |serves|) <= |d.file|
            && t.sink.content == d.prior + d.file[..t.status.current]
            && |serves| <= |d.file| && |serves| <= |t.requests| <= |serves| + 1 && Contiguous(t.requests, serves)
            && (serves != [] ==> t.status.current == t.status.end + 1)
            && (t.pending == Ended <==> serves != [] && Ends(d.file, t.requests[|serves| - 1], serves[|serves| - 1]))
            && (t.pending == Ended ==> (t.status.current == |d.file| <==> !Premature(d.file, serves)))
            && (t.pending == Ended ==> (t.sink.content == d.prior + d.file <==> !Premature(d.file, serves)))
            && (t.pending == Ended && !Premature(d.file, serves) ==> (t.sink.content == d.file <==> d.prior == []))
  {
    RunReached(d, serves);
    var t, n := d.After(serves), |serves|;
    if t.pending == Ended {
      PrematureEnd(d.file, t.requests, serves);
      WholeOnly(d.prior, d.file, t.status.current);
    } else if n > 0 {
      assert !Ends(d.file, t.requests[n - 1], serves[n - 1]);
    }
  }

  lemma WholeOnly(prior: seq<Byte>, file: seq<Byte>, n: nat)
    requires n <= |file|
    ensures prior + file[..n] == prior + file <==> n == |file|
    ensures prior + file == file <==> prior == []
    ensures file[..|file|] == file
  {
    assert |prior + file[..n]| == |prior| + n && |prior + file| == |prior| + |file|;
    assert prior == [] ==> prior + file == file;
  }

  /** Only the last reply of a download that has ended can be premature. */
  lemma PrematureEnd(file: seq<Byte>, requests: seq<Request>, serves: seq<Serve>)
    requires Ledger(file, requests, serves) && serves != [] && |requests| == |serves|
    requires Ends(file, requests[|serves| - 1], serves[|serves| - 1])
    ensures Premature(file, serves) <==> serves[|serves| - 1].end + 1 < |file|
  {
    var n := |serves|;
    LedgerAt(file, requests, serves, n - 1);
    if serves[n - 1].end + 1 < |file| {
      assert PrematureAt(file, serves, n - 1);
    } else {
      forall i | 0 <= i < n - 1 ensures !PrematureAt(file, serves, i) {
        LedgerAt(file, requests, serves, i);
        assert !Ends(file, requests[i], serves[i]);
      }
    }
  }

  /** A short reply that comes whole with its header: two bytes of three are taken for all. */
  lemma PrematureExample(unit: string)
    ensures var d := Download([1, 2, 3], unit, 2, []);
            && d.ServedBy([Serve(1, 2)])
            && var t := d.After([Serve(1, 2)]);
            t.pending == Ended && t.status.complete && t.sink.content == [1, 2]
  {
    var d := Download([1, 2, 3], unit, 2, []);
    OneReply(d, Serve(1, 2));
    assert [] + d.file[..2] == [1, 2];
  }

  /** A first reply that comes whole with its header ends the download. */
  lemma OneReply(d: Download, s: Serve)
    requires Honest(d.file, d.Begin().request, s) && s.excess == s.end + 1
    ensures d.ServedBy([s])
    ensures var t := d.After([s]);
            t.pending == Ended && t.status.complete && t.sink.content == d.prior + d.file[..s.end + 1]
  {
    BeginReached(d);
    RoundWrites(d.Begin(), d.file, d.prior, s);
    RoundGoesOn(d.Begin(), d.file, d.prior, s);
    ServedOne(d.Begin(), d.file, s);
  }

  /** The same image pulled onto a file that is still there: a whole download is not the layer. */
  lemma LeftoverExample(unit: string, prior: seq<Byte>)
    requires prior != []
    ensures var d := Download([1], unit, 1, prior);
            && d.ServedBy([Serve(0, 1)])
            && var t := d.After([Serve(0, 1)]);
            t.pending == Ended && t.status.complete && t.sink.content == prior + [1] != d.file
  {
    var d := Download([1], unit, 1, prior);
    OneReply(d, Serve(0, 1));
    assert d.file[..1] == [1] && |prior + [1]| == |prior| + 1;
  }

  // ---------------------------------------------------------------------------------------
  // Which downloads stay inside the file
  // ---------------------------------------------------------------------------------------

  ghost predicate Bounded(file: seq<Byte>, chunk: nat, requests: seq<Request>) {
    forall r | r in requests :: InFile(r, |file|) && r.end - r.start + 1 <= chunk + 1
  }

  ghost predicate Inside(t: Transfer, file: seq<Byte>, prior: seq<Byte>, serves: seq<Serve>) {
    && Reached(t, file, prior, serves)
    && Bounded(file, Min(t.bufferSize, |file|), t.requests)
    && (t.pending == Reply ==> Sized(t, file))
  }

  lemma BeginInside(d: Download)
    requires Addressable(d.file, d.bufferSize)
    ensures Inside(d.Begin(), d.file, d.prior, [])
  {
    BeginReached(d);
  }

  lemma RoundInside(t: Transfer, file: seq<Byte>, prior: seq<Byte>, serves: seq<Serve>, s: Serve)
    requires |file| < LIMIT && Inside(t, file, prior, serves) && t.pending == Reply && Honest(file, t.request, s)
    ensures Inside(Round(t, file, s), file, prior, serves + [s])
  {
    RoundReached(t, file, prior, serves, s);
    RoundGoesOn(t, file, prior, s);
    if !Ends(file, t.request, s) {
      RoundStaysSized(t, file, prior, s);
    }
  }

  ghost function InsideBy(d: Download): (Transfer, seq<Serve>) -> bool {
    (t: Transfer, serves: seq<Serve>) => Inside(t, d.file, d.prior, serves)
  }

  lemma RunInside(d: Download, serves: seq<Serve>)
    requires Addressable(d.file, d.bufferSize) && d.ServedBy(serves)
    ensures Inside(d.After(serves), d.file, d.prior, serves)
  {
    var inv := InsideBy(d);
    BeginInside(d);
    forall u, done, s | inv(u, done) && u.pending == Reply && Honest(d.file, u.request, s) ensures inv(Round(u, d.file, s), done + [s]) {
      RoundInside(u, d.file, d.prior, done, s);
    }
    RunInvariant(inv, d.Begin(), d.file, [], serves);
    assert [] + serves == serves;
  }

  /** Requests of an addressable download lie in the file, take a chunk and one byte at most, and are no more than its bytes. */
  lemma RequestsAreBounded(d: Download, serves: seq<Serve>)
    requires Addressable(d.file, d.bufferSize) && d.ServedBy(serves)
    ensures Bounded(d.file, Min(d.bufferSize, |d.file|), d.After(serves).requests)
    ensures |d.After(serves).requests| <= |d.file|
  {
    RunInside(d, serves);
    RunKeepsBuffer(d.Begin(), d.file, serves);
  }

  /** The second request of a file of 2^64 - 1 bytes, after one whole reply of a little over half of them. */
  lemma OverflowExample(unit: string)
    ensures var file: Data := seq(0xFFFF_FFFF_FFFF_FFFF, _ => 0);
            var t, s := Download(file, unit, 0x8000_0000_0000_0001, []).Begin(), Serve(0x8000_0000_0000_0000, 0);
            && t.pending == Reply && Honest(file, t.request, s) && s.end == t.request.end
            && Round(t, file, s).request.end < Round(t, file, s).request.start
  {
  }

  /** A reply short of the end, with its body after the header: what the client asks for next. */
  lemma ShortRound(t: Transfer, file: seq<Byte>, s: Serve)
    requires |file| < LIMIT && t.pending == Reply && Honest(file, t.request, s)
    requires t.status.current == t.request.start && s.excess == 0 && s.end + 1 < |file|
    ensures var after := Round(t, file, s);
            && after.pending == Reply && after.requests == t.requests + [after.request]
            && after.status.current == after.status.end + 1 == s.end + 1
            && after.chunkSize == s.end - t.request.start + 1 && after.status.total == |file|
            && after.request == after.NextRequest(after.request.size)
  {
  }

  /** Room in the request for a chunk of `size`, or for what is left of the file. */
  predicate Asks(t: Transfer, total: nat, size: nat) {
    && t.pending == Reply && t.status.current == t.request.start < total
    && Min(t.request.start + size, total) <= t.request.end + 1
  }

  /**
   * n more replies from `start` on, long ones first: the last of `last` bytes, the others of up to
   * `chunk`, with `extra` bytes to spread over them, so that they end at the offset.
   */
  predicate Plan(start: nat, n: nat, last: nat, extra: nat, chunk: nat, offset: nat) {
    n >= 1 && 1 <= last <= chunk && extra <= (n - 1) * (chunk - last) && offset == start + n * last + extra
  }

  lemma PlanGoesOn(start: nat, n: nat, last: nat, extra: nat, chunk: nat, offset: nat)
    requires Plan(start, n, last, extra, chunk, offset)
    ensures var long := Min(extra, chunk - last);
            && start + last + long <= offset
            && (n == 1 ==> long == 0 && start + last == offset)
            && (n > 1 ==> Plan(start + last + long, n - 1, last, extra - long, chunk, offset))
  {
    Times(n, last);
    if n > 1 {
      Spread(n, chunk - last, extra);
    }
  }

  lemma Times(n: nat, a: nat)
    requires n >= 1
    ensures n * a == (n - 1) * a + a
  {
  }

  lemma Spread(n: nat, d: nat, extra: nat)
    requires n >= 2 && extra <= (n - 1) * d
    ensures extra - Min(extra, d) <= (n - 2) * d
  {
    Times(n - 1, d);
    Scales(n - 2, 0, d);
  }

  /** An honest server that follows such a plan makes the client ask for a range outside the file. */
  lemma {:induction false} Escape(t: Transfer, file: seq<Byte>, n: nat, last: nat, extra: nat, chunk: nat, offset: nat)
    returns (serves: seq<Serve>, r: Request)
    requires |file| < LIMIT && Plan(t.request.start, n, last, extra, chunk, offset)
    requires Asks(t, |file|, last + Min(extra, chunk - last)) && offset < |file| && last + offset >= LIMIT
    ensures IsServed(t, file, serves) && r in Run(t, file, serves).requests && !InFile(r, |file|)
    decreases n
  {
    var long := Min(extra, chunk - last);
    PlanGoesOn(t.request.start, n, last, extra, chunk, offset);
    var s, after := LongReply(t, file, last + long, offset);
    if last + long + s.end + 1 >= LIMIT {
      serves, r := [s], after.request;
      ServedOne(t, file, s);
    } else {
      var rest: seq<Serve>;
      rest, r := Escape(after, file, n - 1, last, extra - long, chunk, offset);
      serves := [s] + rest;
      ServedCons(t, file, s, rest);
    }
  }

  /** A reply of `size` bytes, and the request after it: outside the file, or with room for another reply as long. */
  lemma LongReply(t: Transfer, file: seq<Byte>, size: nat, offset: nat) returns (s: Serve, after: Transfer)
    requires |file| < LIMIT && size >= 1 && t.request.start + size <= offset < |file| && Asks(t, |file|, size)
    ensures Honest(file, t.request, s) && s.end + 1 == t.request.start + size && after == Round(t, file, s)
    ensures after.request in after.requests
    ensures size + s.end + 1 >= LIMIT ==> !InFile(after.request, |file|)
    ensures size + s.end + 1 < LIMIT ==> after.request.start == s.end + 1 && Asks(after, |file|, size)
  {
    s := Serve(t.request.start + size - 1, 0);
    ShortRound(t, file, s);
    after := Round(t, file, s);
    NextRequestExactly(after, after.request.size);
  }

  lemma TippingEscapes(d: Download, n: nat, last: nat) returns (serves: seq<Serve>, r: Request)
    requires |d.file| >= 1 && d.bufferSize >= 1 && Tips(|d.file|, Min(d.bufferSize, |d.file|), n, last)
    ensures d.ServedBy(serves) && r in d.After(serves).requests && !InFile(r, |d.file|)
  {
    var chunk := Min(d.bufferSize, |d.file|);
    var highest := (n - 1) * chunk + last;
    assert highest - n * last == (n - 1) * (chunk - last) by {
      assert (n - 1) * (chunk - last) == (n - 1) * chunk - (n - 1) * last;
      assert n * last == (n - 1) * last + last;
    }
    Scales(n - 1, 0, chunk - last);
    var offset := Min(highest, |d.file| - 1);
    serves, r := Escape(d.Begin(), d.file, n, last, offset - n * last, chunk, offset);
  }

  /** If the server answers honestly in this way, every request lies in the file. */
  ghost predicate StaysInside(d: Download, serves: seq<Serve>) {
    d.ServedBy(serves) ==> forall r | r in d.After(serves).requests :: InFile(r, |d.file|)
  }

  /** Every request of every honest run lies in the file exactly for the downloads called addressable. */
  lemma AddressableExactly(d: Download)
    ensures (forall serves :: StaysInside(d, serves)) <==> Addressable(d.file, d.bufferSize)
  {
    if Addressable(d.file, d.bufferSize) {
      forall serves ensures StaysInside(d, serves) {
        AddressableStays(d, serves);
      }
    } else {
      var serves := SomeRunLeaves(d);
    }
  }

  lemma AddressableStays(d: Download, serves: seq<Serve>)
    requires Addressable(d.file, d.bufferSize)
    ensures StaysInside(d, serves)
  {
    if d.ServedBy(serves) {
      RequestsAreBounded(d, serves);
    }
  }

  lemma SomeRunLeaves(d: Download) returns (serves: seq<Serve>)
    requires !Addressable(d.file, d.bufferSize)
    ensures !StaysInside(d, serves)
  {
    if |d.file| == 0 || d.bufferSize == 0 {
      serves := [];
      FirstLeaves(d);
    } else {
      var n: nat, last: nat :| Tips(|d.file|, Min(d.bufferSize, |d.file|), n, last);
      var r: Request;
      serves, r := TippingEscapes(d, n, last);
    }
  }

  lemma FirstLeaves(d: Download)
    requires |d.file| == 0 || d.bufferSize == 0
    ensures !StaysInside(d, [])
  {
    var begin := d.Begin();
    FirstRequestExactly(Opened(d.bufferSize, Sink(d.prior, false, [])), |d.file|, d.unit);
    assert IsServed(begin, d.file, []) && Run(begin, d.file, []) == begin && begin.request in begin.requests;
  }

  lemma {:induction false} RunKeepsBuffer(t: Transfer, file: seq<Byte>, serves: seq<Serve>)
    requires |file| < LIMIT && IsServed(t, file, serves)
    ensures Run(t, file, serves).bufferSize == t.bufferSize
    decreases |serves|
  {
    if serves != [] {
      RunKeepsBuffer(Round(t, file, serves[0]), file, serves[1..]);
    }
  }

  /** Offsets only move forward: end of reply j against the offset after i replies. */
  lemma {:induction false} ServedEndsGrow(file: seq<Byte>, serves: seq<Serve>, i: nat, j: nat)
    requires Ordered(file, serves) && i <= j < |serves|
    ensures OffsetAt(serves, i) <= serves[j].end < |file|
    decreases j - i
  {
    assert OffsetAt(serves, j) <= serves[j].end;
    if i < j {
      ServedEndsGrow(file, serves, i, j - 1);
    }
  }

  ghost predicate Ordered(file: seq<Byte>, serves: seq<Serve>) {
    forall j {:trigger OffsetAt(serves, j)} | 0 <= j < |serves| :: OffsetAt(serves, j) <= serves[j].end < |file|
  }

  lemma LedgerOrdered(file: seq<Byte>, requests: seq<Request>, serves: seq<Serve>)
    requires Ledger(file, requests, serves)
    ensures Ordered(file, serves)
  {
    forall j | 0 <= j < |serves| ensures OffsetAt(serves, j) <= serves[j].end < |file| {
      LedgerAt(file, requests, serves, j);
    }
  }

  /** The offset after k replies. */
  function OffsetAt(serves: seq<Serve>, k: nat): nat
    requires k <= |serves|
  {
    if k == 0 then 0 else serves[k - 1].end + 1
  }

  lemma LedgerAt(file: seq<Byte>, requests: seq<Request>, serves: seq<Serve>, j: nat)
    requires Ledger(file, requests, serves) && j < |serves|
    ensures requests[j].start == OffsetAt(serves, j) <= serves[j].end < |file|
  {
    assert Honest(file, requests[j], serves[j]);
    assert j > 0 ==> FollowsOn(requests, serves, j);
  }

  lemma NoticeAt(file: seq<Byte>, serves: seq<Serve>, ended: bool, k: nat)
    requires 1 <= k < |NoticesOf(file, serves, ended)|
    ensures |NoticesOf(file, serves, ended)| == |serves| + 2 && NoticesOf(file, serves, ended)[0] == Started
    ensures NoticesOf(file, serves, ended)[k] ==
            if ended && k == |serves| + 1 && serves != [] then Completed else Updated(OffsetAt(serves, k - 1), |file|)
  {
  }

  /** The listener hears the start first and once, and completion once, last, exactly when the download has ended. */
  lemma NoticesAreOrdered(d: Download, serves: seq<Serve>, i: nat, j: nat)
    requires d.ServedBy(serves) && i < j < |d.After(serves).sink.notices|
    ensures var t := d.After(serves);
            var heard := t.sink.notices;
            && heard[0] == Started && heard[j] != Started
            && heard[i] != Completed && (heard[j] == Completed <==> j == |heard| - 1 && t.pending == Ended)
            && (0 < i && heard[j].Updated? ==> heard[i].Updated? && heard[i].current < heard[j].current <= |d.file|)
  {
    RunReached(d, serves);
    var t := d.After(serves);
    LedgerOrdered(d.file, t.requests, serves);
    NoticesOrder(d.file, serves, t.pending == Ended, i, j);
  }

  lemma NoticesOrder(file: seq<Byte>, serves: seq<Serve>, ended: bool, i: nat, j: nat)
    requires Ordered(file, serves) && (ended ==> serves != [])
    requires i < j < |NoticesOf(file, serves, ended)|
    ensures var heard := NoticesOf(file, serves, ended);
            && heard[0] == Started && heard[j] != Started
            && heard[i] != Completed && (heard[j] == Completed <==> j == |heard| - 1 && ended)
            && (0 < i && heard[j].Updated? ==> heard[i].Updated? && heard[i].current < heard[j].current <= |file|)
  {
    NoticeAt(file, serves, ended, j);
    if 0 < i {
      NoticeAt(file, serves, ended, i);
      ServedEndsGrow(file, serves, i - 1, j - 2);
    }
  }

  /** Two requests in a row ask for disjoint ranges exactly when the reply between them was whole. */
  lemma DisjointExactly(d: Download, serves: seq<Serve>, i: nat)
    requires d.ServedBy(serves) && i + 1 < |d.After(serves).requests|
    ensures var requests := d.After(serves).requests;
            i < |serves| && (requests[i].end < requests[i + 1].start <==> serves[i].end == requests[i].end)
  {
    RunReached(d, serves);
    NextStart(d.file, d.After(serves).requests, serves, i);
  }

  lemma NextStart(file: seq<Byte>, requests: seq<Request>, serves: seq<Serve>, i: nat)
    requires Ledger(file, requests, serves) && i + 1 < |requests|
    ensures i < |serves| && requests[i + 1].start == serves[i].end + 1 && serves[i].end <= requests[i].end
  {
    assert Honest(file, requests[i], serves[i]);
    assert FollowsOn(requests, serves, i + 1);
  }

  // ---------------------------------------------------------------------------------------
  // How many requests
  // ---------------------------------------------------------------------------------------

  ghost predicate AllWhole(requests: seq<Request>, serves: seq<Serve>)
    requires |serves| <= |requests|
  {
    forall i | 0 <= i < |serves| :: serves[i].end == requests[i].end
  }

  function CeilDiv(a: nat, b: nat): nat
    requires b > 0
  {
    (a + b - 1) / b
  }

  function RequestCount(total: nat, chunk: nat): nat
    requires 1 <= chunk <= total
  {
    if total <= chunk then 1
    else 1 + if CeilDiv(total - chunk - 1, chunk) > 1 then CeilDiv(total - chunk - 1, chunk) else 1
  }

  /** Served whole ranges, the client is at a multiple of the chunk, and more than a byte short of the end. */
  ghost predicate InStride(t: Transfer, file: seq<Byte>, prior: seq<Byte>, serves: seq<Serve>) {
    var chunk, n := Min(t.bufferSize, |file|), |serves|;
    && Inside(t, file, prior, serves)
    && (AllWhole(t.requests, serves) && t.pending == Reply ==>
          && t.request.start == n * chunk
          && t.request.end == (if n == 0 then chunk - 1 else NextEnd(chunk, n * chunk, |file|))
          && (n == 1 ==> chunk < |file|) && (n >= 2 ==> n * chunk < |file| - 1))
    && (AllWhole(t.requests, serves) && t.pending == Ended && t.status.current == |file| ==>
          && 1 <= chunk <= |file| && n == RequestCount(|file|, chunk))
  }

  lemma LastRequestCounts(total: nat, chunk: nat, m: nat)
    requires 1 <= chunk < total && m >= 1
    requires total - m * chunk <= chunk + 1
    requires m >= 2 ==> m * chunk < total - 1
    ensures RequestCount(total, chunk) == m + 1
  {
    var x := total - chunk - 1;
    if m >= 2 {
      assert (m - 1) * chunk == m * chunk - chunk;
      Division.DivideUnique(x + chunk - 1, chunk, m, x + chunk - 1 - chunk * m);
    } else if x == 0 {
      Division.DivideUnique(chunk - 1, chunk, 0, chunk - 1);
    } else {
      Division.DivideUnique(x + chunk - 1, chunk, 1, x - 1);
    }
  }

  /** Where the request after n whole ones ends, and what that says about the next or about the count. */
  lemma StrideArithmetic(total: nat, chunk: nat, n: nat, start: nat, end: int)
    requires 1 <= chunk <= total && start == n * chunk
    requires end == if n == 0 then chunk - 1 else NextEnd(chunk, start, total)
    requires (n == 1 ==> chunk < total) && (n >= 2 ==> start < total - 1)
    requires start <= end < total && end - start + 1 <= chunk + 1
    ensures end + 1 < total ==>
              && end + 1 == (n + 1) * chunk && end - start + 1 == chunk
              && (if n == 0 then chunk < total else end + 1 < total - 1)
    ensures end + 1 == total ==> n + 1 == RequestCount(total, chunk)
  {
    assert (n + 1) * chunk == n * chunk + chunk;
    if end + 1 == total && n > 0 {
      assert n >= 2 ==> n * chunk >= chunk by {
        Division.ProductBound(chunk, n);
      }
      LastRequestCounts(total, chunk, n);
    }
  }

  /** One more whole reply: where the client stands then. */
  lemma StrideGoesOn(t: Transfer, file: seq<Byte>, prior: seq<Byte>, serves: seq<Serve>, s: Serve)
    requires |file| < LIMIT && InStride(t, file, prior, serves) && t.pending == Reply && Honest(file, t.request, s)
    requires AllWhole(t.requests, serves) && s.end == t.request.end
    ensures var after, chunk, n := Round(t, file, s), Min(t.bufferSize, |file|), |serves| + 1;
            && (after.pending == Reply ==>
                  && after.request.start == n * chunk && after.request.end == NextEnd(chunk, n * chunk, |file|)
                  && (n == 1 ==> chunk < |file|) && (n >= 2 ==> n * chunk < |file| - 1))
            && (s.end + 1 == |file| ==> 1 <= chunk <= |file| && n == RequestCount(|file|, chunk))
  {
    RoundGoesOn(t, file, prior, s);
    if !Ends(file, t.request, s) {
      RoundStaysSized(t, file, prior, s);
    }
    StrideArithmetic(|file|, Min(t.bufferSize, |file|), |serves|, t.request.start, t.request.end);
  }

  lemma AllWholeSplits(requests: seq<Request>, serves: seq<Serve>, s: Serve, next: seq<Request>)
    requires |requests| == |serves| + 1
    ensures AllWhole(requests + next, serves + [s]) <==> AllWhole(requests, serves) && s.end == requests[|serves|].end
  {
    var all, given := requests + next, serves + [s];
    assert forall i | 0 <= i < |serves| :: all[i] == requests[i] && given[i] == serves[i];
    assert all[|serves|] == requests[|serves|] && given[|serves|] == s;
  }

  lemma StrideKeeps(t: Transfer, file: seq<Byte>, prior: seq<Byte>, serves: seq<Serve>, s: Serve)
    requires |file| < LIMIT && InStride(t, file, prior, serves) && t.pending == Reply && Honest(file, t.request, s)
    ensures InStride(Round(t, file, s), file, prior, serves + [s])
  {
    RoundInside(t, file, prior, serves, s);
    RoundGoesOn(t, file, prior, s);
    var after := Round(t, file, s);
    AllWholeSplits(t.requests, serves, s, after.requests[|t.requests|..]);
    assert after.requests == t.requests + after.requests[|t.requests|..];
    if AllWhole(after.requests, serves + [s]) {
      StrideGoesOn(t, file, prior, serves, s);
      RoundWrites(t, file, prior, s);
    }
  }

  ghost function InStrideBy(d: Download): (Transfer, seq<Serve>) -> bool {
    (t: Transfer, serves: seq<Serve>) => InStride(t, d.file, d.prior, serves)
  }

  /** With whole replies the download takes exactly this many requests. */
  lemma RequestCountExact(d: Download, serves: seq<Serve>)
    requires Addressable(d.file, d.bufferSize) && d.ServedBy(serves)
    ensures var t := d.After(serves);
            |serves| <= |t.requests| &&
            (t.pending == Ended && t.status.current == |d.file| && AllWhole(t.requests, serves) ==>
               |t.requests| == |serves| == RequestCount(|d.file|, Min(d.bufferSize, |d.file|)))
  {
    var inv := InStrideBy(d);
    BeginInside(d);
    forall u, done, s | inv(u, done) && u.pending == Reply && Honest(d.file, u.request, s) ensures inv(Round(u, d.file, s), done + [s]) {
      StrideKeeps(u, d.file, d.prior, done, s);
    }
    RunInvariant(inv, d.Begin(), d.file, [], serves);
    assert [] + serves == serves;
    RunKeepsBuffer(d.Begin(), d.file, serves);
  }
}
