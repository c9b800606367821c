/**
 * An image pull with its downloads: the pipeline starts a range download for each layer, and hears
 * of its end through the download's own notices. What is in the files, at any time and when the pull
 * is reported complete?
 */
module PullContents {
  import opened Wrappers
  import Sequences
  import opened RangeDownload
  import opened RangeRuns
  import opened OciPipeline

  /** What is pulled, what the layers really contain, how they are served, and the files found before. */
  datatype Image = Image(
    id: ImageId,
    layers: seq<string>,
    file: string -> Data,
    unit: string -> string,
    bufferSize: Size,
    before: string -> seq<Byte>)
  {
    function Opens(layer: string, prior: seq<Byte>): RangeRuns.Download {
      RangeRuns.Download(file(layer), unit(layer), bufferSize, prior)
    }
  }

  /**
   * One file for each digest. `transfer` and `serves` belong to the layer being downloaded, if any;
   * `fetched` has the replies to every download that has finished.
   */
  datatype Pull = Pull(
    client: Client,
    disk: map<string, seq<Byte>>,
    transfer: Transfer,
    serves: seq<Serve>,
    fetched: seq<seq<Serve>>,
    failed: bool,
    thrown: bool)

  /** A HEAD request ends, the server answers a range request, or the download breaks off. */
  datatype PullEvent = Heads(head: OciPipeline.Head) | Answers(serve: Serve) | Breaks

  function FileOf(image: Image, disk: map<string, seq<Byte>>, layer: string): seq<Byte> {
    if layer in disk then disk[layer] else image.before(layer)
  }

  function Idling(image: Image): Transfer {
    Opened(image.bufferSize, Sink([], false, []))
  }

  function Started(image: Image): Pull {
    Restarted(image, Pull(Idle(image.id, image.layers), map[], Idling(image), [], [], false, false),
              OciPipeline.Begin(image.id, image.layers))
  }

  predicate Possible(image: Image, p: Pull, e: PullEvent) {
    match e
    case Heads(_) => p.client.heading != []
    case Answers(s) => p.client.running != [] && Honest(image.file(p.client.running[0]), p.transfer.request, s)
    case Breaks => p.client.running != []
  }

  /** The client after a callback; whatever layer now runs is downloaded from its start, behind what its file holds. */
  function Restarted(image: Image, p: Pull, client: Client): Pull {
    p.(client := client, serves := [],
       transfer := if client.running == [] then Idling(image)
                   else image.Opens(client.running[0], FileOf(image, p.disk, client.running[0])).Begin())
  }

  predicate Completes(t: Transfer) {
    t.sink.notices != [] && t.sink.notices[|t.sink.notices| - 1] == Completed
  }

  /** The answer of the server, written to the file of the layer. */
  function Answered(image: Image, p: Pull, s: Serve): Pull
    requires Possible(image, p, Answers(s))
  {
    var layer := p.client.running[0];
    var t := Round(p.transfer, image.file(layer), s);
    p.(transfer := t, serves := p.serves + [s], disk := p.disk[layer := t.sink.content])
  }

  /** A download that breaks off has its file removed. */
  function Proceed(image: Image, p: Pull, e: PullEvent): Pull
    requires Possible(image, p, e)
  {
    match e
    case Heads(h) =>
      if CanHead(p.client, h) then Restarted(image, p, OnHead(p.client, h)) else p.(thrown := true)
    case Answers(s) =>
      var q := Answered(image, p, s);
      var layer := p.client.running[0];
      if !Completes(q.transfer) then q
      else if CanFinish(p.client, image.id, layer) then
        Restarted(image, q.(fetched := p.fetched + [q.serves]), OnDownloadComplete(p.client, image.id, layer))
      else q.(thrown := true)
    case Breaks =>
      var layer := p.client.running[0];
      if CanFail(p.client, image.id) then
        Restarted(image, p.(disk := p.disk[layer := []], failed := true), OnDownloadFailure(p.client, image.id, layer))
      else p.(thrown := true)
  }

  ghost predicate IsPull(image: Image, p: Pull, events: seq<PullEvent>)
    decreases |events|
  {
    events != [] ==> Possible(image, p, events[0]) && IsPull(image, Proceed(image, p, events[0]), events[1..])
  }

  function PullRun(image: Image, p: Pull, events: seq<PullEvent>): Pull
    requires IsPull(image, p, events)
    decreases |events|
  {
    if events == [] then p else PullRun(image, Proceed(image, p, events[0]), events[1..])
  }

  // ---------------------------------------------------------------------------------------
  // What the files are made of
  // ---------------------------------------------------------------------------------------

  /** How far the replies reach into a file. */
  function Reach(file: Data, serves: seq<Serve>): (n: nat)
    ensures n <= |file|
  {
    Min(OffsetAt(serves, |serves|), |file|)
  }

  /** The parts of its layer that the downloads of a digest reached, one after another. */
  function Glued(image: Image, runs: seq<seq<Serve>>, digest: string): seq<Byte>
    requires |runs| <= |image.layers|
  {
    if runs == [] then []
    else
      var n := |runs| - 1;
      Glued(image, runs[..n], digest) +
      if image.layers[n] == digest then image.file(digest)[..Reach(image.file(digest), runs[n])] else []
  }

  /** The replies to the downloads begun and not broken off, in the order of the manifest. */
  function Runs(p: Pull): seq<seq<Serve>> {
    if p.client.running == [] then p.fetched else p.fetched + [p.serves]
  }

  /** The layer whose download broke off. */
  function Gone(image: Image, p: Pull): Option<string> {
    if p.failed && |p.fetched| < |image.layers| then Some(image.layers[|p.fetched|]) else None
  }

  function Expected(image: Image, runs: seq<seq<Serve>>, gone: Option<string>, digest: string): seq<Byte>
    requires |runs| <= |image.layers|
  {
    if gone == Some(digest) then [] else image.before(digest) + Glued(image, runs, digest)
  }

  ghost predicate DiskIs(image: Image, disk: map<string, seq<Byte>>, runs: seq<seq<Serve>>, gone: Option<string>)
    requires |runs| <= |image.layers|
  {
    forall digest :: FileOf(image, disk, digest) == Expected(image, runs, gone, digest)
  }

  lemma GluedSnoc(image: Image, runs: seq<seq<Serve>>, serves: seq<Serve>, digest: string)
    requires |runs| < |image.layers|
    ensures Glued(image, runs + [serves], digest) ==
            Glued(image, runs, digest) +
            if image.layers[|runs|] == digest then image.file(digest)[..Reach(image.file(digest), serves)] else []
  {
    assert (runs + [serves])[..|runs|] == runs;
  }

  // ---------------------------------------------------------------------------------------
  // What every pull keeps
  // ---------------------------------------------------------------------------------------

  /** The replies make up a whole download of the layer, whatever its file held before. */
  ghost predicate Downloaded(image: Image, layer: string, serves: seq<Serve>) {
    exists prior :: Finishes(image, layer, prior, serves)
  }

  ghost predicate Finishes(image: Image, layer: string, prior: seq<Byte>, serves: seq<Serve>) {
    var d := image.Opens(layer, prior);
    d.ServedBy(serves) && d.After(serves).pending == Ended
  }

  ghost predicate AllDownloaded(image: Image, fetched: seq<seq<Serve>>) {
    |fetched| <= |image.layers| && forall i | 0 <= i < |fetched| :: Downloaded(image, image.layers[i], fetched[i])
  }

  ghost predicate Underway(image: Image, layer: string, prior: seq<Byte>, t: Transfer, serves: seq<Serve>) {
    var d := image.Opens(layer, prior);
    d.ServedBy(serves) && t == d.After(serves) && t.pending == RangeDownload.Reply
  }

  /** What the file of the running layer held when its download began. */
  function PriorOf(image: Image, p: Pull): seq<Byte>
    requires p.client.running != [] && |p.fetched| <= |image.layers|
  {
    image.before(p.client.running[0]) + Glued(image, p.fetched, p.client.running[0])
  }

  ghost predicate Holds(image: Image, p: Pull) {
    && !p.thrown && OciPipeline.Reached(p.client, image.id, image.layers, |p.fetched|, p.failed)
    && AllDownloaded(image, p.fetched) && |Runs(p)| <= |image.layers|
    && DiskIs(image, p.disk, Runs(p), Gone(image, p))
    && (p.client.running != [] ==> Underway(image, p.client.running[0], PriorOf(image, p), p.transfer, p.serves))
  }

  lemma RunningLayer(c: Client, id: ImageId, layers: seq<string>, m: nat, failed: bool)
    requires OciPipeline.Reached(c, id, layers, m, failed)
    ensures c.running != [] ==> !failed && m < |layers| && c.running[0] == layers[m] && c.heading == []
    ensures m <= |layers|
  {
  }

  lemma BeginUnderway(image: Image, layer: string, prior: seq<Byte>)
    ensures Underway(image, layer, prior, image.Opens(layer, prior).Begin(), [])
  {
    BeginReached(image.Opens(layer, prior));
  }

  /** The listener hears of completion exactly when the download has ended; the file has grown by what was served. */
  lemma RoundUnderway(image: Image, layer: string, prior: seq<Byte>, t: Transfer, serves: seq<Serve>, s: Serve)
    requires Underway(image, layer, prior, t, serves) && Honest(image.file(layer), t.request, s)
    ensures var after := Round(t, image.file(layer), s);
            && after.sink.content == prior + image.file(layer)[..Reach(image.file(layer), serves + [s])]
            && if Completes(after) then Finishes(image, layer, prior, serves + [s])
               else Underway(image, layer, prior, after, serves + [s])
  {
    var d := image.Opens(layer, prior);
    ServedSnoc(d.Begin(), d.file, serves, s);
    var after := Round(t, d.file, s);
    RunReached(d, serves + [s]);
    LastNotice(d.file, serves + [s], after.pending == Ended);
  }

  lemma LastNotice(file: Data, serves: seq<Serve>, ended: bool)
    requires ended ==> serves != []
    ensures var notices := NoticesOf(file, serves, ended);
            notices != [] && (notices[|notices| - 1] == Completed <==> ended)
  {
  }

  /** A callback that leaves the pipeline in order, and begins the next download. */
  lemma RestartHolds(image: Image, p: Pull, client: Client)
    requires !p.thrown && OciPipeline.Reached(client, image.id, image.layers, |p.fetched|, p.failed)
    requires AllDownloaded(image, p.fetched) && DiskIs(image, p.disk, p.fetched, Gone(image, p))
    ensures Holds(image, Restarted(image, p, client))
  {
    RunningLayer(client, image.id, image.layers, |p.fetched|, p.failed);
    if client.running != [] {
      var layer := client.running[0];
      BeginUnderway(image, layer, FileOf(image, p.disk, layer));
      NothingServed(image, p.disk, p.fetched, Gone(image, p));
    }
  }

  lemma NothingServed(image: Image, disk: map<string, seq<Byte>>, fetched: seq<seq<Serve>>, gone: Option<string>)
    requires |fetched| < |image.layers| && DiskIs(image, disk, fetched, gone)
    ensures DiskIs(image, disk, fetched + [[]], gone)
  {
    forall digest ensures FileOf(image, disk, digest) == Expected(image, fetched + [[]], gone, digest) {
      GluedSnoc(image, fetched, [], digest);
      assert Glued(image, fetched + [[]], digest) == Glued(image, fetched, digest);
    }
  }

  /** One more reply to the download under way shows in the file of its layer and in no other. */
  lemma OneMoreServed(image: Image, disk: map<string, seq<Byte>>, fetched: seq<seq<Serve>>, serves: seq<Serve>, more: seq<Serve>)
    requires |fetched| < |image.layers| && DiskIs(image, disk, fetched + [serves], None)
    ensures var layer := image.layers[|fetched|];
            var content := image.before(layer) + Glued(image, fetched, layer) + image.file(layer)[..Reach(image.file(layer), more)];
            DiskIs(image, disk[layer := content], fetched + [more], None)
  {
    var layer := image.layers[|fetched|];
    var content := image.before(layer) + Glued(image, fetched, layer) + image.file(layer)[..Reach(image.file(layer), more)];
    forall digest ensures FileOf(image, disk[layer := content], digest) == Expected(image, fetched + [more], None, digest) {
      if digest == layer {
        GrownFile(image, fetched, more);
      } else {
        OtherFile(image, fetched, serves, more, digest);
        assert FileOf(image, disk, digest) == Expected(image, fetched + [serves], None, digest);
      }
    }
  }

  lemma GrownFile(image: Image, fetched: seq<seq<Serve>>, more: seq<Serve>)
    requires |fetched| < |image.layers|
    ensures var layer := image.layers[|fetched|];
            Expected(image, fetched + [more], None, layer) ==
            image.before(layer) + Glued(image, fetched, layer) + image.file(layer)[..Reach(image.file(layer), more)]
  {
    var layer := image.layers[|fetched|];
    GluedSnoc(image, fetched, more, layer);
    Sequences.Associative(image.before(layer), Glued(image, fetched, layer), image.file(layer)[..Reach(image.file(layer), more)]);
  }

  lemma OtherFile(image: Image, fetched: seq<seq<Serve>>, serves: seq<Serve>, more: seq<Serve>, digest: string)
    requires |fetched| < |image.layers| && image.layers[|fetched|] != digest
    ensures Expected(image, fetched + [serves], None, digest) == Expected(image, fetched + [more], None, digest)
  {
    GluedSnoc(image, fetched, serves, digest);
    GluedSnoc(image, fetched, more, digest);
  }

  /** What an answer does to the file of its layer, and to the download. */
  lemma AnsweredRight(image: Image, p: Pull, s: Serve)
    requires Holds(image, p) && Possible(image, p, Answers(s))
    ensures var layer, q := p.client.running[0], Answered(image, p, s);
            && |p.fetched| < |image.layers| && layer == image.layers[|p.fetched|]
            && DiskIs(image, q.disk, p.fetched + [q.serves], None)
            && if Completes(q.transfer) then Downloaded(image, layer, q.serves)
               else Underway(image, layer, PriorOf(image, p), q.transfer, q.serves)
  {
    var layer, q := p.client.running[0], Answered(image, p, s);
    RunningLayer(p.client, image.id, image.layers, |p.fetched|, p.failed);
    RoundUnderway(image, layer, PriorOf(image, p), p.transfer, p.serves, s);
    OneMoreServed(image, p.disk, p.fetched, p.serves, q.serves);
  }

  lemma AnswerHolds(image: Image, p: Pull, s: Serve)
    requires Holds(image, p) && Possible(image, p, Answers(s))
    ensures Holds(image, Proceed(image, p, Answers(s)))
  {
    AnsweredRight(image, p, s);
    RunningLayer(p.client, image.id, image.layers, |p.fetched|, p.failed);
    var q := Answered(image, p, s);
    if Completes(q.transfer) {
      FinishHolds(image, p, q.disk, q.transfer, q.serves);
    }
  }

  /** A download that has ended: the client is told, and the next one begins. */
  lemma FinishHolds(image: Image, p: Pull, disk: map<string, seq<Byte>>, t: Transfer, serves: seq<Serve>)
    requires Holds(image, p) && p.client.running != [] && |p.fetched| < |image.layers|
    requires Downloaded(image, image.layers[|p.fetched|], serves) && DiskIs(image, disk, p.fetched + [serves], None)
    ensures CanFinish(p.client, image.id, p.client.running[0])
    ensures var q := p.(transfer := t, serves := serves, disk := disk, fetched := p.fetched + [serves]);
            Holds(image, Restarted(image, q, OnDownloadComplete(p.client, image.id, p.client.running[0])))
  {
    RunningLayer(p.client, image.id, image.layers, |p.fetched|, p.failed);
    FinishKeeps(p.client, image.id, image.layers, |p.fetched|);
    OneMoreDownloaded(image, p.fetched, serves);
    var q := p.(transfer := t, serves := serves, disk := disk, fetched := p.fetched + [serves]);
    RestartHolds(image, q, OnDownloadComplete(p.client, image.id, p.client.running[0]));
  }

  lemma OneMoreDownloaded(image: Image, fetched: seq<seq<Serve>>, serves: seq<Serve>)
    requires AllDownloaded(image, fetched) && |fetched| < |image.layers| && Downloaded(image, image.layers[|fetched|], serves)
    ensures AllDownloaded(image, fetched + [serves])
  {
  }

  lemma BreakHolds(image: Image, p: Pull)
    requires Holds(image, p) && Possible(image, p, Breaks)
    ensures Holds(image, Proceed(image, p, Breaks))
  {
    var layer := p.client.running[0];
    RunningLayer(p.client, image.id, image.layers, |p.fetched|, p.failed);
    FailKeeps(p.client, image.id, image.layers, |p.fetched|);
    GoneFile(image, p.disk, p.fetched, p.serves);
    RestartHolds(image, p.(disk := p.disk[layer := []], failed := true), OnDownloadFailure(p.client, image.id, layer));
  }

  lemma GoneFile(image: Image, disk: map<string, seq<Byte>>, fetched: seq<seq<Serve>>, serves: seq<Serve>)
    requires |fetched| < |image.layers| && DiskIs(image, disk, fetched + [serves], None)
    ensures var layer := image.layers[|fetched|]; DiskIs(image, disk[layer := []], fetched, Some(layer))
  {
    var layer := image.layers[|fetched|];
    forall digest ensures FileOf(image, disk[layer := []], digest) == Expected(image, fetched, Some(layer), digest) {
      if digest != layer {
        GluedSnoc(image, fetched, serves, digest);
        assert FileOf(image, disk, digest) == Expected(image, fetched + [serves], None, digest);
      }
    }
  }

  lemma HeadsHolds(image: Image, p: Pull, h: OciPipeline.Head)
    requires Holds(image, p) && Possible(image, p, Heads(h))
    ensures Holds(image, Proceed(image, p, Heads(h)))
  {
    RunningLayer(p.client, image.id, image.layers, |p.fetched|, p.failed);
    HeadingLayer(p.client, image.id, image.layers, |p.fetched|, p.failed);
    HeadKeeps(p.client, image.id, image.layers, h);
    RestartHolds(image, p, OnHead(p.client, h));
  }

  lemma HeadingLayer(c: Client, id: ImageId, layers: seq<string>, m: nat, failed: bool)
    requires OciPipeline.Reached(c, id, layers, m, failed) && c.heading != []
    ensures m == 0 && !failed
  {
  }

  lemma StartHolds(image: Image)
    ensures Holds(image, Started(image))
  {
    StartReached(image.id, image.layers);
    var p := Pull(Idle(image.id, image.layers), map[], Idling(image), [], [], false, false);
    forall digest ensures FileOf(image, p.disk, digest) == Expected(image, [], None, digest) {
      assert image.before(digest) + [] == image.before(digest);
    }
    RestartHolds(image, p, OciPipeline.Begin(image.id, image.layers));
  }

  lemma {:induction false} RunHolds(image: Image, p: Pull, events: seq<PullEvent>)
    requires Holds(image, p) && IsPull(image, p, events)
    ensures Holds(image, PullRun(image, p, events))
    decreases |events|
  {
    if events != [] {
      match events[0] {
        case Heads(h) => HeadsHolds(image, p, h);
        case Answers(s) => AnswerHolds(image, p, s);
        case Breaks => BreakHolds(image, p);
      }
      RunHolds(image, Proceed(image, p, events[0]), events[1..]);
    }
  }

  // ---------------------------------------------------------------------------------------
  // What a pull delivers
  // ---------------------------------------------------------------------------------------

  /** A finished download has reached the end of its layer iff no reply to it was premature. */
  lemma DownloadedReach(image: Image, layer: string, serves: seq<Serve>)
    requires Downloaded(image, layer, serves)
    ensures image.file(layer) != []
    ensures Reach(image.file(layer), serves) == |image.file(layer)| <==> !Premature(image.file(layer), serves)
  {
    var prior :| Finishes(image, layer, prior, serves);
    DownloadIsExact(image.Opens(layer, prior), serves);
  }

  /**
   * Over every pull no callback throws, each finished download has appended its whole layer iff none
   * of its replies was premature, and the pull is reported complete iff every layer of the manifest
   * has been downloaded. At any time the file of every digest holds what was there before and then
   * the parts of the layer that its downloads reached, the one under way included; only the file of
   * a download that broke off is gone.
   */
  lemma PullDelivers(image: Image, events: seq<PullEvent>)
    requires IsPull(image, Started(image), events)
    ensures var p := PullRun(image, Started(image), events);
            && !p.thrown && |Runs(p)| <= |image.layers|
            && (forall i | 0 <= i < |p.fetched| ::
                  Reach(image.file(image.layers[i]), p.fetched[i]) == |image.file(image.layers[i])| <==>
                  !Premature(image.file(image.layers[i]), p.fetched[i]))
            && CompleteCount(p.client.reports) == (if image.layers != [] && |p.fetched| == |image.layers| then 1 else 0)
            && (forall digest :: FileOf(image, p.disk, digest) == Expected(image, Runs(p), Gone(image, p), digest))
  {
    StartHolds(image);
    RunHolds(image, Started(image), events);
    var p := PullRun(image, Started(image), events);
    ReachedReports(p.client, image.id, image.layers, |p.fetched|, p.failed);
    forall i | 0 <= i < |p.fetched|
      ensures Reach(image.file(image.layers[i]), p.fetched[i]) == |image.file(image.layers[i])| <==>
              !Premature(image.file(image.layers[i]), p.fetched[i])
    {
      DownloadedReach(image, image.layers[i], p.fetched[i]);
    }
  }

  /** How often a digest is listed among the first n layers. */
  function Listed(layers: seq<string>, n: nat, digest: string): nat
    requires n <= |layers|
  {
    if n == 0 then 0 else Listed(layers, n - 1, digest) + if layers[n - 1] == digest then 1 else 0
  }

  ghost predicate AllWholeOf(image: Image, runs: seq<seq<Serve>>, digest: string)
    requires |runs| <= |image.layers|
  {
    forall i | 0 <= i < |runs| && image.layers[i] == digest :: Reach(image.file(digest), runs[i]) == |image.file(digest)|
  }

  /** Whole downloads of a digest: none, one copy of the layer, or more than the layer. */
  lemma {:induction false} WholeCopies(image: Image, runs: seq<seq<Serve>>, digest: string)
    requires |runs| <= |image.layers| && AllWholeOf(image, runs, digest)
    ensures var n, glued := Listed(image.layers, |runs|, digest), Glued(image, runs, digest);
            && (n == 0 ==> glued == [])
            && (n == 1 ==> glued == image.file(digest))
            && (n >= 1 ==> |glued| >= |image.file(digest)|)
            && (n >= 2 && image.file(digest) != [] ==> |glued| > |image.file(digest)|)
    decreases |runs|
  {
    if runs != [] {
      var n := |runs| - 1;
      assert forall i | 0 <= i < n :: runs[..n][i] == runs[i];
      WholeCopies(image, runs[..n], digest);
      assert image.file(digest)[..|image.file(digest)|] == image.file(digest);
    }
  }

  /**
   * The files of a pull that has downloaded every layer: the file of a digest is the layer iff what
   * was there before and the parts its downloads reached make up the layer. If no reply to them was
   * premature, that is: iff the digest is listed once and its file did not exist or was empty.
   */
  lemma FilesExactly(image: Image, events: seq<PullEvent>, digest: string)
    requires IsPull(image, Started(image), events) && digest in image.layers
    requires |PullRun(image, Started(image), events).fetched| == |image.layers|
    ensures var p := PullRun(image, Started(image), events);
            && (FileOf(image, p.disk, digest) == image.file(digest) <==>
                image.before(digest) + Glued(image, p.fetched, digest) == image.file(digest))
            && ((forall i | 0 <= i < |image.layers| && image.layers[i] == digest :: !Premature(image.file(digest), p.fetched[i])) ==>
                  (FileOf(image, p.disk, digest) == image.file(digest) <==>
                   Listed(image.layers, |image.layers|, digest) == 1 && image.before(digest) == []))
  {
    StartHolds(image);
    RunHolds(image, Started(image), events);
    var p := PullRun(image, Started(image), events);
    assert Runs(p) == p.fetched && Gone(image, p) == None;
    assert FileOf(image, p.disk, digest) == Expected(image, p.fetched, None, digest);
    if forall i | 0 <= i < |image.layers| && image.layers[i] == digest :: !Premature(image.file(digest), p.fetched[i]) {
      AllListed(image, p.fetched, digest);
      WholeCopies(image, p.fetched, digest);
      OneCopy(image.before(digest), Glued(image, p.fetched, digest), image.file(digest));
    }
  }

  /** The digest is listed, its layer is not empty, and downloads without premature replies are whole. */
  lemma AllListed(image: Image, fetched: seq<seq<Serve>>, digest: string)
    requires AllDownloaded(image, fetched) && |fetched| == |image.layers| && digest in image.layers
    requires forall i | 0 <= i < |image.layers| && image.layers[i] == digest :: !Premature(image.file(digest), fetched[i])
    ensures AllWholeOf(image, fetched, digest) && image.file(digest) != []
    ensures Listed(image.layers, |image.layers|, digest) >= 1
  {
    forall i | 0 <= i < |fetched| && image.layers[i] == digest
      ensures Reach(image.file(digest), fetched[i]) == |image.file(digest)| && image.file(digest) != []
    {
      DownloadedReach(image, digest, fetched[i]);
    }
    var k :| 0 <= k < |image.layers| && image.layers[k] == digest;
    assert image.file(digest) != [];
    ListedOnce(image.layers, |image.layers|, k);
  }

  lemma {:induction false} ListedOnce(layers: seq<string>, n: nat, k: nat)
    requires k < n <= |layers|
    ensures Listed(layers, n, layers[k]) >= 1
  {
    if k < n - 1 {
      ListedOnce(layers, n - 1, k);
    }
  }

  lemma OneCopy(before: seq<Byte>, glued: seq<Byte>, file: seq<Byte>)
    requires |glued| >= |file|
    ensures before + glued == file <==> glued == file && before == []
  {
    if before + glued == file {
      assert |before + glued| == |before| + |glued|;
      assert before == [] && [] + glued == glued;
    } else if before == [] {
      assert before + glued == glued;
    }
  }

  // ---------------------------------------------------------------------------------------
  // A digest listed twice
  // ---------------------------------------------------------------------------------------

  /** Both HEAD requests end, and both downloads are answered with the first byte, whole with its header. */
  const BOTH: seq<PullEvent> := [HEAD, HEAD, FIRST, FIRST]
  const HEAD := Heads(Plain)
  const FIRST := Answers(Serve(0, 1))

  /** Then the pull is complete, and the file has that byte twice. */
  lemma ListedTwice(image: Image, layer: string)
    requires image.layers == [layer, layer] && image.before(layer) == [] && |image.file(layer)| >= 1 && image.bufferSize == 1
    ensures IsPull(image, Started(image), BOTH)
    ensures var p := PullRun(image, Started(image), BOTH);
            && CompleteCount(p.client.reports) == 1
            && FileOf(image, p.disk, layer) == [image.file(layer)[0], image.file(layer)[0]]
  {
    var p4 := BothDownloaded(image, layer);
    ReachedReports(p4.client, image.id, image.layers, 2, false);
    assert FileOf(image, p4.disk, layer) == Expected(image, p4.fetched, None, layer);
    TwoBytes(image, layer);
  }

  lemma BothDownloaded(image: Image, layer: string) returns (p: Pull)
    requires image.layers == [layer, layer] && |image.file(layer)| >= 1 && image.bufferSize == 1
    ensures IsPull(image, Started(image), BOTH) && p == PullRun(image, Started(image), BOTH)
    ensures Holds(image, p) && p.fetched == [[Serve(0, 1)], [Serve(0, 1)]] && !p.failed && p.client.running == []
  {
    StartHolds(image);
    var p1 := HeadPlain(image, Started(image));
    var p2 := HeadPlain(image, p1);
    var p3 := FirstByte(image, layer, p2);
    p := FirstByte(image, layer, p3);
    RunningLayer(p.client, image.id, image.layers, 2, false);
    var path := FourEvents(image, Started(image), HEAD, p1, HEAD, p2, FIRST, p3, FIRST, p);
    assert path == BOTH;
  }

  lemma FourEvents(image: Image, p: Pull, a: PullEvent, p1: Pull, b: PullEvent, p2: Pull, c: PullEvent, p3: Pull, d: PullEvent, p4: Pull)
    returns (path: seq<PullEvent>)
    requires LeadsTo(image, p, a, p1) && LeadsTo(image, p1, b, p2) && LeadsTo(image, p2, c, p3) && LeadsTo(image, p3, d, p4)
    ensures path == [a, b, c, d] && IsPull(image, p, path) && PullRun(image, p, path) == p4
  {
    path := [];
    path := EventBefore(image, p3, d, p4, path, p4);
    path := EventBefore(image, p2, c, p3, path, p4);
    path := EventBefore(image, p1, b, p2, path, p4);
    path := EventBefore(image, p, a, p1, path, p4);
  }

  lemma EventBefore(image: Image, p: Pull, e: PullEvent, q: Pull, rest: seq<PullEvent>, end: Pull) returns (path: seq<PullEvent>)
    requires LeadsTo(image, p, e, q) && IsPull(image, q, rest) && PullRun(image, q, rest) == end
    ensures path == [e] + rest && IsPull(image, p, path) && PullRun(image, p, path) == end
  {
    path := [e] + rest;
  }

  lemma TwoBytes(image: Image, layer: string)
    requires image.layers == [layer, layer] && image.before(layer) == [] && |image.file(layer)| >= 1
    ensures Expected(image, [[Serve(0, 1)], [Serve(0, 1)]], None, layer) == [image.file(layer)[0], image.file(layer)[0]]
  {
    var one := [Serve(0, 1)];
    GluedSnoc(image, [], one, layer);
    GluedSnoc(image, [one], one, layer);
    assert [] + [one] == [one] && [one] + [one] == [one, one];
    assert image.file(layer)[..1] == [image.file(layer)[0]];
  }

  /** From p the event leads to q, and on to wherever one gets from there. */
  ghost predicate LeadsTo(image: Image, p: Pull, e: PullEvent, q: Pull) {
    forall rest | IsPull(image, q, rest) ::
      IsPull(image, p, [e] + rest) && PullRun(image, p, [e] + rest) == PullRun(image, q, rest)
  }

  lemma ProceedLeads(image: Image, p: Pull, e: PullEvent)
    requires Possible(image, p, e)
    ensures LeadsTo(image, p, e, Proceed(image, p, e))
  {
    forall rest | IsPull(image, Proceed(image, p, e), rest)
      ensures IsPull(image, p, [e] + rest)
      ensures PullRun(image, p, [e] + rest) == PullRun(image, Proceed(image, p, e), rest)
    {
      assert ([e] + rest)[0] == e && ([e] + rest)[1..] == rest;
    }
  }

  lemma HeadPlain(image: Image, p: Pull) returns (q: Pull)
    requires Holds(image, p) && |p.client.heads| < |image.layers|
    ensures LeadsTo(image, p, HEAD, q) && Holds(image, q)
    ensures |q.client.heads| == |p.client.heads| + 1 && q.fetched == [] && !q.failed && q.serves == []
  {
    HeadingLayer(p.client, image.id, image.layers, |p.fetched|, p.failed);
    HeadsHolds(image, p, Plain);
    HeadKeeps(p.client, image.id, image.layers, Plain);
    q := Proceed(image, p, HEAD);
    OneHeadMore(p.client);
    ProceedLeads(image, p, HEAD);
  }

  lemma OneHeadMore(c: Client)
    requires CanHead(c, Plain)
    ensures OnHead(c, Plain).heads == c.heads + [Plain]
  {
  }

  /** A download that has just begun is answered with its first byte. */
  lemma FirstByte(image: Image, layer: string, p: Pull) returns (q: Pull)
    requires Holds(image, p) && |p.client.heads| == |image.layers| && |p.fetched| < |image.layers| && !p.failed
    requires image.layers[|p.fetched|] == layer && |image.file(layer)| >= 1 && image.bufferSize == 1
    requires p.serves == []
    ensures LeadsTo(image, p, FIRST, q) && Holds(image, q)
    ensures q.fetched == p.fetched + [[Serve(0, 1)]] && !q.failed && q.serves == []
    ensures |q.client.heads| == |image.layers|
  {
    RunningNow(p.client, image.id, image.layers, |p.fetched|);
    FirstByteCompletes(image, layer, PriorOf(image, p), p.transfer);
    AnswerHolds(image, p, Serve(0, 1));
    AnswerFinishes(image, p, Serve(0, 1));
    assert [] + [Serve(0, 1)] == [Serve(0, 1)];
    q := Proceed(image, p, FIRST);
    ProceedLeads(image, p, FIRST);
  }

  lemma FirstByteCompletes(image: Image, layer: string, prior: seq<Byte>, t: Transfer)
    requires Underway(image, layer, prior, t, []) && |image.file(layer)| >= 1 && image.bufferSize == 1
    ensures Honest(image.file(layer), t.request, Serve(0, 1)) && Completes(Round(t, image.file(layer), Serve(0, 1)))
  {
    var d := image.Opens(layer, prior);
    assert t == d.Begin();
    OneReply(d, Serve(0, 1));
    ServedOne(t, d.file, Serve(0, 1));
    RunReached(d, [Serve(0, 1)]);
    LastNotice(d.file, [Serve(0, 1)], true);
  }

  lemma AnswerFinishes(image: Image, p: Pull, s: Serve)
    requires Holds(image, p) && Possible(image, p, Answers(s)) && Completes(Answered(image, p, s).transfer)
    ensures var q := Proceed(image, p, Answers(s));
            && q.fetched == p.fetched + [p.serves + [s]] && q.failed == p.failed && q.serves == []
            && q.client.heads == p.client.heads
  {
    RunningLayer(p.client, image.id, image.layers, |p.fetched|, p.failed);
    FinishKeeps(p.client, image.id, image.layers, |p.fetched|);
  }

  lemma RunningNow(c: Client, id: ImageId, layers: seq<string>, m: nat)
    requires OciPipeline.Reached(c, id, layers, m, false) && |c.heads| == |layers| && m < |layers|
    ensures c.running == [layers[m]]
  {
  }

  /** Two whole downloads of a one-byte layer do not make it. */
  lemma DoubledExample(image: Image, layer: string, x: Byte)
    requires image.layers == [layer, layer] && image.before(layer) == [] && image.file(layer) == [x] && image.bufferSize == 1
    ensures IsPull(image, Started(image), BOTH)
    ensures var p := PullRun(image, Started(image), BOTH);
            && CompleteCount(p.client.reports) == 1
            && FileOf(image, p.disk, layer) == [x, x] != image.file(layer)
  {
    ListedTwice(image, layer);
  }

  /** And two premature downloads of a two-byte layer may. */
  lemma GluedExample(image: Image, layer: string, x: Byte)
    requires image.layers == [layer, layer] && image.before(layer) == [] && image.file(layer) == [x, x] && image.bufferSize == 1
    ensures IsPull(image, Started(image), BOTH)
    ensures var p := PullRun(image, Started(image), BOTH);
            && CompleteCount(p.client.reports) == 1 && Premature(image.file(layer), [Serve(0, 1)])
            && FileOf(image, p.disk, layer) == image.file(layer)
  {
    ListedTwice(image, layer);
    assert PrematureAt(image.file(layer), [Serve(0, 1)], 0);
  }
}
