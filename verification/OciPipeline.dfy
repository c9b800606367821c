/**
 * The layer pipeline of an image pull: a HEAD request per layer finds out where it is served from,
 * then the layers are downloaded one after another. Everything is driven by callbacks.
 */
module OciPipeline {
  /** The digest of an image, and where its manifest request says it is pulled from. */
  datatype ImageId = ImageId(digest: string, registry: string, repository: string)

  datatype Target = Target(image: ImageId, layer: string, path: string)

  /** How a HEAD request ends. */
  datatype Head = HeadError | Redirect(location: string) | Plain

  datatype Report =
    | SettingUp
    | LayerFinished(layer: string, complete: bool)
    | PullFailed

  datatype Download = Download(layer: string, url: string)

  /** What the client keeps, and histories: requests in flight and everything that has happened. */
  datatype Client = Client(
    images: map<ImageId, seq<string>>,
    tasks: map<ImageId, map<string, string>>,
    resolveQueue: seq<Target>,
    startSequence: seq<(ImageId, string)>,
    heading: seq<Target>,
    heads: seq<Head>,
    running: seq<string>,
    started: seq<Download>,
    reports: seq<Report>)

  function BlobPath(image: ImageId, layer: string): string {
    image.registry + "/" + image.repository + "/blobs/" + layer
  }

  function Pairs(image: ImageId, layers: seq<string>): seq<(ImageId, string)> {
    seq(|layers|, i requires 0 <= i < |layers| => (image, layers[i]))
  }

  function Targets(image: ImageId, layers: seq<string>): seq<Target> {
    seq(|layers|, i requires 0 <= i < |layers| => Target(image, layers[i], BlobPath(image, layers[i])))
  }

  function FreshTasks(image: ImageId, layers: seq<string>): map<string, string> {
    map l | l in layers :: BlobPath(image, l)
  }

  /** The task a lookup with .at finds; the lookup throws unless both keys are there. */
  predicate Finds(c: Client, image: ImageId, layer: string) {
    image in c.tasks && layer in c.tasks[image]
  }

  predicate CanStart(c: Client) {
    c.startSequence != [] ==> Finds(c, c.startSequence[0].0, c.startSequence[0].1)
  }

  function StartFront(c: Client): Client
    requires CanStart(c) && c.startSequence != []
  {
    var (image, layer) := c.startSequence[0];
    c.(running := c.running + [layer], started := c.started + [Download(layer, c.tasks[image][layer])])
  }

  predicate CanResolve(c: Client) {
    c.resolveQueue == [] ==> CanStart(c)
  }

  function ResolveLayer(c: Client): Client
    requires CanResolve(c)
  {
    if c.resolveQueue != [] then c.(heading := c.heading + [c.resolveQueue[0]])
    else if c.startSequence != [] then StartFront(c)
    else c
  }

  /** The queues and tasks of fetch_layers, before it asks for the first resolution. */
  function Enqueue(c: Client, image: ImageId): Client
    requires image in c.images
  {
    var layers := c.images[image];
    var known := if image in c.tasks then c.tasks[image] else map[];
    c.(tasks := c.tasks[image := FreshTasks(image, layers) + known],
       startSequence := c.startSequence + Pairs(image, layers),
       resolveQueue := c.resolveQueue + Targets(image, layers),
       reports := c.reports + [SettingUp])
  }

  /** What is left of fetch_layers without a directory: an empty set of tasks, and a report. */
  function NoDirectory(c: Client, image: ImageId): Client {
    c.(tasks := if image in c.tasks then c.tasks else c.tasks[image := map[]], reports := c.reports + [PullFailed])
  }

  /** try_emplace on the tasks of an image: an entry that is there stays. */
  function WithTask(tasks: map<string, string>, image: ImageId, layer: string): map<string, string> {
    if layer in tasks then tasks else tasks[layer := BlobPath(image, layer)]
  }

  predicate CanHead(c: Client, h: Head) {
    && c.heading != [] && c.resolveQueue != []
    && (h.Redirect? ==> Finds(c, c.heading[0].image, c.heading[0].layer))
    && CanResolve(HeadApplied(c, h))
  }

  function HeadApplied(c: Client, h: Head): Client
    requires c.heading != [] && c.resolveQueue != []
  {
    var target := c.heading[0];
    var tasks := if h.Redirect? && Finds(c, target.image, target.layer)
                 then c.tasks[target.image := c.tasks[target.image][target.layer := h.location]] else c.tasks;
    c.(tasks := tasks, heading := c.heading[1..], heads := c.heads + [h], resolveQueue := c.resolveQueue[1..])
  }

  function OnHead(c: Client, h: Head): Client
    requires CanHead(c, h)
  {
    ResolveLayer(HeadApplied(c, h))
  }

  /** What on_download_complete looks up and pops. */
  predicate CanFinish(c: Client, image: ImageId, layer: string) {
    && image in c.images && image in c.tasks && c.startSequence != [] && c.running != []
    && CanStart(c.(startSequence := c.startSequence[1..]))
  }

  /** The finished task is erased from a copy of the map only. */
  function OnDownloadComplete(c: Client, image: ImageId, layer: string): Client
    requires CanFinish(c, image, layer)
  {
    var popped := c.(startSequence := c.startSequence[1..], running := c.running[1..]);
    if popped.startSequence != [] then
      var next := StartFront(popped);
      next.(reports := c.reports + [LayerFinished(layer, false)])
    else popped.(tasks := c.tasks - {image}, reports := c.reports + [LayerFinished(layer, true)])
  }

  predicate CanFail(c: Client, image: ImageId) {
    image in c.tasks && c.running != []
  }

  /** Nothing is popped; the image is forgotten, and its tasks too when the copy has become empty. */
  function OnDownloadFailure(c: Client, image: ImageId, layer: string): Client
    requires CanFail(c, image)
  {
    var reported := if image in c.images then c.reports + [PullFailed] else c.reports;
    c.(images := c.images - {image},
       tasks := if c.tasks[image] - {layer} == map[] then c.tasks - {image} else c.tasks,
       running := c.running[1..],
       reports := reported)
  }

  class OciClient {
    var images: map<ImageId, seq<string>>
    var downloadTasks: map<ImageId, map<string, string>>
    var resolveQueue: seq<Target>
    var startSequence: seq<(ImageId, string)>
    ghost var heading: seq<Target>
    ghost var heads: seq<Head>
    ghost var running: seq<string>
    ghost var started: seq<Download>
    ghost var reports: seq<Report>

    ghost function View(): Client
      reads this
    {
      Client(images, downloadTasks, resolveQueue, startSequence, heading, heads, running, started, reports)
    }

    constructor (images: map<ImageId, seq<string>>)
      ensures View() == Client(images, map[], [], [], [], [], [], [], [])
    {
      this.images, downloadTasks, resolveQueue, startSequence := images, map[], [], [];
      heading, heads, running, started, reports := [], [], [], [], [];
    }

    /** When the directory of the image cannot be created that is reported, and nothing is queued. */
    method FetchLayers(image: ImageId, created: bool)
      requires image in images
      requires CanResolve(Enqueue(View(), image))
      modifies this
      ensures View() == if created then ResolveLayer(Enqueue(old(View()), image)) else NoDirectory(old(View()), image)
    {
      var layers := images[image];
      if image !in downloadTasks {
        downloadTasks := downloadTasks[image := map[]];
      }
      if !created {
        reports := reports + [PullFailed];
        return;
      }
      EnqueueLayers(image, layers);
      reports := reports + [SettingUp];
      assert View() == Enqueue(old(View()), image);
      ResolveNext();
    }

    method EnqueueLayers(image: ImageId, layers: seq<string>)
      requires image in downloadTasks
      modifies `downloadTasks, `startSequence, `resolveQueue
      ensures downloadTasks == old(downloadTasks)[image := FreshTasks(image, layers) + old(downloadTasks)[image]]
      ensures startSequence == old(startSequence) + Pairs(image, layers)
      ensures resolveQueue == old(resolveQueue) + Targets(image, layers)
    {
      ghost var was := downloadTasks;
      assert layers[..0] == [] && FreshTasks(image, []) + was[image] == was[image];
      for i := 0 to |layers|
        invariant image in downloadTasks && downloadTasks == was[image := FreshTasks(image, layers[..i]) + was[image]]
        invariant startSequence == old(startSequence) + Pairs(image, layers[..i])
        invariant resolveQueue == old(resolveQueue) + Targets(image, layers[..i])
      {
        assert layers[..i + 1] == layers[..i] + [layers[i]];
        FreshTasksSnoc(image, layers[..i], layers[i], was[image]);
        QueuesSnoc(image, layers[..i], layers[i]);
        EnqueueLayer(image, layers[i]);
      }
      assert layers[..|layers|] == layers;
    }

    method EnqueueLayer(image: ImageId, layer: string)
      requires image in downloadTasks
      modifies `downloadTasks, `startSequence, `resolveQueue
      ensures downloadTasks == old(downloadTasks)[image := WithTask(old(downloadTasks)[image], image, layer)]
      ensures startSequence == old(startSequence) + [(image, layer)]
      ensures resolveQueue == old(resolveQueue) + [Target(image, layer, BlobPath(image, layer))]
    {
      var path := BlobPath(image, layer);
      if layer !in downloadTasks[image] {
        downloadTasks := downloadTasks[image := downloadTasks[image][layer := path]];
      }
      startSequence := startSequence + [(image, layer)];
      resolveQueue := resolveQueue + [Target(image, layer, path)];
    }

    method ResolveNext()
      requires CanResolve(View())
      modifies this
      ensures View() == ResolveLayer(old(View()))
    {
      if resolveQueue != [] {
        heading := heading + [resolveQueue[0]];
      } else if startSequence != [] {
        StartTask();
      }
    }

    method StartTask()
      requires CanStart(View()) && startSequence != []
      modifies this
      ensures View() == StartFront(old(View()))
    {
      var (image, layer) := startSequence[0];
      var url := downloadTasks[image][layer];
      running := running + [layer];
      started := started + [Download(layer, url)];
    }

    method HeadDone(target: Target, h: Head)
      requires CanHead(View(), h) && target == heading[0]
      modifies this
      ensures View() == OnHead(old(View()), h)
    {
      if h.Redirect? {
        downloadTasks := downloadTasks[target.image := downloadTasks[target.image][target.layer := h.location]];
      }
      heading := heading[1..];
      heads := heads + [h];
      resolveQueue := resolveQueue[1..];
      ResolveNext();
    }

    method DownloadComplete(image: ImageId, layer: string)
      requires CanFinish(View(), image, layer)
      modifies this
      ensures View() == OnDownloadComplete(old(View()), image, layer)
    {
      var tasks := downloadTasks[image];
      tasks := tasks - {layer};
      startSequence := startSequence[1..];
      running := running[1..];
      if startSequence != [] {
        StartTask();
        reports := reports + [LayerFinished(layer, false)];
      } else {
        downloadTasks := downloadTasks - {image};
        reports := reports + [LayerFinished(layer, true)];
      }
    }

    method DownloadFailure(image: ImageId, layer: string)
      requires CanFail(View(), image)
      modifies this
      ensures View() == OnDownloadFailure(old(View()), image, layer)
    {
      if image in images {
        reports := reports + [PullFailed];
        images := images - {image};
      }
      var tasks := downloadTasks[image];
      tasks := tasks - {layer};
      if tasks == map[] {
        downloadTasks := downloadTasks - {image};
      }
      running := running[1..];
    }
  }

  lemma QueuesSnoc(image: ImageId, layers: seq<string>, l: string)
    ensures Pairs(image, layers + [l]) == Pairs(image, layers) + [(image, l)]
    ensures Targets(image, layers + [l]) == Targets(image, layers) + [Target(image, l, BlobPath(image, l))]
  {
  }

  lemma FreshTasksSnoc(image: ImageId, layers: seq<string>, l: string, known: map<string, string>)
    ensures FreshTasks(image, layers + [l]) + known == WithTask(FreshTasks(image, layers) + known, image, l)
  {
  }

  // ---------------------------------------------------------------------------------------
  // Every run of one image
  // ---------------------------------------------------------------------------------------

  datatype Event = HeadEnds(head: Head) | DownloadEnds | DownloadFails

  /** What the outside can do: end a request that is in flight. */
  predicate Enabled(c: Client, e: Event) {
    if e.HeadEnds? then c.heading != [] else c.running != []
  }

  /** The lookups and pops of the callback find what they need. */
  predicate Handles(c: Client, image: ImageId, e: Event) {
    match e
    case HeadEnds(h) => CanHead(c, h)
    case DownloadEnds => c.running != [] && CanFinish(c, image, c.running[0])
    case DownloadFails => CanFail(c, image)
  }

  function Step(c: Client, image: ImageId, e: Event): Client
    requires Handles(c, image, e)
  {
    match e
    case HeadEnds(h) => OnHead(c, h)
    case DownloadEnds => OnDownloadComplete(c, image, c.running[0])
    case DownloadFails => OnDownloadFailure(c, image, c.running[0])
  }

  function Idle(image: ImageId, layers: seq<string>): Client {
    Client(map[image := layers], map[], [], [], [], [], [], [], [])
  }

  /** Where the resolutions so far say layer l is served: the last redirect for it, or its blob path. */
  function LocationOf(image: ImageId, layers: seq<string>, heads: seq<Head>, l: string): string
    requires |heads| <= |layers|
  {
    if heads == [] then BlobPath(image, l)
    else
      var k := |heads| - 1;
      if layers[k] == l && heads[k].Redirect? then heads[k].location
      else LocationOf(image, layers, heads[..k], l)
  }

  function Locations(image: ImageId, layers: seq<string>, heads: seq<Head>): map<string, string>
    requires |heads| <= |layers|
  {
    map l | l in layers :: LocationOf(image, layers, heads, l)
  }

  function Starts(image: ImageId, layers: seq<string>, heads: seq<Head>, count: nat): seq<Download>
    requires |heads| <= |layers| && count <= |layers|
  {
    seq(count, i requires 0 <= i < count => Download(layers[i], LocationOf(image, layers, heads, layers[i])))
  }

  /** One report for each finished layer; the last of the manifest completes the pull. */
  function Finishes(layers: seq<string>, count: nat): seq<Report>
    requires count <= |layers|
  {
    seq(count, i requires 0 <= i < count => LayerFinished(layers[i], i == |layers| - 1))
  }

  /** The layer is the manifest's only one, however often it is listed. */
  predicate OnlyLayer(layers: seq<string>, m: nat) {
    m < |layers| && forall l | l in layers :: l == layers[m]
  }

  /** The state after some resolutions, `m` finished downloads and perhaps a failed one. */
  ghost predicate Reached(c: Client, image: ImageId, layers: seq<string>, m: nat, failed: bool) {
    var n, k := |layers|, |c.heads|;
    && k <= n && m <= n
    && c.resolveQueue == Targets(image, layers)[k..]
    && c.startSequence == Pairs(image, layers)[m..]
    && c.heading == (if k < n then [Targets(image, layers)[k]] else [])
    && (k < n ==> m == 0 && !failed && c.started == [])
    && (k == n ==> c.started == Starts(image, layers, c.heads, if m < n then m + 1 else n))
    && c.running == (if k == n && m < n && !failed then [layers[m]] else [])
    && c.reports == [SettingUp] + Finishes(layers, m) + (if failed then [PullFailed] else [])
    && (failed ==> m < n)
    && (failed ==> c.images == map[] && c.tasks == if OnlyLayer(layers, m) then map[] else map[image := Locations(image, layers, c.heads)])
    && (!failed ==> c.images == map[image := layers])
    && (!failed && (m < n || n == 0) ==> c.tasks == map[image := Locations(image, layers, c.heads)])
    && (!failed && m == n && n > 0 ==> c.tasks == map[])
  }

  lemma LocationsSnoc(image: ImageId, layers: seq<string>, heads: seq<Head>, h: Head)
    requires |heads| < |layers|
    ensures var before := Locations(image, layers, heads);
            Locations(image, layers, heads + [h]) == if h.Redirect? then before[layers[|heads|] := h.location] else before
  {
    assert (heads + [h])[..|heads|] == heads;
    assert layers[|heads|] in layers;
  }

  lemma StartReached(image: ImageId, layers: seq<string>)
    ensures CanResolve(Enqueue(Idle(image, layers), image))
    ensures Reached(ResolveLayer(Enqueue(Idle(image, layers), image)), image, layers, 0, false)
  {
    var c := Enqueue(Idle(image, layers), image);
    assert FreshTasks(image, layers) + map[] == Locations(image, layers, []);
    assert [] + Pairs(image, layers) == Pairs(image, layers)[0..];
    assert [] + Targets(image, layers) == Targets(image, layers)[0..];
    assert [SettingUp] + Finishes(layers, 0) == [SettingUp];
  }

  lemma HeadKeeps(c: Client, image: ImageId, layers: seq<string>, h: Head)
    requires Reached(c, image, layers, 0, false) && c.heading != []
    ensures CanHead(c, h)
    ensures Reached(OnHead(c, h), image, layers, 0, false)
  {
    var k := |c.heads|;
    assert layers[k] in layers;
    LocationsSnoc(image, layers, c.heads, h);
    assert Targets(image, layers)[k..][1..] == Targets(image, layers)[k + 1..];
    if k + 1 == |layers| {
      assert layers[0] in layers;
    }
  }

  lemma FinishKeeps(c: Client, image: ImageId, layers: seq<string>, m: nat)
    requires Reached(c, image, layers, m, false) && c.running != []
    ensures CanFinish(c, image, c.running[0])
    ensures Reached(OnDownloadComplete(c, image, c.running[0]), image, layers, m + 1, false)
  {
    assert Pairs(image, layers)[m..][1..] == Pairs(image, layers)[m + 1..];
    assert Finishes(layers, m + 1) == Finishes(layers, m) + [LayerFinished(layers[m], m == |layers| - 1)];
    assert m + 1 < |layers| ==> layers[m + 1] in layers;
  }

  lemma FailKeeps(c: Client, image: ImageId, layers: seq<string>, m: nat)
    requires Reached(c, image, layers, m, false) && c.running != []
    ensures CanFail(c, image)
    ensures Reached(OnDownloadFailure(c, image, c.running[0]), image, layers, m, true)
  {
    var tasks := Locations(image, layers, c.heads);
    if OnlyLayer(layers, m) {
      assert tasks - {layers[m]} == map[];
    } else {
      var l :| l in layers && l != layers[m];
      assert l in tasks - {layers[m]};
    }
    assert map[image := layers] - {image} == map[] && map[image := tasks] - {image} == map[];
  }

  function Begin(image: ImageId, layers: seq<string>): Client {
    StartReached(image, layers);
    ResolveLayer(Enqueue(Idle(image, layers), image))
  }

  /** Any order of request ends the outside may choose, for as long as the callbacks do not throw. */
  ghost predicate IsRun(c: Client, image: ImageId, events: seq<Event>)
    decreases |events|
  {
    events != [] ==>
      && Enabled(c, events[0])
      && (Handles(c, image, events[0]) ==> IsRun(Step(c, image, events[0]), image, events[1..]))
  }

  ghost predicate NeverThrows(c: Client, image: ImageId, events: seq<Event>)
    decreases |events|
  {
    events != [] ==>
      && Handles(c, image, events[0])
      && NeverThrows(Step(c, image, events[0]), image, events[1..])
  }

  function Run(c: Client, image: ImageId, events: seq<Event>): Client
    requires NeverThrows(c, image, events)
    decreases |events|
  {
    if events == [] then c else Run(Step(c, image, events[0]), image, events[1..])
  }

  function Finished(events: seq<Event>): nat {
    if events == [] then 0 else (if events[0].DownloadEnds? then 1 else 0) + Finished(events[1..])
  }

  ghost predicate Failed(events: seq<Event>) {
    exists e :: e in events && e.DownloadFails?
  }

  lemma FailedSplits(events: seq<Event>)
    requires events != []
    ensures Failed(events) <==> events[0].DownloadFails? || Failed(events[1..])
  {
    assert forall e :: e in events <==> e == events[0] || e in events[1..];
  }

  /** How far a pull has come: requests ended, layers finished, a failure seen. */
  datatype Progress = Progress(events: nat, finished: nat, failed: bool)

  function After(p: Progress, e: Event): Progress {
    Progress(p.events + 1, if e.DownloadEnds? then p.finished + 1 else p.finished, p.failed || e.DownloadFails?)
  }

  function Advance(p: Progress, events: seq<Event>): Progress
    decreases |events|
  {
    if events == [] then p else Advance(After(p, events[0]), events[1..])
  }

  lemma {:induction false} AdvanceCounts(p: Progress, events: seq<Event>)
    ensures Advance(p, events).events == p.events + |events|
    ensures Advance(p, events).finished == p.finished + Finished(events)
    ensures Advance(p, events).failed <==> p.failed || Failed(events)
    decreases |events|
  {
    if events != [] {
      FailedSplits(events);
      AdvanceCounts(After(p, events[0]), events[1..]);
    }
  }

  ghost predicate ReachedAt(c: Client, image: ImageId, layers: seq<string>, p: Progress) {
    && Reached(c, image, layers, p.finished, p.failed)
    && p.events == |c.heads| + p.finished + if p.failed then 1 else 0
  }

  lemma StepReaches(c: Client, image: ImageId, layers: seq<string>, p: Progress, e: Event)
    requires ReachedAt(c, image, layers, p) && Enabled(c, e)
    ensures Handles(c, image, e)
    ensures ReachedAt(Step(c, image, e), image, layers, After(p, e))
  {
    match e
    case HeadEnds(h) => HeadReaches(c, image, layers, p, h);
    case DownloadEnds => FinishReaches(c, image, layers, p);
    case DownloadFails => FailReaches(c, image, layers, p);
  }

  lemma HeadReaches(c: Client, image: ImageId, layers: seq<string>, p: Progress, h: Head)
    requires ReachedAt(c, image, layers, p) && c.heading != []
    ensures CanHead(c, h) && ReachedAt(OnHead(c, h), image, layers, After(p, HeadEnds(h)))
  {
    HeadKeeps(c, image, layers, h);
  }

  lemma FinishReaches(c: Client, image: ImageId, layers: seq<string>, p: Progress)
    requires ReachedAt(c, image, layers, p) && c.running != []
    ensures CanFinish(c, image, c.running[0])
    ensures ReachedAt(OnDownloadComplete(c, image, c.running[0]), image, layers, After(p, DownloadEnds))
  {
    FinishKeeps(c, image, layers, p.finished);
  }

  lemma FailReaches(c: Client, image: ImageId, layers: seq<string>, p: Progress)
    requires ReachedAt(c, image, layers, p) && c.running != []
    ensures CanFail(c, image)
    ensures ReachedAt(OnDownloadFailure(c, image, c.running[0]), image, layers, After(p, DownloadFails))
  {
    FailKeeps(c, image, layers, p.finished);
  }

  /** What holds at the start and survives every handled step holds after every run. */
  lemma {:induction false} RunInvariant(inv: (Client, Progress) -> bool, c: Client, image: ImageId, p: Progress, events: seq<Event>)
    requires inv(c, p) && IsRun(c, image, events)
    requires forall d, q, e :: inv(d, q) && Enabled(d, e) ==> Handles(d, image, e) && inv(Step(d, image, e), After(q, e))
    ensures NeverThrows(c, image, events)
    ensures inv(Run(c, image, events), Advance(p, events))
    decreases |events|
  {
    if events != [] {
      RunInvariant(inv, Step(c, image, events[0]), image, After(p, events[0]), events[1..]);
    }
  }

  lemma RunReaches(image: ImageId, layers: seq<string>, events: seq<Event>)
    requires IsRun(Begin(image, layers), image, events)
    ensures NeverThrows(Begin(image, layers), image, events)
    ensures Reached(Run(Begin(image, layers), image, events), image, layers, Finished(events), Failed(events))
    ensures |events| == |Run(Begin(image, layers), image, events).heads| + Finished(events) + if Failed(events) then 1 else 0
  {
    RunReachesAt(image, layers, events);
    AdvanceCounts(NOTHING_YET, events);
  }

  const NOTHING_YET := Progress(0, 0, false)

  lemma RunReachesAt(image: ImageId, layers: seq<string>, events: seq<Event>)
    requires IsRun(Begin(image, layers), image, events)
    ensures NeverThrows(Begin(image, layers), image, events)
    ensures ReachedAt(Run(Begin(image, layers), image, events), image, layers, Advance(NOTHING_YET, events))
  {
    BeginReaches(image, layers);
    KeepsReaching(image, layers);
    RunInvariant(Reaching(image, layers), Begin(image, layers), image, NOTHING_YET, events);
  }

  lemma BeginReaches(image: ImageId, layers: seq<string>)
    ensures Reaching(image, layers)(Begin(image, layers), NOTHING_YET)
  {
    StartReached(image, layers);
  }

  ghost function Reaching(image: ImageId, layers: seq<string>): (Client, Progress) -> bool {
    (c: Client, p: Progress) => ReachedAt(c, image, layers, p)
  }

  lemma KeepsReaching(image: ImageId, layers: seq<string>)
    ensures var inv := Reaching(image, layers);
            forall d, q, e | inv(d, q) && Enabled(d, e) :: Handles(d, image, e) && inv(Step(d, image, e), After(q, e))
  {
    var inv := Reaching(image, layers);
    forall d, q, e | inv(d, q) && Enabled(d, e) ensures Handles(d, image, e) && inv(Step(d, image, e), After(q, e)) {
      StepReaches(d, image, layers, q, e);
    }
  }

  /**
   * For every manifest and every run: no lookup fails; the queues stay suffixes of the manifest; no
   * layer starts before all resolutions have ended; layers start in manifest order, from where their
   * HEAD requests say, at most one at a time.
   */
  lemma PullIsOrdered(image: ImageId, layers: seq<string>, events: seq<Event>)
    requires IsRun(Begin(image, layers), image, events)
    ensures NeverThrows(Begin(image, layers), image, events)
    ensures var c := Run(Begin(image, layers), image, events);
            && |c.heads| <= |layers| && c.resolveQueue == Targets(image, layers)[|c.heads|..]
            && Finished(events) <= |layers| && c.startSequence == Pairs(image, layers)[Finished(events)..]
            && (c.started != [] ==> |c.heads| == |layers|)
            && |c.started| <= |layers| && c.started == Starts(image, layers, c.heads, |c.started|)
            && |c.running| <= 1 && |c.started| <= Finished(events) + 1
            && |events| <= 2 * |layers|
  {
    RunReaches(image, layers, events);
  }

  /** The last redirect of a layer among the ends of the HEAD requests. */
  predicate LastRedirect(layers: seq<string>, heads: seq<Head>, k: nat, layer: string) {
    && k < |heads| <= |layers| && layers[k] == layer && heads[k].Redirect?
    && forall j | k < j < |heads| :: layers[j] == layer ==> !heads[j].Redirect?
  }

  predicate NeverRedirected(layers: seq<string>, heads: seq<Head>, layer: string) {
    |heads| <= |layers| && forall k | 0 <= k < |heads| :: layers[k] == layer ==> !heads[k].Redirect?
  }

  /**
   * Over every run the HEAD request in flight is the one for the layer whose turn it is, at its blob
   * under the repository of the image, and a layer is downloaded from there unless it was redirected;
   * then from where its last redirect says.
   */
  lemma LayersAreAskedFor(image: ImageId, layers: seq<string>, events: seq<Event>)
    requires IsRun(Begin(image, layers), image, events)
    ensures NeverThrows(Begin(image, layers), image, events)
    ensures var c := Run(Begin(image, layers), image, events);
            && |c.heads| <= |layers| && |c.started| <= |layers|
            && (c.heading != [] ==>
                  |c.heads| < |layers| && c.heading[0].layer == layers[|c.heads|]
                  && c.heading[0].path == image.registry + "/" + image.repository + "/blobs/" + layers[|c.heads|])
            && (forall i | 0 <= i < |c.started| :: c.started[i].layer == layers[i])
            && (forall i | 0 <= i < |c.started| && NeverRedirected(layers, c.heads, layers[i]) ::
                  c.started[i].url == image.registry + "/" + image.repository + "/blobs/" + layers[i])
            && (forall i, k: nat | 0 <= i < |c.started| && LastRedirect(layers, c.heads, k, layers[i]) ::
                  c.started[i].url == c.heads[k].location)
  {
    RunReaches(image, layers, events);
    var c := Run(Begin(image, layers), image, events);
    PullIsOrdered(image, layers, events);
    forall i | 0 <= i < |c.started| && NeverRedirected(layers, c.heads, layers[i])
      ensures c.started[i].url == image.registry + "/" + image.repository + "/blobs/" + layers[i]
    {
      Unredirected(image, layers, c.heads, layers[i]);
    }
    forall i, k: nat | 0 <= i < |c.started| && LastRedirect(layers, c.heads, k, layers[i])
      ensures c.started[i].url == c.heads[k].location
    {
      Redirected(image, layers, c.heads, k, layers[i]);
    }
  }

  lemma {:induction false} Unredirected(image: ImageId, layers: seq<string>, heads: seq<Head>, layer: string)
    requires NeverRedirected(layers, heads, layer)
    ensures LocationOf(image, layers, heads, layer) == BlobPath(image, layer)
    decreases |heads|
  {
    if heads != [] {
      var front := heads[..|heads| - 1];
      assert forall k | 0 <= k < |front| :: front[k] == heads[k];
      Unredirected(image, layers, front, layer);
    }
  }

  lemma {:induction false} Redirected(image: ImageId, layers: seq<string>, heads: seq<Head>, k: nat, layer: string)
    requires LastRedirect(layers, heads, k, layer)
    ensures LocationOf(image, layers, heads, layer) == heads[k].location
    decreases |heads|
  {
    if k < |heads| - 1 {
      var front := heads[..|heads| - 1];
      assert forall j | 0 <= j < |front| :: front[j] == heads[j];
      Redirected(image, layers, front, k, layer);
    }
  }

  /** Different layers are asked for at different places. */
  lemma PathsDiffer(prefix: string, a: string, b: string)
    requires a != b
    ensures prefix + "/blobs/" + a != prefix + "/blobs/" + b
  {
    var p := prefix + "/blobs/";
    assert (p + a)[|p|..] == a && (p + b)[|p|..] == b;
  }

  /** A failed download is reported once, last, and the client forgets the image and its manifest. */
  lemma FailureForgets(image: ImageId, layers: seq<string>, events: seq<Event>)
    requires IsRun(Begin(image, layers), image, events) && Failed(events)
    ensures NeverThrows(Begin(image, layers), image, events)
    ensures var c := Run(Begin(image, layers), image, events);
            && c.images == map[] && c.running == [] && c.heading == []
            && c.reports != [] && c.reports[|c.reports| - 1] == PullFailed
            && Finished(events) < |layers| && c.startSequence != [] && c.startSequence[0].1 == layers[Finished(events)]
            && ((forall l | l in layers :: l == layers[Finished(events)]) <==> c.tasks == map[])
  {
    RunReaches(image, layers, events);
    assert OnlyLayer(layers, Finished(events)) <==> forall l | l in layers :: l == layers[Finished(events)];
  }

  function CompleteCount(reports: seq<Report>): nat {
    if reports == [] then 0
    else CompleteCount(reports[..|reports| - 1]) +
         if reports[|reports| - 1].LayerFinished? && reports[|reports| - 1].complete then 1 else 0
  }

  lemma {:induction false} CompleteOnce(layers: seq<string>, m: nat)
    requires m <= |layers|
    ensures CompleteCount([SettingUp] + Finishes(layers, m)) == if m == |layers| && m > 0 then 1 else 0
  {
    var reports := [SettingUp] + Finishes(layers, m);
    if m == 0 {
      assert reports == [SettingUp] && reports[..0] == [];
    } else {
      CompleteOnce(layers, m - 1);
      assert reports[..m] == [SettingUp] + Finishes(layers, m - 1);
    }
  }

  predicate Quiet(c: Client) {
    c.heading == [] && c.running == []
  }

  /**
   * The pull is reported complete at most once, and never before its last layer has finished. A run
   * that has come to rest has reported it exactly when the manifest has layers and none failed.
   */
  lemma CompletesExactlyOnce(image: ImageId, layers: seq<string>, events: seq<Event>)
    requires IsRun(Begin(image, layers), image, events)
    ensures NeverThrows(Begin(image, layers), image, events)
    ensures var c := Run(Begin(image, layers), image, events);
            && CompleteCount(c.reports) == (if layers != [] && Finished(events) == |layers| then 1 else 0)
            && (Quiet(c) ==> (CompleteCount(c.reports) == 1 <==> layers != [] && !Failed(events)))
            && (CompleteCount(c.reports) == 1 ==> c.reports[|c.reports| - 1] == LayerFinished(layers[|layers| - 1], true))
  {
    RunReaches(image, layers, events);
    ReachedReports(Run(Begin(image, layers), image, events), image, layers, Finished(events), Failed(events));
  }

  lemma ReachedReports(c: Client, image: ImageId, layers: seq<string>, m: nat, failed: bool)
    requires Reached(c, image, layers, m, failed)
    ensures CompleteCount(c.reports) == if layers != [] && m == |layers| then 1 else 0
    ensures CompleteCount(c.reports) == 1 ==> c.reports[|c.reports| - 1] == LayerFinished(layers[|layers| - 1], true)
  {
    CompleteOnce(layers, m);
    var reports := [SettingUp] + Finishes(layers, m);
    if failed {
      assert (reports + [PullFailed])[..|reports|] == reports;
    } else {
      assert c.reports == reports;
    }
  }
}
