/**
 * Frame dispatch: target and operation name a key, the registry maps keys to handler providers,
 * and a connection keeps one live handler at a time.
 */
module Dispatch {
  import opened Wrappers
  import opened Bytes
  import Frames
  import Text

  function TargetName(target: byte): string {
    match target
    case 0x00 => "image-operation"
    case 0x20 => "container-operation"
    case 0x40 => "registry-operation"
    case 0x60 => "plugin-operation"
    case 0x80 => "client-operation"
    case _ => "no matching operation " + "target for supplied key"
  }

  /** Operation 0x09 (stop) is declared but has no entry in the name map. */
  function OperationName(operation: byte): string {
    match operation
    case 0x00 => "list-sub-operation"
    case 0x01 => "details-sub-operation"
    case 0x02 => "removal-sub-operation"
    case 0x03 => "push-sub-operation"
    case 0x04 => "pull-sub-operation"
    case 0x05 => "build-sub-operation"
    case 0x06 => "import-sub-operation"
    case 0x07 => "authorize-sub-operation"
    case 0x08 => "start-sub-operation"
    case 0x0A => "shell-sub-operation"
    case 0x0B => "logs-sub-operation"
    case _ => "no matching " + "request-operation for the supplied key"
  }

  predicate NamedTarget(target: byte) {
    target in {0x00, 0x20, 0x40, 0x60, 0x80}
  }

  predicate NamedOperation(operation: byte) {
    operation <= 0x0B && operation != 0x09
  }

  function Key(target: byte, operation: byte): string {
    TargetName(target) + "|" + OperationName(operation)
  }

  lemma BarSplits(a: string, b: string, c: string, d: string)
    requires '|' !in a && '|' !in c
    requires a + "|" + b == c + "|" + d
    ensures a == c && b == d
  {
    Text.IndexOfSplit(a, '|', b);
    Text.IndexOfSplit(c, '|', d);
    assert a == (a + ['|'] + b)[..|a|] && b == (a + ['|'] + b)[|a| + 1..];
    assert c == (c + ['|'] + d)[..|c|] && d == (c + ['|'] + d)[|c| + 1..];
  }

  lemma UnknownTargetHasNoBar()
    ensures '|' !in "no matching operation " + "target for supplied key"
  {
    assert '|' !in "no matching operation ";
    assert '|' !in "target for supplied key";
  }

  lemma TargetNameHasNoBar(t: byte)
    ensures '|' !in TargetName(t)
  {
    UnknownTargetHasNoBar();
  }

  lemma TargetNames(s: byte, t: byte)
    ensures TargetName(s) == TargetName(t) <==> s == t || (!NamedTarget(s) && !NamedTarget(t))
  {
    if |TargetName(s)| == |TargetName(t)| && NamedTarget(s) && s != t {
      assert TargetName(s)[0] != TargetName(t)[0];
    }
  }

  lemma OperationNames(o: byte, p: byte)
    ensures OperationName(o) == OperationName(p) <==> o == p || (!NamedOperation(o) && !NamedOperation(p))
  {
    OperationLetters(o);
    OperationLetters(p);
    LettersDiffer(o, p);
  }

  /** First and third letter of an operation's name: enough to tell it from the others. */
  function Letters(operation: byte): (char, char) {
    match operation
    case 0x00 => ('l', 's')
    case 0x01 => ('d', 't')
    case 0x02 => ('r', 'm')
    case 0x03 => ('p', 's')
    case 0x04 => ('p', 'l')
    case 0x05 => ('b', 'i')
    case 0x06 => ('i', 'p')
    case 0x07 => ('a', 't')
    case 0x08 => ('s', 'a')
    case 0x0A => ('s', 'e')
    case 0x0B => ('l', 'g')
    case _ => ('n', ' ')
  }

  lemma OperationLetters(o: byte)
    ensures |OperationName(o)| > 2 && OperationName(o)[0] == Letters(o).0 && OperationName(o)[2] == Letters(o).1
  {
  }

  lemma LettersDiffer(o: byte, p: byte)
    ensures Letters(o) == Letters(p) <==> o == p || (!NamedOperation(o) && !NamedOperation(p))
  {
  }

  /** All named codes are such as a frame carries unchanged. */
  lemma NamedAreCoded(target: byte, operation: byte, payload: Frames.Payload)
    requires NamedTarget(target) && NamedOperation(operation)
    ensures Frames.Coded(Frames.Message(target, operation, payload))
  {
  }

  /** The texts of the keys. */
  lemma KeyTexts()
    ensures TargetName(0x00) == "image-operation" && TargetName(0x20) == "container-operation"
    ensures TargetName(0x40) == "registry-operation" && TargetName(0x60) == "plugin-operation"
    ensures TargetName(0x80) == "client-operation" && Key(0x20, 0x04) == "container-operation" + "|" + "pull-sub-operation"
  {
  }

  predicate SameCodes(s: byte, o: byte, t: byte, p: byte) {
    && (s == t || (!NamedTarget(s) && !NamedTarget(t)))
    && (o == p || (!NamedOperation(o) && !NamedOperation(p)))
  }

  /** Two frames share a key exactly when they agree, up to all unnamed codes being one. */
  lemma KeyCollision(s: byte, o: byte, t: byte, p: byte)
    ensures Key(s, o) == Key(t, p) <==> SameCodes(s, o, t, p)
  {
    TargetNames(s, t);
    TargetNameHasNoBar(s);
    TargetNameHasNoBar(t);
    OperationNames(o, p);
    if Key(s, o) == Key(t, p) {
      BarSplits(TargetName(s), OperationName(o), TargetName(t), OperationName(p));
    }
  }

  /** Which registration a handler came from, and which rebuild of the connection made it. */
  type Provider = nat
  datatype Handler = Handler(provider: Provider, serial: nat)

  datatype Order = Order(handler: Handler, payload: Frames.Payload)

  /** A received frame, by the key it dispatches on. */
  datatype Keyed = Keyed(key: string, payload: Frames.Payload)

  datatype Live = Live(handler: Option<Handler>, key: string, built: nat)

  const FRESH := Live(None, "", 0)

  function Handle(providers: map<string, Provider>, live: Live, m: Keyed): Live {
    if (live.handler.None? || live.key != m.key) && m.key in providers
    then Live(Some(Handler(providers[m.key], live.built + 1)), m.key, live.built + 1)
    else live
  }

  function Orders(live: Live, payload: Frames.Payload): seq<Order> {
    if live.handler.Some? then [Order(live.handler.value, payload)] else []
  }

  class Registry {
    var providers: map<string, Provider>

    constructor ()
      ensures providers == map[]
    {
      providers := map[];
    }

    /** emplace: the first registration of a key stays. */
    method AddHandler(target: byte, operation: byte, provider: Provider)
      modifies this
      ensures providers == map[Key(target, operation) := provider] + old(providers)
    {
      var key := Key(target, operation);
      if key !in providers {
        providers := providers[key := provider];
      }
    }

    method Fetch(target: byte, operation: byte) returns (provider: Option<Provider>)
      ensures provider == if Key(target, operation) in providers then Some(providers[Key(target, operation)]) else None
    {
      provider := Find(Key(target, operation));
    }

    method Find(key: string) returns (provider: Option<Provider>)
      ensures provider == if key in providers then Some(providers[key]) else None
    {
      provider := if key in providers then Some(providers[key]) else None;
    }
  }

  datatype Registration = Registration(key: string, provider: Provider)

  /** The providers of a registry after these registrations. */
  function Registered(adds: seq<Registration>): map<string, Provider> {
    if adds == [] then map[]
    else
      var last := adds[|adds| - 1];
      map[last.key := last.provider] + Registered(adds[..|adds| - 1])
  }

  /** A key finds the provider of its first registration, and nothing if there was none. */
  lemma {:induction false} FirstRegistrationWins(adds: seq<Registration>, key: string)
    ensures key in Registered(adds) <==> exists r :: r in adds && r.key == key
    ensures forall i | 0 <= i < |adds| && adds[i].key == key && (forall j | 0 <= j < i :: adds[j].key != key) ::
              key in Registered(adds) && Registered(adds)[key] == adds[i].provider
    decreases |adds|
  {
    if adds != [] {
      var front, last := adds[..|adds| - 1], adds[|adds| - 1];
      FirstRegistrationWins(front, key);
      assert adds == front + [last];
    }
  }

  class Dispatcher {
    const registry: Registry
    var commandHandler: Option<Handler>
    var commandHandlerKey: string
    ghost var built: nat
    ghost var log: seq<Order>

    ghost function View(): Live
      reads this
    {
      Live(commandHandler, commandHandlerKey, built)
    }

    constructor (registry: Registry)
      ensures this.registry == registry && View() == FRESH && log == []
    {
      this.registry := registry;
      commandHandler, commandHandlerKey, built, log := None, "", 0, [];
    }

    /** The provider makes handler number `serial` of this connection. */
    method HandlePayload(target: byte, operation: byte, payload: Frames.Payload, serial: nat)
      requires serial == built + 1
      modifies this
      ensures View() == Handle(registry.providers, old(View()), Keyed(Key(target, operation), payload))
      ensures log == old(log) + Orders(View(), payload)
    {
      HandleKeyed(Key(target, operation), payload, serial);
    }

    method HandleKeyed(key: string, payload: Frames.Payload, serial: nat)
      requires serial == built + 1
      modifies this
      ensures View() == Handle(registry.providers, old(View()), Keyed(key, payload))
      ensures log == old(log) + Orders(View(), payload)
    {
      if commandHandler.None? || commandHandlerKey != key {
        var result := registry.Find(key);
        if result.Some? {
          commandHandler := None;
          commandHandler := Some(Handler(result.value, serial));
          commandHandlerKey := key;
          built := serial;
        }
      }
      if commandHandler.Some? {
        log := log + [Order(commandHandler.value, payload)];
      }
    }
  }

  // ---------------------------------------------------------------------------------------
  // Every sequence of frames, against a definition by its history
  // ---------------------------------------------------------------------------------------

  datatype History = History(live: Live, log: seq<Order>)

  function Run(providers: map<string, Provider>, frames: seq<Keyed>): History {
    if frames == [] then History(FRESH, [])
    else
      var before := Run(providers, frames[..|frames| - 1]);
      var live := Handle(providers, before.live, frames[|frames| - 1]);
      History(live, before.log + Orders(live, frames[|frames| - 1].payload))
  }

  /** The last registered key among the frames. */
  function LastRegistered(providers: map<string, Provider>, frames: seq<Keyed>): (k: Option<string>)
    ensures k.Some? ==> k.value in providers
    ensures k.None? <==> forall m | m in frames :: m.key !in providers
  {
    if frames == [] then None
    else if frames[|frames| - 1].key in providers then Some(frames[|frames| - 1].key)
    else LastRegistered(providers, frames[..|frames| - 1])
  }

  /** A frame rebuilds when its key is registered and is not the last registered one before it. */
  predicate Rebuilds(providers: map<string, Provider>, frames: seq<Keyed>, i: nat)
    requires i < |frames|
  {
    frames[i].key in providers && LastRegistered(providers, frames[..i]) != Some(frames[i].key)
  }

  function RebuildCount(providers: map<string, Provider>, frames: seq<Keyed>): nat {
    if frames == [] then 0
    else RebuildCount(providers, frames[..|frames| - 1]) + if Rebuilds(providers, frames, |frames| - 1) then 1 else 0
  }

  function ExpectedHandler(providers: map<string, Provider>, frames: seq<Keyed>): Option<Handler> {
    match LastRegistered(providers, frames)
    case None => None
    case Some(key) => Some(Handler(providers[key], RebuildCount(providers, frames)))
  }

  /** The live handler is the one made for the last registered key, rebuilt exactly when that changes. */
  lemma {:induction false} HandlerFollowsLastRegistered(providers: map<string, Provider>, frames: seq<Keyed>)
    ensures Run(providers, frames).live.handler == ExpectedHandler(providers, frames)
    ensures Run(providers, frames).live.built == RebuildCount(providers, frames)
    ensures LastRegistered(providers, frames).Some? ==> Run(providers, frames).live.key == LastRegistered(providers, frames).value
    decreases |frames|
  {
    if frames != [] {
      HandlerFollowsLastRegistered(providers, frames[..|frames| - 1]);
    }
  }

  /** The number of frames before the first registered one. */
  function FirstRegistered(providers: map<string, Provider>, frames: seq<Keyed>): (n: nat)
    ensures n <= |frames|
    ensures n < |frames| ==> frames[n].key in providers
    ensures forall i | 0 <= i < n :: frames[i].key !in providers
  {
    if frames == [] || frames[0].key in providers then 0 else 1 + FirstRegistered(providers, frames[1..])
  }

  lemma {:induction false} FirstRegisteredSnoc(providers: map<string, Provider>, front: seq<Keyed>, m: Keyed)
    ensures FirstRegistered(providers, front + [m]) ==
            if FirstRegistered(providers, front) < |front| || m.key in providers
            then FirstRegistered(providers, front) else |front| + 1
  {
    if front == [] || front[0].key in providers {
      assert (front + [m])[0] == if front == [] then m else front[0];
    } else {
      assert (front + [m])[1..] == front[1..] + [m];
      FirstRegisteredSnoc(providers, front[1..], m);
    }
  }

  /** Each frame reaches the handler of the last registered key up to and including its own. */
  function ExpectedLog(providers: map<string, Provider>, frames: seq<Keyed>): seq<Order> {
    if frames == [] then []
    else
      var before := ExpectedLog(providers, frames[..|frames| - 1]);
      match ExpectedHandler(providers, frames)
      case None => before
      case Some(handler) => before + [Order(handler, frames[|frames| - 1].payload)]
  }

  lemma {:induction false} DeliveredToExpected(providers: map<string, Provider>, frames: seq<Keyed>)
    ensures Run(providers, frames).log == ExpectedLog(providers, frames)
    decreases |frames|
  {
    if frames != [] {
      DeliveredToExpected(providers, frames[..|frames| - 1]);
      HandlerFollowsLastRegistered(providers, frames);
    }
  }

  lemma LiveIffRegistered(providers: map<string, Provider>, frames: seq<Keyed>)
    ensures LastRegistered(providers, frames).Some? <==> FirstRegistered(providers, frames) < |frames|
  {
    var first := FirstRegistered(providers, frames);
    assert first < |frames| ==> frames[first] in frames;
  }

  function Payloads(frames: seq<Keyed>): seq<Frames.Payload> {
    seq(|frames|, i requires 0 <= i < |frames| => frames[i].payload)
  }

  function DeliveredPayloads(log: seq<Order>): seq<Frames.Payload> {
    seq(|log|, i requires 0 <= i < |log| => log[i].payload)
  }

  lemma PayloadsSnoc(frames: seq<Keyed>, m: Keyed)
    ensures Payloads(frames + [m]) == Payloads(frames) + [m.payload]
  {
  }

  lemma DeliveredSnoc(log: seq<Order>, o: Order)
    ensures DeliveredPayloads(log + [o]) == DeliveredPayloads(log) + [o.payload]
  {
  }

  /** The delivered payloads are those from the first registered frame on. */
  ghost predicate DeliversRest(providers: map<string, Provider>, frames: seq<Keyed>) {
    DeliveredPayloads(ExpectedLog(providers, frames)) == Payloads(frames[FirstRegistered(providers, frames)..])
  }

  lemma {:induction false} ExpectedPayloads(providers: map<string, Provider>, frames: seq<Keyed>)
    ensures DeliversRest(providers, frames)
    decreases |frames|
  {
    if frames == [] {
      NoFrames(providers);
    } else {
      var front, m := frames[..|frames| - 1], frames[|frames| - 1];
      ExpectedPayloads(providers, front);
      OneMoreFrame(providers, front, m);
      assert front + [m] == frames;
    }
  }

  lemma NoFrames(providers: map<string, Provider>)
    ensures DeliversRest(providers, [])
  {
  }

  lemma OneMoreFrame(providers: map<string, Provider>, front: seq<Keyed>, m: Keyed)
    requires DeliversRest(providers, front)
    ensures DeliversRest(providers, front + [m])
  {
    ExpectedLast(providers, front, m);
    PayloadsLast(providers, front, m);
  }

  /** The payloads from the first registered frame on, by the last frame. */
  lemma PayloadsLast(providers: map<string, Provider>, front: seq<Keyed>, m: Keyed)
    ensures var first := FirstRegistered(providers, front + [m]);
            Payloads((front + [m])[first..]) ==
            Payloads(front[FirstRegistered(providers, front)..]) + if first <= |front| then [m.payload] else []
  {
    FirstRegisteredSnoc(providers, front, m);
    PayloadsFrom(front, m, FirstRegistered(providers, front + [m]), FirstRegistered(providers, front));
  }

  lemma PayloadsFrom(front: seq<Keyed>, m: Keyed, first: nat, before: nat)
    requires first <= |front| + 1 && before == if first <= |front| then first else |front|
    ensures Payloads((front + [m])[first..]) == Payloads(front[before..]) + if first <= |front| then [m.payload] else []
  {
    if first <= |front| {
      assert (front + [m])[first..] == front[first..] + [m];
      PayloadsSnoc(front[first..], m);
    }
  }

  /** The last frame adds its payload once a registered frame has been seen. */
  lemma ExpectedLast(providers: map<string, Provider>, front: seq<Keyed>, m: Keyed)
    ensures DeliveredPayloads(ExpectedLog(providers, front + [m])) ==
            DeliveredPayloads(ExpectedLog(providers, front)) +
            if FirstRegistered(providers, front + [m]) <= |front| then [m.payload] else []
  {
    var frames := front + [m];
    assert frames[..|front|] == front && frames[|front|] == m;
    LiveIffRegistered(providers, frames);
    if FirstRegistered(providers, frames) <= |front| {
      DeliveredSnoc(ExpectedLog(providers, front), Order(ExpectedHandler(providers, frames).value, m.payload));
    }
  }

  /** Every payload from the first registered frame on is delivered exactly once and in order. */
  lemma DeliveredOnceInOrder(providers: map<string, Provider>, frames: seq<Keyed>)
    ensures DeliveredPayloads(Run(providers, frames).log) == Payloads(frames[FirstRegistered(providers, frames)..])
  {
    DeliveredToExpected(providers, frames);
    ExpectedPayloads(providers, frames);
  }
}
