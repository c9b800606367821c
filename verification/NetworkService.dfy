/**
 * Networks and their members: every network has its own allocator, and a repository records which
 * containers joined. The answers of the host's network handler and of the repository's storage are
 * parameters of each operation.
 */
module NetworkService {
  import opened Wrappers
  import Cidr
  import opened AddressProvider
  import Decimal
  import Text

  const RESERVED: set<string> := {GATEWAY, SUBNET}

  datatype Entry = Entry(name: string, code: string, subnet: Cidr.Block)

  /** The repository by its interface: a code per network (codes are unique), and members by container. */
  datatype Repository = Repository(codes: map<string, string>, rows: map<string, map<string, string>>) {

    function Members(name: string): map<string, string> {
      if name in rows then rows[name] else map[]
    }

    /** Adding needs a fresh name and a code no other network has. */
    predicate CanAdd(entry: Entry) {
      entry.name !in codes && entry.code !in codes.Values
    }

    function Add(entry: Entry): Repository {
      Repository(codes[entry.name := entry.code], rows[entry.name := map[]])
    }

    /** Members join by the network's code. */
    function Join(code: string, members: string, container: string): Repository {
      Repository(codes, map n | n in rows :: if n in codes && codes[n] == code then rows[n][container := members] else rows[n])
    }

    function Leave(name: string, container: string): Repository {
      if name in rows then Repository(codes, rows[name := rows[name] - {container}]) else this
    }

    ghost predicate Valid() {
      && codes.Keys == rows.Keys
      && forall m, n | m in codes && n in codes && m != n :: codes[m] != codes[n]
    }
  }

  datatype Outcome =
    | Done
    | Exists
    | UnknownBridge
    | HandlerFailed
    | StorageFailed
    | EmptyOptional   // the source dereferences an address it did not get
    | OutOfRange      // the source asks for the second of fewer than two parts

  /** The epair names of an order, and the two names read back out of a membership. */
  function InterfaceNames(code: string): (string, string) {
    (code + "a", code + "b")
  }

  function JoinNames(names: (string, string)): string {
    names.0 + "," + names.1
  }

  /** The parts before and after the first comma, the second up to the next comma. */
  function SplitNames(s: string): Option<(string, string)> {
    var n := Text.IndexOf(s, ',');
    if n == |s| then None
    else
      var rest := s[n + 1..];
      Some((s[..n], rest[..Text.IndexOf(rest, ',')]))
  }

  /** jp{total - 1}, in unsigned arithmetic. */
  function OrderCode(total: nat): string {
    "jp" + Decimal.Print((total + Decimal.LIMIT - 1) % Decimal.LIMIT)
  }

  /** What bridge_container reports for the container that makes `total` members. */
  function MembersOf(total: nat): string {
    JoinNames(InterfaceNames(OrderCode(total)))
  }

  /** The value of the service: each network's pool, and the repository. */
  datatype Service = Service(networks: map<string, Pool>, repository: Repository) {

    ghost predicate Valid() {
      && repository.Valid()
      && forall n | n in networks :: networks[n].Valid()
    }

    ghost predicate Shaped() {
      && repository.Valid()
      && forall n | n in networks :: networks[n].WellFormed()
    }

    function Add(entry: Entry, hasBridge: bool, removed: bool, created: bool, stored: bool, updated: bool): (r: (Service, Outcome))
      requires entry.subnet.WellFormed()
    {
      if entry.name in networks then (this, Exists)
      else if hasBridge && !removed then (this, HandlerFailed)
      else
        var added := Service(networks[entry.name := Reserved(entry.subnet)], repository);
        if !created then (added, HandlerFailed)
        else if entry.name !in repository.codes && !(stored && repository.CanAdd(entry)) then (added, StorageFailed)
        else
          var known := if entry.name in repository.codes then repository else repository.Add(entry);
          (Service(added.networks, known), if updated then Done else StorageFailed)
    }

    function Join(name: string, container: string, bridged: bool, stored: bool): (Service, Outcome)
      requires forall n | n in networks :: networks[n].WellFormed()
    {
      if name !in networks then (this, UnknownBridge)
      else
        var (pool, address) := networks[name].Fetch(container);
        Service(networks[name := pool], repository).Bridge(name, container, address.Some?, bridged, stored)
    }

    /** The part of a join that follows the allocation. */
    function Bridge(name: string, container: string, addressed: bool, bridged: bool, stored: bool): (Service, Outcome)
      requires name in networks
    {
      if name !in repository.codes then (this, UnknownBridge)
      else if !addressed || SUBNET !in networks[name].taken then (this, EmptyOptional)
      else if !bridged then (this, HandlerFailed)
      else if !stored then (this, StorageFailed)
      else
        var members := MembersOf(networks[name].TotalTaken());
        (Service(networks, repository.Join(repository.codes[name], members, container)), Done)
    }

    function Leave(name: string, container: string, left: bool, erased: bool): (Service, Outcome) {
      if name !in networks || container !in repository.Members(name) || name !in repository.codes then (this, UnknownBridge)
      else if SplitNames(repository.Members(name)[container]).None? then (this, OutOfRange)
      else if !left then (this, HandlerFailed)
      else
        var freed := networks[name := networks[name].Remove(container)];
        if !erased then (Service(freed, repository), StorageFailed)
        else (Service(freed, repository.Leave(name, container)), Done)
    }

    /** The allocator's identifiers are the two reserved ones and exactly the members. */
    ghost predicate Agrees(name: string)
      requires name in networks
    {
      && repository.Members(name).Keys !! RESERVED
      && networks[name].taken.Keys == RESERVED + repository.Members(name).Keys
    }

    ghost predicate AllAgree() {
      forall n | n in networks :: Agrees(n)
    }
  }

  class NetworkService {
    var networks: map<string, AddressProvider>
    var repository: Repository

    constructor (repository: Repository)
      ensures networks == map[] && this.repository == repository
    {
      networks := map[];
      this.repository := repository;
    }

    /** Providers are ready and not shared between networks. */
    ghost predicate Ready()
      reads this, networks.Values
    {
      && (forall n | n in networks :: networks[n].Ready())
      && (forall m, n | m in networks && n in networks && m != n :: networks[m] != networks[n])
    }

    ghost function Pools(): map<string, Pool>
      reads this`networks, networks.Values
    {
      map n | n in networks :: networks[n].View()
    }

    ghost function View(): Service
      reads this, networks.Values
    {
      Service(Pools(), repository)
    }

    /** Prefixes above 30 are excluded because initialize does not return for them. */
    method Add(entry: Entry, hasBridge: bool, removed: bool, created: bool, stored: bool, updated: bool) returns (r: Outcome)
      requires Ready() && entry.subnet.WellFormed() && entry.subnet.prefix <= 30
      modifies this
      ensures Ready()
      ensures View() == old(View()).Add(entry, hasBridge, removed, created, stored, updated).0
      ensures r == old(View()).Add(entry, hasBridge, removed, created, stored, updated).1
    {
      if entry.name in networks {
        return Exists;
      }
      if hasBridge && !removed {
        return HandlerFailed;
      }
      CreatePool(entry);
      var subnet := networks[entry.name].FetchSubnet();
      if subnet.None? || !created {
        return HandlerFailed;
      }
      if entry.name !in repository.codes {
        if !stored || !repository.CanAdd(entry) {
          return StorageFailed;
        }
        repository := repository.Add(entry);
      }
      r := if updated then Done else StorageFailed;
    }

    method CreatePool(entry: Entry)
      requires Ready() && entry.subnet.WellFormed() && entry.subnet.prefix <= 30 && entry.name !in networks
      modifies this`networks
      ensures Ready() && Pools() == old(Pools())[entry.name := Reserved(entry.subnet)]
      ensures entry.name in networks && networks[entry.name].View() == Reserved(entry.subnet)
    {
      var network := StartProvider(entry.subnet);
      networks := networks[entry.name := network];
    }

    static method StartProvider(block: Cidr.Block) returns (network: AddressProvider)
      requires block.WellFormed() && block.prefix <= 30
      ensures fresh(network) && network.Ready() && network.View() == Reserved(block)
    {
      network := new AddressProvider(block);
      network.Initialize();
    }

    method Join(name: string, container: string, bridged: bool, stored: bool) returns (r: Outcome)
      requires Ready()
      modifies this`repository, networks.Values
      ensures Ready()
      ensures View() == old(View()).Join(name, container, bridged, stored).0
      ensures r == old(View()).Join(name, container, bridged, stored).1
    {
      if name !in networks {
        return UnknownBridge;
      }
      var address := FetchAddress(name, container);
      r := BridgeContainer(name, container, address.Some?, bridged, stored);
    }

    method BridgeContainer(name: string, container: string, addressed: bool, bridged: bool, stored: bool) returns (r: Outcome)
      requires Ready() && name in networks
      modifies this`repository
      ensures Ready()
      ensures View() == old(View()).Bridge(name, container, addressed, bridged, stored).0
      ensures r == old(View()).Bridge(name, container, addressed, bridged, stored).1
    {
      var network := networks[name];
      assert network.View() == Pools()[name];
      if name !in repository.codes {
        return UnknownBridge;
      }
      var gateway := network.FetchSubnet();
      if !addressed || gateway.None? {
        return EmptyOptional;
      }
      if !bridged {
        return HandlerFailed;
      }
      if !stored {
        return StorageFailed;
      }
      var total := network.TotalTaken();
      repository := repository.Join(repository.codes[name], MembersOf(total), container);
      r := Done;
    }

    /** A change inside one provider shows in its own pool and in no other. */
    twostate lemma OthersUntouched(name: string)
      requires old(Ready()) && networks == old(networks) && name in networks && networks[name].Ready()
      requires forall n | n in networks && n != name :: unchanged(networks[n])
      ensures Ready() && Pools() == old(Pools())[name := networks[name].View()]
    {
    }

    method FetchAddress(name: string, container: string) returns (address: Option<IpAddress>)
      requires Ready() && name in networks
      modifies networks[name]
      ensures Ready()
      ensures Pools() == old(Pools())[name := old(Pools())[name].Fetch(container).0]
      ensures address == old(Pools())[name].Fetch(container).1
    {
      address := networks[name].FetchNextAvailable(container, V4);
      OthersUntouched(name);
    }

    method Leave(name: string, container: string, left: bool, erased: bool) returns (r: Outcome)
      requires Ready()
      modifies this`repository, networks.Values
      ensures Ready()
      ensures View() == old(View()).Leave(name, container, left, erased).0
      ensures r == old(View()).Leave(name, container, left, erased).1
    {
      if name !in networks {
        return UnknownBridge;
      }
      var members := repository.Members(name);
      if container !in members || name !in repository.codes {
        return UnknownBridge;
      }
      var parts := SplitNames(members[container]);
      if parts.None? {
        return OutOfRange;
      }
      if !left {
        return HandlerFailed;
      }
      ReturnAddress(name, container);
      if !erased {
        return StorageFailed;
      }
      repository := repository.Leave(name, container);
      r := Done;
    }

    method ReturnAddress(name: string, container: string)
      requires Ready() && name in networks
      modifies networks[name]
      ensures Ready()
      ensures Pools() == old(Pools())[name := old(Pools())[name].Remove(container)]
    {
      var found := networks[name].Remove(container);
      OthersUntouched(name);
    }
  }

  // ---------------------------------------------------------------------------------------
  // Agreement between allocator and repository, step by step
  // ---------------------------------------------------------------------------------------

  lemma AddValid(s: Service, entry: Entry, hasBridge: bool, removed: bool, created: bool, stored: bool, updated: bool)
    requires s.Valid() && entry.subnet.WellFormed() && entry.subnet.prefix <= 30
    ensures s.Add(entry, hasBridge, removed, created, stored, updated).0.Valid()
  {
    ReservedValid(entry.subnet);
  }

  lemma ReservedValid(block: Cidr.Block)
    requires block.WellFormed() && block.prefix <= 30
    ensures Reserved(block).Valid()
  {
    RoomForTwo(block);
  }

  lemma JoinValid(s: Service, name: string, container: string, bridged: bool, stored: bool)
    requires s.Valid()
    ensures s.Join(name, container, bridged, stored).0.Valid()
  {
    if name in s.networks {
      ApplyValid(s.networks[name], FetchOp(container));
    }
  }

  lemma LeaveValid(s: Service, name: string, container: string, left: bool, erased: bool)
    requires s.Valid()
    ensures s.Leave(name, container, left, erased).0.Valid()
  {
  }

  lemma AddKeepsMembers(r: Repository, entry: Entry, name: string)
    requires r.Valid()
    ensures entry.name !in r.codes ==> r.Add(entry).Members(name) == r.Members(name)
  {
    assert entry.name in r.codes <==> entry.name in r.rows;
  }

  /** Adding keeps the agreement unless it creates an allocator beside members recorded earlier. */
  lemma AddAgreesExactly(s: Service, entry: Entry, hasBridge: bool, removed: bool, created: bool, stored: bool, updated: bool)
    requires s.Valid() && s.AllAgree() && entry.subnet.WellFormed()
    ensures s.Add(entry, hasBridge, removed, created, stored, updated).0.AllAgree() <==>
            entry.name in s.networks || (hasBridge && !removed) || s.repository.Members(entry.name).Keys == {}
  {
    var after := s.Add(entry, hasBridge, removed, created, stored, updated).0;
    if entry.name !in s.networks && !(hasBridge && !removed) {
      forall n: string {
        AddKeepsMembers(s.repository, entry, n);
      }
      FreshAgreement(after, entry);
      forall n | n in s.networks ensures after.Agrees(n) {
        assert s.Agrees(n);
      }
    }
  }

  lemma FreshAgreement(s: Service, entry: Entry)
    requires entry.subnet.WellFormed()
    requires entry.name in s.networks && s.networks[entry.name] == Reserved(entry.subnet)
    ensures s.Agrees(entry.name) <==> s.repository.Members(entry.name).Keys == {}
  {
    var members := s.repository.Members(entry.name).Keys;
    assert s.networks[entry.name].taken.Keys == RESERVED;
    if s.Agrees(entry.name) {
      assert forall id | id in members :: id in RESERVED + members;
    }
  }

  lemma JoinKeepsOthers(r: Repository, name: string, members: string, container: string, other: string)
    requires r.Valid() && name in r.codes
    ensures r.Join(r.codes[name], members, container).Valid()
    ensures r.Join(r.codes[name], members, container).Members(other) ==
            if other == name then r.Members(name)[container := members] else r.Members(other)
  {
  }

  lemma FetchKeys(p: Pool, id: string)
    requires p.WellFormed()
    ensures p.Fetch(id).1.None? ==> p.Fetch(id).0 == p
    ensures p.Fetch(id).1.Some? ==> p.Fetch(id).0.taken.Keys == p.taken.Keys + {id}
  {
  }

  /** What a join does to the identifiers of its network, and to its members. */
  lemma JoinKeys(s: Service, name: string, container: string, bridged: bool, stored: bool)
    requires s.Shaped() && name in s.networks && s.Agrees(name)
    requires s.networks[name].Fetch(container).1.Some?
    ensures var after := s.Join(name, container, bridged, stored).0;
            && after.networks == s.networks[name := s.networks[name].Fetch(container).0]
            && after.networks[name].taken.Keys == s.networks[name].taken.Keys + {container}
            && after.repository ==
               if name in s.repository.codes && bridged && stored
               then s.repository.Join(s.repository.codes[name], MembersOf(s.networks[name].Fetch(container).0.TotalTaken()), container)
               else s.repository
  {
    FetchKeys(s.networks[name], container);
    assert SUBNET in RESERVED;
    assert SUBNET in s.networks[name].Fetch(container).0.taken;
  }

  lemma KeysAgree(keys: set<string>, members: set<string>, reserved: set<string>, c: string, joined: set<string>)
    requires members !! reserved && keys == reserved + members
    requires joined == members || joined == members + {c}
    ensures joined !! reserved && keys + {c} == reserved + joined <==>
            c in members || (c in joined <==> c !in reserved)
  {
    if joined !! reserved && keys + {c} == reserved + joined {
      assert c in reserved + joined;
    }
  }

  /**
   * A join keeps the agreement exactly when: the block is exhausted (nothing happens), or the
   * container is a member already, or it goes through for an ordinary identifier, or it fails for a
   * reserved one. A failed join of a newcomer leaves its address allocated; a reserved identifier
   * that joins is handed the reserved address.
   */
  lemma JoinAgreesExactly(s: Service, name: string, container: string, bridged: bool, stored: bool)
    requires s.Valid() && s.AllAgree() && name in s.networks
    ensures s.Join(name, container, bridged, stored).0.AllAgree() <==>
            || |s.networks[name].taken| == s.networks[name].block.Capacity()
            || container in s.repository.Members(name)
            || ((name in s.repository.codes && bridged && stored) <==> container !in RESERVED)
  {
    ExhaustedExactly(s.networks[name], container);
    if s.networks[name].Fetch(container).1.Some? {
      JoinAgreesWhenServed(s, name, container, bridged, stored);
    } else {
      JoinOfFullNetwork(s, name, container, bridged, stored);
    }
  }

  lemma JoinOfFullNetwork(s: Service, name: string, container: string, bridged: bool, stored: bool)
    requires s.Shaped() && name in s.networks && s.networks[name].Fetch(container).1.None?
    ensures s.Join(name, container, bridged, stored).0 == s
  {
    assert s.networks[name := s.networks[name]] == s.networks;
  }

  lemma JoinMembers(s: Service, name: string, container: string, bridged: bool, stored: bool, n: string)
    requires s.Shaped() && name in s.networks && s.Agrees(name) && s.networks[name].Fetch(container).1.Some?
    ensures var after := s.Join(name, container, bridged, stored).0.repository;
            if n != name then after.Members(n) == s.repository.Members(n)
            else after.Members(n).Keys == s.repository.Members(n).Keys +
                 if name in s.repository.codes && bridged && stored then {container} else {}
  {
    JoinKeys(s, name, container, bridged, stored);
    if name in s.repository.codes {
      JoinKeepsOthers(s.repository, name, MembersOf(s.networks[name].Fetch(container).0.TotalTaken()), container, n);
    }
  }

  lemma JoinAgreesAt(s: Service, name: string, container: string, bridged: bool, stored: bool, n: string)
    requires s.Shaped() && s.AllAgree() && name in s.networks && s.networks[name].Fetch(container).1.Some?
    requires n in s.networks
    ensures n in s.Join(name, container, bridged, stored).0.networks
    ensures s.Join(name, container, bridged, stored).0.Agrees(n) <==>
            || n != name
            || container in s.repository.Members(name)
            || ((name in s.repository.codes && bridged && stored) <==> container !in RESERVED)
  {
    assert s.Agrees(n) && s.Agrees(name);
    JoinKeys(s, name, container, bridged, stored);
    JoinMembers(s, name, container, bridged, stored, n);
    if n == name {
      var joined := s.Join(name, container, bridged, stored).0.repository.Members(name).Keys;
      KeysAgree(s.networks[name].taken.Keys, s.repository.Members(name).Keys, RESERVED, container, joined);
    }
  }

  lemma JoinAgreesWhenServed(s: Service, name: string, container: string, bridged: bool, stored: bool)
    requires s.Shaped() && s.AllAgree() && name in s.networks && s.networks[name].Fetch(container).1.Some?
    ensures s.Join(name, container, bridged, stored).0.AllAgree() <==>
            || container in s.repository.Members(name)
            || ((name in s.repository.codes && bridged && stored) <==> container !in RESERVED)
  {
    var after := s.Join(name, container, bridged, stored).0;
    assert after.networks.Keys == s.networks.Keys;
    forall n | n in s.networks {
      JoinAgreesAt(s, name, container, bridged, stored, n);
    }
    JoinAgreesAt(s, name, container, bridged, stored, name);
  }

  /** What a leave that got past the bridge does. */
  lemma LeaveEffect(s: Service, name: string, container: string, erased: bool, n: string)
    requires s.Shaped() && name in s.networks
    requires s.Leave(name, container, true, erased).1 in {Done, StorageFailed}
    ensures var after := s.Leave(name, container, true, erased).0;
            && after.networks == s.networks[name := s.networks[name].Remove(container)]
            && after.networks[name].taken.Keys == s.networks[name].taken.Keys - {container}
            && if n != name then after.repository.Members(n) == s.repository.Members(n)
               else after.repository.Members(n).Keys == s.repository.Members(n).Keys - (if erased then {container} else {})
  {
  }

  lemma LeaveAgreesAt(s: Service, name: string, container: string, erased: bool, n: string)
    requires s.Shaped() && s.AllAgree() && name in s.networks && n in s.networks
    requires s.Leave(name, container, true, erased).1 in {Done, StorageFailed}
    ensures n in s.Leave(name, container, true, erased).0.networks
    ensures s.Leave(name, container, true, erased).0.Agrees(n) <==> n != name || erased
  {
    assert s.Agrees(n) && s.Agrees(name);
    LeaveEffect(s, name, container, erased, n);
    assert container in s.repository.Members(name).Keys;
  }

  lemma LeaveAgreesPastBridge(s: Service, name: string, container: string, erased: bool)
    requires s.Shaped() && s.AllAgree() && name in s.networks
    requires s.Leave(name, container, true, erased).1 in {Done, StorageFailed}
    ensures s.Leave(name, container, true, erased).0.AllAgree() <==> erased
  {
    LeaveEffect(s, name, container, erased, name);
    var after := s.Leave(name, container, true, erased).0;
    assert after.networks.Keys == s.networks.Keys;
    forall n | n in s.networks {
      LeaveAgreesAt(s, name, container, erased, n);
    }
    LeaveAgreesAt(s, name, container, erased, name);
  }

  /** A leave gets as far as the handler: the container is a recorded member, with two interface names. */
  predicate ReachesHandler(s: Service, name: string, container: string) {
    && name in s.networks && name in s.repository.codes
    && container in s.repository.Members(name) && SplitNames(s.repository.Members(name)[container]).Some?
  }

  /**
   * A leave breaks the agreement exactly when the container leaves the bridge and its row is not erased.
   */
  lemma LeaveAgreesExactly(s: Service, name: string, container: string, left: bool, erased: bool)
    requires s.Shaped() && s.AllAgree()
    ensures s.Leave(name, container, left, erased).0.AllAgree() <==>
            !(ReachesHandler(s, name, container) && left && !erased)
  {
    if ReachesHandler(s, name, container) && left {
      LeaveAgreesPastBridge(s, name, container, erased);
    }
  }

  // ---------------------------------------------------------------------------------------
  // Every run
  // ---------------------------------------------------------------------------------------

  datatype Op =
    | AddOp(entry: Entry, hasBridge: bool, removed: bool, created: bool, stored: bool, updated: bool)
    | JoinOp(name: string, container: string, bridged: bool, stored: bool)
    | LeaveOp(name: string, container: string, left: bool, erased: bool)

  ghost function Apply(s: Service, op: Op): (Service, Outcome)
    requires s.Valid() && (op.AddOp? ==> op.entry.subnet.WellFormed())
  {
    match op
    case AddOp(entry, hasBridge, removed, created, stored, updated) => s.Add(entry, hasBridge, removed, created, stored, updated)
    case JoinOp(name, container, bridged, stored) => s.Join(name, container, bridged, stored)
    case LeaveOp(name, container, left, erased) => s.Leave(name, container, left, erased)
  }

  /** The operations the agreement survives, by what is known when they are called and answered. */
  ghost predicate Sound(s: Service, op: Op)
    requires s.Valid()
  {
    match op
    case AddOp(entry, hasBridge, removed, _, _, _) =>
      && entry.subnet.WellFormed() && entry.subnet.prefix <= 30
      && (entry.name in s.networks || (hasBridge && !removed) || s.repository.Members(entry.name).Keys == {})
    case JoinOp(name, container, bridged, stored) =>
      name in s.networks ==>
        || |s.networks[name].taken| == s.networks[name].block.Capacity()
        || container in s.repository.Members(name)
        || ((name in s.repository.codes && bridged && stored) <==> container !in RESERVED)
    case LeaveOp(name, container, left, erased) => !(ReachesHandler(s, name, container) && left && !erased)
  }

  ghost predicate SoundRun(s: Service, ops: seq<Op>)
    requires s.Valid()
    decreases |ops|
  {
    ops != [] ==>
      && Sound(s, ops[0])
      && (StepValid(s, ops[0]); SoundRun(Apply(s, ops[0]).0, ops[1..]))
  }

  ghost function Run(s: Service, ops: seq<Op>): Service
    requires s.Valid() && SoundRun(s, ops)
    decreases |ops|
  {
    if ops == [] then s
    else
      StepValid(s, ops[0]);
      Run(Apply(s, ops[0]).0, ops[1..])
  }

  lemma StepValid(s: Service, op: Op)
    requires s.Valid() && Sound(s, op)
    ensures Apply(s, op).0.Valid()
  {
    match op
    case AddOp(entry, hasBridge, removed, created, stored, updated) => AddValid(s, entry, hasBridge, removed, created, stored, updated);
    case JoinOp(name, container, bridged, stored) => JoinValid(s, name, container, bridged, stored);
    case LeaveOp(name, container, left, erased) => LeaveValid(s, name, container, left, erased);
  }

  lemma StepAgrees(s: Service, op: Op)
    requires s.Valid() && s.AllAgree() && Sound(s, op)
    ensures Apply(s, op).0.AllAgree()
  {
    match op
    case AddOp(entry, hasBridge, removed, created, stored, updated) =>
      AddAgreesExactly(s, entry, hasBridge, removed, created, stored, updated);
    case JoinOp(name, container, bridged, stored) =>
      SoundJoin(s, name, container, bridged, stored);
    case LeaveOp(name, container, left, erased) =>
      SoundLeave(s, name, container, left, erased);
  }

  lemma SoundJoin(s: Service, name: string, container: string, bridged: bool, stored: bool)
    requires s.Valid() && s.AllAgree() && Sound(s, JoinOp(name, container, bridged, stored))
    ensures s.Join(name, container, bridged, stored).0.AllAgree()
  {
    if name in s.networks {
      JoinAgreesExactly(s, name, container, bridged, stored);
    }
  }

  lemma SoundLeave(s: Service, name: string, container: string, left: bool, erased: bool)
    requires s.Valid() && s.AllAgree() && Sound(s, LeaveOp(name, container, left, erased))
    ensures s.Leave(name, container, left, erased).0.AllAgree()
  {
    LeaveAgreesExactly(s, name, container, left, erased);
  }

  /** Along every run of such operations allocators and repository agree. */
  lemma {:induction false} RunAgrees(s: Service, ops: seq<Op>)
    requires s.Valid() && s.AllAgree() && SoundRun(s, ops)
    ensures Run(s, ops).Valid() && Run(s, ops).AllAgree()
    decreases |ops|
  {
    if ops != [] {
      StepValid(s, ops[0]);
      StepAgrees(s, ops[0]);
      RunAgrees(Apply(s, ops[0]).0, ops[1..]);
    }
  }

  /** What agreement means: the count is the member count, and members hold distinct, unreserved addresses. */
  lemma AgreementMeans(s: Service, name: string, i: string, j: string)
    requires s.Valid() && name in s.networks && s.Agrees(name)
    requires i in s.repository.Members(name) && (j in s.repository.Members(name) || j in RESERVED) && i != j
    ensures s.networks[name].TotalTaken() == |s.repository.Members(name)|
    ensures var taken := s.networks[name].taken;
            i in taken && j in taken && taken[i].value != taken[j].value
  {
    var members, taken := s.repository.Members(name).Keys, s.networks[name].taken;
    assert GATEWAY[0] != SUBNET[0];
    assert |RESERVED + members| == |RESERVED| + |members|;
    assert |taken| == |taken.Keys|;
  }

  /** A leave that goes through frees the address it was holding. */
  lemma LeaveFrees(s: Service, name: string, container: string, left: bool, erased: bool)
    requires s.Valid() && s.AllAgree()
    requires s.Leave(name, container, left, erased).1 == Done
    ensures container in s.networks[name].taken
    ensures var after := s.Leave(name, container, left, erased).0;
            && container !in after.repository.Members(name)
            && s.networks[name].taken[container].value !in Used(after.networks[name].taken)
  {
    assert s.Agrees(name);
    UsedWithout(s.networks[name].taken, container);
  }

  // ---------------------------------------------------------------------------------------
  // Where the agreement is lost
  // ---------------------------------------------------------------------------------------

  /** A network just added, with nobody in it yet. */
  function Fresh(name: string, code: string, block: Cidr.Block): Service
    requires block.WellFormed()
  {
    Service(map[name := Reserved(block)], Repository(map[name := code], map[name := map[]]))
  }

  lemma FreshAgrees(name: string, code: string, block: Cidr.Block)
    requires block.WellFormed() && block.prefix <= 30
    ensures Fresh(name, code, block).Valid() && Fresh(name, code, block).AllAgree()
  {
    ReservedValid(block);
    FreshAgreement(Fresh(name, code, block), Entry(name, code, block));
  }

  lemma RoomForMore(block: Cidr.Block)
    requires block.WellFormed() && block.prefix <= 29
    ensures |Reserved(block).taken| < block.Capacity()
  {
    assert Cidr.Pow2(3) == 8;
    Cidr.Pow2Grows(3, Cidr.WIDTH - block.prefix);
    assert |Reserved(block).taken.Keys| == |RESERVED|;
  }

  /** The first join of a new network, refused by the handler: the address stays taken by a container that is no member. */
  lemma RefusedJoinExample(name: string, code: string, block: Cidr.Block, container: string)
    requires block.WellFormed() && block.prefix <= 29 && container !in RESERVED
    ensures var s := Fresh(name, code, block);
            s.Valid() && s.AllAgree() && s.Join(name, container, false, true).1 == HandlerFailed
            && !s.Join(name, container, false, true).0.AllAgree()
  {
    var s := Fresh(name, code, block);
    FreshAgrees(name, code, block);
    RoomForMore(block);
    ExhaustedExactly(s.networks[name], container);
    JoinAgreesExactly(s, name, container, false, true);
  }

  /** A container joins and leaves, and the repository fails to erase its row: a member without an address. */
  lemma KeptRowExample(name: string, code: string, block: Cidr.Block, container: string)
    requires block.WellFormed() && block.prefix <= 29 && container !in RESERVED
    ensures var s := Fresh(name, code, block).Join(name, container, true, true).0;
            s.Valid() && s.AllAgree() && s.Leave(name, container, true, false).1 == StorageFailed
            && !s.Leave(name, container, true, false).0.AllAgree()
  {
    FreshAgrees(name, code, block);
    var s := Fresh(name, code, block);
    RoomForMore(block);
    ExhaustedExactly(s.networks[name], container);
    JoinValid(s, name, container, true, true);
    JoinAgreesExactly(s, name, container, true, true);
    JoinRecords(s, name, container);
    LeaveAgreesExactly(s.Join(name, container, true, true).0, name, container, true, false);
  }

  lemma JoinRecords(s: Service, name: string, container: string)
    requires s.Valid() && name in s.networks && name in s.repository.codes
    requires SUBNET in s.networks[name].taken && s.networks[name].Fetch(container).1.Some?
    requires s.networks[name].Fetch(container).0.taken.Keys >= s.networks[name].taken.Keys
    ensures ReachesHandler(s.Join(name, container, true, true).0, name, container)
  {
    var total := s.networks[name].Fetch(container).0.TotalTaken();
    JoinKeepsOthers(s.repository, name, MembersOf(total), container, name);
    MembersRoundTrip(total);
  }

  /** A network that storage remembers with a member is added anew: the new allocator knows nothing of the member. */
  lemma RememberedMemberExample(entry: Entry, container: string, members: string)
    requires entry.subnet.WellFormed()
    ensures var s := Service(map[], Repository(map[entry.name := entry.code], map[entry.name := map[container := members]]));
            s.Valid() && s.AllAgree() && !s.Add(entry, false, true, true, true, true).0.AllAgree()
  {
    var s := Service(map[], Repository(map[entry.name := entry.code], map[entry.name := map[container := members]]));
    assert container in s.repository.Members(entry.name).Keys;
    AddAgreesExactly(s, entry, false, true, true, true, true);
  }

  // ---------------------------------------------------------------------------------------
  // Interface names through the repository
  // ---------------------------------------------------------------------------------------

  lemma SplitJoined(a: string, b: string)
    requires ',' !in a && ',' !in b
    ensures SplitNames(JoinNames((a, b))) == Some((a, b))
  {
    var s := a + [','] + b;
    Text.IndexOfSplit(a, ',', b);
    assert JoinNames((a, b)) == s;
    assert s[..|a|] == a && s[|a| + 1..] == b && b[..|b|] == b;
  }

  /** The code of a container counts the members before it, so different counts have different interface names. */
  lemma OrderCodes(total: nat, other: nat)
    requires 1 <= total <= Decimal.LIMIT && 1 <= other <= Decimal.LIMIT
    ensures OrderCode(total) == "jp" + Decimal.Print(total - 1)
    ensures InterfaceNames(OrderCode(total)) == (OrderCode(total) + "a", OrderCode(total) + "b")
    ensures total != other ==> OrderCode(total) != OrderCode(other)
    ensures total != other ==> MembersOf(total) != MembersOf(other)
  {
    CodeIs(total);
    if total != other {
      CodesDiffer(total, other);
      MembersRoundTrip(total);
      MembersRoundTrip(other);
      NamesDiffer(OrderCode(total), OrderCode(other));
    }
  }

  /** What is recorded: both names with a comma between them. */
  lemma MembersAre(total: nat)
    ensures MembersOf(total) == OrderCode(total) + "a" + ("," + (OrderCode(total) + "b"))
  {
  }

  lemma CodesDiffer(total: nat, other: nat)
    requires 1 <= total <= Decimal.LIMIT && 1 <= other <= Decimal.LIMIT && total != other
    ensures OrderCode(total) != OrderCode(other)
  {
    CodeIs(total);
    CodeIs(other);
    Decimal.PrintDiffers(total - 1, other - 1);
    Prefixed("jp", Decimal.Print(total - 1), Decimal.Print(other - 1));
  }

  lemma CodeIs(total: nat)
    requires 1 <= total <= Decimal.LIMIT
    ensures OrderCode(total) == "jp" + Decimal.Print(total - 1)
  {
    assert (total + Decimal.LIMIT - 1) % Decimal.LIMIT == total - 1;
  }

  lemma Prefixed(p: string, a: string, b: string)
    requires a != b
    ensures p + a != p + b
  {
    assert (p + a)[|p|..] == a && (p + b)[|p|..] == b;
  }

  lemma NamesDiffer(a: string, b: string)
    requires a != b
    ensures InterfaceNames(a) != InterfaceNames(b)
  {
    assert (a + "a")[..|a|] == a && (b + "a")[..|b|] == b;
    assert a + "a" == b + "a" ==> |a| == |b|;
  }

  /** What a join records is what a leave later splits into the two interface names. */
  lemma MembersRoundTrip(total: nat)
    ensures SplitNames(MembersOf(total)) == Some(InterfaceNames(OrderCode(total)))
  {
    var digits := Decimal.Print((total + Decimal.LIMIT - 1) % Decimal.LIMIT);
    var (a, b) := InterfaceNames(OrderCode(total));
    assert forall c | c in digits :: Decimal.IsDigit(c);
    assert ',' !in a && ',' !in b;
    SplitJoined(a, b);
  }
}
