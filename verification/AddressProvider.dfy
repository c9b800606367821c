/** The IPv4 allocator: the least free address of a block, kept under the holder's identifier. */
module AddressProvider {
  import opened Wrappers
  import opened Cidr

  const GATEWAY := "gateway"
  const SUBNET := "subnet"

  datatype AddressType = V4 | V6

  datatype IpAddress = IpAddress(value: nat, netmask: nat, broadcast: nat, block: Block)

  function Describe(value: nat, block: Block): IpAddress
    requires block.WellFormed()
  {
    Pow2Grows(WIDTH - block.prefix, WIDTH);
    IpAddress(value, Pow2(WIDTH) - Pow2(WIDTH - block.prefix), block.Last(), block)
  }

  type Taken = map<string, IpAddress>

  function Used(taken: Taken): set<nat> {
    set id | id in taken :: taken[id].value
  }

  /** The first address of [first, last) that nobody uses. */
  function LeastFree(first: nat, last: nat, used: set<nat>): (r: Option<nat>)
    requires first <= last
    ensures r.None? <==> forall x | first <= x < last :: x in used
    ensures r.Some? ==> first <= r.value < last && r.value !in used
    ensures r.Some? ==> forall x | first <= x < r.value :: x in used
    decreases last - first
  {
    if first == last then None
    else if first !in used then Some(first)
    else LeastFree(first + 1, last, used)
  }

  /** The abstract allocator: the block it hands out and who holds what. */
  datatype Pool = Pool(block: Block, taken: Taken) {

    predicate WellFormed() {
      block.WellFormed()
    }

    /** Held addresses are pairwise distinct and lie in the block, its last address excluded. */
    ghost predicate Valid() {
      && WellFormed()
      && (forall id | id in taken :: block.First() <= taken[id].value < block.Last())
      && (forall id | id in taken :: taken[id] == Describe(taken[id].value, block))
      && (forall i, j | i in taken && j in taken && i != j :: taken[i].value != taken[j].value)
    }

    function Free(): Option<nat>
      requires WellFormed()
    {
      LeastFree(block.First(), block.Last(), Used(taken))
    }

    /** emplace leaves an existing entry alone, and what is stored is returned. */
    function Fetch(id: string): (r: (Pool, Option<IpAddress>))
      requires WellFormed()
    {
      match Free()
      case None => (this, None)
      case Some(a) =>
        if id in taken then (this, Some(taken[id]))
        else (Pool(block, taken[id := Describe(a, block)]), Some(Describe(a, block)))
    }

    function Remove(id: string): Pool {
      Pool(block, taken - {id})
    }

    /** size() - 2 in unsigned 64-bit arithmetic. */
    function TotalTaken(): nat {
      if |taken| >= 2 then |taken| - 2 else 0x1_0000_0000_0000_0000 + |taken| - 2
    }
  }

  function Reserved(block: Block): Pool
    requires block.WellFormed()
  {
    Pool(block, map[GATEWAY := Describe(block.First(), block), SUBNET := Describe(block.First() + 1, block)])
  }

  class AddressProvider {
    const block: Block
    var first: nat
    var last: nat
    var taken: Taken

    constructor (block: Block)
      ensures this.block == block && taken == map[]
    {
      this.block := block;
      first, last, taken := 0, 0, map[];
    }

    ghost predicate Ready()
      reads this
    {
      block.WellFormed() && first == block.First() && last == block.Last()
    }

    function View(): Pool
      reads this
    {
      Pool(block, taken)
    }

    /** Reserves two addresses. The loop comes to an end for these prefixes only: ReservationEnds. */
    method Initialize()
      requires block.WellFormed() && block.prefix <= 30 && taken == map[]
      modifies this
      ensures Ready() && View() == Reserved(block)
    {
      AddressSpace();
      first, last := GenerateIpV4Range(block);
      ghost var size := block.Size();
      RoomForTwo(block);
      var reserveCount := 0;
      while reserveCount < 2
        invariant Ready() && reserveCount <= 2
        invariant View() == Reserving(block, reserveCount).0
        invariant Reserving(block, reserveCount).1 == reserveCount
        decreases 2 - reserveCount
      {
        ReservationCount(block, reserveCount);
        ReservationCount(block, reserveCount + 1);
        var result := FetchNextAvailableIpV4();
        if result.Some? {
          var identifier := if reserveCount == 0 then GATEWAY else SUBNET;
          if identifier !in taken {
            taken := taken[identifier := Describe(result.value, block)];
          }
          reserveCount := reserveCount + 1;
        }
      }
      ReservedPool(block);
    }

    method FetchSubnet() returns (r: Option<IpAddress>)
      ensures r == if SUBNET in taken then Some(taken[SUBNET]) else None
    {
      r := if SUBNET in taken then Some(taken[SUBNET]) else None;
    }

    /** The search for the first address of the range that no entry uses. */
    method FetchNextAvailableIpV4() returns (r: Option<nat>)
      requires Ready()
      ensures r == View().Free()
    {
      var used := Used(taken);
      var a := first;
      while a != last && a in used
        invariant first <= a <= last
        invariant LeastFree(a, last, used) == LeastFree(first, last, used)
        decreases last - a
      {
        a := a + 1;
      }
      r := if a == last then None else Some(a);
    }

    /** A request for an IPv6 address is answered with nothing: its branch sits under the IPv4 test. */
    method FetchNextAvailable(identifier: string, kind: AddressType) returns (r: Option<IpAddress>)
      requires Ready()
      modifies this`taken
      ensures kind == V4 ==> View() == old(View()).Fetch(identifier).0 && r == old(View()).Fetch(identifier).1
      ensures kind == V6 ==> View() == old(View()) && r == None
    {
      r := None;
      if kind == V4 {
        var result := FetchNextAvailableIpV4();
        if result.Some? {
          if identifier !in taken {
            taken := taken[identifier := Describe(result.value, block)];
          }
          r := Some(taken[identifier]);
        }
      }
    }

    method Remove(identifier: string) returns (found: bool)
      modifies this`taken
      ensures View() == old(View()).Remove(identifier)
      ensures found <==> identifier in old(taken)
    {
      found := identifier in taken;
      taken := taken - {identifier};
    }

    method TotalTaken() returns (n: nat)
      ensures n == View().TotalTaken()
    {
      n := if |taken| >= 2 then |taken| - 2 else 0x1_0000_0000_0000_0000 + |taken| - 2;
    }
  }

  // ---------------------------------------------------------------------------------------
  // The reservation loop
  // ---------------------------------------------------------------------------------------

  /** State after n rounds of the reservation loop, and how many were reserved by then. */
  function Reserving(block: Block, n: nat): (r: (Pool, nat))
    requires block.WellFormed()
    ensures r.0.block == block
  {
    if n == 0 then (Pool(block, map[]), 0)
    else
      var (pool, count) := Reserving(block, n - 1);
      if count >= 2 then (pool, count)
      else
        match pool.Free()
        case None => (pool, count)
        case Some(a) =>
          var id := if count == 0 then GATEWAY else SUBNET;
          (if id in pool.taken then pool else Pool(block, pool.taken[id := Describe(a, block)]), count + 1)
  }

  /** After n rounds, min(n, 2, capacity) addresses are reserved, from the first one up. */
  lemma {:induction false} ReservationCount(block: Block, n: nat)
    requires block.WellFormed()
    ensures var (pool, count) := Reserving(block, n);
            && count == (if n <= 2 && n <= block.Capacity() then n else if block.Capacity() <= 2 then block.Capacity() else 2)
            && (count == 0 ==> pool.taken == map[])
            && (count == 1 ==> pool.taken == map[GATEWAY := Describe(block.First(), block)])
            && (count == 2 ==> pool == Reserved(block))
  {
    if n > 0 {
      ReservationCount(block, n - 1);
      var (pool, count) := Reserving(block, n - 1);
      if count == 0 {
        FreeAtFirst(block);
      } else if count == 1 {
        assert GATEWAY[0] != SUBNET[0];
        FreeAtSecond(block, GATEWAY);
      }
    }
  }

  lemma FreeAtFirst(block: Block)
    requires block.WellFormed()
    ensures Pool(block, map[]).Free() == if block.Capacity() == 0 then None else Some(block.First())
  {
    var used := Used(map[]);
    assert used == {};
    assert block.Capacity() > 0 ==> block.First() !in used;
  }

  lemma FreeAtSecond(block: Block, id: string)
    requires block.WellFormed()
    ensures Pool(block, map[id := Describe(block.First(), block)]).Free() ==
            if block.Capacity() <= 1 then None else Some(block.First() + 1)
  {
    var taken := map[id := Describe(block.First(), block)];
    assert taken[id].value == block.First();
    assert Used(taken) == {block.First()};
    assert block.First() + 1 !in Used(taken);
  }

  lemma ReservedPool(block: Block)
    requires block.WellFormed() && block.prefix <= 30
    ensures Reserving(block, 2).0 == Reserved(block)
  {
    RoomForTwo(block);
    ReservationCount(block, 2);
  }

  lemma RoomForTwo(block: Block)
    requires block.WellFormed()
    ensures block.Capacity() >= 2 <==> block.prefix <= 30
  {
    assert Pow2(2) == 4 && Pow2(1) == 2 && Pow2(0) == 1;
    if block.prefix <= 30 {
      Pow2Grows(2, WIDTH - block.prefix);
    } else {
      Pow2Grows(WIDTH - block.prefix, 1);
    }
  }

  /** The loop reaches its two reservations iff the prefix is at most 30; otherwise it never exits. */
  lemma ReservationEnds(block: Block)
    requires block.WellFormed()
    ensures (exists n: nat :: Reserving(block, n).1 == 2) <==> block.prefix <= 30
  {
    RoomForTwo(block);
    ReservationCount(block, 2);
    forall n: nat ensures Reserving(block, n).1 == 2 ==> block.prefix <= 30 {
      ReservationCount(block, n);
    }
  }

  // ---------------------------------------------------------------------------------------
  // Every run of fetches and removals
  // ---------------------------------------------------------------------------------------

  datatype Op = FetchOp(id: string) | RemoveOp(id: string)

  function Apply(p: Pool, op: Op): (r: Pool)
    requires p.WellFormed()
    ensures r.WellFormed() && r.block == p.block
  {
    match op
    case FetchOp(id) => p.Fetch(id).0
    case RemoveOp(id) => p.Remove(id)
  }

  function Run(p: Pool, ops: seq<Op>): (r: Pool)
    requires p.WellFormed()
    ensures r.WellFormed() && r.block == p.block
    decreases |ops|
  {
    if ops == [] then p else Run(Apply(p, ops[0]), ops[1..])
  }

  lemma ApplyValid(p: Pool, op: Op)
    requires p.Valid()
    ensures Apply(p, op).Valid()
  {
    if op.FetchOp? && p.Free().Some? && op.id !in p.taken {
      var a := p.Free().value;
      forall i | i in p.taken ensures p.taken[i].value != a {
        assert p.taken[i].value in Used(p.taken);
      }
    }
  }

  /** Along every run held addresses stay pairwise distinct, inside the block, and off its broadcast address. */
  lemma {:induction false} RunValid(p: Pool, ops: seq<Op>)
    requires p.Valid()
    ensures Run(p, ops).Valid()
    decreases |ops|
  {
    if ops != [] {
      ApplyValid(p, ops[0]);
      RunValid(Apply(p, ops[0]), ops[1..]);
    }
  }

  /** What an identifier holds it keeps until it is removed. */
  lemma {:induction false} EntryStays(p: Pool, ops: seq<Op>, id: string)
    requires p.WellFormed() && id in p.taken && RemoveOp(id) !in ops
    ensures id in Run(p, ops).taken && Run(p, ops).taken[id] == p.taken[id]
    decreases |ops|
  {
    if ops != [] {
      assert ops[0] in ops;
      EntryStays(Apply(p, ops[0]), ops[1..], id);
    }
  }

  /** A netmask of `prefix` one bits and zeros behind them, the last address of the block as broadcast, and the block itself. */
  predicate Masked(a: IpAddress, block: Block) {
    && block.prefix <= 32
    && a.netmask + Pow2(32 - block.prefix) == 0x1_0000_0000
    && a.broadcast + 1 == block.address - block.address % Pow2(32 - block.prefix) + Pow2(32 - block.prefix)
    && a.block == block
  }

  lemma DescribedIsMasked(value: nat, block: Block)
    requires block.WellFormed()
    ensures Masked(Describe(value, block), block)
  {
    AddressSpace();
  }

  ghost predicate AllMasked(p: Pool) {
    forall id | id in p.taken :: Masked(p.taken[id], p.block)
  }

  lemma {:induction false} RunIsMasked(p: Pool, ops: seq<Op>)
    requires p.WellFormed() && AllMasked(p)
    ensures AllMasked(Run(p, ops))
    decreases |ops|
  {
    if ops != [] {
      if ops[0].FetchOp? {
        FetchIsMasked(p, ops[0].id);
      }
      RunIsMasked(Apply(p, ops[0]), ops[1..]);
    }
  }

  lemma FetchIsMasked(p: Pool, id: string)
    requires p.WellFormed() && AllMasked(p)
    ensures AllMasked(p.Fetch(id).0)
    ensures p.Fetch(id).1.Some? ==> Masked(p.Fetch(id).1.value, p.block)
  {
    if p.Free().Some? {
      DescribedIsMasked(p.Free().value, p.block);
    }
  }

  /** Over every run, what is held, reserved or handed out has the netmask and the broadcast address of the block. */
  lemma EveryAddressIsMasked(block: Block, ops: seq<Op>, id: string)
    requires block.WellFormed() && block.prefix <= 30
    ensures var p := Run(Reserved(block), ops);
            && (forall holder | holder in p.taken :: Masked(p.taken[holder], block))
            && (p.Fetch(id).1.Some? ==> Masked(p.Fetch(id).1.value, block))
  {
    DescribedIsMasked(block.First(), block);
    DescribedIsMasked(block.First() + 1, block);
    RunIsMasked(Reserved(block), ops);
    FetchIsMasked(Run(Reserved(block), ops), id);
  }

  /** In 172.23.0.0/16 the first address handed out is 172.23.0.2, with 255.255.0.0 and 172.23.255.255. */
  lemma FirstAddressExample(id: string)
    requires id != "gateway" && id != "subnet"
    ensures Block(0xAC17_0000, 16).WellFormed()
    ensures var r := Reserved(Block(0xAC17_0000, 16)).Fetch(id).1;
            r.Some? && r.value.value == 0xAC17_0002 && r.value.netmask == 0xFFFF_0000 && r.value.broadcast == 0xAC17_FFFF
  {
    AddressSpace();
    FirstInBlock(Block(0xAC17_0000, 16), id);
    EveryAddressIsMasked(Block(0xAC17_0000, 16), [], id);
  }

  lemma FirstInBlock(block: Block, id: string)
    requires block.WellFormed() && block.prefix <= 29 && id != GATEWAY && id != SUBNET
    ensures Reserved(block).Fetch(id).1.Some? && Reserved(block).Fetch(id).1.value.value == block.First() + 2
  {
    assert Pow2(3) == 2 * Pow2(2) && Pow2(2) == 2 * Pow2(1) && Pow2(1) == 2;
    Pow2Grows(3, WIDTH - block.prefix);
    ReservedIsConsecutive(block);
    NextInLine(Reserved(block), 2);
  }

  /**
   * As long as nobody removes the reserved identifiers, the gateway stays the first address of the
   * block and the subnet the second, and the total counts the holders beside those two.
   */
  lemma ReservedStay(block: Block, ops: seq<Op>)
    requires block.WellFormed() && block.prefix <= 30
    requires RemoveOp(GATEWAY) !in ops && RemoveOp(SUBNET) !in ops
    ensures var p := Run(Reserved(block), ops);
            var first := block.address - block.address % Pow2(32 - block.prefix);
            && "gateway" in p.taken && p.taken["gateway"].value == first
            && "subnet" in p.taken && p.taken["subnet"].value == first + 1
            && p.TotalTaken() == |p.taken.Keys - {"gateway", "subnet"}|
  {
    assert GATEWAY[0] != SUBNET[0];
    EntryStays(Reserved(block), ops, GATEWAY);
    EntryStays(Reserved(block), ops, SUBNET);
    CountBeside(Run(Reserved(block), ops).taken, GATEWAY, SUBNET);
  }

  lemma CountBeside(taken: Taken, i: string, j: string)
    requires i in taken && j in taken && i != j
    ensures |taken| == |taken.Keys - {i, j}| + 2
  {
    var rest := taken.Keys - {i, j};
    assert taken.Keys == rest + {i, j};
    assert |taken| == |taken.Keys| && |{i, j}| == 2;
  }

  /** Dropping one holder frees its address and no other. */
  lemma UsedWithout(taken: Taken, id: string)
    requires id in taken
    requires forall i, j | i in taken && j in taken && i != j :: taken[i].value != taken[j].value
    ensures taken[id].value in Used(taken) && Used(taken - {id}) == Used(taken) - {taken[id].value}
  {
    var rest := taken - {id};
    forall x | x in Used(taken) && x != taken[id].value ensures x in Used(rest) {
      var other :| other in taken && taken[other].value == x;
      assert other in rest && rest[other].value == x;
    }
    forall x | x in Used(rest) ensures x in Used(taken) && x != taken[id].value {
      var other :| other in rest && rest[other].value == x;
      assert other in taken && taken[other].value == x;
    }
  }

  lemma {:induction false} UsedCount(taken: Taken)
    requires forall i, j | i in taken && j in taken && i != j :: taken[i].value != taken[j].value
    ensures |Used(taken)| == |taken|
    decreases |taken|
  {
    if taken.Keys == {} {
      assert Used(taken) == {};
    } else {
      var id :| id in taken;
      var rest := taken - {id};
      UsedCount(rest);
      UsedWithout(taken, id);
      assert taken.Keys == rest.Keys + {id};
    }
  }

  function Interval(first: nat, last: nat): (r: set<nat>)
    ensures forall x :: x in r <==> first <= x < last
  {
    if first >= last then {} else Interval(first, last - 1) + {last - 1}
  }

  lemma {:induction false} IntervalCount(first: nat, last: nat)
    requires first <= last
    ensures |Interval(first, last)| == last - first
    decreases last
  {
    if first < last {
      IntervalCount(first, last - 1);
    }
  }

  lemma SubsetOfSameSize(a: set<nat>, b: set<nat>)
    requires a <= b && |a| == |b|
    ensures a == b
  {
    assert b == a + (b - a);
    assert |b| == |a| + |b - a|;
  }

  /** Pigeonhole: nothing is left exactly when all 2^(32-p) - 1 addresses are held. */
  lemma ExhaustedExactly(p: Pool, id: string)
    requires p.Valid()
    ensures p.Fetch(id).1.None? <==> |p.taken| == p.block.Capacity()
    ensures |p.taken| <= p.block.Capacity()
  {
    var first, last := p.block.First(), p.block.Last();
    UsedCount(p.taken);
    IntervalCount(first, last);
    assert Used(p.taken) <= Interval(first, last);
    SubsetCount(Used(p.taken), Interval(first, last));
    assert forall x | first <= x < last :: x in Interval(first, last);
    if |p.taken| == p.block.Capacity() {
      SubsetOfSameSize(Used(p.taken), Interval(first, last));
    }
    if p.Free().None? {
      assert Interval(first, last) == Used(p.taken);
    }
  }

  lemma {:induction false} SubsetCount(a: set<nat>, b: set<nat>)
    requires a <= b
    ensures |a| <= |b|
  {
    assert b == a + (b - a);
    assert |b| == |a| + |b - a|;
  }

  /** A newcomer gets the least free address; a holder gets its own back and nothing changes. */
  lemma FetchGives(p: Pool, id: string)
    requires p.Valid() && |p.taken| < p.block.Capacity()
    ensures p.Fetch(id).1.Some?
    ensures var (after, r) := p.Fetch(id);
            if id in p.taken then after == p && r.value == p.taken[id]
            else
              && after.taken == p.taken[id := r.value]
              && p.block.First() <= r.value.value < p.block.Last()
              && r.value.value !in Used(p.taken)
              && forall x | p.block.First() <= x < r.value.value :: x in Used(p.taken)
  {
    ExhaustedExactly(p, id);
  }

  /** Whoever asks, nobody is handed an address another identifier holds: in particular not a reserved one. */
  lemma NeverSharesAnAddress(p: Pool, id: string, other: string)
    requires p.Valid() && other in p.taken && other != id && p.Fetch(id).1.Some?
    ensures p.Fetch(id).1.value.value != p.taken[other].value
  {
    assert p.taken[other].value in Used(p.taken);
  }

  /** A returned address is next in line: a newcomer gets the smaller of it and what was free before. */
  lemma ReturnedAddressIsReused(p: Pool, id: string, newcomer: string)
    requires p.Valid() && id in p.taken && newcomer !in p.taken
    ensures var a := p.taken[id].value;
            var least := if p.Free().None? || a < p.Free().value then a else p.Free().value;
            p.Remove(id).Fetch(newcomer).1 == Some(Describe(least, p.block))
  {
    var a := p.taken[id].value;
    UsedWithout(p.taken, id);
    var free := p.Remove(id).Free();
    assert a !in Used(p.Remove(id).taken);
    if p.Free().Some? {
      assert p.Free().value !in Used(p.Remove(id).taken);
    }
  }

  lemma {:induction false} RunSnoc(p: Pool, ops: seq<Op>, op: Op)
    requires p.WellFormed()
    ensures Run(p, ops + [op]) == Apply(Run(p, ops), op)
    decreases |ops|
  {
    if ops == [] {
      assert Run(p, [op]) == Run(Apply(p, op), []);
    } else {
      assert (ops + [op])[1..] == ops[1..] + [op];
      RunSnoc(Apply(p, ops[0]), ops[1..], op);
    }
  }

  function Elements(ids: seq<string>): set<string> {
    set id | id in ids
  }

  /** The two reserved identifiers and then `ids`, in this order and without a gap. */
  ghost predicate Consecutive(p: Pool, reserved: set<string>, ids: seq<string>)
    requires p.WellFormed()
  {
    InOrder(p.taken, p.block, p.block.First(), reserved, ids)
  }

  ghost predicate InOrder(taken: Taken, block: Block, first: nat, reserved: set<string>, ids: seq<string>)
    requires block.WellFormed()
  {
    && taken.Keys == reserved + Elements(ids)
    && Used(taken) == Interval(first, first + 2 + |ids|)
    && HeldInOrder(taken, block, first + 2, ids)
  }

  ghost predicate HeldInOrder(taken: Taken, block: Block, from: nat, ids: seq<string>)
    requires block.WellFormed()
  {
    forall i | 0 <= i < |ids| :: ids[i] in taken && taken[ids[i]] == Describe(from + i, block)
  }

  lemma NextInLine(p: Pool, n: nat)
    requires p.WellFormed() && n < p.block.Capacity()
    requires Used(p.taken) == Interval(p.block.First(), p.block.First() + n)
    ensures p.Free() == Some(p.block.First() + n)
  {
    assert p.block.First() + n !in Used(p.taken);
  }

  lemma ElementsSnoc(front: seq<string>, id: string)
    ensures Elements(front + [id]) == Elements(front) + {id}
  {
  }

  lemma ConsecutiveStep(p: Pool, reserved: set<string>, front: seq<string>, id: string)
    requires p.WellFormed() && Consecutive(p, reserved, front) && |front| + 3 <= p.block.Capacity()
    requires id !in front && id !in reserved
    ensures Consecutive(Apply(p, FetchOp(id)), reserved, front + [id])
  {
    NotHeld(p.taken, reserved, front, id);
    FetchNext(p, 2 + |front|, id);
    InOrderSnoc(p.taken, p.block, p.block.First(), reserved, front, id);
  }

  lemma InOrderSnoc(taken: Taken, block: Block, first: nat, reserved: set<string>, front: seq<string>, id: string)
    requires block.WellFormed() && InOrder(taken, block, first, reserved, front) && id !in front && id !in reserved
    ensures InOrder(taken[id := Describe(first + 2 + |front|, block)], block, first, reserved, front + [id])
  {
    NotHeld(taken, reserved, front, id);
    UsedNext(taken, block, first, first + 2 + |front|, id);
    ElementsSnoc(front, id);
    AddressesSnoc(taken, block, first + 2, front, id);
  }

  lemma NotHeld(taken: Taken, reserved: set<string>, front: seq<string>, id: string)
    requires taken.Keys == reserved + Elements(front) && id !in reserved && id !in front
    ensures id !in taken
  {
  }

  /** A newcomer to a pool without gaps gets the address after the last. */
  lemma FetchNext(p: Pool, n: nat, id: string)
    requires p.WellFormed() && n < p.block.Capacity() && id !in p.taken
    requires Used(p.taken) == Interval(p.block.First(), p.block.First() + n)
    ensures Apply(p, FetchOp(id)) == Pool(p.block, p.taken[id := Describe(p.block.First() + n, p.block)])
  {
    NextInLine(p, n);
  }

  lemma UsedNext(taken: Taken, block: Block, first: nat, a: nat, id: string)
    requires block.WellFormed() && id !in taken && first <= a && Used(taken) == Interval(first, a)
    ensures Used(taken[id := Describe(a, block)]) == Interval(first, a + 1)
  {
    UsedWith(taken, id, Describe(a, block));
  }

  lemma AddressesSnoc(taken: Taken, block: Block, from: nat, front: seq<string>, id: string)
    requires block.WellFormed() && id !in front
    requires HeldInOrder(taken, block, from, front)
    ensures HeldInOrder(taken[id := Describe(from + |front|, block)], block, from, front + [id])
  {
    var ids := front + [id];
    forall i | 0 <= i < |front| ensures ids[i] == front[i] && ids[i] in front {
    }
  }

  lemma ReservedIsConsecutive(block: Block)
    requires block.WellFormed()
    ensures Consecutive(Reserved(block), {GATEWAY, SUBNET}, [])
  {
    var taken, a := Reserved(block).taken, block.First();
    assert GATEWAY[0] != SUBNET[0];
    assert taken[GATEWAY].value == a && taken[SUBNET].value == a + 1;
    assert Used(taken) == {a, a + 1};
    assert {a, a + 1} == Interval(a, a + 2);
  }

  lemma FetchOpsSnoc(front: seq<string>, id: string)
    ensures FetchOps(front + [id]) == FetchOps(front) + [FetchOp(id)]
  {
  }

  /** From the reserved pool, new identifiers get consecutive addresses, the third of the block first. */
  lemma {:induction false} ConsecutiveFetches(block: Block, ids: seq<string>)
    requires block.WellFormed() && |ids| + 2 <= block.Capacity()
    requires GATEWAY !in ids && SUBNET !in ids
    requires forall i, j | 0 <= i < j < |ids| :: ids[i] != ids[j]
    ensures Consecutive(Run(Reserved(block), FetchOps(ids)), {GATEWAY, SUBNET}, ids)
    decreases |ids|
  {
    if ids == [] {
      ReservedIsConsecutive(block);
    } else {
      var n := |ids| - 1;
      var front := ids[..n];
      assert ids == front + [ids[n]];
      assert GATEWAY !in front && SUBNET !in front && ids[n] !in front;
      ConsecutiveFetches(block, front);
      FetchOpsSnoc(front, ids[n]);
      RunSnoc(Reserved(block), FetchOps(front), FetchOp(ids[n]));
      ConsecutiveStep(Run(Reserved(block), FetchOps(front)), {GATEWAY, SUBNET}, front, ids[n]);
    }
  }

  lemma UsedWith(taken: Taken, id: string, info: IpAddress)
    requires id !in taken
    ensures Used(taken[id := info]) == Used(taken) + {info.value}
  {
    var more := taken[id := info];
    forall x | x in Used(taken) ensures x in Used(more) {
      var other :| other in taken && taken[other].value == x;
      assert other in more && more[other].value == x;
    }
    assert id in more && more[id].value == info.value;
  }

  function FetchOps(ids: seq<string>): seq<Op> {
    seq(|ids|, i requires 0 <= i < |ids| => FetchOp(ids[i]))
  }
}
