/**
 * Bridging a container on the host: a pair of interfaces is created, one end joins the bridge, the
 * other moves into the container, and explicit undo calls take back what was done when a step fails.
 */
module Bridge {
  import Wrappers
  import opened NetworkService

  /** One end of a pair, or the only end of another device. */
  datatype Interface = Interface(device: nat, second: bool)

  /**
   * What the kernel knows: interfaces the host sees by name, interfaces inside containers, bridge
   * membership (which stays with an interface when it is renamed), bridge devices, and containers.
   */
  datatype Kernel = Kernel(
    host: map<string, Interface>,
    jailed: map<(string, string), Interface>,
    bridged: map<Interface, Interface>,
    bridges: set<nat>,
    jails: set<string>)
  {
    /** Destroying one end of a pair destroys both, and a destroyed interface leaves its bridge. */
    function Without(device: nat): Kernel {
      Kernel(
        map n | n in host && host[n].device != device :: host[n],
        map p | p in jailed && jailed[p].device != device :: jailed[p],
        map i | i in bridged && i.device != device && bridged[i].device != device :: bridged[i],
        bridges - {device},
        jails)
    }

    predicate Unused(device: nat) {
      && (forall n | n in host :: host[n].device != device)
      && (forall p | p in jailed :: jailed[p].device != device)
      && (forall i | i in bridged :: i.device != device && bridged[i].device != device)
      && device !in bridges
    }

    function WithPair(first: string, second: string, device: nat): Kernel {
      Kernel(host[first := Interface(device, false)][second := Interface(device, true)], jailed, bridged, bridges, jails)
    }

    function Destroy(name: string): (Kernel, bool) {
      if name in host then (Without(host[name].device), true) else (this, false)
    }

    /** A name taken by another interface, or one that does not fit, is refused. */
    function Rename(from: string, to: string, allowed: bool): (Kernel, bool) {
      if allowed && from in host && |to| <= NAME_LIMIT && (to == from || to !in host)
      then (Kernel((host - {from})[to := host[from]], jailed, bridged, bridges, jails), true)
      else (this, false)
    }

    predicate IsBridge(name: string) {
      name in host && host[name].device in bridges
    }

    function Enslave(bridge: string, member: string, allowed: bool): (Kernel, bool) {
      if allowed && IsBridge(bridge) && member in host && host[member] !in bridged
      then (Kernel(host, jailed, bridged[host[member] := host[bridge]], bridges, jails), true)
      else (this, false)
    }

    function Release(bridge: string, member: string, allowed: bool): (Kernel, bool) {
      if allowed && IsBridge(bridge) && member in host && host[member] in bridged && bridged[host[member]] == host[bridge]
      then (Kernel(host, jailed, bridged - {host[member]}, bridges, jails), true)
      else (this, false)
    }

    /** An interface that changes sides leaves its bridge. */
    function Move(jail: string, name: string, allowed: bool): (Kernel, bool) {
      if allowed && name in host && jail in jails && (jail, name) !in jailed
      then (Kernel(host - {name}, jailed[(jail, name) := host[name]], bridged - {host[name]}, bridges, jails), true)
      else (this, false)
    }

    function Reclaim(jail: string, name: string, allowed: bool): (Kernel, bool) {
      if allowed && (jail, name) in jailed && name !in host
      then (Kernel(host[name := jailed[(jail, name)]], jailed - {(jail, name)}, bridged, bridges, jails), true)
      else (this, false)
    }

    function DestroyInside(jail: string, name: string): Kernel {
      if (jail, name) in jailed then Without(jailed[(jail, name)].device) else this
    }

    /** The state a successful bridging leaves: the first end in the bridge, the second in the container. */
    function Joined(order: Order, device: nat): Kernel
      requires Short(order.bridge) in host
    {
      var (first, second) := InterfaceNames(order.code);
      Kernel(
        host[first := Interface(device, false)],
        jailed[(order.container, second) := Interface(device, true)],
        bridged[Interface(device, false) := host[Short(order.bridge)]],
        bridges,
        jails)
    }

    /** What is left once the child in the container is done. */
    function Configured(order: Order, device: nat, child: Child): Kernel
      requires Short(order.bridge) in host
    {
      if child.Destroys() then this else Joined(order, device)
    }
  }

  /** Characters an interface name holds; copies into a request are cut there. */
  const NAME_LIMIT: nat := 15

  function Short(name: string): string {
    if |name| <= NAME_LIMIT then name else name[..NAME_LIMIT]
  }

  /** The second of two generated names, made out of the first. */
  function Partner(name: string): string
    requires name != ""
  {
    name[..|name| - 1] + "b"
  }

  datatype Order = Order(bridge: string, container: string, code: string)

  /** What the kernel answers when nothing in the modelled state speaks against a call. */
  datatype Answers = Answers(
    socket: bool, created: bool, renamedFirst: bool, renamedSecond: bool, activated: bool, enslaved: bool,
    moved: bool, reclaimed: bool, movedAgain: bool)

  datatype JailStep = Attaching | Opening | Renaming | Addressing | Activating | Routing | Finished

  /** The child that configures the interface in the container: where it stopped, and how that is seen. */
  datatype Child = NotForked | Forked(step: JailStep, waited: bool, killed: bool, status: nat)
  {
    /** These steps remove the interface before they give up. */
    predicate Destroys() {
      Forked? && (step == Renaming || step == Addressing || step == Activating)
    }

    /** A killed child is not taken for a failure. */
    predicate Fails() {
      NotForked? || !waited || (!killed && status != 0)
    }
  }

  /** Both ends get the names asked for. */
  predicate PairAccepted(k: Kernel, first: string, second: string, generated: string, answers: Answers)
    requires generated != ""
  {
    && answers.created && answers.renamedFirst && answers.renamedSecond
    && |first| <= NAME_LIMIT && (first == generated || first !in k.host)
    && |second| <= NAME_LIMIT && (second == Partner(generated) || second !in k.host)
  }

  predicate Movable(k: Kernel, container: string, name: string, answers: Answers) {
    container in k.jails && (container, name) !in k.jailed && (answers.moved || answers.movedAgain)
  }

  /** What an order needs to get as far as the configuration inside the container. */
  predicate Accepted(k: Kernel, order: Order, base: string, answers: Answers) {
    var (first, second) := InterfaceNames(order.code);
    && answers.socket
    && PairAccepted(k, first, second, base + "a", answers)
    && answers.activated
    && answers.enslaved && k.IsBridge(Short(order.bridge))
    && Movable(k, order.container, second, answers)
  }

  /** The kernel hands out an unused device and unused names ending in a and b. */
  predicate HandsOut(k: Kernel, base: string, device: nat) {
    k.Unused(device) && |base| < NAME_LIMIT && base + "a" !in k.host && base + "b" !in k.host
  }

  function Leave(k: Kernel, bridge: string, first: string, second: string, socket: bool, released: bool): (Kernel, bool) {
    var (out, left) := k.Release(Short(bridge), Short(first), socket && released);
    if !left then (k, false)
    else
      var (without, gone) := out.Destroy(Short(second));
      if !gone then (without, false) else without.Destroy(Short(first))
  }

  datatype Outcome = Failed | Bridged(names: string) | CallbackFailed

  class Handler {
    var kernel: Kernel

    constructor (kernel: Kernel)
      ensures this.kernel == kernel
    {
      this.kernel := kernel;
    }

    method RemoveInterface(name: string) returns (ok: bool)
      modifies this
      ensures (kernel, ok) == old(kernel).Destroy(Short(name))
    {
      var (after, done) := kernel.Destroy(Short(name));
      kernel, ok := after, done;
    }

    method AddMember(bridge: string, member: string, allowed: bool) returns (ok: bool)
      modifies this
      ensures (kernel, ok) == old(kernel).Enslave(Short(bridge), Short(member), allowed)
    {
      var (after, done) := kernel.Enslave(Short(bridge), Short(member), allowed);
      kernel, ok := after, done;
    }

    method DeleteMember(bridge: string, member: string, allowed: bool) returns (ok: bool)
      modifies this
      ensures (kernel, ok) == old(kernel).Release(Short(bridge), Short(member), allowed)
    {
      var (after, done) := kernel.Release(Short(bridge), Short(member), allowed);
      kernel, ok := after, done;
    }

    /** Either both ends exist under the asked names, or nothing is left of them. */
    method CreatePair(first: string, second: string, generated: string, device: nat, answers: Answers) returns (ok: bool)
      requires kernel.Unused(device) && generated != "" && |generated| <= NAME_LIMIT && generated != Partner(generated)
      requires generated !in kernel.host && Partner(generated) !in kernel.host
      requires first != second && first != Partner(generated)
      modifies this
      ensures ok <==> PairAccepted(old(kernel), first, second, generated, answers)
      ensures kernel == if ok then old(kernel).WithPair(first, second, device) else old(kernel)
    {
      if !answers.created {
        return false;
      }
      ghost var before := kernel;
      var partner := Partner(generated);
      kernel := kernel.WithPair(generated, partner, device);
      PairRenamed(before, generated, first, partner, second, device, answers);
      WithPairWithout(before, generated, partner, device);
      var (named, renamed) := kernel.Rename(generated, first, answers.renamedFirst);
      if !renamed {
        TakeBack(partner, generated, before, device);
        return false;
      }
      kernel := named;
      WithPairWithout(before, first, partner, device);
      var (both, renamedBoth) := kernel.Rename(partner, second, answers.renamedSecond);
      if !renamedBoth {
        TakeBack(partner, first, before, device);
        return false;
      }
      kernel := both;
      return true;
    }

    /** The undo calls, second end first: the second call finds nothing left to remove. */
    method TakeBack(second: string, first: string, ghost before: Kernel, ghost device: nat)
      requires |second| <= NAME_LIMIT && |first| <= NAME_LIMIT
      requires kernel.Without(device) == before && first !in before.host
      requires first in kernel.host && kernel.host[first].device == device
      requires second in kernel.host ==> kernel.host[second].device == device
      modifies this
      ensures kernel == before
    {
      var removed := RemoveInterface(second);
      removed := RemoveInterface(first);
    }

    /** A name clash in the container leads to a reclaim, which finds the name taken on the host. */
    method MoveInterfaceToJail(name: string, container: string, answers: Answers) returns (ok: bool)
      requires name in kernel.host
      modifies this
      ensures ok <==> Movable(old(kernel), container, name, answers)
      ensures kernel == if ok then old(kernel).Move(container, name, true).0 else old(kernel)
    {
      if container !in kernel.jails {
        return false;
      }
      var clash := (container, name) in kernel.jailed;
      var (after, moved) := kernel.Move(container, name, answers.moved);
      kernel := after;
      if !moved {
        if clash {
          var (reclaimed, back) := kernel.Reclaim(container, name, answers.reclaimed);
          kernel := reclaimed;
          if !back {
            return false;
          }
        }
        var (again, movedAgain) := kernel.Move(container, name, answers.movedAgain);
        kernel := again;
        return movedAgain;
      }
      return true;
    }

    method AddInterfaceToJail(container: string, name: string, child: Child) returns (ok: bool)
      modifies this
      ensures ok <==> !child.Fails()
      ensures kernel == if child.Destroys() then old(kernel).DestroyInside(container, name) else old(kernel)
    {
      if child.NotForked? {
        return false;
      }
      if child.step == Renaming || child.step == Addressing || child.step == Activating {
        kernel := kernel.DestroyInside(container, name);
      }
      if !child.waited {
        return false;
      }
      if !child.killed {
        return child.status == 0;
      }
      return true;
    }

    /**
     * All or nothing: a step that fails leaves the kernel as it was, whichever step it is,
     * and success is reported exactly for an accepted order whose child is not seen to fail.
     */
    method BridgeContainer(order: Order, base: string, device: nat, answers: Answers, child: Child, recorded: bool)
      returns (r: Outcome)
      requires HandsOut(kernel, base, device)
      modifies this
      ensures r != Failed <==> Accepted(old(kernel), order, base, answers) && !child.Fails()
      ensures r == Failed ==> kernel == old(kernel)
      ensures r != Failed ==> kernel == old(kernel).Configured(order, device, child)
      ensures r != Failed ==> r == if recorded then Bridged(JoinNames(InterfaceNames(order.code))) else CallbackFailed
    {
      if !answers.socket {
        return Failed;
      }
      var ok := BridgePair(order, base, device, answers);
      if !ok {
        return Failed;
      }
      EndsDiffer(order.code, base);
      ok := ConfigurePair(order, device, child, old(kernel));
      if !ok {
        return Failed;
      }
      r := if recorded then Bridged(JoinNames(InterfaceNames(order.code))) else CallbackFailed;
    }

    /** The steps up to the move into the container, each undone when a later one fails. */
    method BridgePair(order: Order, base: string, device: nat, answers: Answers) returns (ok: bool)
      requires HandsOut(kernel, base, device) && answers.socket
      modifies this
      ensures ok <==> Accepted(old(kernel), order, base, answers)
      ensures !ok ==> kernel == old(kernel)
      ensures ok ==> kernel == old(kernel).Joined(order, device)
    {
      ghost var before := kernel;
      var (first, second) := InterfaceNames(order.code);
      EndsDiffer(order.code, base);
      ok := CreatePair(first, second, base + "a", device, answers);
      if !ok {
        return false;
      }
      PairTaken(before, order, base, device, answers);
      ok := AttachFirst(order, device, answers, before);
      if !ok {
        return false;
      }
      ok := MoveInterfaceToJail(second, order.container, answers);
      if !ok {
        var released := DeleteMember(order.bridge, first, true);
        TakeBack(second, first, before, device);
        return false;
      }
    }

    /** The first end is activated and put into the bridge, or the pair is removed. */
    method AttachFirst(order: Order, device: nat, answers: Answers, ghost before: Kernel) returns (ok: bool)
      requires var (first, second) := InterfaceNames(order.code);
               && before.Unused(device) && first !in before.host && second !in before.host && first != second
               && |first| <= NAME_LIMIT && |second| <= NAME_LIMIT
               && kernel == before.WithPair(first, second, device) && kernel.Without(device) == before
      modifies this
      ensures ok <==> answers.activated && answers.enslaved && before.IsBridge(Short(order.bridge))
      ensures !ok ==> kernel == before
      ensures ok ==> InterfaceNames(order.code).1 in kernel.host && InterfaceNames(order.code).0 in kernel.host
      ensures ok ==> kernel.host == before.WithPair(InterfaceNames(order.code).0, InterfaceNames(order.code).1, device).host
      ensures ok ==> kernel.jails == before.jails && kernel.jailed == before.jailed && kernel.Without(device) == before
      ensures ok && order.container in before.jails && (order.container, InterfaceNames(order.code).1) !in before.jailed ==>
                kernel.Move(order.container, InterfaceNames(order.code).1, true).0 == before.Joined(order, device)
    {
      var (first, second) := InterfaceNames(order.code);
      if !answers.activated {
        TakeBack(second, first, before, device);
        return false;
      }
      ok := AddMember(order.bridge, first, answers.enslaved);
      if !ok {
        TakeBack(second, first, before, device);
        return false;
      }
      PairJoins(before, order, device);
    }

    /** The child configures the second end; when it is seen to fail everything is undone. */
    method ConfigurePair(order: Order, device: nat, child: Child, ghost before: Kernel) returns (ok: bool)
      requires before.Unused(device) && before.IsBridge(Short(order.bridge))
      requires var (first, second) := InterfaceNames(order.code);
               && first !in before.host && second !in before.host && first != second
               && |first| <= NAME_LIMIT && |second| <= NAME_LIMIT && (order.container, second) !in before.jailed
      requires kernel == before.Joined(order, device)
      modifies this
      ensures ok <==> !child.Fails()
      ensures !ok ==> kernel == before
      ensures ok ==> kernel == before.Configured(order, device, child)
    {
      var (first, second) := InterfaceNames(order.code);
      JoinedWithout(before, order, device);
      ok := AddInterfaceToJail(order.container, second, child);
      if !ok {
        var released := DeleteMember(order.bridge, first, true);
        var removed := RemoveInterface(second);
        removed := RemoveInterface(first);
      }
    }

    method LeaveBridge(bridge: string, first: string, second: string, socket: bool, released: bool) returns (ok: bool)
      modifies this
      ensures (kernel, ok) == Leave(old(kernel), bridge, first, second, socket, released)
    {
      if !socket {
        return false;
      }
      ok := DeleteMember(bridge, first, released);
      if !ok {
        return false;
      }
      ok := RemoveInterface(second);
      if !ok {
        return false;
      }
      ok := RemoveInterface(first);
    }
  }

  // ---------------------------------------------------------------------------------------
  // Bridging step by step
  // ---------------------------------------------------------------------------------------

  lemma EndsDiffer(code: string, base: string)
    ensures var (first, second) := InterfaceNames(code);
            && first != second && first != base + "b" && second != base + "a"
            && Partner(base + "a") == base + "b"
  {
    var (first, second) := InterfaceNames(code);
    assert first[|first| - 1] == 'a' && second[|second| - 1] == 'b';
    assert (base + "a")[|base|] == 'a' && (base + "b")[|base|] == 'b';
    assert (base + "a")[..|base|] == base;
  }

  /** Names of up to fifteen characters are used as they are. */
  lemma ShortKeeps(name: string)
    ensures |Short(name)| <= 15 && Short(name) <= name
    ensures Short(name) == name <==> |name| <= 15
  {
  }

  /** Each end is renamed if it may be, with the other end untouched. */
  lemma PairRenamed(k: Kernel, generated: string, first: string, partner: string, second: string, device: nat, a: Answers)
    requires generated !in k.host && partner !in k.host && generated != partner
    requires first != second && first != partner && |generated| <= NAME_LIMIT
    ensures var (named, renamed) := k.WithPair(generated, partner, device).Rename(generated, first, a.renamedFirst);
            && (renamed <==> a.renamedFirst && |first| <= NAME_LIMIT && (first == generated || first !in k.host))
            && (renamed ==> named == k.WithPair(first, partner, device))
    ensures first !in k.host ==>
            var (named, renamed) := k.WithPair(first, partner, device).Rename(partner, second, a.renamedSecond);
            && (renamed <==> a.renamedSecond && |second| <= NAME_LIMIT && (second == partner || second !in k.host))
            && (renamed ==> named == k.WithPair(first, second, device))
  {
  }

  lemma WithPairWithout(k: Kernel, first: string, second: string, device: nat)
    requires k.Unused(device) && first !in k.host && second !in k.host
    ensures k.WithPair(first, second, device).Without(device) == k
  {
  }

  /** The names of an accepted pair were free, and removing the pair takes everything back. */
  lemma PairTaken(k: Kernel, order: Order, base: string, device: nat, answers: Answers)
    requires HandsOut(k, base, device)
    requires PairAccepted(k, InterfaceNames(order.code).0, InterfaceNames(order.code).1, base + "a", answers)
    ensures var (first, second) := InterfaceNames(order.code);
            && first !in k.host && second !in k.host && first != second
            && k.WithPair(first, second, device).Without(device) == k
  {
    EndsDiffer(order.code, base);
  }

  /** Everything of the pair goes with its device, from each state a successful bridging passes. */
  lemma JoinedWithout(k: Kernel, order: Order, device: nat)
    requires k.Unused(device) && k.IsBridge(Short(order.bridge))
    requires InterfaceNames(order.code).0 !in k.host
    requires (order.container, InterfaceNames(order.code).1) !in k.jailed
    ensures k.Joined(order, device).Without(device) == k
  {
    assert k.host[Short(order.bridge)].device != device;
  }

  /** The pair with its first end in the bridge: removing it undoes both, moving the second end completes the order. */
  lemma PairJoins(k: Kernel, order: Order, device: nat)
    requires k.Unused(device) && k.IsBridge(Short(order.bridge))
    requires var (first, second) := InterfaceNames(order.code); first !in k.host && second !in k.host && first != second
    ensures var (first, second) := InterfaceNames(order.code);
            var member := k.WithPair(first, second, device).Enslave(Short(order.bridge), first, true).0;
            && member.Without(device) == k
            && (order.container in k.jails && (order.container, second) !in k.jailed ==>
                  member.Move(order.container, second, true).0 == k.Joined(order, device))
  {
    assert k.host[Short(order.bridge)].device != device;
  }

  /** A success has put the container on the bridge exactly when its child did not destroy the pair. */
  lemma SuccessJoinsExactly(k: Kernel, order: Order, base: string, device: nat, answers: Answers, child: Child)
    requires HandsOut(k, base, device) && Accepted(k, order, base, answers) && !child.Fails()
    ensures k.Configured(order, device, child) == k.Joined(order, device) <==> !child.Destroys()
    ensures child.Destroys() ==> k.Configured(order, device, child) == k
  {
    PairTaken(k, order, base, device, answers);
    assert InterfaceNames(order.code).0 in k.Joined(order, device).host;
  }

  /** Killed after it gave up on an address and removed the interface. */
  const KILLED := Forked(Addressing, true, true, 0)

  /** Such a child passes for a success, with nothing on the bridge. */
  lemma KilledChildExample(k: Kernel, order: Order, base: string, device: nat, answers: Answers)
    requires HandsOut(k, base, device) && Accepted(k, order, base, answers)
    ensures !KILLED.Fails() && k.Configured(order, device, KILLED) == k != k.Joined(order, device)
  {
    SuccessJoinsExactly(k, order, base, device, answers, KILLED);
  }

  // ---------------------------------------------------------------------------------------
  // Leaving
  // ---------------------------------------------------------------------------------------

  /** The named interface is a member of the bridge. */
  predicate OnBridge(k: Kernel, bridge: string, first: string) {
    && k.IsBridge(Short(bridge)) && Short(first) in k.host
    && k.host[Short(first)] in k.bridged && k.bridged[k.host[Short(first)]] == k.host[Short(bridge)]
  }

  /** Leaving undoes the pair exactly when the kernel lets it and the second end is back on the host. */
  lemma LeaveRestoresExactly(k: Kernel, bridge: string, first: string, second: string, device: nat, socket: bool, released: bool)
    requires Short(first) in k.host && k.host[Short(first)].device == device
    ensures Leave(k, bridge, first, second, socket, released).0 == k.Without(device) <==>
            && socket && released && OnBridge(k, bridge, first)
            && Short(second) in k.host && k.host[Short(second)].device == device
  {
    var (out, left) := k.Release(Short(bridge), Short(first), socket && released);
    if left {
      assert out.Without(device) == k.Without(device);
      if Short(second) in k.host && k.host[Short(second)].device != device {
        assert Short(second) in k.Without(device).host;
      }
    }
  }

  /** It reports success only if the two names belong to different devices: the ends of one pair go together. */
  lemma LeaveReportsExactly(k: Kernel, bridge: string, first: string, second: string, socket: bool, released: bool)
    ensures Leave(k, bridge, first, second, socket, released).1 <==>
            && socket && released && OnBridge(k, bridge, first)
            && Short(second) in k.host && k.host[Short(second)].device != k.host[Short(first)].device
  {
  }

  /** Bridging, the container giving the interface back, leaving: as before. Leaving earlier is not enough. */
  lemma BridgeThenLeave(k: Kernel, order: Order, base: string, device: nat, answers: Answers)
    requires HandsOut(k, base, device) && Accepted(k, order, base, answers)
    ensures var (first, second) := InterfaceNames(order.code);
            var joined := k.Joined(order, device);
            var back := joined.Reclaim(order.container, second, true).0;
            && Leave(joined, order.bridge, first, second, true, true).0 != k
            && Leave(back, order.bridge, first, second, true, true).0 == k
  {
    var (first, second) := InterfaceNames(order.code);
    var joined := k.Joined(order, device);
    var back := joined.Reclaim(order.container, second, true).0;
    PairTaken(k, order, base, device, answers);
    JoinedWithout(k, order, device);
    LeaveRestoresExactly(joined, order.bridge, first, second, device, true, true);
    LeaveRestoresExactly(back, order.bridge, first, second, device, true, true);
    assert back.Without(device) == k;
  }

  /**
   * Seen from the network service: whatever state the kernel is in and whatever it answers, a recorded
   * member whose two names are not visible as different devices never gets through a leave.
   */
  lemma LeaveNeverCompletes(s: Service, name: string, container: string, total: nat, k: Kernel,
                            socket: bool, released: bool, erased: bool)
    requires name in s.networks && name in s.repository.codes
    requires container in s.repository.Members(name) && s.repository.Members(name)[container] == MembersOf(total)
    requires var (first, second) := InterfaceNames(OrderCode(total));
             Short(first) in k.host && Short(second) in k.host ==> k.host[Short(first)].device == k.host[Short(second)].device
    ensures SplitNames(s.repository.Members(name)[container]) == Wrappers.Some(InterfaceNames(OrderCode(total)))
    ensures var (first, second) := InterfaceNames(OrderCode(total));
            s.Leave(name, container, Leave(k, s.repository.codes[name], first, second, socket, released).1, erased)
            == (s, HandlerFailed)
  {
    MembersRoundTrip(total);
    var (first, second) := InterfaceNames(OrderCode(total));
    LeaveReportsExactly(k, s.repository.codes[name], first, second, socket, released);
  }
}
