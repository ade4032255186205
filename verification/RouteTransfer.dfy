/** Moving VGA forwarding from the active to the target display, and undoing it.

    Registers belong to hardware: a write may report anything and leave any
    value in the register it addresses, and a read may fail.  A ghost counter
    records such faults. */
module RouteTransfer {
  import opened PathClassification

  /** The 16-bit PCI command register: I/O decoding (bit 0), memory decoding
      (bit 1), bus mastering (bit 2) and the other thirteen bits. */
  datatype Command = Command(io: bool, memory: bool, busMaster: bool, others: nat)

  datatype Policy = Ignore | On | Off

  datatype EndpointPolicy = EndpointPolicy(io: Policy, memory: Policy, busMaster: Policy)

  // -------------------------------------------------------------- register values

  function ApplyPolicy(bit: bool, policy: Policy): bool {
    match policy
    case Ignore => bit
    case On => true
    case Off => false
  }

  function RequiredCommand(original: Command, policy: EndpointPolicy): Command {
    Command(ApplyPolicy(original.io, policy.io), ApplyPolicy(original.memory, policy.memory),
            ApplyPolicy(original.busMaster, policy.busMaster), original.others)
  }

  /** The read-back test of the endpoint step: bits outside the write mask are
      unchanged, and bits inside it obey their policy. */
  predicate CommandAccepted(actual: Command, original: Command, policy: EndpointPolicy) {
    && actual.others == original.others
    && (policy.io.Ignore? ==> actual.io == original.io)
    && (policy.memory.Ignore? ==> actual.memory == original.memory)
    && (policy.busMaster.Ignore? ==> actual.busMaster == original.busMaster)
    && (policy.io.On? ==> actual.io) && (policy.io.Off? ==> !actual.io)
    && (policy.memory.On? ==> actual.memory) && (policy.memory.Off? ==> !actual.memory)
    && (policy.busMaster.On? ==> actual.busMaster) && (policy.busMaster.Off? ==> !actual.busMaster)
  }

  function Routed(original: Control, enable: bool): Control {
    original.(vga := enable)
  }

  // --------------------------------------------------------------------- the plan

  ghost predicate Holds(control: map<BridgeId, Control>, path: seq<Bridge>, enable: bool) {
    forall b :: b in path ==> b.id in control && control[b.id] == Routed(b.original, enable)
  }

  /** Two register files agree outside a set of bridges. */
  ghost predicate AgreeOutside(a: map<BridgeId, Control>, b: map<BridgeId, Control>, ids: set<BridgeId>) {
    && a.Keys == b.Keys
    && forall id :: id in a && id !in ids ==> a[id] == b[id]
  }

  lemma NextBridge(path: seq<Bridge>, index: nat)
    requires index < |path| && Distinct(path)
    ensures Ids(path[..index + 1]) == Ids(path[..index]) + {path[index].id}
    ensures Ids(path[..index + 1]) <= Ids(path)
    ensures path[index].id !in Ids(path[..index]) && path[index].id in Ids(path)
  {
    assert path[..index + 1] == path[..index] + [path[index]];
    assert path[index] in path;
  }

  lemma AgreeNext(control: map<BridgeId, Control>, before: map<BridgeId, Control>, start: map<BridgeId, Control>,
                  path: seq<Bridge>, index: nat)
    requires index < |path| && Distinct(path)
    requires AgreeOutside(before, start, Ids(path[..index]))
    requires control == before || AgreeOutside(control, before, {path[index].id})
    ensures AgreeOutside(control, start, Ids(path[..index + 1]))
  {
    NextBridge(path, index);
  }

  lemma AgreeMore(control: map<BridgeId, Control>, start: map<BridgeId, Control>, path: seq<Bridge>, n: nat)
    requires n <= |path| && AgreeOutside(control, start, Ids(path[..n]))
    ensures AgreeOutside(control, start, Ids(path))
    ensures Ids(path[..n]) <= Ids(path)
  {
  }

  lemma HoldsNext(control: map<BridgeId, Control>, before: map<BridgeId, Control>, path: seq<Bridge>, index: nat,
                  enable: bool)
    requires index < |path| && Distinct(path)
    requires Holds(before, path[..index], enable)
    requires control == before || AgreeOutside(control, before, {path[index].id})
    requires path[index].id in control && control[path[index].id] == Routed(path[index].original, enable)
    ensures Holds(control, path[..index + 1], enable)
  {
    NextBridge(path, index);
    assert path[..index + 1] == path[..index] + [path[index]];
    forall b | b in path[..index] ensures b.id in control && control[b.id] == Routed(b.original, enable) {
      assert b.id in Ids(path[..index]);
    }
  }

  class RoutePlan {
    // Hardware registers.
    var control: map<BridgeId, Control>
    var command: Command
    // The plan.
    const activeExclusive: seq<Bridge>
    const shared: seq<Bridge>
    const targetExclusive: seq<Bridge>
    const originalCommand: Command
    const policy: EndpointPolicy
    var attempted: set<BridgeId>       // bridges whose WriteAttempted flag is set
    var endpointAttempted: bool
    var endpointApplied: bool
    var dirty: bool
    ghost var faults: nat

    ghost function Path(): seq<Bridge> {
      activeExclusive + shared + targetExclusive
    }

    /** A bridge that has not been attempted still holds its journaled value. */
    ghost predicate Valid()
      reads this
    {
      && Distinct(Path())
      && Ids(Path()) <= control.Keys
      && attempted <= Ids(Path())
      && (forall b :: b in Path() && b.id !in attempted ==> control[b.id] == b.original)
      && (!endpointAttempted ==> command == originalCommand)
      && (endpointApplied ==> endpointAttempted)
      && (attempted != {} || endpointAttempted ==> dirty)
    }

    /** Every journaled register holds its original value. */
    ghost predicate Original()
      reads this
    {
      && (forall b :: b in Path() ==> b.id in control && control[b.id] == b.original)
      && command == originalCommand
    }

    constructor (control: map<BridgeId, Control>, activeExclusive: seq<Bridge>, shared: seq<Bridge>,
                 targetExclusive: seq<Bridge>, originalCommand: Command, policy: EndpointPolicy)
      requires Distinct(activeExclusive + shared + targetExclusive)
      requires forall b :: b in activeExclusive + shared + targetExclusive ==>
        b.id in control && control[b.id] == b.original
      ensures Valid() && !dirty && Original() && faults == 0
      ensures this.control == control && this.activeExclusive == activeExclusive && this.shared == shared
      ensures this.targetExclusive == targetExclusive && this.originalCommand == originalCommand
      ensures this.policy == policy
    {
      this.control, this.command := control, originalCommand;
      this.activeExclusive, this.shared, this.targetExclusive := activeExclusive, shared, targetExclusive;
      this.originalCommand, this.policy := originalCommand, policy;
      attempted, endpointAttempted, endpointApplied, dirty, faults := {}, false, false, false, 0;
    }

    // -------------------------------------------------------------- hardware access

    /** Writes a bridge-control register and reads it back. */
    method WriteControl(id: BridgeId, value: Control) returns (verified: bool)
      requires id in control
      modifies `control, `faults
      ensures AgreeOutside(control, old(control), {id})
      ensures verified ==> control[id] == value
      ensures faults >= old(faults) && (faults == old(faults) ==> verified)
    {
      var writeOk, readOk := true, true;
      if * {
        var landed: Control, reported: bool :| true;
        control, writeOk, faults := control[id := landed], reported, faults + 1;
      } else {
        control := control[id := value];
      }
      if * {
        readOk, faults := false, faults + 1;
      }
      var actual := if readOk then control[id] else Control(false, 0);
      verified := writeOk && readOk && actual == value;
    }

    method WriteCommand(value: Command) returns (ok: bool, actual: Command)
      modifies `command, `faults
      ensures ok ==> actual == command
      ensures faults >= old(faults) && (faults == old(faults) ==> ok && command == value)
    {
      ok := true;
      if * {
        var landed: Command, reported: bool :| true;
        command, ok, faults := landed, reported, faults + 1;
      } else {
        command := value;
      }
      if * {
        ok, actual, faults := false, Command(false, false, false, 0), faults + 1;
      } else {
        actual := command;
      }
    }

    // ----------------------------------------------------------------------- apply

    /** Marks one bridge as attempted, writes it and reads it back. */
    method RouteBridge(bridge: Bridge, requested: Control) returns (ok: bool)
      requires Valid() && bridge in Path()
      modifies `control, `attempted, `dirty, `faults
      ensures Valid() && dirty
      ensures AgreeOutside(control, old(control), {bridge.id})
      ensures attempted == old(attempted) + {bridge.id}
      ensures ok ==> control[bridge.id] == requested
      ensures faults >= old(faults) && (faults == old(faults) ==> ok)
    {
      assert bridge.id in Ids(Path());
      attempted := attempted + {bridge.id};
      dirty := true;
      ok := WriteControl(bridge.id, requested);
    }

    /** Routes one part of the path, bridge by bridge. */
    method RoutePart(path: seq<Bridge>, enable: bool, skipUnchanged: bool) returns (ok: bool)
      requires Valid() && Distinct(path) && (forall b :: b in path ==> b in Path())
      requires Ids(path) !! attempted
      modifies `control, `attempted, `dirty, `faults
      ensures Valid()
      ensures AgreeOutside(control, old(control), Ids(path))
      ensures attempted <= old(attempted) + Ids(path)
      ensures ok ==> Holds(control, path, enable)
      ensures faults >= old(faults) && (faults == old(faults) ==> ok)
    {
      for index := 0 to |path|
        invariant Valid()
        invariant AgreeOutside(control, old(control), Ids(path[..index]))
        invariant attempted <= old(attempted) + Ids(path[..index])
        invariant Holds(control, path[..index], enable)
        invariant faults >= old(faults)
      {
        hide Valid, AgreeOutside, Holds, Ids;
        var bridge := path[index];
        NextBridge(path, index);
        assert path[index] in path;
        var requested := Routed(bridge.original, enable);
        if skipUnchanged && requested == bridge.original {
          Unattempted(bridge);
          HoldsNext(control, control, path, index, enable);
          AgreeNext(control, control, old(control), path, index);
          continue;
        }
        ghost var before := control;
        ok := RouteBridge(bridge, requested);
        AgreeNext(control, before, old(control), path, index);
        if !ok {
          AgreeMore(control, old(control), path, index + 1);
          return;
        }
        HoldsNext(control, before, path, index, enable);
      }
      assert path[..|path|] == path;
      ok := true;
    }

    lemma Unattempted(bridge: Bridge)
      requires Valid() && bridge in Path() && bridge.id !in attempted
      ensures bridge.id in control && control[bridge.id] == bridge.original
    {
      assert bridge.id in Ids(Path());
    }

    method RouteApply() returns (ok: bool)
      requires Valid() && !dirty
      modifies `control, `command, `attempted, `endpointAttempted, `endpointApplied, `dirty, `faults
      ensures Valid()
      ensures AgreeOutside(control, old(control), Ids(Path()))
      ensures ok ==> Holds(control, activeExclusive, false)
      ensures ok ==> Holds(control, shared, true) && Holds(control, targetExclusive, true)
      ensures ok ==> command == RequiredCommand(originalCommand, policy)
      ensures faults >= old(faults) && (faults == old(faults) ==> ok)
    {
      PartsOfPath();
      ok := RoutePart(activeExclusive, false, false);
      if !ok {
        return;
      }
      ok := RoutePart(shared, true, true);
      if !ok {
        return;
      }
      ok := RoutePart(targetExclusive, true, false);
      if !ok {
        return;
      }
      ok := RouteEndpoint();
    }

    lemma PartsOfPath()
      requires Distinct(Path())
      ensures Distinct(activeExclusive) && Distinct(shared) && Distinct(targetExclusive)
      ensures Ids(activeExclusive) !! Ids(shared)
      ensures Ids(activeExclusive) !! Ids(targetExclusive)
      ensures Ids(shared) !! Ids(targetExclusive)
      ensures Ids(Path()) == Ids(activeExclusive) + Ids(shared) + Ids(targetExclusive)
      ensures forall b :: b in activeExclusive || b in shared || b in targetExclusive ==> b in Path()
    {
      SplitDistinct(activeExclusive + shared, targetExclusive);
      SplitDistinct(activeExclusive, shared);
      assert Ids(activeExclusive + shared) == Ids(activeExclusive) + Ids(shared);
    }

    method RouteEndpoint() returns (ok: bool)
      requires Valid()
      modifies `command, `endpointAttempted, `endpointApplied, `dirty, `faults
      ensures Valid() && dirty
      ensures ok ==> command == RequiredCommand(originalCommand, policy)
      ensures faults >= old(faults) && (faults == old(faults) ==> ok)
    {
      var requested := RequiredCommand(originalCommand, policy);
      endpointAttempted, dirty := true, true;
      var access, actual := WriteCommand(requested);
      endpointApplied := actual != originalCommand;
      ok := access && CommandAccepted(actual, originalCommand, policy);
    }

    // --------------------------------------------------------------------- restore

    /** Writes the journaled value back; only a verified write clears the mark. */
    method RestoreBridge(bridge: Bridge) returns (ok: bool)
      requires Valid() && bridge in Path() && bridge.id in attempted
      modifies `control, `attempted, `faults
      ensures Valid()
      ensures AgreeOutside(control, old(control), {bridge.id})
      ensures attempted == if ok then old(attempted) - {bridge.id} else old(attempted)
      ensures faults >= old(faults) && (faults == old(faults) ==> ok)
    {
      SameBridge(bridge);
      ok := WriteControl(bridge.id, bridge.original);
      if ok {
        attempted := attempted - {bridge.id};
      }
    }

    /** Restores the attempted bridges of one part in reverse order. */
    method RestorePart(path: seq<Bridge>) returns (ok: bool)
      requires Valid() && (forall b :: b in path ==> b in Path())
      modifies `control, `attempted, `faults
      ensures Valid()
      ensures AgreeOutside(control, old(control), Ids(path))
      ensures attempted <= old(attempted)
      ensures ok ==> attempted !! Ids(path)
      ensures faults >= old(faults) && (faults == old(faults) ==> ok)
    {
      var index := |path|;
      while index > 0
        invariant 0 <= index <= |path|
        invariant Valid()
        invariant AgreeOutside(control, old(control), Ids(path))
        invariant attempted <= old(attempted) && attempted !! Ids(path[index..])
        invariant faults >= old(faults)
      {
        index := index - 1;
        var bridge := path[index];
        assert bridge in path && bridge.id in Ids(path);
        assert path[index..] == [bridge] + path[index + 1..];
        if bridge.id !in attempted {
          continue;
        }
        ok := RestoreBridge(bridge);
        if !ok {
          return;
        }
      }
      assert path[0..] == path;
      ok := true;
    }

    lemma SameBridge(bridge: Bridge)
      requires Distinct(Path()) && bridge in Path()
      ensures forall b :: b in Path() && b.id == bridge.id ==> b == bridge
    {
      forall b | b in Path() && b.id == bridge.id ensures b == bridge {
        var i :| 0 <= i < |Path()| && Path()[i] == b;
        var j :| 0 <= j < |Path()| && Path()[j] == bridge;
        assert i == j;
      }
    }

    /** Undoes a transfer from whatever point it failed at.  Only a restore
        that ran to completion clears the dirty flag, and then every journaled
        register holds its original value. */
    method RouteRestore()
      requires Valid()
      modifies `control, `command, `attempted, `endpointAttempted, `endpointApplied, `dirty, `faults
      ensures Valid()
      ensures AgreeOutside(control, old(control), Ids(Path()))
      ensures !dirty ==> Original()
      ensures faults >= old(faults) && (faults == old(faults) ==> !dirty)
    {
      PartsOfPath();
      if endpointAttempted {
        var access, actual := WriteCommand(originalCommand);
        if !access || actual != originalCommand {
          return;
        }
        endpointApplied, endpointAttempted := false, false;
      }
      var ok := RestorePart(targetExclusive);
      if !ok {
        return;
      }
      ok := RestorePart(shared);
      if !ok {
        return;
      }
      ok := RestorePart(activeExclusive);
      if !ok {
        return;
      }
      assert attempted == {};
      dirty := false;
    }

    /** Releasing the plan is refused while a journaled register may differ from
        its original value.  Otherwise the boot target and the dispatch copy are
        released too, and the plan is cleared unless the boot target refuses. */
    method Release() returns (refused: bool, cleared: bool, ok: bool)
      requires Valid()
      ensures refused <==> dirty || endpointApplied
      ensures !refused ==> Original()
      ensures refused ==> !cleared
      ensures ok ==> cleared
    {
      if dirty || endpointApplied {
        return true, false, false;
      }
      var targetReleased: bool, dispatchReleased: bool := *, *;
      return false, targetReleased, targetReleased && dispatchReleased;
    }
  }

  /** What a successful transfer over classified paths means: forwarding is on
      along the whole target path and off on every bridge that only the active
      path uses; no other bit of a journaled register has changed. */
  lemma TransferMeaning(active: seq<Bridge>, target: seq<Bridge>, shared: seq<Bridge>,
                        activeExclusive: seq<Bridge>, targetExclusive: seq<Bridge>, control: map<BridgeId, Control>)
    requires Distinct(active) && Distinct(target)
    requires active == shared + activeExclusive && target == shared + targetExclusive
    requires Ids(activeExclusive) !! Ids(targetExclusive)
    requires Holds(control, activeExclusive, false) && Holds(control, shared, true)
    requires Holds(control, targetExclusive, true)
    ensures forall b :: b in target ==> b.id in control && control[b.id].vga
    ensures forall b :: b in active && b.id !in Ids(target) ==> b.id in control && !control[b.id].vga
    ensures forall b :: b in active || b in target ==> b.id in control && control[b.id].others == b.original.others
  {
    PartsAreDisjoint(active, target, shared, activeExclusive, targetExclusive);
    forall b | b in shared ensures b.id in Ids(target) {
      assert b in target;
    }
  }
}
