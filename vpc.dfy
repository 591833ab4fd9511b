/**
 * Creating and deleting a VPC: a Linux bridge that carries the VPC's
 * gateway address, and the VPC's record in the state file.
 */
module Vpcs {
  import opened Wrappers
  import opened Text
  import opened Cidr
  import opened State
  import opened Commands
  import opened Gateway

  function BridgeName(name: string): string {
    "br-" + name
  }

  /** The commands `create_vpc` issues, each checked, in order. */
  function VpcPlan(name: string, cidr: string): (plan: seq<Cmd>)
    requires ValidateCidr(cidr)
    ensures |plan| == 7
  {
    ValidHasSlash(cidr);
    var bridge := BridgeName(name);
    [ LinkAddBridge(bridge),
      AddrAdd(BridgeIp(cidr), PrefixText(cidr), bridge),
      LinkSetUp(bridge),
      WriteSysctl(true, IpForward),
      WriteSysctl(false, DevConf(bridge, SendRedirects)),
      WriteSysctl(false, DevConf(bridge, RpFilter)),
      WriteSysctl(true, DevConf(bridge, Forwarding)) ]
  }

  /** The record `create_vpc` stores: no subnets and no peerings yet. */
  function NewVpc(name: string, cidr: string): (v: Vpc)
    ensures v.name == name && v.cidr == cidr && v.subnets == [] && v.peerings == []
    ensures v.bridge == BridgeName(name) && v.bridgeIp == BridgeIp(cidr)
  {
    Vpc(name, cidr, BridgeName(name), BridgeIp(cidr), [], [])
  }

  /**
   * `create_vpc`.  A CIDR the validator refuses, or a name already taken,
   * issues nothing.  Otherwise the seven checked commands run until one
   * fails: then the bridge is deleted without a check and the state file
   * is left alone; when all succeed the new record is appended.
   */
  method CreateVpc(h: Host, name: string, cidr: string) returns (ok: bool)
    modifies h
    ensures !ValidateCidr(cidr) || old(FindVpc(Loaded(h.file), name)).Some? ==>
      !ok && h.trace == old(h.trace) && h.file == old(h.file)
    ensures ValidateCidr(cidr) && old(FindVpc(Loaded(h.file), name)).None? ==>
      var plan := VpcPlan(name, cidr);
      var k := FirstFailure(h.respond, |old(h.trace)|, plan);
      (ok <==> k == |plan|) &&
      (ok ==> h.trace == old(h.trace) + plan &&
              h.file == Some(AddVpc(old(Loaded(h.file)), NewVpc(name, cidr)))) &&
      (!ok ==> h.trace == old(h.trace) + Attempted(plan, k) + [LinkDel(BridgeName(name))] &&
               h.file == old(h.file))
    ensures old(WellFormed(Loaded(h.file))) ==> WellFormed(Loaded(h.file))
  {
    if !ValidateCidr(cidr) {
      return false;
    }
    var state := h.LoadState();
    if FindVpc(state, name).Some? {
      return false;
    }
    var bridge := BridgeName(name);

    var raised := RunChecked(h, VpcPlan(name, cidr));
    if !raised {
      var vpc := NewVpc(name, cidr);
      state := h.LoadState();
      CreateKeepsWellFormed(state, name, cidr);
      h.SaveState(AddVpc(state, vpc));
      return true;
    }
    var result;
    result, raised := h.RunCommand(LinkDel(bridge), false);
    return false;
  }

  /**
   * `delete_vpc`: refuses an unknown VPC and one that still has subnets;
   * otherwise deletes the stored bridge without a check and drops every
   * record of that name.
   */
  method DeleteVpc(h: Host, name: string) returns (ok: bool)
    modifies h
    ensures var v := FindVpc(old(Loaded(h.file)), name);
      if v.None? || v.value.subnets != [] then
        !ok && h.trace == old(h.trace) && h.file == old(h.file)
      else
        ok && h.trace == old(h.trace) + [LinkDel(v.value.bridge)] &&
        h.file == Some(RemoveVpc(old(Loaded(h.file)), name))
    ensures old(WellFormed(Loaded(h.file))) ==> WellFormed(Loaded(h.file))
    ensures ok ==> FindVpc(Loaded(h.file), name).None?
  {
    var state := h.LoadState();
    var vpc := FindVpc(state, name);
    if vpc.None? {
      return false;
    }
    if vpc.value.subnets != [] {
      return false;
    }
    var bridge := vpc.value.bridge;
    var result, raised := h.RunCommand(LinkDel(bridge), false);
    state := h.LoadState();
    RemoveVpcGone(state, name);
    if WellFormed(state) {
      RemoveVpcKeepsWellFormed(state, name);
    }
    h.SaveState(RemoveVpc(state, name));
    return true;
  }

  /** The invariant of the state file survives adding the new record. */
  lemma CreateKeepsWellFormed(t: Topology, name: string, cidr: string)
    requires FindVpc(t, name).None?
    ensures WellFormed(t) ==> WellFormed(AddVpc(t, NewVpc(name, cidr)))
  {
    if WellFormed(t) {
      AddVpcFound(t, NewVpc(name, cidr));
    }
  }

  /**
   * Deleting a VPC right after creating it is allowed, removes the very
   * bridge the creation added, and gives back the records as they were.
   */
  lemma DeleteUndoesCreate(t: Topology, name: string, cidr: string)
    requires WellFormed(t) && FindVpc(t, name).None?
    ensures var t' := AddVpc(t, NewVpc(name, cidr));
      FindVpc(t', name) == Some(NewVpc(name, cidr)) &&
      FindVpc(t', name).value.subnets == [] &&
      FindVpc(t', name).value.bridge == BridgeName(name) &&
      RemoveVpc(t', name) == t
  {
    AddVpcFound(t, NewVpc(name, cidr));
    RemoveAfterAdd(t, NewVpc(name, cidr));
  }

  /** The first command of the plan creates the bridge that the rollback deletes. */
  lemma RollbackDeletesCreatedBridge(name: string, cidr: string)
    requires ValidateCidr(cidr)
    ensures VpcPlan(name, cidr)[0] == LinkAddBridge(BridgeName(name))
    ensures forall k | 1 <= k < 7 :: !VpcPlan(name, cidr)[k].LinkAddBridge?
  {
  }
}
