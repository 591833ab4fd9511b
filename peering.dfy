/**
 * Peering two VPCs: a veth pair between their bridges, a route in every
 * subnet of each VPC toward the other VPC's CIDR, the FORWARD isolation
 * rules between the two bridges turned around, and the same peering record
 * in both VPCs.
 */
module Peerings {
  import opened Wrappers
  import opened Text
  import opened State
  import opened Commands
  import opened Gateway

  /** A peering veth end: tag `vp`. */
  function PeerVeth(a: string, b: string): string {
    ShortName("vp", a, b)
  }

  /** The record `create_peering` stores in both VPCs. */
  function NewPeering(a: string, b: string): (p: Peering)
    ensures p.vpc1 == a && p.vpc2 == b && |p.veth1| <= 12 && |p.veth2| <= 12
    ensures Take(a, 4) == Take(b, 4) ==> p.veth1 == p.veth2
  {
    Peering(a, b, PeerVeth(a, b), PeerVeth(b, a))
  }

  /** The checked commands of `create_peering`: create the pair, attach each end, bring both up. */
  function LinkPlan(veth1: string, veth2: string, bridge1: string, bridge2: string): (plan: seq<Cmd>)
    ensures |plan| == 5
  {
    [ LinkAddVeth(veth1, veth2),
      LinkSetMaster(veth1, bridge1),
      LinkSetMaster(veth2, bridge2),
      LinkSetUp(veth1),
      LinkSetUp(veth2) ]
  }

  /** The route toward `peerCidr` inside one subnet: added via its gateway, or deleted. */
  function PeerRoute(s: Subnet, peerCidr: string, add: bool): Cmd {
    NetnsExec(s.namespace, if add then RouteAdd(peerCidr, s.gateway) else RouteDel(peerCidr))
  }

  /** One unchecked route command per subnet, in the order of the list. */
  function PeerRoutes(subnets: seq<Subnet>, peerCidr: string, add: bool): (routes: seq<Cmd>)
    ensures |routes| == |subnets|
    decreases |subnets|
  {
    if subnets == [] then []
    else PeerRoutes(subnets[..|subnets| - 1], peerCidr, add) + [PeerRoute(subnets[|subnets| - 1], peerCidr, add)]
  }

  /**
   * The FORWARD edits between two bridges: the rules with verdict `from`
   * are deleted in both directions, then rules with verdict `to` are
   * inserted at the head in both directions.
   */
  function ForwardSwap(bridge1: string, bridge2: string, from: Verdict, to: Verdict): (cmds: seq<Cmd>)
    ensures |cmds| == 4
    ensures forall k | 0 <= k < 2 :: cmds[k].Forward? && cmds[k].op == Delete && cmds[k].forwardRule == Between(if k == 0 then bridge1 else bridge2, if k == 0 then bridge2 else bridge1, from)
    ensures forall k | 2 <= k < 4 :: cmds[k].Forward? && cmds[k].op == Insert && cmds[k].forwardRule == Between(if k == 2 then bridge1 else bridge2, if k == 2 then bridge2 else bridge1, to)
  {
    [ Forward(Delete, Between(bridge1, bridge2, from)),
      Forward(Delete, Between(bridge2, bridge1, from)),
      Forward(Insert, Between(bridge1, bridge2, to)),
      Forward(Insert, Between(bridge2, bridge1, to)) ]
  }

  /**
   * The unchecked commands after the veth pair: routes from `v1`'s subnets
   * toward `v2`'s CIDR, then the other way, then the FORWARD swap; `add`
   * tells `create_peering` (DROP to ACCEPT) from `delete_peering` (ACCEPT
   * to DROP).
   */
  function Wiring(v1: Vpc, v2: Vpc, add: bool): (cmds: seq<Cmd>)
    ensures |cmds| == |v1.subnets| + |v2.subnets| + 4
  {
    PeerRoutes(v1.subnets, v2.cidr, add) + PeerRoutes(v2.subnets, v1.cidr, add) +
    (if add then ForwardSwap(v1.bridge, v2.bridge, Drop, Accept)
     else ForwardSwap(v1.bridge, v2.bridge, Accept, Drop))
  }

  // ---------------------------------------------------------------------
  // Operations

  /** src/vpcctl/peering.py, lines 41-51 and 101-107: one route command per subnet, results ignored. */
  method IssueRoutes(h: Host, subnets: seq<Subnet>, peerCidr: string, add: bool)
    modifies h`trace
    ensures h.trace == old(h.trace) + PeerRoutes(subnets, peerCidr, add)
  {
    ghost var t0 := h.trace;
    var i := 0;
    while i < |subnets|
      invariant 0 <= i <= |subnets|
      invariant h.trace == t0 + PeerRoutes(subnets[..i], peerCidr, add)
      decreases |subnets| - i
    {
      var result, raised := h.RunCommand(PeerRoute(subnets[i], peerCidr, add), false);
      assert subnets[..i + 1][..i] == subnets[..i];
      i := i + 1;
    }
    assert subnets[..i] == subnets;
  }

  /** src/vpcctl/peering.py, lines 53-56 and 109-112: the four FORWARD edits, results ignored. */
  method Swap(h: Host, bridge1: string, bridge2: string, from: Verdict, to: Verdict)
    modifies h`trace
    ensures h.trace == old(h.trace) + ForwardSwap(bridge1, bridge2, from, to)
  {
    var result, raised := h.RunCommand(Forward(Delete, Between(bridge1, bridge2, from)), false);
    result, raised := h.RunCommand(Forward(Delete, Between(bridge2, bridge1, from)), false);
    result, raised := h.RunCommand(Forward(Insert, Between(bridge1, bridge2, to)), false);
    result, raised := h.RunCommand(Forward(Insert, Between(bridge2, bridge1, to)), false);
  }

  method Rewire(h: Host, v1: Vpc, v2: Vpc, add: bool)
    modifies h`trace
    ensures h.trace == old(h.trace) + Wiring(v1, v2, add)
  {
    ghost var t0 := h.trace;
    IssueRoutes(h, v1.subnets, v2.cidr, add);
    ghost var t1 := h.trace;
    IssueRoutes(h, v2.subnets, v1.cidr, add);
    ghost var t2 := h.trace;
    if add {
      Swap(h, v1.bridge, v2.bridge, Drop, Accept);
    } else {
      Swap(h, v1.bridge, v2.bridge, Accept, Drop);
    }
    AppendAssoc(t0, PeerRoutes(v1.subnets, v2.cidr, add), PeerRoutes(v2.subnets, v1.cidr, add));
  }

  /** src/vpcctl/peering.py, lines 66-71: the peering is appended to every VPC named `a` or `b`. */
  method RecordPeering(t: Topology, a: string, b: string, p: Peering) returns (t': Topology)
    ensures t' == WithPeering(t, a, b, p)
  {
    var vpcs := t.vpcs;
    var i := 0;
    while i < |vpcs|
      invariant 0 <= i <= |vpcs| && |vpcs| == |t.vpcs|
      invariant forall j | 0 <= j < i :: vpcs[j] == WithPeering(t, a, b, p).vpcs[j]
      invariant forall j | i <= j < |vpcs| :: vpcs[j] == t.vpcs[j]
      decreases |vpcs| - i
    {
      var v := vpcs[i];
      if v.name == a {
        vpcs := vpcs[i := v.(peerings := v.peerings + [p])];
      } else if v.name == b {
        vpcs := vpcs[i := v.(peerings := v.peerings + [p])];
      }
      i := i + 1;
    }
    return Topology(vpcs);
  }

  /** src/vpcctl/peering.py, lines 115-120: every VPC named `a` or `b` keeps only the peerings not joining `a` and `b`. */
  method ForgetPeerings(t: Topology, a: string, b: string) returns (t': Topology)
    ensures t' == WithoutPeerings(t, a, b)
  {
    var vpcs := t.vpcs;
    var i := 0;
    while i < |vpcs|
      invariant 0 <= i <= |vpcs| && |vpcs| == |t.vpcs|
      invariant forall j | 0 <= j < i :: vpcs[j] == WithoutPeerings(t, a, b).vpcs[j]
      invariant forall j | i <= j < |vpcs| :: vpcs[j] == t.vpcs[j]
      decreases |vpcs| - i
    {
      var v := vpcs[i];
      if v.name == a || v.name == b {
        vpcs := vpcs[i := v.(peerings := Filter(v.peerings, NotJoining(a, b)))];
      }
      i := i + 1;
    }
    return Topology(vpcs);
  }

  /**
   * `create_peering`.  A missing VPC on either side, or a VPC peered with
   * itself, issues nothing.  Otherwise the five checked link commands run
   * until one fails, which deletes the first veth end without a check and
   * leaves the state file alone; when all succeed the routes and the
   * FORWARD swap follow unchecked and the record is appended to both VPCs.
   * An existing peering between the two is not looked for.
   */
  method CreatePeering(h: Host, a: string, b: string) returns (ok: bool)
    modifies h
    ensures var t := old(Loaded(h.file));
      FindVpc(t, a).None? || FindVpc(t, b).None? || a == b ==>
        !ok && h.trace == old(h.trace) && h.file == old(h.file)
    ensures var t := old(Loaded(h.file));
      var v1, v2 := FindVpc(t, a), FindVpc(t, b);
      v1.Some? && v2.Some? && a != b ==>
        var links := LinkPlan(PeerVeth(a, b), PeerVeth(b, a), v1.value.bridge, v2.value.bridge);
        var k := FirstFailure(h.respond, |old(h.trace)|, links);
        (ok <==> k == |links|) &&
        (!ok ==> h.trace == old(h.trace) + Attempted(links, k) + [LinkDel(PeerVeth(a, b))] &&
                 h.file == old(h.file)) &&
        (ok ==> h.trace == old(h.trace) + links + Wiring(v1.value, v2.value, true) &&
                h.file == Some(WithPeering(t, a, b, NewPeering(a, b))))
    ensures old(WellFormed(Loaded(h.file))) ==> WellFormed(Loaded(h.file))
  {
    var state := h.LoadState();
    var vpc1 := FindVpc(state, a);
    state := h.LoadState();
    var vpc2 := FindVpc(state, b);
    if vpc1.None? || vpc2.None? {
      return false;
    }
    if a == b {
      return false;
    }
    ok := Peer(h, a, b, vpc1.value, vpc2.value);
  }

  /** The `try` block of `create_peering` and its `except` clause. */
  method Peer(h: Host, a: string, b: string, v1: Vpc, v2: Vpc) returns (ok: bool)
    modifies h
    ensures var links := LinkPlan(PeerVeth(a, b), PeerVeth(b, a), v1.bridge, v2.bridge);
      var k := FirstFailure(h.respond, |old(h.trace)|, links);
      (ok <==> k == |links|) &&
      (!ok ==> h.trace == old(h.trace) + Attempted(links, k) + [LinkDel(PeerVeth(a, b))] &&
               h.file == old(h.file)) &&
      (ok ==> h.trace == old(h.trace) + links + Wiring(v1, v2, true) &&
              h.file == Some(WithPeering(old(Loaded(h.file)), a, b, NewPeering(a, b))))
    ensures old(WellFormed(Loaded(h.file))) ==> WellFormed(Loaded(h.file))
  {
    var veth1, veth2 := PeerVeth(a, b), PeerVeth(b, a);
    var links := LinkPlan(veth1, veth2, v1.bridge, v2.bridge);
    var raised := RunChecked(h, links);
    if raised {
      var result;
      result, raised := h.RunCommand(LinkDel(veth1), false);
      return false;
    }
    Connect(h, a, b, v1, v2);
    return true;
  }

  /** Once the links are up: the unchecked routes and FORWARD swap, then the
      record appended to both VPCs. */
  method Connect(h: Host, a: string, b: string, v1: Vpc, v2: Vpc)
    modifies h
    ensures h.trace == old(h.trace) + Wiring(v1, v2, true)
    ensures h.file == Some(WithPeering(old(Loaded(h.file)), a, b, NewPeering(a, b)))
    ensures old(WellFormed(Loaded(h.file))) ==> WellFormed(Loaded(h.file))
  {
    Rewire(h, v1, v2, true);
    var state := h.LoadState();
    WithPeeringEffect(state, a, b, NewPeering(a, b));
    state := RecordPeering(state, a, b, NewPeering(a, b));
    h.SaveState(state);
  }

  /**
   * `delete_peering`.  Both VPCs must exist; whether they are peered is not
   * looked at.  The veth named from this argument order is deleted, the
   * routes and the reverse FORWARD swap follow, all unchecked, and the
   * peerings joining the two are dropped from both VPCs.
   */
  method DeletePeering(h: Host, a: string, b: string) returns (ok: bool)
    modifies h
    ensures var t := old(Loaded(h.file));
      var v1, v2 := FindVpc(t, a), FindVpc(t, b);
      if v1.None? || v2.None? then
        !ok && h.trace == old(h.trace) && h.file == old(h.file)
      else
        ok && h.trace == old(h.trace) + [LinkDel(PeerVeth(a, b))] + Wiring(v1.value, v2.value, false) &&
        h.file == Some(WithoutPeerings(t, a, b))
    ensures old(WellFormed(Loaded(h.file))) ==> WellFormed(Loaded(h.file))
  {
    var state := h.LoadState();
    var vpc1 := FindVpc(state, a);
    state := h.LoadState();
    var vpc2 := FindVpc(state, b);
    if vpc1.None? || vpc2.None? {
      return false;
    }
    Disconnect(h, a, b, vpc1.value, vpc2.value);
    return true;
  }

  /** Once both VPCs are found: the veth, the routes and the FORWARD swap, all
      unchecked, then the records dropped. */
  method Disconnect(h: Host, a: string, b: string, v1: Vpc, v2: Vpc)
    modifies h
    ensures h.trace == old(h.trace) + [LinkDel(PeerVeth(a, b))] + Wiring(v1, v2, false)
    ensures h.file == Some(WithoutPeerings(old(Loaded(h.file)), a, b))
    ensures old(WellFormed(Loaded(h.file))) ==> WellFormed(Loaded(h.file))
  {
    var result, raised := h.RunCommand(LinkDel(PeerVeth(a, b)), false);
    Rewire(h, v1, v2, false);
    var state := h.LoadState();
    WithoutPeeringsGone(state, a, b);
    state := ForgetPeerings(state, a, b);
    h.SaveState(state);
  }

  // ---------------------------------------------------------------------
  // Properties

  /** Each subnet of the list, in order, gets exactly one route toward the peer CIDR. */
  lemma {:induction false} PeerRoutesEach(subnets: seq<Subnet>, peerCidr: string, add: bool)
    ensures |PeerRoutes(subnets, peerCidr, add)| == |subnets|
    ensures forall i | 0 <= i < |subnets| ::
      PeerRoutes(subnets, peerCidr, add)[i] == NetnsExec(subnets[i].namespace,
        if add then RouteAdd(peerCidr, subnets[i].gateway) else RouteDel(peerCidr))
    decreases |subnets|
  {
    if subnets != [] {
      PeerRoutesEach(subnets[..|subnets| - 1], peerCidr, add);
    }
  }

  /** The rollback deletes the end the first command created. */
  lemma RollbackDeletesCreatedVeth(a: string, b: string, bridge1: string, bridge2: string)
    ensures LinkPlan(PeerVeth(a, b), PeerVeth(b, a), bridge1, bridge2)[0].LinkAddVeth?
    ensures LinkPlan(PeerVeth(a, b), PeerVeth(b, a), bridge1, bridge2)[0].dev == PeerVeth(a, b)
    ensures forall k | 1 <= k < 5 :: !LinkPlan(PeerVeth(a, b), PeerVeth(b, a), bridge1, bridge2)[k].LinkAddVeth?
  {
  }

  /** The FORWARD chain after the swap: the new rules at the head, the old two removed. */
  lemma SwapChain(chain: seq<ForwardRule>, bridge1: string, bridge2: string, from: Verdict, to: Verdict)
    ensures ForwardAfter(chain, ForwardSwap(bridge1, bridge2, from, to)) ==
      [Between(bridge2, bridge1, to), Between(bridge1, bridge2, to)] +
      RemoveFirst(RemoveFirst(chain, Between(bridge1, bridge2, from)), Between(bridge2, bridge1, from))
  {
    ForwardAfterFour(chain,
      Forward(Delete, Between(bridge1, bridge2, from)), Forward(Delete, Between(bridge2, bridge1, from)),
      Forward(Insert, Between(bridge1, bridge2, to)), Forward(Insert, Between(bridge2, bridge1, to)));
  }

  /**
   * Whatever the chain held before, traffic between the two bridges, in
   * either direction, is decided by the inserted rules: accepted after
   * `create_peering`, dropped after `delete_peering`.
   */
  lemma SwapDecidesBridges(chain: seq<ForwardRule>, bridge1: string, bridge2: string, from: Verdict, to: Verdict, f: Flow)
    requires (f.inIf == bridge1 && f.outIf == bridge2) || (f.inIf == bridge2 && f.outIf == bridge1)
    ensures ForwardVerdict(ForwardAfter(chain, ForwardSwap(bridge1, bridge2, from, to)), f) == Some(to)
  {
    SwapChain(chain, bridge1, bridge2, from, to);
  }

  /** A flow the deleted rule does not match gets the same verdict without it. */
  lemma {:induction false} RemoveFirstKeepsVerdict(chain: seq<ForwardRule>, r: ForwardRule, f: Flow)
    requires !ForwardMatches(r, f)
    ensures ForwardVerdict(RemoveFirst(chain, r), f) == ForwardVerdict(chain, f)
    decreases |chain|
  {
    if chain != [] && chain[0] != r {
      RemoveFirstKeepsVerdict(chain[1..], r, f);
      assert RemoveFirst(chain, r)[1..] == RemoveFirst(chain[1..], r);
    }
  }

  /** Traffic between any other pair of interfaces is judged as before the swap. */
  lemma SwapKeepsOtherFlows(chain: seq<ForwardRule>, bridge1: string, bridge2: string, from: Verdict, to: Verdict, f: Flow)
    requires !(f.inIf == bridge1 && f.outIf == bridge2) && !(f.inIf == bridge2 && f.outIf == bridge1)
    ensures ForwardVerdict(ForwardAfter(chain, ForwardSwap(bridge1, bridge2, from, to)), f) == ForwardVerdict(chain, f)
  {
    SwapChain(chain, bridge1, bridge2, from, to);
    var c1 := RemoveFirst(chain, Between(bridge1, bridge2, from));
    RemoveFirstKeepsVerdict(chain, Between(bridge1, bridge2, from), f);
    RemoveFirstKeepsVerdict(c1, Between(bridge2, bridge1, from), f);
  }

  /**
   * With the two isolation rules at the head of the chain, as
   * `delete_peering` leaves them, creating the peering and deleting it
   * again gives back the chain unchanged.
   */
  lemma SwapRoundTrip(rest: seq<ForwardRule>, bridge1: string, bridge2: string)
    requires bridge1 != bridge2
    ensures var isolated := [Between(bridge2, bridge1, Drop), Between(bridge1, bridge2, Drop)] + rest;
      ForwardAfter(isolated, ForwardSwap(bridge1, bridge2, Drop, Accept) + ForwardSwap(bridge1, bridge2, Accept, Drop)) ==
      isolated
  {
    var isolated := [Between(bridge2, bridge1, Drop), Between(bridge1, bridge2, Drop)] + rest;
    var peered := [Between(bridge2, bridge1, Accept), Between(bridge1, bridge2, Accept)] + rest;
    ForwardAfterConcat(isolated, ForwardSwap(bridge1, bridge2, Drop, Accept), ForwardSwap(bridge1, bridge2, Accept, Drop));
    SwapChain(isolated, bridge1, bridge2, Drop, Accept);
    RemoveFirstNear(Between(bridge2, bridge1, Drop), Between(bridge1, bridge2, Drop), rest);
    RemoveFirstNear(Between(bridge2, bridge1, Drop), Between(bridge2, bridge1, Drop), rest);
    assert ForwardAfter(isolated, ForwardSwap(bridge1, bridge2, Drop, Accept)) == peered;
    SwapChain(peered, bridge1, bridge2, Accept, Drop);
    RemoveFirstNear(Between(bridge2, bridge1, Accept), Between(bridge1, bridge2, Accept), rest);
    RemoveFirstNear(Between(bridge2, bridge1, Accept), Between(bridge2, bridge1, Accept), rest);
  }

  /**
   * `delete_peering` in either argument order removes what
   * `create_peering(a, b)` recorded and leaves what deleting alone would.
   */
  lemma DeleteUndoesCreateRecords(t: Topology, a: string, b: string)
    ensures WithoutPeerings(WithPeering(t, a, b, NewPeering(a, b)), a, b) == WithoutPeerings(t, a, b)
    ensures WithoutPeerings(WithPeering(t, a, b, NewPeering(a, b)), b, a) == WithoutPeerings(t, a, b)
  {
    RemovePeeringAfterAdd(t, NewPeering(a, b));
    WithoutPeeringsSymmetric(WithPeering(t, a, b, NewPeering(a, b)), a, b);
  }

  /** With no duplicate check, creating the same peering twice stores its record twice in both VPCs. */
  lemma CreateTwiceRecordsTwice(t: Topology, a: string, b: string)
    ensures var p := NewPeering(a, b);
      forall j | 0 <= j < |t.vpcs| && State.Between(t.vpcs[j], a, b) ::
        WithPeering(WithPeering(t, a, b, p), a, b, p).vpcs[j].peerings == t.vpcs[j].peerings + [p, p]
  {
    var p := NewPeering(a, b);
    WithPeeringEffect(t, a, b, p);
    WithPeeringEffect(WithPeering(t, a, b, p), a, b, p);
  }
}
