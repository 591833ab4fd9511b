/**
 * Routing set up after a subnet exists: NAT towards the internet for
 * public subnets, a full mesh of routes between the subnets of a VPC, and
 * the routes of a private subnet that has lost its default route.
 */
module Routing {
  import opened Wrappers
  import opened Text
  import opened State
  import opened Commands
  import opened Gateway

  // ---------------------------------------------------------------------
  // NAT (setup_nat)

  /**
   * The input-interface pattern of the NAT forwarding rules, as written.
   * The command goes through `/bin/sh`, so iptables receives `br-*` unless
   * the shell's glob matches a file in the working directory; iptables'
   * own wildcard is a trailing `+`.  The model keeps the text as written.
   */
  const AnyBridge: string := "br-*"

  /** The three checked rules after the forwarding switch. */
  function NatRules(cidr: string, iface: string): (rules: seq<Cmd>)
    ensures |rules| == 3
  {
    [ Masquerade(Append, cidr, iface),
      Forward(Append, Between(AnyBridge, iface, Accept)),
      Forward(Append, Returning(iface, AnyBridge)) ]
  }

  /** `ip_forward` reads as on: its output is `1` with nothing but whitespace around it. */
  predicate ForwardingOn(stdout: string) {
    IsPadded(stdout, '1')
  }

  /** `ForwardingOn` is the test `setup_nat` writes: the stripped output equals `1`. */
  lemma ForwardingOnIsStrip(stdout: string)
    ensures ForwardingOn(stdout) <==> Strip(stdout) == "1"
  {
    PaddedIsStrip(stdout, '1');
  }

  /**
   * The checked commands of `setup_nat` after the read of `ip_forward`: the
   * forwarding switch, written only when it did not read as on, then the
   * three rules.
   */
  function NatRest(on: bool, cidr: string, iface: string): (rest: seq<Cmd>)
    ensures |rest| == if on then 3 else 4
  {
    (if on then [] else [WriteSysctl(true, IpForward)]) + NatRules(cidr, iface)
  }

  /** All the checked commands of `setup_nat`, given what reading `ip_forward` printed. */
  function NatPlan(stdout: string, cidr: string, iface: string): (plan: seq<Cmd>)
    ensures |plan| == if ForwardingOn(stdout) then 4 else 5
    ensures plan[0] == ReadSysctl(IpForward) && plan[|plan| - 3..] == NatRules(cidr, iface)
  {
    [ReadSysctl(IpForward)] + NatRest(ForwardingOn(stdout), cidr, iface)
  }

  /**
   * What `setup_nat` issues when the host answers with `o` from trace
   * position `pos`: the read of `ip_forward`, then the rest of the plan up to
   * and including the first command that fails.
   */
  function NatTrace(o: Oracle, pos: nat, cidr: string, iface: string): seq<Cmd> {
    var read := ReadSysctl(IpForward);
    if !Succeeds(o, pos, read) then [read]
    else
      var rest := NatRest(ForwardingOn(o(pos, read).stdout), cidr, iface);
      [read] + Attempted(rest, FirstFailure(o, pos + 1, rest))
  }

  /** Whether every command `setup_nat` issues succeeds. */
  predicate NatDone(o: Oracle, pos: nat, cidr: string, iface: string) {
    var read := ReadSysctl(IpForward);
    var rest := NatRest(ForwardingOn(o(pos, read).stdout), cidr, iface);
    Succeeds(o, pos, read) && FirstFailure(o, pos + 1, rest) == |rest|
  }

  /**
   * `setup_nat`: every command is checked and the first failure ends the
   * method with False; the exception does not escape.
   */
  method SetupNat(h: Host, cidr: string, iface: string) returns (ok: bool)
    modifies h`trace
    ensures ok == NatDone(h.respond, |old(h.trace)|, cidr, iface)
    ensures h.trace == old(h.trace) + NatTrace(h.respond, |old(h.trace)|, cidr, iface)
  {
    ghost var t0 := h.trace;
    var result, raised := h.RunCommand(ReadSysctl(IpForward), true);
    if raised {
      return false;
    }
    ghost var t1 := h.trace;
    assert t1 == t0 + [ReadSysctl(IpForward)] && |t1| == |t0| + 1;
    var on := ForwardingOn(result.stdout);
    var rest := NatRest(on, cidr, iface);
    raised := RunChecked(h, rest);
    ghost var issued := Attempted(rest, FirstFailure(h.respond, |t1|, rest));
    AppendAssoc(t0, [ReadSysctl(IpForward)], issued);
    return !raised;
  }

  /**
   * The NAT commands behave as one checked block over the whole plan: what
   * is issued is the plan up to its first failure, and the method succeeds
   * exactly when nothing fails.
   */
  lemma NatTraceIsCheckedPlan(o: Oracle, pos: nat, cidr: string, iface: string)
    ensures var plan := NatPlan(o(pos, ReadSysctl(IpForward)).stdout, cidr, iface);
      var k := FirstFailure(o, pos, plan);
      NatTrace(o, pos, cidr, iface) == Attempted(plan, k) &&
      (NatDone(o, pos, cidr, iface) <==> k == |plan|)
  {
    var read := ReadSysctl(IpForward);
    FirstFailureCons(o, pos, read, NatRest(ForwardingOn(o(pos, read).stdout), cidr, iface));
  }

  /** Once `setup_nat` succeeds, the host's FORWARD chain ends with the two NAT rules. */
  lemma NatForwardRules(chain: seq<ForwardRule>, stdout: string, cidr: string, iface: string)
    ensures ForwardAfter(chain, NatPlan(stdout, cidr, iface)) ==
      chain + [Between(AnyBridge, iface, Accept), Returning(iface, AnyBridge)]
  {
    var rest := NatRest(ForwardingOn(stdout), cidr, iface);
    assert ([ReadSysctl(IpForward)] + rest)[1..] == rest;
    NatRestForwardRules(chain, ForwardingOn(stdout), cidr, iface);
  }

  lemma NatRestForwardRules(chain: seq<ForwardRule>, on: bool, cidr: string, iface: string)
    ensures ForwardAfter(chain, NatRest(on, cidr, iface)) ==
      chain + [Between(AnyBridge, iface, Accept), Returning(iface, AnyBridge)]
  {
    var front: seq<Cmd> := if on then [] else [WriteSysctl(true, IpForward)];
    var rules := NatRules(cidr, iface);
    ForwardAfterConcat(chain, front, rules);
    ForwardAfterOthers(chain, front);
    var c2 := chain + [Between(AnyBridge, iface, Accept)];
    var c3 := c2 + [Returning(iface, AnyBridge)];
    assert rules[1..][1..] == rules[2..] && rules[2..][1..] == [];
    assert ForwardAfter(chain, rules) == ForwardAfter(chain, rules[1..]);
    assert ForwardAfter(chain, rules[1..]) == ForwardAfter(c2, rules[2..]);
    assert ForwardAfter(c2, rules[2..]) == ForwardAfter(c3, []);
  }

  // ---------------------------------------------------------------------
  // Routes between the subnets of one VPC (add_inter_subnet_routes)

  /** The route that subnet `s` gets towards subnet `o`; none towards itself. */
  function RouteTo(s: Subnet, o: Subnet): seq<Cmd> {
    if o.name == s.name then [] else [NetnsExec(s.namespace, RouteAdd(o.cidr, s.gateway))]
  }

  /** The routes `s` gets towards each of `others`, in order. */
  function RoutesFrom(s: Subnet, others: seq<Subnet>): (routes: seq<Cmd>)
    ensures |routes| <= |others|
    decreases |others|
  {
    if others == [] then []
    else RoutesFrom(s, others[..|others| - 1]) + RouteTo(s, others[|others| - 1])
  }

  /** The routes every subnet of `from` gets towards each subnet of `all`. */
  function MeshRoutes(from: seq<Subnet>, all: seq<Subnet>): (routes: seq<Cmd>)
    ensures |routes| <= |from| * |all|
    decreases |from|
  {
    if from == [] then []
    else MeshRoutes(from[..|from| - 1], all) + RoutesFrom(from[|from| - 1], all)
  }

  /**
   * The unchecked commands of `add_inter_subnet_routes`: nothing for an
   * unknown VPC or fewer than two subnets, otherwise the bridge-to-bridge
   * ACCEPT rule and the full mesh of routes.
   */
  function InterSubnetPlan(t: Topology, vpcName: string): (plan: seq<Cmd>)
    ensures plan == [] <==> FindVpc(t, vpcName).None? || |FindVpc(t, vpcName).value.subnets| < 2
    ensures plan != [] ==> plan[0] == Forward(Append, Between(FindVpc(t, vpcName).value.bridge, FindVpc(t, vpcName).value.bridge, Accept))
  {
    match FindVpc(t, vpcName)
    case None => []
    case Some(v) =>
      if |v.subnets| < 2 then []
      else [Forward(Append, Between(v.bridge, v.bridge, Accept))] + MeshRoutes(v.subnets, v.subnets)
  }

  method AddInterSubnetRoutes(h: Host, vpcName: string) returns (ok: bool)
    modifies h`trace
    ensures ok <==> FindVpc(Loaded(h.file), vpcName).Some?
    ensures h.trace == old(h.trace) + InterSubnetPlan(Loaded(h.file), vpcName)
  {
    var state := h.LoadState();
    var vpc := FindVpc(state, vpcName);
    if vpc.None? {
      return false;
    }
    var subnets := vpc.value.subnets;
    var bridge := vpc.value.bridge;
    if |subnets| < 2 {
      return true;
    }
    ghost var t0 := h.trace;
    var open := Forward(Append, Between(bridge, bridge, Accept));
    assert InterSubnetPlan(state, vpcName) == [open] + MeshRoutes(subnets, subnets);
    var result, raised := h.RunCommand(open, false);
    AddMesh(h, subnets);
    AppendAssoc(t0, [open], MeshRoutes(subnets, subnets));
    return true;
  }

  /** The outer loop of `add_inter_subnet_routes`: every subnet in turn gets its routes. */
  method AddMesh(h: Host, subnets: seq<Subnet>)
    modifies h`trace
    ensures h.trace == old(h.trace) + MeshRoutes(subnets, subnets)
  {
    ghost var t1 := h.trace;
    var i := 0;
    while i < |subnets|
      invariant 0 <= i <= |subnets|
      invariant h.trace == t1 + MeshRoutes(subnets[..i], subnets)
      decreases |subnets| - i
    {
      var s1 := subnets[i];
      AddRoutesFrom(h, s1, subnets);
      MeshRoutesStep(subnets, subnets, i);
      AppendAssoc(t1, MeshRoutes(subnets[..i], subnets), RoutesFrom(s1, subnets));
      i := i + 1;
    }
    assert subnets[..i] == subnets;
  }

  /**
   * The inner loop of `add_inter_subnet_routes`, and the loop of
   * `setup_private_subnet_routing`: an unchecked route inside `s`'s
   * namespace towards each of `others` that has another name.
   */
  method AddRoutesFrom(h: Host, s: Subnet, others: seq<Subnet>)
    modifies h`trace
    ensures h.trace == old(h.trace) + RoutesFrom(s, others)
  {
    ghost var t0 := h.trace;
    var j := 0;
    while j < |others|
      invariant 0 <= j <= |others|
      invariant h.trace == t0 + RoutesFrom(s, others[..j])
      decreases |others| - j
    {
      var o := others[j];
      RoutesFromStep(s, others, j);
      AppendAssoc(t0, RoutesFrom(s, others[..j]), RouteTo(s, o));
      if s.name != o.name {
        var result, raised := h.RunCommand(NetnsExec(s.namespace, RouteAdd(o.cidr, s.gateway)), false);
      }
      j := j + 1;
    }
    assert others[..j] == others;
  }

  lemma RoutesFromStep(s: Subnet, others: seq<Subnet>, j: nat)
    requires j < |others|
    ensures RoutesFrom(s, others[..j + 1]) == RoutesFrom(s, others[..j]) + RouteTo(s, others[j])
  {
    assert others[..j + 1][..j] == others[..j];
  }

  lemma MeshRoutesStep(from: seq<Subnet>, all: seq<Subnet>, i: nat)
    requires i < |from|
    ensures MeshRoutes(from[..i + 1], all) == MeshRoutes(from[..i], all) + RoutesFrom(from[i], all)
  {
    assert from[..i + 1][..i] == from[..i];
  }

  // ---------------------------------------------------------------------
  // What the mesh contains

  /** Every route of `s` points at a subnet of `others` with another name. */
  lemma {:induction false} RoutesFromSound(s: Subnet, others: seq<Subnet>, c: Cmd)
    requires c in RoutesFrom(s, others)
    ensures exists o | o in others :: o.name != s.name && c == NetnsExec(s.namespace, RouteAdd(o.cidr, s.gateway))
    decreases |others|
  {
    var n := |others|;
    if c in RoutesFrom(s, others[..n - 1]) {
      RoutesFromSound(s, others[..n - 1], c);
      var o :| o in others[..n - 1] && o.name != s.name && c == NetnsExec(s.namespace, RouteAdd(o.cidr, s.gateway));
      assert o in others;
    } else {
      assert others[n - 1] in others;
    }
  }

  /** `s` gets a route towards every subnet of `others` with another name. */
  lemma {:induction false} RoutesFromComplete(s: Subnet, others: seq<Subnet>, o: Subnet)
    requires o in others && o.name != s.name
    ensures NetnsExec(s.namespace, RouteAdd(o.cidr, s.gateway)) in RoutesFrom(s, others)
    decreases |others|
  {
    var n := |others|;
    if o != others[n - 1] {
      assert o in others[..n - 1] by {
        var i :| 0 <= i < n && others[i] == o;
        assert others[..n - 1][i] == o;
      }
      RoutesFromComplete(s, others[..n - 1], o);
    }
  }

  /** Without two records of one name, `s` (one of `others`) gets one route per other subnet. */
  lemma {:induction false} RoutesFromCount(s: Subnet, others: seq<Subnet>)
    requires UniqueSubnetNames(others)
    ensures |RoutesFrom(s, others)| == |others| - (if exists i | 0 <= i < |others| :: others[i].name == s.name then 1 else 0)
    decreases |others|
  {
    var n := |others|;
    if n > 0 {
      var init := others[..n - 1];
      assert UniqueSubnetNames(init) by {
        forall a, b | 0 <= a < b < |init| ensures init[a].name != init[b].name {
          assert init[a] == others[a] && init[b] == others[b];
        }
      }
      RoutesFromCount(s, init);
      if others[n - 1].name == s.name {
        forall i | 0 <= i < n - 1 ensures init[i].name != s.name {
          assert init[i] == others[i];
        }
      } else {
        if exists i | 0 <= i < n :: others[i].name == s.name {
          var i :| 0 <= i < n && others[i].name == s.name;
          assert init[i] == others[i];
        }
        if exists i | 0 <= i < n - 1 :: init[i].name == s.name {
          var i :| 0 <= i < n - 1 && init[i].name == s.name;
          assert others[i] == init[i];
        }
      }
    }
  }

  /**
   * In the mesh over `all`, subnet `a` of `from` has a route towards `b`
   * of `all` whenever their names differ (`MeshRoutesSound` gives the
   * converse: the mesh carries no other command).
   */
  lemma {:induction false} MeshRouteFor(from: seq<Subnet>, all: seq<Subnet>, a: Subnet, b: Subnet)
    requires a in from && b in all
    ensures a.name != b.name ==> NetnsExec(a.namespace, RouteAdd(b.cidr, a.gateway)) in MeshRoutes(from, all)
    decreases |from|
  {
    var n := |from|;
    if a.name != b.name {
      if a == from[n - 1] {
        RoutesFromComplete(a, all, b);
      } else {
        assert a in from[..n - 1] by {
          var i :| 0 <= i < n && from[i] == a;
          assert from[..n - 1][i] == a;
        }
        MeshRouteFor(from[..n - 1], all, a, b);
      }
    }
  }

  /** Every command of the mesh is a route from a subnet of `from` towards another one of `all`. */
  lemma {:induction false} MeshRoutesSound(from: seq<Subnet>, all: seq<Subnet>, c: Cmd)
    requires c in MeshRoutes(from, all)
    ensures exists a, b | a in from && b in all ::
      a.name != b.name && c == NetnsExec(a.namespace, RouteAdd(b.cidr, a.gateway))
    decreases |from|
  {
    var n := |from|;
    if c in MeshRoutes(from[..n - 1], all) {
      MeshRoutesSound(from[..n - 1], all, c);
      var a, b :| a in from[..n - 1] && b in all &&
        a.name != b.name && c == NetnsExec(a.namespace, RouteAdd(b.cidr, a.gateway));
      assert a in from;
    } else {
      RoutesFromSound(from[n - 1], all, c);
      assert from[n - 1] in from;
    }
  }

  /** With unique names, a VPC of n subnets gets n * (n - 1) routes. */
  lemma {:induction false} MeshRoutesCount(from: seq<Subnet>, all: seq<Subnet>)
    requires UniqueSubnetNames(all)
    requires forall k | 0 <= k < |from| :: from[k] in all
    ensures |MeshRoutes(from, all)| == |from| * (|all| - 1)
    decreases |from|
  {
    var n := |from|;
    if n > 0 {
      var s := from[n - 1];
      var m := |all| - 1;
      assert |MeshRoutes(from[..n - 1], all)| == (n - 1) * m by {
        assert forall k | 0 <= k < n - 1 :: from[..n - 1][k] == from[k];
        MeshRoutesCount(from[..n - 1], all);
      }
      assert |RoutesFrom(s, all)| == m by {
        RoutesFromCount(s, all);
        assert s in all;
        var i :| 0 <= i < |all| && all[i] == s;
        assert all[i].name == s.name;
      }
      assert (n - 1) * m + m == n * m;
    }
  }

  // ---------------------------------------------------------------------
  // Private subnets (setup_private_subnet_routing)

  /**
   * The unchecked commands of `setup_private_subnet_routing`: nothing for
   * an unknown subnet, otherwise drop the default route inside its
   * namespace and add a route towards every other subnet of the VPC.
   */
  function PrivatePlan(t: Topology, vpcName: string, subnetName: string): (plan: seq<Cmd>)
    ensures plan == [] <==> FindSubnet(t, vpcName, subnetName).None?
    ensures plan != [] ==> plan[0] == NetnsExec(FindSubnet(t, vpcName, subnetName).value.namespace, RouteDelDefault)
  {
    match FindSubnet(t, vpcName, subnetName)
    case None => []
    case Some(s) =>
      [NetnsExec(s.namespace, RouteDelDefault)] + RoutesFrom(s, FindVpc(t, vpcName).value.subnets)
  }

  method SetupPrivateSubnetRouting(h: Host, vpcName: string, subnetName: string) returns (ok: bool)
    modifies h`trace
    ensures ok <==> FindSubnet(Loaded(h.file), vpcName, subnetName).Some?
    ensures h.trace == old(h.trace) + PrivatePlan(Loaded(h.file), vpcName, subnetName)
  {
    var state := h.LoadState();
    var subnet := FindSubnet(state, vpcName, subnetName);
    if subnet.None? {
      return false;
    }
    state := h.LoadState();
    var allSubnets := FindVpc(state, vpcName).value.subnets;
    ghost var t0 := h.trace;
    var result, raised := h.RunCommand(NetnsExec(subnet.value.namespace, RouteDelDefault), false);
    AddRoutesFrom(h, subnet.value, allSubnets);
    AppendAssoc(t0, [NetnsExec(subnet.value.namespace, RouteDelDefault)], RoutesFrom(subnet.value, allSubnets));
    return true;
  }
}
