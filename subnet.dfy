/**
 * Creating and deleting a subnet: a network namespace joined to the VPC's
 * bridge by a veth pair, its record inside the VPC's record, and the
 * routing set up once the record is saved.
 */
module Subnets {
  import opened Wrappers
  import opened Text
  import opened Cidr
  import opened State
  import opened Commands
  import opened Gateway
  import opened Routing

  /** How a call ends: it returns a boolean, or an exception escapes it. */
  datatype Outcome = Returned(ok: bool) | Uncaught

  // ---------------------------------------------------------------------
  // Names and addresses

  function NamespaceName(vpcName: string, subnetName: string): string {
    vpcName + "-" + subnetName
  }

  /** The bridge end of the veth pair: tag `vb`. */
  function VethBrName(vpcName: string, subnetName: string): string {
    ShortName("vb", vpcName, subnetName)
  }

  /** The namespace end of the veth pair: tag `vn`. */
  function VethNsName(vpcName: string, subnetName: string): string {
    ShortName("vn", vpcName, subnetName)
  }

  /** The two ends of a pair never share a name, whatever the VPC and subnet are called. */
  lemma VethEndsDiffer(vpcName: string, subnetName: string, vpcName': string, subnetName': string)
    ensures VethBrName(vpcName, subnetName) != VethNsName(vpcName', subnetName')
  {
    assert VethBrName(vpcName, subnetName)[1] == 'b';
    assert VethNsName(vpcName', subnetName')[1] == 'n';
  }

  /**
   * Two subnets whose names agree in their first four characters, in VPCs
   * whose names do too, get the same veth names: the names tell subnets
   * apart only up to that length.
   */
  lemma VethNamesTruncate(vpcName: string, a: string, b: string)
    requires |a| >= 4 && |b| >= 4 && a[..4] == b[..4]
    ensures VethBrName(vpcName, a) == VethBrName(vpcName, b)
    ensures VethNsName(vpcName, a) == VethNsName(vpcName, b)
  {
  }

  /** The gateway: the first host of the network, printed. */
  function GatewayIp(n: Network): string
    requires ValidNetwork(n)
  {
    FormatAddress(Hosts(n)[0])
  }

  /** The subnet's own address: the second host of the network, printed. */
  function SubnetIp(n: Network): string
    requires ValidNetwork(n) && n.prefix <= 31
  {
    FirstTwoHosts(n);
    FormatAddress(Hosts(n)[1])
  }

  /** Up to /30 the gateway is the network address plus one and the subnet address plus two. */
  lemma SubnetAddresses(n: Network)
    requires ValidNetwork(n) && n.prefix <= 30
    ensures ParseAddress(GatewayIp(n)) == Some(n.address + 1)
    ensures ParseAddress(SubnetIp(n)) == Some(n.address + 2)
    ensures GatewayIp(n) != SubnetIp(n)
  {
    FirstTwoHosts(n);
    ParseFormatAddress(Hosts(n)[0]);
    ParseFormatAddress(Hosts(n)[1]);
  }

  /** The record `create_subnet` stores. */
  function NewSubnet(vpcName: string, subnetName: string, cidr: string, kind: string, n: Network): (s: Subnet)
    requires ValidNetwork(n) && n.prefix <= 31
    ensures s.name == subnetName && s.cidr == cidr && s.kind == kind
    ensures ParseAddress(s.gateway) == Some(Hosts(n)[0]) && ParseAddress(s.ip) == Some(Hosts(n)[1])
    ensures s.vethBr != s.vethNs && |s.vethBr| <= 12 && |s.vethNs| <= 12
  {
    FirstTwoHosts(n);
    ParseFormatAddress(Hosts(n)[0]);
    ParseFormatAddress(Hosts(n)[1]);
    VethEndsDiffer(vpcName, subnetName, vpcName, subnetName);
    Subnet(subnetName, cidr, kind, NamespaceName(vpcName, subnetName), SubnetIp(n), GatewayIp(n),
           VethBrName(vpcName, subnetName), VethNsName(vpcName, subnetName))
  }

  // ---------------------------------------------------------------------
  // create_subnet

  /** The result of the checks `create_subnet` makes before running any command. */
  datatype Admission = Refused | Raises | Admitted(vpc: Vpc, net: Network)

  /**
   * The checks of `create_subnet`, in their order: the CIDR's shape, the
   * VPC, the parse of both CIDRs by `ipaddress` (a ValueError escapes), the
   * containment, a subnet of the same name, and the second host (an
   * IndexError escapes for a /32).
   */
  function Admit(t: Topology, vpcName: string, subnetName: string, cidr: string): (a: Admission)
    ensures a.Admitted? ==>
      ValidateCidr(cidr) && FindVpc(t, vpcName) == Some(a.vpc) &&
      ParseNetwork(a.vpc.cidr).Some? && ParseNetwork(cidr) == Some(a.net) &&
      SubnetOf(a.net, ParseNetwork(a.vpc.cidr).value) &&
      FindSubnet(t, vpcName, subnetName).None? && a.net.prefix <= 31
    ensures a.Raises? ==> ValidateCidr(cidr) && FindVpc(t, vpcName).Some?
    ensures !ValidateCidr(cidr) || FindVpc(t, vpcName).None? ==> a.Refused?
  {
    if !ValidateCidr(cidr) then Refused
    else match FindVpc(t, vpcName)
      case None => Refused
      case Some(v) =>
        var vn := ParseNetwork(v.cidr);
        var sn := ParseNetwork(cidr);
        if vn.None? || sn.None? then Raises
        else if !SubnetOf(sn.value, vn.value) then Refused
        else if FindSubnet(t, vpcName, subnetName).Some? then Refused
        else if sn.value.prefix == 32 then Raises
        else Admitted(v, sn.value)
  }

  /** `create_subnet` with a CIDR in Arabic-Indic digits, in an existing VPC,
      passes `validate_cidr` and then raises out of `ipaddress`. */
  lemma ArabicIndicCidrRaises(t: Topology, vpcName: string, subnetName: string)
    requires FindVpc(t, vpcName).Some?
    ensures Admit(t, vpcName, subnetName, "\U{0661}\U{0660}.0.0.0/16") == Raises
  {
    NonAsciiDigitsPassValidation();
  }

  /** The eleven checked commands, in order. */
  function SubnetPlan(s: Subnet, bridge: string, prefix: string): (plan: seq<Cmd>)
    ensures |plan| == 11
  {
    var ns := s.namespace;
    [ NetnsAdd(ns),
      LinkAddVeth(s.vethBr, s.vethNs),
      LinkSetMaster(s.vethBr, bridge),
      AddrAdd(s.gateway, prefix, bridge),
      WriteSysctl(false, DevConf(s.vethBr, RpFilter)),
      LinkSetUp(s.vethBr),
      LinkSetNetns(s.vethNs, ns),
      NetnsExec(ns, AddrAdd(s.ip, prefix, s.vethNs)),
      NetnsExec(ns, LinkSetUp(s.vethNs)),
      NetnsExec(ns, LinkSetUp("lo")),
      NetnsExec(ns, RouteAddDefault(s.gateway)) ]
  }

  /** The unchecked clean-up of the `except` branch. */
  function Rollback(s: Subnet): seq<Cmd> {
    [NetnsDel(s.namespace), LinkDel(s.vethBr)]
  }

  /** The rollback deletes the namespace and the veth end the first two commands create. */
  lemma RollbackUndoesPlan(s: Subnet, bridge: string, prefix: string)
    ensures var plan := SubnetPlan(s, bridge, prefix);
      plan[0] == NetnsAdd(Rollback(s)[0].ns) && plan[1].LinkAddVeth? && plan[1].dev == Rollback(s)[1].dev
    ensures forall k | 2 <= k < 11 :: !SubnetPlan(s, bridge, prefix)[k].NetnsAdd? && !SubnetPlan(s, bridge, prefix)[k].LinkAddVeth?
  {
  }

  /** Whether the routing dispatch after the save raises: a public subnet whose `ip route show default` fails. */
  predicate DispatchRaises(o: Oracle, pos: nat, s: Subnet) {
    s.kind == "public" && !Succeeds(o, pos, RouteShowDefault)
  }

  /**
   * What the routing dispatch after the save issues from trace position
   * `pos`, against the saved topology `t`: for a public subnet the default
   * interface lookup and, when an interface is found, NAT and the mesh of
   * routes; for a private one its own routes and the mesh; nothing for any
   * other type.
   */
  function DispatchTrace(o: Oracle, pos: nat, t: Topology, vpcName: string, s: Subnet): seq<Cmd> {
    if s.kind == "public" then PublicTrace(o, pos, t, vpcName, s.cidr)
    else if s.kind == "private" then PrivatePlan(t, vpcName, s.name) + InterSubnetPlan(t, vpcName)
    else []
  }

  /** The public branch: NAT and the mesh only when a default interface is found. */
  function PublicTrace(o: Oracle, pos: nat, t: Topology, vpcName: string, cidr: string): seq<Cmd> {
    if !Succeeds(o, pos, RouteShowDefault) then [RouteShowDefault]
    else
      var iface := InterfaceFromRoute(o(pos, RouteShowDefault).stdout);
      if iface.None? then [RouteShowDefault]
      else [RouteShowDefault] + PublicTail(o, pos + 1, t, vpcName, cidr, iface.value)
  }

  /** src/vpcctl/subnet.py, lines 100-101, once the default interface is known: NAT, then the mesh. */
  function PublicTail(o: Oracle, pos: nat, t: Topology, vpcName: string, cidr: string, iface: string): seq<Cmd> {
    NatTrace(o, pos, cidr, iface) + InterSubnetPlan(t, vpcName)
  }

  /** src/vpcctl/subnet.py, lines 95-105: the routing calls after the save; their own results are ignored. */
  method Dispatch(h: Host, vpcName: string, s: Subnet) returns (raised: bool)
    modifies h`trace
    ensures raised == DispatchRaises(h.respond, |old(h.trace)|, s)
    ensures h.trace == old(h.trace) + DispatchTrace(h.respond, |old(h.trace)|, Loaded(h.file), vpcName, s)
  {
    ghost var t0 := h.trace;
    raised := false;
    if s.kind == "public" {
      raised := DispatchPublic(h, vpcName, s.cidr);
    } else if s.kind == "private" {
      var ownOk := SetupPrivateSubnetRouting(h, vpcName, s.name);
      var meshOk := AddInterSubnetRoutes(h, vpcName);
      AppendAssoc(t0, PrivatePlan(Loaded(h.file), vpcName, s.name), InterSubnetPlan(Loaded(h.file), vpcName));
      assert h.trace == t0 + DispatchTrace(h.respond, |t0|, Loaded(h.file), vpcName, s);
    }
  }

  method DispatchPublic(h: Host, vpcName: string, cidr: string) returns (raised: bool)
    modifies h`trace
    ensures raised == !Succeeds(h.respond, |old(h.trace)|, RouteShowDefault)
    ensures h.trace == old(h.trace) + PublicTrace(h.respond, |old(h.trace)|, Loaded(h.file), vpcName, cidr)
  {
    ghost var t0 := h.trace;
    var iface;
    iface, raised := GetDefaultInterface(h);
    if raised || iface.None? {
      assert h.trace == t0 + PublicTrace(h.respond, |t0|, Loaded(h.file), vpcName, cidr);
      return;
    }
    ghost var t1 := h.trace;
    assert t1 == t0 + [RouteShowDefault] && |t1| == |t0| + 1;
    PublicRoutes(h, vpcName, cidr, iface.value);
    ghost var tail := PublicTail(h.respond, |t1|, Loaded(h.file), vpcName, cidr, iface.value);
    assert h.trace == t1 + tail;
    AppendAssoc(t0, [RouteShowDefault], tail);
    assert PublicTrace(h.respond, |t0|, Loaded(h.file), vpcName, cidr) == [RouteShowDefault] + tail;
  }

  /** src/vpcctl/subnet.py, lines 100-101: NAT for the subnet over the default interface, then the mesh. */
  method PublicRoutes(h: Host, vpcName: string, cidr: string, iface: string)
    modifies h`trace
    ensures h.trace == old(h.trace) + PublicTail(h.respond, |old(h.trace)|, Loaded(h.file), vpcName, cidr, iface)
  {
    ghost var t0 := h.trace;
    var natOk := SetupNat(h, cidr, iface);
    ghost var natPart := NatTrace(h.respond, |t0|, cidr, iface);
    var meshOk := AddInterSubnetRoutes(h, vpcName);
    AppendAssoc(t0, natPart, InterSubnetPlan(Loaded(h.file), vpcName));
  }

  /** src/vpcctl/subnet.py, lines 13-40: the checks before the `try`, run against the state file; nothing is issued. */
  method CheckSubnet(h: Host, vpcName: string, subnetName: string, cidr: string) returns (a: Admission)
    ensures a == Admit(Loaded(h.file), vpcName, subnetName, cidr)
  {
    if !ValidateCidr(cidr) {
      return Refused;
    }
    var state := h.LoadState();
    var vpc := FindVpc(state, vpcName);
    if vpc.None? {
      return Refused;
    }
    var vpcNetwork := ParseNetwork(vpc.value.cidr);
    var subnetNetwork := ParseNetwork(cidr);
    if vpcNetwork.None? || subnetNetwork.None? {
      return Raises;
    }
    if !SubnetOf(subnetNetwork.value, vpcNetwork.value) {
      return Refused;
    }
    state := h.LoadState();
    if FindSubnet(state, vpcName, subnetName).Some? {
      return Refused;
    }
    var hosts := Hosts(subnetNetwork.value);
    FirstTwoHosts(subnetNetwork.value);
    if |hosts| < 2 {
      return Raises;
    }
    return Admitted(vpc.value, subnetNetwork.value);
  }

  /** src/vpcctl/subnet.py, lines 88-105: the record is appended and saved, then the routing dispatch runs. */
  method Commit(h: Host, vpcName: string, s: Subnet) returns (raised: bool)
    modifies h
    ensures var pos := |old(h.trace)|;
      var saved := WithSubnet(old(Loaded(h.file)), vpcName, s);
      raised == DispatchRaises(h.respond, pos, s) && h.file == Some(saved) &&
      h.trace == old(h.trace) + DispatchTrace(h.respond, pos, saved, vpcName, s)
  {
    var state := h.LoadState();
    state := EditFirst(state, vpcName, AppendSubnet(s));
    h.SaveState(state);
    raised := Dispatch(h, vpcName, s);
  }

  /**
   * src/vpcctl/subnet.py, lines 43-114, the `try` of `create_subnet` and its `except`: the
   * eleven checked commands, then the save and the routing dispatch; a
   * raise anywhere runs the rollback.
   */
  method Provision(h: Host, vpcName: string, s: Subnet, bridge: string, prefix: string) returns (ok: bool)
    modifies h
    ensures var plan := SubnetPlan(s, bridge, prefix);
      var pos := |old(h.trace)|;
      var k := FirstFailure(h.respond, pos, plan);
      var saved := WithSubnet(old(Loaded(h.file)), vpcName, s);
      (k < |plan| ==>
        !ok && h.trace == old(h.trace) + Attempted(plan, k) + Rollback(s) && h.file == old(h.file)) &&
      (k == |plan| ==>
        var raised := DispatchRaises(h.respond, pos + |plan|, s);
        ok == !raised && h.file == Some(saved) &&
        h.trace == old(h.trace) + plan + DispatchTrace(h.respond, pos + |plan|, saved, vpcName, s) +
                   (if raised then Rollback(s) else []))
  {
    ghost var t0 := h.trace;
    var plan := SubnetPlan(s, bridge, prefix);
    var raised := RunChecked(h, plan);
    if !raised {
      assert h.trace == t0 + plan && |h.trace| == |t0| + |plan|;
      raised := Commit(h, vpcName, s);
      if !raised {
        return true;
      }
    }
    ghost var t1 := h.trace;
    var result;
    result, raised := h.RunCommand(NetnsDel(s.namespace), false);
    result, raised := h.RunCommand(LinkDel(s.vethBr), false);
    assert h.trace == t1 + Rollback(s);
    return false;
  }

  /**
   * `create_subnet`.  Refused checks return False and escaping exceptions
   * end the call, both before any command or save.  Otherwise the eleven
   * checked commands run until one fails, which triggers the rollback and
   * leaves the state file alone.  When all succeed the record is appended
   * to the VPC's subnets and saved, and then the routing dispatch runs; if
   * that raises, the rollback runs too and the call returns False, but the
   * saved record stays.
   */
  method CreateSubnet(h: Host, vpcName: string, subnetName: string, cidr: string, kind: string)
    returns (out: Outcome)
    modifies h
    ensures var a := Admit(old(Loaded(h.file)), vpcName, subnetName, cidr);
      !a.Admitted? ==>
        out == (if a.Refused? then Returned(false) else Uncaught) &&
        h.trace == old(h.trace) && h.file == old(h.file)
    ensures var a := Admit(old(Loaded(h.file)), vpcName, subnetName, cidr);
      a.Admitted? ==>
        var s := NewSubnet(vpcName, subnetName, cidr, kind, a.net);
        var plan := SubnetPlan(s, a.vpc.bridge, PrefixText(cidr));
        var pos := |old(h.trace)|;
        var k := FirstFailure(h.respond, pos, plan);
        var saved := WithSubnet(old(Loaded(h.file)), vpcName, s);
        (k < |plan| ==>
          out == Returned(false) && h.trace == old(h.trace) + Attempted(plan, k) + Rollback(s) &&
          h.file == old(h.file)) &&
        (k == |plan| ==>
          var raised := DispatchRaises(h.respond, pos + |plan|, s);
          out == Returned(!raised) && h.file == Some(saved) &&
          h.trace == old(h.trace) + plan + DispatchTrace(h.respond, pos + |plan|, saved, vpcName, s) +
                     (if raised then Rollback(s) else []))
    ensures old(WellFormed(Loaded(h.file))) ==> WellFormed(Loaded(h.file))
  {
    ghost var t := Loaded(h.file);
    var a := CheckSubnet(h, vpcName, subnetName, cidr);
    if a.Refused? {
      return Returned(false);
    }
    if a.Raises? {
      return Uncaught;
    }
    ValidHasSlash(cidr);
    var subnet := NewSubnet(vpcName, subnetName, cidr, kind, a.net);
    if WellFormed(t) {
      WithSubnetFound(t, vpcName, subnet);
    }
    var ok := Provision(h, vpcName, subnet, a.vpc.bridge, PrefixText(cidr));
    return Returned(ok);
  }

  /** The record appended is the new subnet, found again under its name. */
  lemma CreateSubnetFinds(t: Topology, vpcName: string, subnetName: string, cidr: string, kind: string)
    requires WellFormed(t) && Admit(t, vpcName, subnetName, cidr).Admitted?
    ensures var a := Admit(t, vpcName, subnetName, cidr);
      var s := NewSubnet(vpcName, subnetName, cidr, kind, a.net);
      FindSubnet(WithSubnet(t, vpcName, s), vpcName, subnetName) == Some(s) &&
      WithoutSubnet(WithSubnet(t, vpcName, s), vpcName, subnetName) == t
  {
    var a := Admit(t, vpcName, subnetName, cidr);
    var s := NewSubnet(vpcName, subnetName, cidr, kind, a.net);
    WithSubnetFound(t, vpcName, s);
    RemoveSubnetAfterAdd(t, vpcName, s);
  }

  // ---------------------------------------------------------------------
  // delete_subnet

  /** The unchecked deletions before the interface lookup: the address goes only when a gateway is recorded. */
  function TeardownPlan(s: Subnet, bridge: string): (plan: seq<Cmd>)
    requires HasSlash(s.cidr)
    ensures 2 <= |plan| <= 3 && plan[..2] == [NetnsDel(s.namespace), LinkDel(s.vethBr)]
    ensures |plan| == 3 <==> s.gateway != ""
  {
    [NetnsDel(s.namespace), LinkDel(s.vethBr)] +
    (if s.gateway != "" then [AddrDel(s.gateway, PrefixText(s.cidr), bridge)] else [])
  }

  /** The unchecked NAT clean-up, issued only when a default interface was found. */
  function NatCleanup(iface: Option<string>, cidr: string): (cmds: seq<Cmd>)
    ensures cmds == [] <==> iface.None?
    ensures iface.Some? ==> |cmds| == 2 && cmds[0].Masquerade? && cmds[1].Forward?
  {
    match iface
    case None => []
    case Some(i) => [Masquerade(Delete, cidr, i), Forward(Delete, FromSource(cidr))]
  }

  /** src/vpcctl/subnet.py, lines 131-138: the namespace, the bridge-side veth and the bridge address go, unchecked. */
  method Teardown(h: Host, s: Subnet, bridge: string)
    requires HasSlash(s.cidr)
    modifies h`trace
    ensures h.trace == old(h.trace) + TeardownPlan(s, bridge)
  {
    var prefix := PrefixText(s.cidr);
    var result, raised := h.RunCommand(NetnsDel(s.namespace), false);
    result, raised := h.RunCommand(LinkDel(s.vethBr), false);
    if s.gateway != "" {
      result, raised := h.RunCommand(AddrDel(s.gateway, prefix, bridge), false);
    }
  }

  /**
   * src/vpcctl/subnet.py, lines 140-155: the checked default-route lookup, whose raise returns
   * False before the save; then the NAT clean-up when an interface was
   * found, and every subnet of that name dropped from the VPC.
   */
  method Forget(h: Host, vpcName: string, subnetName: string, cidr: string) returns (ok: bool)
    modifies h
    ensures var pos := |old(h.trace)|;
      if !Succeeds(h.respond, pos, RouteShowDefault) then
        !ok && h.trace == old(h.trace) + [RouteShowDefault] && h.file == old(h.file)
      else
        ok && h.file == Some(WithoutSubnet(old(Loaded(h.file)), vpcName, subnetName)) &&
        h.trace == old(h.trace) + [RouteShowDefault] +
                   NatCleanup(InterfaceFromRoute(h.respond(pos, RouteShowDefault).stdout), cidr)
  {
    var iface, raised := GetDefaultInterface(h);
    if raised {
      return false;
    }
    if iface.Some? {
      var result;
      result, raised := h.RunCommand(Masquerade(Delete, cidr, iface.value), false);
      result, raised := h.RunCommand(Forward(Delete, FromSource(cidr)), false);
    }
    var state := h.LoadState();
    state := EditFirst(state, vpcName, DropSubnets(subnetName));
    h.SaveState(state);
    return true;
  }

  /**
   * `delete_subnet`.  An unknown subnet gives False, and a recorded CIDR
   * without a slash raises IndexError before any command.  Otherwise the
   * namespace, the veth end and (with a gateway) the bridge address are
   * deleted without checks, then the default interface is looked up: when
   * that raises the call returns False without saving; otherwise the NAT
   * rules for the CIDR are deleted when an interface was found, and every
   * subnet of that name is dropped from the VPC.
   */
  method DeleteSubnet(h: Host, vpcName: string, subnetName: string) returns (out: Outcome)
    modifies h
    ensures var s := FindSubnet(old(Loaded(h.file)), vpcName, subnetName);
      s.None? ==> out == Returned(false) && h.trace == old(h.trace) && h.file == old(h.file)
    ensures var s := FindSubnet(old(Loaded(h.file)), vpcName, subnetName);
      s.Some? && !HasSlash(s.value.cidr) ==> out == Uncaught && h.trace == old(h.trace) && h.file == old(h.file)
    ensures var t := old(Loaded(h.file));
      var s := FindSubnet(t, vpcName, subnetName);
      s.Some? && HasSlash(s.value.cidr) ==>
        var front := TeardownPlan(s.value, FindVpc(t, vpcName).value.bridge);
        var pos := |old(h.trace)| + |front|;
        var route := h.respond(pos, RouteShowDefault);
        if !Succeeds(h.respond, pos, RouteShowDefault) then
          out == Returned(false) && h.trace == old(h.trace) + front + [RouteShowDefault] &&
          h.file == old(h.file)
        else
          out == Returned(true) && h.file == Some(WithoutSubnet(t, vpcName, subnetName)) &&
          h.trace == old(h.trace) + front + [RouteShowDefault] +
                     NatCleanup(InterfaceFromRoute(route.stdout), s.value.cidr)
    ensures old(WellFormed(Loaded(h.file))) ==> WellFormed(Loaded(h.file))
    ensures out == Returned(true) ==> FindSubnet(Loaded(h.file), vpcName, subnetName).None?
  {
    ghost var t := Loaded(h.file);
    var state := h.LoadState();
    var subnet := FindSubnet(state, vpcName, subnetName);
    if subnet.None? {
      return Returned(false);
    }
    state := h.LoadState();
    var bridge := FindVpc(state, vpcName).value.bridge;
    var s := subnet.value;
    if !HasSlash(s.cidr) {
      return Uncaught;
    }
    Teardown(h, s, bridge);
    WithoutSubnetGone(t, vpcName, subnetName);
    if WellFormed(t) {
      WithoutSubnetKeepsWellFormed(t, vpcName, subnetName);
    }
    var ok := Forget(h, vpcName, subnetName, s.cidr);
    return Returned(ok);
  }

  /**
   * The FORWARD rule `delete_subnet` deletes is not one `setup_nat` added:
   * on a chain with no `-s CIDR` rule, setting up NAT and cleaning it up
   * leaves the two NAT forwarding rules in place.
   */
  lemma NatCleanupKeepsForwardRules(chain: seq<ForwardRule>, stdout: string, cidr: string, iface: string)
    requires FromSource(cidr) !in chain
    ensures ForwardAfter(chain, NatPlan(stdout, cidr, iface) + NatCleanup(Some(iface), cidr)) ==
      chain + [Between(AnyBridge, iface, Accept), Returning(iface, AnyBridge)]
  {
    var after := chain + [Between(AnyBridge, iface, Accept), Returning(iface, AnyBridge)];
    ForwardAfterConcat(chain, NatPlan(stdout, cidr, iface), NatCleanup(Some(iface), cidr));
    NatForwardRules(chain, stdout, cidr, iface);
    var cleanup := NatCleanup(Some(iface), cidr);
    assert FromSource(cidr) !in after;
    assert cleanup[1..][1..] == [];
    assert ForwardAfter(after, cleanup) == ForwardAfter(after, cleanup[1..]);
    assert ForwardAfter(after, cleanup[1..]) == ForwardAfter(after, []);
  }
}
