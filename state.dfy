/**
 * The persisted topology (the JSON document `{"vpcs": [...]}`) as a value,
 * the first-match lookups `get_vpc` / `get_subnet`, and the edits the
 * lifecycle operations make to it.
 */
module State {
  import opened Wrappers

  /** A subnet record; `kind` is the `type` field. An empty `gateway` stands
      for a record whose `gateway` is missing or empty (`subnet.get('gateway')`
      is then falsy). */
  datatype Subnet = Subnet(
    name: string, cidr: string, kind: string, namespace: string,
    ip: string, gateway: string, vethBr: string, vethNs: string)

  datatype Peering = Peering(vpc1: string, vpc2: string, veth1: string, veth2: string)

  datatype Vpc = Vpc(
    name: string, cidr: string, bridge: string, bridgeIp: string,
    subnets: seq<Subnet>, peerings: seq<Peering>)

  datatype Topology = Topology(vpcs: seq<Vpc>)

  /** What `load_state` returns for a store that may not exist yet. */
  function Loaded(file: Option<Topology>): (t: Topology)
    ensures file.None? ==> t.vpcs == []
    ensures file.Some? ==> t == file.value
  {
    if file.None? then Topology([]) else file.value
  }

  // ---------------------------------------------------------------------
  // Sequences: first match and filtering

  /** Index of the first element satisfying `p`, or `|xs|` when there is none. */
  function Position<T>(xs: seq<T>, p: T -> bool): (i: nat)
    ensures i <= |xs|
    ensures forall j | 0 <= j < i :: !p(xs[j])
    ensures i < |xs| ==> p(xs[i])
  {
    if xs == [] then 0 else if p(xs[0]) then 0 else 1 + Position(xs[1..], p)
  }

  /** The elements of `xs` satisfying `p`, in order (a list comprehension with a condition). */
  function Filter<T(!new)>(xs: seq<T>, p: T -> bool): (r: seq<T>)
    ensures |r| <= |xs|
    ensures forall x :: x in r <==> x in xs && p(x)
  {
    if xs == [] then [] else (if p(xs[0]) then [xs[0]] else []) + Filter(xs[1..], p)
  }

  /** Filtering distributes over concatenation: kept elements stay in their order. */
  lemma {:induction false} FilterConcat<T(!new)>(xs: seq<T>, ys: seq<T>, p: T -> bool)
    ensures Filter(xs + ys, p) == Filter(xs, p) + Filter(ys, p)
  {
    if xs == [] {
      assert xs + ys == ys;
    } else {
      assert (xs + ys)[1..] == xs[1..] + ys;
      FilterConcat(xs[1..], ys, p);
      var head := if p(xs[0]) then [xs[0]] else [];
      assert Filter(xs + ys, p) == head + Filter(xs[1..] + ys, p);
    }
  }

  /** Filtering keeps a sequence whose elements all satisfy the condition. */
  lemma {:induction false} FilterAll<T(!new)>(xs: seq<T>, p: T -> bool)
    requires forall x | x in xs :: p(x)
    ensures Filter(xs, p) == xs
  {
    if xs != [] {
      assert xs[0] in xs;
      assert forall x | x in xs[1..] :: x in xs;
      FilterAll(xs[1..], p);
    }
  }

  // ---------------------------------------------------------------------
  // Lookups

  function NamedVpc(name: string): Vpc -> bool {
    (v: Vpc) => v.name == name
  }

  function NamedSubnet(name: string): Subnet -> bool {
    (s: Subnet) => s.name == name
  }

  /** Index of the first VPC record with this name. */
  function VpcIndex(t: Topology, name: string): nat {
    Position(t.vpcs, NamedVpc(name))
  }

  /** `get_vpc`: the first record with this name, or None when there is none. */
  function FindVpc(t: Topology, name: string): (r: Option<Vpc>)
    ensures r.None? <==> forall j | 0 <= j < |t.vpcs| :: t.vpcs[j].name != name
    ensures r.Some? ==> exists i | 0 <= i < |t.vpcs| ::
      t.vpcs[i] == r.value && r.value.name == name && forall j | 0 <= j < i :: t.vpcs[j].name != name
  {
    var i := VpcIndex(t, name);
    if i < |t.vpcs| then Some(t.vpcs[i]) else None
  }

  /** `get_subnet`: None when the VPC is absent, otherwise the first subnet of
      the first VPC with that name whose name matches, or None. */
  function FindSubnet(t: Topology, vpcName: string, subnetName: string): (r: Option<Subnet>)
    ensures FindVpc(t, vpcName).None? ==> r.None?
    ensures FindVpc(t, vpcName).Some? ==> var subs := FindVpc(t, vpcName).value.subnets;
      (r.None? <==> forall j | 0 <= j < |subs| :: subs[j].name != subnetName) &&
      (r.Some? ==> exists i | 0 <= i < |subs| ::
        subs[i] == r.value && r.value.name == subnetName && forall j | 0 <= j < i :: subs[j].name != subnetName)
  {
    match FindVpc(t, vpcName)
    case None => None
    case Some(v) =>
      var i := Position(v.subnets, NamedSubnet(subnetName));
      if i < |v.subnets| then Some(v.subnets[i]) else None
  }

  // ---------------------------------------------------------------------
  // The invariant: names identify records

  predicate UniqueVpcNames(vpcs: seq<Vpc>) {
    forall i, j | 0 <= i < j < |vpcs| :: vpcs[i].name != vpcs[j].name
  }

  predicate UniqueSubnetNames(subnets: seq<Subnet>) {
    forall i, j | 0 <= i < j < |subnets| :: subnets[i].name != subnets[j].name
  }

  /** VPC names are unique, and subnet names are unique within each VPC. */
  predicate WellFormed(t: Topology) {
    UniqueVpcNames(t.vpcs) && forall i | 0 <= i < |t.vpcs| :: UniqueSubnetNames(t.vpcs[i].subnets)
  }

  /** In a well-formed topology the record `get_vpc` finds is at its only index. */
  lemma FindVpcUnique(t: Topology, name: string, i: nat)
    requires WellFormed(t) && i < |t.vpcs| && t.vpcs[i].name == name
    ensures VpcIndex(t, name) == i && FindVpc(t, name) == Some(t.vpcs[i])
  {
  }

  // ---------------------------------------------------------------------
  // Edits

  /** `state['vpcs'].append(v)`. */
  function AddVpc(t: Topology, v: Vpc): Topology {
    Topology(t.vpcs + [v])
  }

  /** Appending a record under a fresh name keeps the invariant, and the
      record is then what `get_vpc` finds; lookups of other names are unchanged. */
  lemma AddVpcFound(t: Topology, v: Vpc)
    requires WellFormed(t) && FindVpc(t, v.name).None? && UniqueSubnetNames(v.subnets)
    ensures WellFormed(AddVpc(t, v))
    ensures FindVpc(AddVpc(t, v), v.name) == Some(v)
    ensures forall n | n != v.name :: FindVpc(AddVpc(t, v), n) == FindVpc(t, n)
  {
    var t' := AddVpc(t, v);
    FindVpcUnique(t', v.name, |t.vpcs|);
    forall n | n != v.name ensures FindVpc(t', n) == FindVpc(t, n) {
      PositionAppend(t.vpcs, v, NamedVpc(n));
    }
  }

  lemma {:induction false} PositionAppend<T>(xs: seq<T>, x: T, p: T -> bool)
    requires !p(x)
    ensures Position(xs + [x], p) == if Position(xs, p) < |xs| then Position(xs, p) else |xs| + 1
  {
    if xs != [] {
      assert (xs + [x])[1..] == xs[1..] + [x];
      PositionAppend(xs[1..], x, p);
    }
  }

  function NotNamedVpc(name: string): Vpc -> bool {
    (v: Vpc) => v.name != name
  }

  /** `[v for v in state['vpcs'] if v['name'] != name]`. */
  function RemoveVpc(t: Topology, name: string): Topology {
    Topology(Filter(t.vpcs, NotNamedVpc(name)))
  }

  /** After removal no record has the name, and every other record is kept. */
  lemma RemoveVpcGone(t: Topology, name: string)
    ensures FindVpc(RemoveVpc(t, name), name).None?
    ensures forall v :: v in RemoveVpc(t, name).vpcs <==> v in t.vpcs && v.name != name
  {
    var r := RemoveVpc(t, name).vpcs;
    forall j | 0 <= j < |r| ensures r[j].name != name {
      assert r[j] in r;
    }
  }

  /** Removal keeps the invariant of the state file. */
  lemma RemoveVpcKeepsWellFormed(t: Topology, name: string)
    requires WellFormed(t)
    ensures WellFormed(RemoveVpc(t, name))
  {
    FilterKeepsUniqueNames(t.vpcs, NotNamedVpc(name));
    FilterKeepsSubnetNames(t.vpcs, NotNamedVpc(name));
  }

  /** Filtering keeps VPC names unique: only records are dropped, and the kept ones keep their order. */
  lemma {:induction false} FilterKeepsUniqueNames(xs: seq<Vpc>, p: Vpc -> bool)
    requires UniqueVpcNames(xs)
    ensures UniqueVpcNames(Filter(xs, p))
  {
    if xs != [] {
      FilterKeepsUniqueNames(xs[1..], p);
      var rest := Filter(xs[1..], p);
      var head := if p(xs[0]) then [xs[0]] else [];
      assert Filter(xs, p) == head + rest;
      forall v | v in rest ensures v.name != xs[0].name {
        assert v in xs[1..];
      }
      forall i, j | 0 <= i < j < |head + rest| ensures (head + rest)[i].name != (head + rest)[j].name {
        if i < |head| {
          assert (head + rest)[j] in rest;
        }
      }
    }
  }

  /** Every record a filter keeps is a record of the original, so subnet names stay unique in each. */
  lemma FilterKeepsSubnetNames(xs: seq<Vpc>, p: Vpc -> bool)
    requires forall i | 0 <= i < |xs| :: UniqueSubnetNames(xs[i].subnets)
    ensures forall i | 0 <= i < |Filter(xs, p)| :: UniqueSubnetNames(Filter(xs, p)[i].subnets)
  {
    var r := Filter(xs, p);
    forall i | 0 <= i < |r| ensures UniqueSubnetNames(r[i].subnets) {
      assert r[i] in xs;
      var k :| 0 <= k < |xs| && xs[k] == r[i];
    }
  }

  /** Removing a record right after appending it under a fresh name gives back
      the topology. */
  lemma RemoveAfterAdd(t: Topology, v: Vpc)
    requires FindVpc(t, v.name).None?
    ensures RemoveVpc(AddVpc(t, v), v.name) == t
  {
    FilterConcat(t.vpcs, [v], NotNamedVpc(v.name));
    assert forall x | x in t.vpcs :: x.name != v.name;
    FilterAll(t.vpcs, NotNamedVpc(v.name));
  }

  /** Applies `f` to the first VPC with this name (the loop with `break`). */
  function UpdateFirst(t: Topology, name: string, f: Vpc -> Vpc): (t': Topology)
    ensures |t'.vpcs| == |t.vpcs|
    ensures forall j | 0 <= j < |t.vpcs| && j != VpcIndex(t, name) :: t'.vpcs[j] == t.vpcs[j]
    ensures VpcIndex(t, name) < |t.vpcs| ==> t'.vpcs[VpcIndex(t, name)] == f(t.vpcs[VpcIndex(t, name)])
  {
    var i := VpcIndex(t, name);
    if i < |t.vpcs| then Topology(t.vpcs[i := f(t.vpcs[i])]) else t
  }

  /**
   * The loop `for v in state['vpcs']: if v['name'] == name: <edit v>; break`:
   * the first record with that name is edited and the loop stops.
   */
  method EditFirst(t: Topology, name: string, f: Vpc -> Vpc) returns (t': Topology)
    ensures t' == UpdateFirst(t, name, f)
  {
    var vpcs := t.vpcs;
    var i := 0;
    while i < |vpcs|
      invariant 0 <= i <= |vpcs|
      invariant forall j | 0 <= j < i :: vpcs[j].name != name
      decreases |vpcs| - i
    {
      if vpcs[i].name == name {
        PositionAbsent(vpcs, NamedVpc(name), i);
        vpcs := vpcs[i := f(vpcs[i])];
        return Topology(vpcs);
      }
      i := i + 1;
    }
    assert VpcIndex(t, name) == |vpcs|;
    return t;
  }

  function AppendSubnet(s: Subnet): Vpc -> Vpc {
    (v: Vpc) => v.(subnets := v.subnets + [s])
  }

  /** `v['subnets'].append(subnet_data)` in the first VPC named `vpcName`. */
  function WithSubnet(t: Topology, vpcName: string, s: Subnet): Topology {
    UpdateFirst(t, vpcName, AppendSubnet(s))
  }

  function NotNamedSubnet(name: string): Subnet -> bool {
    (s: Subnet) => s.name != name
  }

  function DropSubnets(name: string): Vpc -> Vpc {
    (v: Vpc) => v.(subnets := Filter(v.subnets, NotNamedSubnet(name)))
  }

  /** `v['subnets'] = [s for s in v['subnets'] if s['name'] != subnet_name]`
      in the first VPC named `vpcName`. */
  function WithoutSubnet(t: Topology, vpcName: string, subnetName: string): Topology {
    UpdateFirst(t, vpcName, DropSubnets(subnetName))
  }

  /** Editing one VPC's subnets leaves every VPC's name in place, so lookups by name still land on the same index. */
  lemma UpdateFirstKeepsNames(t: Topology, name: string, f: Vpc -> Vpc)
    requires forall v :: f(v).name == v.name
    ensures forall j | 0 <= j < |t.vpcs| :: UpdateFirst(t, name, f).vpcs[j].name == t.vpcs[j].name
    ensures forall n :: VpcIndex(UpdateFirst(t, name, f), n) == VpcIndex(t, n)
  {
    var t' := UpdateFirst(t, name, f);
    forall n ensures VpcIndex(t', n) == VpcIndex(t, n) {
      PositionSameKeys(t.vpcs, t'.vpcs, n);
    }
  }

  lemma {:induction false} PositionSameKeys(xs: seq<Vpc>, ys: seq<Vpc>, n: string)
    requires |xs| == |ys| && forall j | 0 <= j < |xs| :: xs[j].name == ys[j].name
    ensures Position(xs, NamedVpc(n)) == Position(ys, NamedVpc(n))
  {
    if xs != [] {
      PositionSameKeys(xs[1..], ys[1..], n);
    }
  }

  /** Adding a subnet under a fresh name to an existing VPC keeps the
      invariant and makes it what `get_subnet` finds. */
  lemma WithSubnetFound(t: Topology, vpcName: string, s: Subnet)
    requires WellFormed(t) && FindVpc(t, vpcName).Some? && FindSubnet(t, vpcName, s.name).None?
    ensures WellFormed(WithSubnet(t, vpcName, s))
    ensures FindSubnet(WithSubnet(t, vpcName, s), vpcName, s.name) == Some(s)
  {
    var t' := WithSubnet(t, vpcName, s);
    var i := VpcIndex(t, vpcName);
    UpdateFirstKeepsNames(t, vpcName, AppendSubnet(s));
    var subs := t.vpcs[i].subnets;
    assert t'.vpcs[i].subnets == subs + [s];
    forall j | 0 <= j < |t'.vpcs| ensures UniqueSubnetNames(t'.vpcs[j].subnets) {
      if j == i {
        forall a, b | 0 <= a < b < |subs| + 1 ensures (subs + [s])[a].name != (subs + [s])[b].name {
          if b == |subs| {
            assert subs[a].name != s.name;
          }
        }
      }
    }
    assert VpcIndex(t', vpcName) == i;
    PositionAppendFound(subs, s, NamedSubnet(s.name));
  }

  lemma PositionAppendFound<T>(xs: seq<T>, x: T, p: T -> bool)
    requires forall j | 0 <= j < |xs| :: !p(xs[j])
    requires p(x)
    ensures Position(xs + [x], p) == |xs|
  {
    PositionAbsent(xs + [x], p, |xs|);
  }

  lemma {:induction false} PositionAbsent<T>(xs: seq<T>, p: T -> bool, k: nat)
    requires k < |xs| && p(xs[k]) && forall j | 0 <= j < k :: !p(xs[j])
    ensures Position(xs, p) == k
  {
    if k > 0 {
      PositionAbsent(xs[1..], p, k - 1);
    }
  }

  /** After removing a subnet, no subnet of that name is found in the VPC. */
  lemma WithoutSubnetGone(t: Topology, vpcName: string, subnetName: string)
    ensures FindSubnet(WithoutSubnet(t, vpcName, subnetName), vpcName, subnetName).None?
  {
    var t' := WithoutSubnet(t, vpcName, subnetName);
    var i := VpcIndex(t, vpcName);
    UpdateFirstKeepsNames(t, vpcName, DropSubnets(subnetName));
    if i < |t.vpcs| {
      var kept := Filter(t.vpcs[i].subnets, NotNamedSubnet(subnetName));
      assert t'.vpcs[i].subnets == kept;
      forall j | 0 <= j < |kept| ensures kept[j].name != subnetName {
        assert kept[j] in kept;
      }
    }
  }

  /** Removing a subnet keeps the invariant; other VPCs are untouched. */
  lemma WithoutSubnetKeepsWellFormed(t: Topology, vpcName: string, subnetName: string)
    requires WellFormed(t)
    ensures WellFormed(WithoutSubnet(t, vpcName, subnetName))
  {
    var t' := WithoutSubnet(t, vpcName, subnetName);
    var i := VpcIndex(t, vpcName);
    UpdateFirstKeepsNames(t, vpcName, DropSubnets(subnetName));
    if i < |t.vpcs| {
      var subs := t.vpcs[i].subnets;
      FilterUniqueSubnets(subs, NotNamedSubnet(subnetName));
      assert t'.vpcs[i].subnets == Filter(subs, NotNamedSubnet(subnetName));
    }
  }

  lemma {:induction false} FilterUniqueSubnets(xs: seq<Subnet>, p: Subnet -> bool)
    requires UniqueSubnetNames(xs)
    ensures UniqueSubnetNames(Filter(xs, p))
  {
    if xs != [] {
      FilterUniqueSubnets(xs[1..], p);
      var rest := Filter(xs[1..], p);
      forall v | v in rest ensures v.name != xs[0].name {
        assert v in xs[1..];
      }
    }
  }

  /** Deleting a subnet right after adding it gives back the topology. */
  lemma RemoveSubnetAfterAdd(t: Topology, vpcName: string, s: Subnet)
    requires FindVpc(t, vpcName).Some? && FindSubnet(t, vpcName, s.name).None?
    ensures WithoutSubnet(WithSubnet(t, vpcName, s), vpcName, s.name) == t
  {
    var i := VpcIndex(t, vpcName);
    var t1 := WithSubnet(t, vpcName, s);
    UpdateFirstKeepsNames(t, vpcName, AppendSubnet(s));
    var subs := t.vpcs[i].subnets;
    FilterConcat(subs, [s], NotNamedSubnet(s.name));
    assert forall x | x in subs :: x.name != s.name;
    FilterAll(subs, NotNamedSubnet(s.name));
    var t2 := WithoutSubnet(t1, vpcName, s.name);
    assert t2.vpcs[i] == t.vpcs[i];
    assert t2.vpcs == t.vpcs;
  }

  // ---------------------------------------------------------------------
  // Peering records

  /** The two names a peering edit concerns. */
  predicate Between(v: Vpc, a: string, b: string) {
    v.name == a || v.name == b
  }

  /** `p['vpc1'] in [a, b] and p['vpc2'] in [a, b]`. */
  predicate Joins(p: Peering, a: string, b: string) {
    (p.vpc1 == a || p.vpc1 == b) && (p.vpc2 == a || p.vpc2 == b)
  }

  function NotJoining(a: string, b: string): Peering -> bool {
    (p: Peering) => !Joins(p, a, b)
  }

  /** `v.setdefault('peerings', []).append(p)` for every VPC named `a` or `b`. */
  function WithPeering(t: Topology, a: string, b: string, p: Peering): (t': Topology)
    ensures |t'.vpcs| == |t.vpcs|
  {
    Topology(seq(|t.vpcs|, j requires 0 <= j < |t.vpcs| =>
      var v := t.vpcs[j];
      if Between(v, a, b) then v.(peerings := v.peerings + [p]) else v))
  }

  /** The peering filter of `delete_peering` for every VPC named `a` or `b`. */
  function WithoutPeerings(t: Topology, a: string, b: string): (t': Topology)
    ensures |t'.vpcs| == |t.vpcs|
  {
    Topology(seq(|t.vpcs|, j requires 0 <= j < |t.vpcs| =>
      var v := t.vpcs[j];
      if Between(v, a, b) then v.(peerings := Filter(v.peerings, NotJoining(a, b))) else v))
  }

  /** Both VPCs of a new peering get the same record at the end of their
      peering lists; every other VPC, and every field other than the
      peering list, is unchanged. */
  lemma WithPeeringEffect(t: Topology, a: string, b: string, p: Peering)
    ensures forall j | 0 <= j < |t.vpcs| ::
      var v, v' := t.vpcs[j], WithPeering(t, a, b, p).vpcs[j];
      v' == v.(peerings := v'.peerings) &&
      v'.peerings == (if v.name == a || v.name == b then v.peerings + [p] else v.peerings)
    ensures WellFormed(t) ==> WellFormed(WithPeering(t, a, b, p))
  {
  }

  /** The filter of `delete_peering` does not depend on the order of its two
      arguments. */
  lemma WithoutPeeringsSymmetric(t: Topology, a: string, b: string)
    ensures WithoutPeerings(t, a, b) == WithoutPeerings(t, b, a)
  {
    forall j | 0 <= j < |t.vpcs| ensures WithoutPeerings(t, a, b).vpcs[j] == WithoutPeerings(t, b, a).vpcs[j] {
      FilterSameCondition(t.vpcs[j].peerings, NotJoining(a, b), NotJoining(b, a));
    }
  }

  lemma {:induction false} FilterSameCondition<T(!new)>(xs: seq<T>, p: T -> bool, q: T -> bool)
    requires forall x :: p(x) == q(x)
    ensures Filter(xs, p) == Filter(xs, q)
  {
    if xs != [] {
      FilterSameCondition(xs[1..], p, q);
    }
  }

  /** After `delete_peering` no VPC named `a` or `b` holds a peering between
      them; names and subnets are untouched, so the invariant is kept. */
  lemma WithoutPeeringsGone(t: Topology, a: string, b: string)
    ensures forall j, k | 0 <= j < |t.vpcs| && 0 <= k < |WithoutPeerings(t, a, b).vpcs[j].peerings| ::
      Between(t.vpcs[j], a, b) ==> !Joins(WithoutPeerings(t, a, b).vpcs[j].peerings[k], a, b)
    ensures WellFormed(t) ==> WellFormed(WithoutPeerings(t, a, b))
  {
    var t' := WithoutPeerings(t, a, b);
    forall j, k | 0 <= j < |t.vpcs| && 0 <= k < |t'.vpcs[j].peerings| && Between(t.vpcs[j], a, b)
      ensures !Joins(t'.vpcs[j].peerings[k], a, b)
    {
      assert t'.vpcs[j].peerings[k] in t'.vpcs[j].peerings;
    }
  }

  /** Deleting a peering right after creating it leaves what deleting it
      alone would have: the new record goes and nothing else changes. */
  lemma RemovePeeringAfterAdd(t: Topology, p: Peering)
    ensures WithoutPeerings(WithPeering(t, p.vpc1, p.vpc2, p), p.vpc1, p.vpc2) == WithoutPeerings(t, p.vpc1, p.vpc2)
  {
    var a, b := p.vpc1, p.vpc2;
    var t1 := WithPeering(t, a, b, p);
    forall j | 0 <= j < |t.vpcs|
      ensures WithoutPeerings(t1, a, b).vpcs[j] == WithoutPeerings(t, a, b).vpcs[j]
    {
      var v := t.vpcs[j];
      if Between(v, a, b) {
        FilterConcat(v.peerings, [p], NotJoining(a, b));
        assert t1.vpcs[j].peerings == v.peerings + [p];
      }
    }
  }
}
