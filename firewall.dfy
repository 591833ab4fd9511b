/**
 * Per-subnet firewall policies: validating a decoded policy document,
 * compiling its ingress entries into the namespace's INPUT chain, and
 * resetting the namespace's rules and policies.
 */
module Firewall {
  import opened Wrappers
  import opened Text
  import opened State
  import opened Commands
  import opened Gateway

  /** A decoded JSON value; numbers are the integral ones. */
  datatype Json =
    | JString(s: string)
    | JNumber(n: int)
    | JBool(b: bool)
    | JNull
    | JArray(items: seq<Json>)
    | JObject(fields: map<string, Json>)

  /** An ingress entry that passed validation. */
  datatype IngressEntry = IngressEntry(port: Json, protocol: Json, action: string)

  predicate ValidAction(action: string) {
    action == "allow" || action == "deny"
  }

  // ---------------------------------------------------------------------
  // parse_policy

  /**
   * One entry of `ingress`: an object with `port`, `protocol` and `action`
   * whose action is one of the two known strings.  Any other value either
   * lacks a field under Python's `in` or fails when indexed by a string,
   * and both reject the policy.
   */
  function ParseEntry(j: Json): (e: Option<IngressEntry>)
    ensures e.None? <==> MalformedEntry(j)
    ensures e.Some? ==>
      j.JObject? && "port" in j.fields && "protocol" in j.fields && "action" in j.fields &&
      e.value.port == j.fields["port"] && e.value.protocol == j.fields["protocol"] &&
      j.fields["action"] == JString(e.value.action) && ValidAction(e.value.action)
  {
    if j.JObject? && "port" in j.fields && "protocol" in j.fields && "action" in j.fields &&
       (j.fields["action"] == JString("allow") || j.fields["action"] == JString("deny"))
    then Some(IngressEntry(j.fields["port"], j.fields["protocol"], j.fields["action"].s))
    else None
  }

  /** What `parse_policy` rejects as an entry: a value that is not an object,
      an object without one of the three keys, or an action that is not the
      string `allow` or `deny`. */
  predicate MalformedEntry(j: Json) {
    !j.JObject? || "port" !in j.fields || "protocol" !in j.fields || "action" !in j.fields ||
    !j.fields["action"].JString? || !ValidAction(j.fields["action"].s)
  }

  /** The validation loop over a list: accepted exactly when every entry is, entry for entry. */
  function ParseEntries(items: seq<Json>): (r: Option<seq<IngressEntry>>)
    ensures r.Some? <==> forall i | 0 <= i < |items| :: ParseEntry(items[i]).Some?
    ensures r.Some? ==> (|r.value| == |items| &&
      forall i | 0 <= i < |items| :: ParseEntry(items[i]) == Some(r.value[i]))
    decreases |items|
  {
    if items == [] then Some([])
    else
      var first := ParseEntry(items[0]);
      var rest := ParseEntries(items[1..]);
      if first.None? || rest.None? then None
      else
        assert forall i | 1 <= i < |items| :: items[i] == items[1..][i - 1];
        Some([first.value] + rest.value)
  }

  /**
   * `for rule in policy['ingress']`: a list is checked entry by entry; an
   * empty object or an empty string has nothing to check; a non-empty
   * object or string yields keys or characters that fail as entries, and a
   * scalar cannot be iterated.
   */
  function ParseIngress(ingress: Json): (r: Option<seq<IngressEntry>>)
    ensures ingress.JArray? ==> (r.Some? <==> forall i | 0 <= i < |ingress.items| :: !MalformedEntry(ingress.items[i]))
    ensures !ingress.JArray? ==> (r.Some? <==> ingress == JObject(map[]) || ingress == JString(""))
    ensures !ingress.JArray? && r.Some? ==> r.value == []
  {
    match ingress
    case JArray(items) => ParseEntries(items)
    case JObject(fields) => if fields == map[] then Some([]) else None
    case JString(s) => if s == "" then Some([]) else None
    case _ => None
  }

  /**
   * `parse_policy` once the file is read, giving the ingress entries of an
   * accepted policy; `doc` is None for a missing file or text that is not
   * JSON.  A document that is not an object is rejected too: a list or a
   * string fails when indexed by `'ingress'`, a scalar under `in`.
   */
  function ParsePolicy(doc: Option<Json>): (r: Option<seq<IngressEntry>>)
    ensures r.Some? ==> (doc.Some? && doc.value.JObject? &&
      "subnet" in doc.value.fields && "ingress" in doc.value.fields)
    ensures r.Some? ==> forall i | 0 <= i < |r.value| :: ValidAction(r.value[i].action)
    ensures doc.Some? && doc.value.JObject? && "subnet" in doc.value.fields && "ingress" in doc.value.fields &&
            doc.value.fields["ingress"].JArray? ==>
      var items := doc.value.fields["ingress"].items;
      (r.Some? <==> forall i | 0 <= i < |items| :: !MalformedEntry(items[i])) &&
      (r.Some? ==> |r.value| == |items| && forall i | 0 <= i < |items| :: ParseEntry(items[i]) == Some(r.value[i]))
    ensures doc.Some? && doc.value.JObject? && "subnet" in doc.value.fields && "ingress" in doc.value.fields &&
            !doc.value.fields["ingress"].JArray? ==>
      var ingress := doc.value.fields["ingress"];
      (r.Some? <==> ingress == JObject(map[]) || ingress == JString("")) && (r.Some? ==> r.value == [])
  {
    if doc.None? || !doc.value.JObject? then None
    else if "subnet" !in doc.value.fields then None
    else if "ingress" !in doc.value.fields then None
    else ParseIngress(doc.value.fields["ingress"])
  }

  /** One malformed entry anywhere in the list rejects the whole policy. */
  lemma ParsePolicyRejectsBadEntry(doc: Json, i: nat)
    requires doc.JObject? && "subnet" in doc.fields && "ingress" in doc.fields
    requires doc.fields["ingress"].JArray? && i < |doc.fields["ingress"].items|
    requires var j := doc.fields["ingress"].items[i];
      !j.JObject? || "port" !in j.fields || "protocol" !in j.fields || "action" !in j.fields ||
      (j.fields["action"] != JString("allow") && j.fields["action"] != JString("deny"))
    ensures ParsePolicy(Some(doc)) == None
  {
    var items := doc.fields["ingress"].items;
    assert MalformedEntry(items[i]);
    assert ParseEntries(items) == None;
  }

  /** The document a policy author writes for a list of entries. */
  function EntryJson(e: IngressEntry): Json {
    JObject(map["port" := e.port, "protocol" := e.protocol, "action" := JString(e.action)])
  }

  function PolicyJson(subnet: Json, entries: seq<IngressEntry>): Json {
    JObject(map["subnet" := subnet,
                "ingress" := JArray(seq(|entries|, i requires 0 <= i < |entries| => EntryJson(entries[i])))])
  }

  /** Every list of entries with known actions, written out as a policy, is read back as itself. */
  lemma ParsePolicyJson(subnet: Json, entries: seq<IngressEntry>)
    requires forall i | 0 <= i < |entries| :: ValidAction(entries[i].action)
    ensures ParsePolicy(Some(PolicyJson(subnet, entries))) == Some(entries)
  {
    var items := seq(|entries|, i requires 0 <= i < |entries| => EntryJson(entries[i]));
    assert PolicyJson(subnet, entries).fields["ingress"] == JArray(items);
    forall i | 0 <= i < |items| ensures ParseEntry(items[i]) == Some(entries[i]) {
      assert items[i].fields["action"] == JString(entries[i].action);
    }
    var r := ParseEntries(items);
    assert r.Some?;
    assert r.value == entries;
  }

  // ---------------------------------------------------------------------
  // apply_policy

  /** `str()` of an integer: a minus sign for a negative one, then the decimal numeral of its magnitude. */
  function Signed(n: int): (r: string)
    ensures r != [] && (r[0] == '-' <==> n < 0)
    ensures n >= 0 ==> AllDigits(r) && DecimalValue(r) == n
    ensures n < 0 ==> AllDigits(r[1..]) && DecimalValue(r[1..]) == -n
  {
    var m: nat := if n < 0 then -n else n;
    DecimalValueOfDecimal(m);
    assert ("-" + Decimal(m))[1..] == Decimal(m);
    if n < 0 then "-" + Decimal(m) else Decimal(m)
  }

  /** How an f-string writes a decoded scalar: text as it is, integers in decimal, `True`/`False`, `None`. */
  function Render(j: Json): (r: string)
    ensures j.JString? ==> r == j.s
    ensures j.JNumber? ==> r == Signed(j.n)
  {
    match j
    case JString(s) => s
    case JNumber(n) => Signed(n)
    case JBool(b) => if b then "True" else "False"
    case JNull => "None"
    case _ => ""
  }

  function ActionVerdict(action: string): Verdict {
    if action == "allow" then Accept else Drop
  }

  /** The INPUT rule one ingress entry becomes. */
  function EntryRule(e: IngressEntry): InputRule {
    Port(Render(e.protocol), Render(e.port), ActionVerdict(e.action))
  }

  /** The entries' rules, in the order of the entries. */
  function EntryRules(entries: seq<IngressEntry>): (rules: seq<InputRule>)
    ensures |rules| == |entries|
    ensures forall i | 0 <= i < |entries| :: rules[i] == EntryRule(entries[i])
    decreases |entries|
  {
    if entries == [] then [] else [EntryRule(entries[0])] + EntryRules(entries[1..])
  }

  /** The INPUT chain a policy is meant to leave: established and loopback traffic first, the entries, then DROP. */
  function PolicyChain(entries: seq<IngressEntry>): seq<InputRule> {
    [Established, Loopback] + EntryRules(entries) + [Everything(Drop)]
  }

  /** `iptables -A INPUT` inside namespace `ns`, once per rule, in order. */
  function AppendAll(ns: string, rules: seq<InputRule>): (cmds: seq<Cmd>)
    ensures |cmds| == |rules|
  {
    seq(|rules|, i requires 0 <= i < |rules| => NetnsExec(ns, Input(Append, rules[i])))
  }

  /** The checked commands of `apply_policy`: flush INPUT, then append the policy's chain. */
  function PolicyPlan(ns: string, entries: seq<IngressEntry>): (plan: seq<Cmd>)
    ensures |plan| == |entries| + 4
  {
    [NetnsExec(ns, FlushInput)] + AppendAll(ns, PolicyChain(entries))
  }

  /**
   * `apply_policy`.  A policy that does not parse, or a subnet that is not
   * found, issues nothing.  Otherwise the policy's commands run in the
   * subnet's namespace until one fails; the rules already added stay.
   */
  method ApplyPolicy(h: Host, vpcName: string, subnetName: string, doc: Option<Json>) returns (ok: bool)
    modifies h`trace
    ensures var entries := ParsePolicy(doc);
      var s := FindSubnet(Loaded(h.file), vpcName, subnetName);
      entries.None? || s.None? ==> !ok && h.trace == old(h.trace)
    ensures var entries := ParsePolicy(doc);
      var s := FindSubnet(Loaded(h.file), vpcName, subnetName);
      entries.Some? && s.Some? ==>
        var plan := PolicyPlan(s.value.namespace, entries.value);
        var k := FirstFailure(h.respond, |old(h.trace)|, plan);
        (ok <==> k == |plan|) && h.trace == old(h.trace) + Attempted(plan, k)
  {
    var entries := ParsePolicy(doc);
    if entries.None? {
      return false;
    }
    var state := h.LoadState();
    var subnet := FindSubnet(state, vpcName, subnetName);
    if subnet.None? {
      return false;
    }
    var raised := RunChecked(h, PolicyPlan(subnet.value.namespace, entries.value));
    return !raised;
  }

  /** Appending rules one by one leaves them, in order, after what the chain held. */
  lemma {:induction false} AppendAllBuilds(chain: seq<InputRule>, ns: string, rules: seq<InputRule>)
    ensures InputAfter(chain, ns, AppendAll(ns, rules)) == chain + rules
    decreases |rules|
  {
    if rules != [] {
      assert AppendAll(ns, rules)[1..] == AppendAll(ns, rules[1..]);
      AppendAllBuilds(chain + [rules[0]], ns, rules[1..]);
      assert chain + [rules[0]] + rules[1..] == chain + rules;
    }
  }

  /** Whatever the INPUT chain held, a policy applied in full leaves exactly the policy's chain. */
  lemma ApplyLeavesPolicyChain(chain: seq<InputRule>, ns: string, entries: seq<IngressEntry>)
    ensures InputAfter(chain, ns, PolicyPlan(ns, entries)) == PolicyChain(entries)
  {
    var rules := PolicyChain(entries);
    var plan := PolicyPlan(ns, entries);
    assert plan[1..] == AppendAll(ns, rules);
    assert InputAfter(chain, ns, plan) == InputAfter([], ns, plan[1..]);
    AppendAllBuilds([], ns, rules);
    assert [] + rules == rules;
  }

  /**
   * The policy's chain holds `|entries| + 3` rules: the two accepting
   * rules, the entries' rules in their order, and the final DROP.
   */
  lemma PolicyChainShape(entries: seq<IngressEntry>)
    ensures |PolicyChain(entries)| == |entries| + 3
    ensures PolicyChain(entries)[..2] == [Established, Loopback]
    ensures PolicyChain(entries)[|entries| + 2] == Everything(Drop)
    ensures forall i | 0 <= i < |entries| :: PolicyChain(entries)[i + 2] == EntryRule(entries[i])
  {
  }

  /**
   * A run that fails at command `k` leaves the effect of the `k` commands
   * before it: the chain untouched when the flush failed, and otherwise
   * the first `k - 1` rules of the policy's chain.
   */
  lemma FailedApplyLeavesPrefix(chain: seq<InputRule>, ns: string, entries: seq<IngressEntry>, k: nat)
    requires k < |PolicyPlan(ns, entries)|
    ensures k == 0 ==> InputAfter(chain, ns, PolicyPlan(ns, entries)[..k]) == chain
    ensures k > 0 ==> InputAfter(chain, ns, PolicyPlan(ns, entries)[..k]) == PolicyChain(entries)[..k - 1]
  {
    var plan := PolicyPlan(ns, entries);
    var rules := PolicyChain(entries);
    if k > 0 {
      assert plan[..k][1..] == AppendAll(ns, rules[..k - 1]);
      assert plan[..k][0] == NetnsExec(ns, FlushInput);
      assert InputAfter(chain, ns, plan[..k]) == InputAfter([], ns, plan[..k][1..]);
      AppendAllBuilds([], ns, rules[..k - 1]);
      assert [] + rules[..k - 1] == rules[..k - 1];
    }
  }

  /** The decision the policy means: the first entry for the packet's protocol and port, DROP when none. */
  function EntryDecision(entries: seq<IngressEntry>, pk: Packet): Verdict
    decreases |entries|
  {
    if entries == [] then Drop
    else if Render(entries[0].protocol) == pk.protocol && Render(entries[0].port) == pk.port then
      ActionVerdict(entries[0].action)
    else EntryDecision(entries[1..], pk)
  }

  lemma {:induction false} EntryRulesVerdict(entries: seq<IngressEntry>, pk: Packet)
    ensures InputVerdict(EntryRules(entries) + [Everything(Drop)], pk) == Some(EntryDecision(entries, pk))
    decreases |entries|
  {
    if entries != [] {
      var tail := EntryRules(entries[1..]) + [Everything(Drop)];
      assert EntryRules(entries) + [Everything(Drop)] == [EntryRule(entries[0])] + tail;
      assert ([EntryRule(entries[0])] + tail)[1..] == tail;
      EntryRulesVerdict(entries[1..], pk);
    }
  }

  /**
   * Under the chain a policy leaves, established and loopback traffic is
   * accepted and any other packet gets the action of the first entry for
   * its protocol and port, or DROP; the chain's policy is never consulted.
   */
  lemma PolicyChainVerdict(entries: seq<IngressEntry>, pk: Packet)
    ensures InputVerdict(PolicyChain(entries), pk) ==
      Some(if pk.established || pk.loopback then Accept else EntryDecision(entries, pk))
  {
    var tail := EntryRules(entries) + [Everything(Drop)];
    assert PolicyChain(entries) == [Established, Loopback] + tail;
    assert ([Established, Loopback] + tail)[1..] == [Loopback] + tail;
    assert ([Loopback] + tail)[1..] == tail;
    EntryRulesVerdict(entries, pk);
  }

  /**
   * A policy whose `ingress` is `{}` or `""` is accepted with no entries, so
   * applying it leaves a chain that lets in only established and loopback
   * traffic and drops every other packet.
   */
  lemma EmptyIngressDropsNewTraffic(doc: Json, chain: seq<InputRule>, ns: string, pk: Packet)
    requires doc.JObject? && "subnet" in doc.fields && "ingress" in doc.fields
    requires doc.fields["ingress"] == JObject(map[]) || doc.fields["ingress"] == JString("")
    ensures ParsePolicy(Some(doc)) == Some([])
    ensures InputVerdict(InputAfter(chain, ns, PolicyPlan(ns, [])), pk) ==
      Some(if pk.established || pk.loopback then Accept else Drop)
  {
    ApplyLeavesPolicyChain(chain, ns, []);
    PolicyChainVerdict([], pk);
  }

  // ---------------------------------------------------------------------
  // clear_policy

  /** The checked commands of `clear_policy`: flush, delete chains, and ACCEPT for the three built-in chains. */
  function ClearPlan(ns: string): (plan: seq<Cmd>)
    ensures |plan| == 5
  {
    [ NetnsExec(ns, FlushAll),
      NetnsExec(ns, DeleteChains),
      NetnsExec(ns, SetPolicy(InputChain, Accept)),
      NetnsExec(ns, SetPolicy(ForwardChain, Accept)),
      NetnsExec(ns, SetPolicy(OutputChain, Accept)) ]
  }

  /** `clear_policy`: an unknown subnet issues nothing; otherwise the reset runs until a command fails. */
  method ClearPolicy(h: Host, vpcName: string, subnetName: string) returns (ok: bool)
    modifies h`trace
    ensures var s := FindSubnet(Loaded(h.file), vpcName, subnetName);
      s.None? ==> !ok && h.trace == old(h.trace)
    ensures var s := FindSubnet(Loaded(h.file), vpcName, subnetName);
      s.Some? ==>
        var plan := ClearPlan(s.value.namespace);
        var k := FirstFailure(h.respond, |old(h.trace)|, plan);
        (ok <==> k == |plan|) && h.trace == old(h.trace) + Attempted(plan, k)
  {
    var state := h.LoadState();
    var subnet := FindSubnet(state, vpcName, subnetName);
    if subnet.None? {
      return false;
    }
    var raised := RunChecked(h, ClearPlan(subnet.value.namespace));
    return !raised;
  }

  /** The default verdict of a namespace's INPUT chain after commands that take effect. */
  function InputPolicyAfter(policy: Verdict, ns: string, cmds: seq<Cmd>): Verdict
    decreases |cmds|
  {
    if cmds == [] then policy
    else
      var c := cmds[0];
      var next := if c.NetnsExec? && c.ns == ns && c.inner.SetPolicy? && c.inner.chain == InputChain
                  then c.inner.verdict else policy;
      InputPolicyAfter(next, ns, cmds[1..])
  }

  /** What happens to a packet: the first matching rule decides, else the chain's policy. */
  function Admission(chain: seq<InputRule>, policy: Verdict, pk: Packet): Verdict {
    var v := InputVerdict(chain, pk);
    if v.Some? then v.value else policy
  }

  /** After a full reset the INPUT chain is empty with policy ACCEPT, so every packet is let in. */
  lemma ClearAdmitsAll(chain: seq<InputRule>, policy: Verdict, ns: string, pk: Packet)
    ensures InputAfter(chain, ns, ClearPlan(ns)) == []
    ensures InputPolicyAfter(policy, ns, ClearPlan(ns)) == Accept
    ensures Admission(InputAfter(chain, ns, ClearPlan(ns)), InputPolicyAfter(policy, ns, ClearPlan(ns)), pk) == Accept
  {
    ClearEmptiesInput(chain, ns);
    ClearAcceptsInput(policy, ns);
  }

  /** The reset leaves no rule in the namespace's INPUT chain, whatever it held. */
  lemma ClearEmptiesInput(chain: seq<InputRule>, ns: string)
    ensures InputAfter(chain, ns, ClearPlan(ns)) == []
  {
    var plan := ClearPlan(ns);
    assert InputAfter(chain, ns, plan) == InputAfter([], ns, plan[1..]);
    EmptyStaysEmpty(ns, plan[1..]);
  }

  /** Commands that add no INPUT rule to an empty chain leave it empty. */
  lemma {:induction false} EmptyStaysEmpty(ns: string, cmds: seq<Cmd>)
    requires forall i | 0 <= i < |cmds| :: InputStep([], ns, cmds[i]) == []
    ensures InputAfter([], ns, cmds) == []
    decreases |cmds|
  {
    if cmds != [] {
      EmptyStaysEmpty(ns, cmds[1..]);
    }
  }

  /** The reset sets the namespace's INPUT policy to ACCEPT, whatever it was. */
  lemma ClearAcceptsInput(policy: Verdict, ns: string)
    ensures InputPolicyAfter(policy, ns, ClearPlan(ns)) == Accept
  {
    var x1, x2, x3 := NetnsExec(ns, FlushAll), NetnsExec(ns, DeleteChains), NetnsExec(ns, SetPolicy(InputChain, Accept));
    var x4, x5 := NetnsExec(ns, SetPolicy(ForwardChain, Accept)), NetnsExec(ns, SetPolicy(OutputChain, Accept));
    assert [x1, x2, x3, x4, x5][1..] == [x2, x3, x4, x5];
    assert [x2, x3, x4, x5][1..] == [x3, x4, x5];
    assert [x3, x4, x5][1..] == [x4, x5];
    assert [x4, x5][1..] == [x5];
    assert [x5][1..] == [];
    calc {
      InputPolicyAfter(policy, ns, [x1, x2, x3, x4, x5]);
      InputPolicyAfter(policy, ns, [x2, x3, x4, x5]);
      InputPolicyAfter(policy, ns, [x3, x4, x5]);
      InputPolicyAfter(Accept, ns, [x4, x5]);
      InputPolicyAfter(Accept, ns, [x5]);
      InputPolicyAfter(Accept, ns, []);
    }
  }
}
