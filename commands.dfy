/**
 * The shell commands the tool issues, as values, with the text each one
 * stands for, and the iptables chains those commands build.
 */
module Commands {
  import opened Wrappers
  import opened Cidr
  import Text

  /** The tool's short interface names: a tag, then the first four
      characters of each of two names, all joined by `-`; at most ten
      characters longer than the tag, and starting with it. */
  function ShortName(tag: string, a: string, b: string): (n: string)
    ensures |tag| < |n| <= |tag| + 10
    ensures n[..|tag|] == tag
  {
    tag + "-" + Text.Take(a, 4) + "-" + Text.Take(b, 4)
  }

  datatype Verdict = Accept | Drop

  /** `-A` (append), `-I` (insert at the head) or `-D` (delete the first equal rule). */
  datatype ChainOp = Append | Insert | Delete

  /** A FORWARD rule as the tool writes it. */
  datatype ForwardRule =
    | Between(inIf: string, outIf: string, verdict: Verdict)   // -i IN -o OUT -j V
    | Returning(inIf: string, outIf: string)                   // -i IN -o OUT -m state --state RELATED,ESTABLISHED -j ACCEPT
    | FromSource(source: string)                               // -s CIDR -j ACCEPT

  /** An INPUT rule as the firewall writes it. */
  datatype InputRule =
    | Established                                           // -m state --state ESTABLISHED,RELATED -j ACCEPT
    | Loopback                                              // -i lo -j ACCEPT
    | Port(protocol: string, port: string, verdict: Verdict) // -p PROTO --dport PORT -j V
    | Everything(verdict: Verdict)                          // -j V

  /** The per-device settings under `/proc/sys/net/ipv4/conf/DEV/`. */
  datatype DevSetting = SendRedirects | RpFilter | Forwarding

  /** A kernel setting under `/proc/sys/net/ipv4/`. */
  datatype Sysctl = IpForward | DevConf(dev: string, setting: DevSetting)

  datatype Chain = InputChain | ForwardChain | OutputChain

  datatype Cmd =
    | LinkAddBridge(bridge: string)
    | LinkAddVeth(dev: string, peer: string)
    | LinkSetMaster(dev: string, bridge: string)
    | LinkSetUp(dev: string)
    | LinkSetNetns(dev: string, ns: string)
    | LinkDel(dev: string)
    | AddrAdd(ip: string, prefix: string, dev: string)
    | AddrDel(ip: string, prefix: string, dev: string)
    | WriteSysctl(on: bool, key: Sysctl)      // echo 1 or echo 0
    | ReadSysctl(key: Sysctl)
    | NetnsAdd(ns: string)
    | NetnsDel(ns: string)
    | NetnsExec(ns: string, inner: Cmd)
    | RouteShowDefault
    | RouteAddDefault(via: string)
    | RouteDelDefault
    | RouteAdd(dest: string, via: string)
    | RouteDel(dest: string)
    | Masquerade(op: ChainOp, source: string, outIf: string)
    | Forward(op: ChainOp, forwardRule: ForwardRule)
    | Input(op: ChainOp, inputRule: InputRule)
    | FlushInput
    | FlushAll
    | DeleteChains
    | SetPolicy(chain: Chain, verdict: Verdict)

  function VerdictText(v: Verdict): string {
    match v
    case Accept => "ACCEPT"
    case Drop => "DROP"
  }

  function OpText(op: ChainOp): string {
    match op
    case Append => "-A"
    case Insert => "-I"
    case Delete => "-D"
  }

  function ForwardText(r: ForwardRule): string {
    match r
    case Between(i, o, v) => "-i " + i + " -o " + o + " -j " + VerdictText(v)
    case Returning(i, o) => "-i " + i + " -o " + o + " -m state --state RELATED,ESTABLISHED -j ACCEPT"
    case FromSource(s) => "-s " + s + " -j ACCEPT"
  }

  function InputText(r: InputRule): string {
    match r
    case Established => "-m state --state ESTABLISHED,RELATED -j ACCEPT"
    case Loopback => "-i lo -j ACCEPT"
    case Port(proto, port, v) => "-p " + proto + " --dport " + port + " -j " + VerdictText(v)
    case Everything(v) => "-j " + VerdictText(v)
  }

  function SettingText(s: DevSetting): string {
    match s
    case SendRedirects => "send_redirects"
    case RpFilter => "rp_filter"
    case Forwarding => "forwarding"
  }

  function SysctlText(k: Sysctl): string {
    match k
    case IpForward => "ip_forward"
    case DevConf(dev, s) => "conf/" + dev + "/" + SettingText(s)
  }

  function ChainText(c: Chain): string {
    match c
    case InputChain => "INPUT"
    case ForwardChain => "FORWARD"
    case OutputChain => "OUTPUT"
  }

  /** The command line handed to the shell. */
  function Shell(c: Cmd): string {
    match c
    case LinkAddBridge(b) => "ip link add " + b + " type bridge"
    case LinkAddVeth(d, p) => "ip link add " + d + " type veth peer name " + p
    case LinkSetMaster(d, b) => "ip link set " + d + " master " + b
    case LinkSetUp(d) => "ip link set " + d + " up"
    case LinkSetNetns(d, ns) => "ip link set " + d + " netns " + ns
    case LinkDel(d) => "ip link del " + d
    case AddrAdd(ip, p, d) => "ip addr add " + ip + "/" + p + " dev " + d
    case AddrDel(ip, p, d) => "ip addr del " + ip + "/" + p + " dev " + d
    case WriteSysctl(on, k) => "echo " + (if on then "1" else "0") + " > /proc/sys/net/ipv4/" + SysctlText(k)
    case ReadSysctl(k) => "cat /proc/sys/net/ipv4/" + SysctlText(k)
    case NetnsAdd(ns) => "ip netns add " + ns
    case NetnsDel(ns) => "ip netns del " + ns
    case NetnsExec(ns, inner) => "ip netns exec " + ns + " " + Shell(inner)
    case RouteShowDefault => "ip route show default"
    case RouteAddDefault(gw) => "ip route add default via " + gw
    case RouteDelDefault => "ip route del default"
    case RouteAdd(d, gw) => "ip route add " + d + " via " + gw
    case RouteDel(d) => "ip route del " + d
    case Masquerade(op, s, o) => "iptables -t nat " + OpText(op) + " POSTROUTING -s " + s + " -o " + o + " -j MASQUERADE"
    case Forward(op, r) => "iptables " + OpText(op) + " FORWARD " + ForwardText(r)
    case Input(op, r) => "iptables " + OpText(op) + " INPUT " + InputText(r)
    case FlushInput => "iptables -F INPUT"
    case FlushAll => "iptables -F"
    case DeleteChains => "iptables -X"
    case SetPolicy(chain, v) => "iptables -P " + ChainText(chain) + " " + VerdictText(v)
  }

  // ---------------------------------------------------------------------
  // Chains

  /** `iptables -D`: removes the first rule equal to `r`; a chain without it is unchanged. */
  function RemoveFirst<R(==)>(chain: seq<R>, r: R): (c: seq<R>)
    ensures r !in chain ==> c == chain
  {
    if chain == [] then []
    else if chain[0] == r then chain[1..] else [chain[0]] + RemoveFirst(chain[1..], r)
  }

  /** A rule that is in the chain goes once: one rule fewer, and the others all kept. */
  lemma {:induction false} RemoveFirstCount<R>(chain: seq<R>, r: R)
    requires r in chain
    ensures |RemoveFirst(chain, r)| == |chain| - 1
    ensures multiset(RemoveFirst(chain, r)) == multiset(chain) - multiset{r}
    decreases |chain|
  {
    assert chain == [chain[0]] + chain[1..];
    if chain[0] != r {
      RemoveFirstCount(chain[1..], r);
    }
  }

  /** Deleting the rule at the head, or right after a different head, removes that one occurrence. */
  lemma RemoveFirstNear<R>(x: R, r: R, rest: seq<R>)
    ensures RemoveFirst([r] + rest, r) == rest
    ensures x != r ==> RemoveFirst([x, r] + rest, r) == [x] + rest
  {
    assert ([r] + rest)[1..] == rest;
    assert ([x, r] + rest)[1..] == [r] + rest;
  }

  function ApplyOp<R(==)>(chain: seq<R>, op: ChainOp, r: R): seq<R> {
    match op
    case Append => chain + [r]
    case Insert => [r] + chain
    case Delete => RemoveFirst(chain, r)
  }

  /** The host's FORWARD chain after a command. */
  function ForwardStep(chain: seq<ForwardRule>, c: Cmd): seq<ForwardRule> {
    if c.Forward? then ApplyOp(chain, c.op, c.forwardRule) else chain
  }

  /** The host's FORWARD chain after a sequence of commands that take effect. */
  function ForwardAfter(chain: seq<ForwardRule>, cmds: seq<Cmd>): seq<ForwardRule>
    decreases |cmds|
  {
    if cmds == [] then chain else ForwardAfter(ForwardStep(chain, cmds[0]), cmds[1..])
  }

  /** A namespace's INPUT chain after a command. */
  function InputStep(chain: seq<InputRule>, ns: string, c: Cmd): seq<InputRule> {
    if c.NetnsExec? && c.ns == ns then
      match c.inner
      case Input(op, r) => ApplyOp(chain, op, r)
      case FlushInput => []
      case FlushAll => []
      case _ => chain
    else chain
  }

  /** A namespace's INPUT chain after a sequence of commands that take effect. */
  function InputAfter(chain: seq<InputRule>, ns: string, cmds: seq<Cmd>): seq<InputRule>
    decreases |cmds|
  {
    if cmds == [] then chain else InputAfter(InputStep(chain, ns, cmds[0]), ns, cmds[1..])
  }

  lemma {:induction false} InputAfterConcat(chain: seq<InputRule>, ns: string, xs: seq<Cmd>, ys: seq<Cmd>)
    ensures InputAfter(chain, ns, xs + ys) == InputAfter(InputAfter(chain, ns, xs), ns, ys)
    decreases |xs|
  {
    if xs == [] {
      assert xs + ys == ys;
    } else {
      assert (xs + ys)[1..] == xs[1..] + ys;
      InputAfterConcat(InputStep(chain, ns, xs[0]), ns, xs[1..], ys);
    }
  }

  lemma {:induction false} ForwardAfterConcat(chain: seq<ForwardRule>, xs: seq<Cmd>, ys: seq<Cmd>)
    ensures ForwardAfter(chain, xs + ys) == ForwardAfter(ForwardAfter(chain, xs), ys)
    decreases |xs|
  {
    if xs == [] {
      assert xs + ys == ys;
    } else {
      assert (xs + ys)[1..] == xs[1..] + ys;
      ForwardAfterConcat(ForwardStep(chain, xs[0]), xs[1..], ys);
    }
  }

  /** Four commands in a row, one step at a time. */
  lemma ForwardAfterFour(chain: seq<ForwardRule>, a: Cmd, b: Cmd, c: Cmd, d: Cmd)
    ensures ForwardAfter(chain, [a, b, c, d]) ==
      ForwardStep(ForwardStep(ForwardStep(ForwardStep(chain, a), b), c), d)
  {
    assert [a, b, c, d][1..] == [b, c, d];
    assert [b, c, d][1..] == [c, d];
    assert [c, d][1..] == [d];
    assert [d][1..] == [];
    calc {
      ForwardAfter(chain, [a, b, c, d]);
      ForwardAfter(ForwardStep(chain, a), [b, c, d]);
      ForwardAfter(ForwardStep(ForwardStep(chain, a), b), [c, d]);
      ForwardAfter(ForwardStep(ForwardStep(ForwardStep(chain, a), b), c), [d]);
      ForwardAfter(ForwardStep(ForwardStep(ForwardStep(ForwardStep(chain, a), b), c), d), []);
    }
  }

  /** Commands that are not FORWARD rules leave the FORWARD chain alone. */
  lemma {:induction false} ForwardAfterOthers(chain: seq<ForwardRule>, cmds: seq<Cmd>)
    requires forall k | 0 <= k < |cmds| :: !cmds[k].Forward?
    ensures ForwardAfter(chain, cmds) == chain
    decreases |cmds|
  {
    if cmds != [] {
      ForwardAfterOthers(chain, cmds[1..]);
    }
  }

  // ---------------------------------------------------------------------
  // First-match verdicts

  /** Traffic arriving at a namespace. */
  datatype Packet = Packet(protocol: string, port: string, established: bool, loopback: bool)

  predicate InputMatches(r: InputRule, pk: Packet) {
    match r
    case Established => pk.established
    case Loopback => pk.loopback
    case Port(proto, port, _) => pk.protocol == proto && pk.port == port
    case Everything(_) => true
  }

  function InputRuleVerdict(r: InputRule): Verdict {
    match r
    case Established => Accept
    case Loopback => Accept
    case Port(_, _, v) => v
    case Everything(v) => v
  }

  /** The verdict of the first matching rule; None leaves it to the chain's policy. */
  function InputVerdict(chain: seq<InputRule>, pk: Packet): Option<Verdict> {
    if chain == [] then None
    else if InputMatches(chain[0], pk) then Some(InputRuleVerdict(chain[0]))
    else InputVerdict(chain[1..], pk)
  }

  /** Traffic crossing the host between two interfaces. */
  datatype Flow = Flow(inIf: string, outIf: string, source: nat, established: bool)

  predicate ForwardMatches(r: ForwardRule, f: Flow) {
    match r
    case Between(i, o, _) => f.inIf == i && f.outIf == o
    case Returning(i, o) => f.inIf == i && f.outIf == o && f.established
    case FromSource(s) =>
      var n := ParseNetwork(s);
      n.Some? && InBlock(n.value, f.source)
  }

  function ForwardRuleVerdict(r: ForwardRule): Verdict {
    match r
    case Between(_, _, v) => v
    case Returning(_, _) => Accept
    case FromSource(_) => Accept
  }

  function ForwardVerdict(chain: seq<ForwardRule>, f: Flow): Option<Verdict> {
    if chain == [] then None
    else if ForwardMatches(chain[0], f) then Some(ForwardRuleVerdict(chain[0]))
    else ForwardVerdict(chain[1..], f)
  }
}
