# vpcctl topology orchestration, modelled in Dafny

vpcctl builds virtual private clouds on one Linux host:

- A VPC is a Linux bridge `br-<name>` that carries the VPC's gateway address.
- A subnet is a network namespace joined to that bridge by a veth pair.
- Public subnets get NAT (MASQUERADE and two FORWARD rules) towards the host's default interface.
- Every pair of distinct subnets of a VPC gets a route between them.
- Two VPCs are peered by a veth pair between their bridges, with cross routes and a swap of FORWARD rules.
- A subnet's INPUT chain can be compiled from a JSON ingress policy, or reset.

The topology is kept in one JSON state file.

This project models the logic between the command line and the `ip`/`iptables` shell-outs. It proves what each operation issues and what it stores.

- **The host** is the class `Gateway.Host`:
  - `trace` lists every command issued, as a typed `Cmd` value, in order.
  - `file` is the state file, `None` while it does not exist.
  - `respond` is a fixed oracle. It gives the exit status and output of the command issued at each trace position.
- **Checked runs.** A `check=True` command that exits non-zero raises. A run of checked commands inside one `try` is specified by `Gateway.FirstFailure`, the index of the first failing command.
- **The state file** is a `State.Topology`: a sequence of `Vpc` records, each holding sequences of `Subnet` and `Peering` records. Every save is one append or one filter on that value.
- **Addresses** are naturals below 2^32. `Cidr` models:
  - the regular-expression check of `validate_cidr`, where `\d` matches any Unicode decimal digit (general category Nd) and `int()` reads every such digit;
  - the parts of Python's `ipaddress` that the code relies on: `ip_network(strict=False)`, `hosts()`, `subnet_of` and `str()`. These read ASCII digits only.
- **Chains.** The FORWARD chain of the host and the INPUT chain of a namespace are sequences of rules. Each is rebuilt by replaying the commands (`Commands.ForwardAfter`, `Commands.InputAfter`). The first matching rule decides a packet.

Modules follow the source files:

| module | source |
|---|---|
| `Text` | string helpers Python provides, and the Unicode decimal digits |
| `Cidr` | `validate_cidr`, `ipaddress` |
| `State` | the records, `get_vpc` and `get_subnet`, and the edits of each operation |
| `Commands` | the commands and the chains |
| `Gateway` | `run_command`, `load_state`, `save_state`, `get_default_interface` |
| `Vpcs` | `vpc.py` |
| `Subnets` | `subnet.py` |
| `Routing` | `routing.py` |
| `Peerings` | `peering.py` |
| `Firewall` | `firewall.py` |

### Behaviour of the code worth knowing

- **Bridge address.** The bridge address of a VPC is textual: the first three groups of the written address, then `.1`.
  - Up to a /30, it is the first usable host exactly when the block's network address is the written address with its last octet set to 0 (`Cidr.BridgeIpFirstHostIff`). So it is the first host of `10.0.0.0/25` and of `10.0.0.5/26`, but not of `10.0.5.0/16`, whose first host is `10.0.0.1`.
  - A /24 or larger block written with its network address always gets its first host (`Cidr.BridgeIpFirstHost`).
  - For a smaller block such as `10.0.0.128/25`, it lies outside the block (`Cidr.BridgeIpOutsideBlock`).
- **Containment.** `subnet_of` is inclusive: a subnet may cover its whole VPC (`Cidr.SubnetOfIsPrefixContainment`).
- **Failed routing after the save.** `create_subnet` saves the record inside its `try`. If the later `get_default_interface` raises, the rollback runs and the call returns False, but the record stays saved (`Subnets.CreateSubnet`).
- **Duplicate peerings.** There is no duplicate-peering check. Creating a peering twice stores its record twice (`Peerings.CreateTwiceRecordsTwice`).
- **Deleting a peering** needs only that both VPCs exist.
- **Peering routes** go only to the peer VPC's CIDR.
- **Digits of other scripts.** `validate_cidr` accepts a CIDR written in, say, Arabic-Indic digits (`١٠.0.0.0/16`). `ipaddress` refuses such a CIDR (`Cidr.NonAsciiDigitsPassValidation`, `Cidr.NonAsciiGroupRefused`).
  - `create_vpc` goes ahead with it.
  - `create_subnet` raises out of `ip_network` (`Subnets.ArabicIndicCidrRaises`).
- **Trailing newline.** `validate_cidr` also accepts a CIDR followed by a single newline, since `$` matches before a final newline (`Cidr.ValidateCidrOfShape`).
- **NAT clean-up.** `delete_subnet` deletes a FORWARD rule `-s CIDR` that `setup_nat` never added, so the two NAT FORWARD rules stay (`Subnets.NatCleanupKeepsForwardRules`).
- **Empty non-list ingress.** An `ingress` of `{}` or `""` is accepted as a policy with no entries. Any other value that is not a list is rejected (`Firewall.ParseIngress`). Applying such a policy installs a chain that drops every new packet except loopback traffic (`Firewall.EmptyIngressDropsNewTraffic`).
- **Peering veth names** also use the first four characters of each VPC name. Two VPCs whose names agree in those four get the same name for both ends of the pair (`Peerings.NewPeering`).
- **Veth names** use only the first four characters of each name, so distinct subnets can get the same veth names (`Subnets.VethNamesTruncate`).

## Model

| member | source | states |
|---|---|---|
| Gateway.Host.RunCommand | src/vpcctl/utils.py:43-57 | the command is appended to the trace and answered by the oracle; it raises exactly when it is checked and exits non-zero |
| Gateway.Host.LoadState | src/vpcctl/utils.py:92-97 | reads the state file, a missing file reading as a topology without VPCs |
| Gateway.Host.SaveState | src/vpcctl/utils.py:99-106 | replaces the state file as a whole, so the next load returns what was saved |
| State.Loaded | src/vpcctl/utils.py:92-94 | a missing store loads as no VPCs, an existing one as its contents |
| Gateway.FirstFailure | src/vpcctl/utils.py:52-55 | the number of plan commands that succeed before the first failure: all before it succeed, it fails |
| Gateway.FirstFailureUnique | src/vpcctl/utils.py:52-55 | the first failure is the only index with all earlier commands succeeding and itself failing |
| Gateway.FirstFailureConcat | src/vpcctl/utils.py:52-55 | a checked block made of two parts stops inside the first part if that one fails, else where the second, started after it, stops |
| Gateway.Attempted | src/vpcctl/utils.py:52-55 | the issued part of a checked plan is a prefix of it: the whole plan, or up to and including the failing command |
| Gateway.RunChecked | src/vpcctl/vpc.py:23-43 | consecutive checked commands in one `try`: the plan up to its first failure is issued, and it raises exactly when a command failed |
| Gateway.GetDefaultInterface | src/vpcctl/utils.py:76-90 | issues one checked `ip route show default`; it raises exactly when that fails, and otherwise returns `InterfaceFromRoute` of the output |
| Gateway.InterfaceFromRoute | src/vpcctl/utils.py:84-90 | an interface is named exactly when some `dev` word has a word after it; the name is the word after the first `dev` |
| Gateway.InterfaceOfWords | src/vpcctl/utils.py:84-88 | for space-separated words, the interface is the word after the first `dev`, or none when `dev` is last |
| Gateway.InterfaceOfRouteLine | src/vpcctl/utils.py:84-88 | a route line whose first `dev` is followed by a word names that word |
| Gateway.NoInterfaceAfterLastDev | src/vpcctl/utils.py:85-90 | a line whose only `dev` is its last word names no interface |
| Gateway.NoInterfaceWithoutDev | src/vpcctl/utils.py:85-90 | a line without `dev` names no interface |
| Gateway.NoInterfaceInBlankOutput | src/vpcctl/utils.py:78-82 | empty or all-whitespace output names no interface |
| Text.TokensStrip | src/vpcctl/utils.py:78-84 | splitting the stripped output gives the same words as splitting the output |
| Text.StripTrims | src/vpcctl/utils.py:78 | `strip()` yields a slice of the text, cutting only whitespace from either end |
| Text.TokensUnwords | src/vpcctl/utils.py:84 | `split()` of words joined by spaces gives back the words |
| Text.ZeroFromFinds | src/vpcctl/utils.py:60 | the search through the table of category Nd finds a digit zero exactly when one of its runs of ten holds the character |
| Text.AsciiDigitIsDecimal | src/vpcctl/utils.py:60 | `0`..`9` are decimal digits standing for their usual value |
| Text.NumeralValueOfDigits | src/vpcctl/utils.py:67-71 | on ASCII digit strings, `int()` over Unicode digits agrees with the ASCII reading that `ipaddress` uses |
| Text.BelowZeroIsNotDecimal | src/vpcctl/utils.py:60 | no character below `0`, such as `.`, `/` or a newline, is a decimal digit |
| Text.ArabicIndicDigits | src/vpcctl/utils.py:60 | Arabic-Indic zero and one are decimal digits worth 0 and 1 |
| Text.ArabicNumeral | src/vpcctl/utils.py:60-71 | the Arabic-Indic numeral for ten matches `\d{1,3}` and `int()` reads it as 10 |
| State.FindVpc | src/vpcctl/utils.py:108-113 | None exactly when no record has the name; otherwise the first record with the name |
| State.FindSubnet | src/vpcctl/utils.py:115-124 | None when the VPC is missing; otherwise None exactly when no subnet of the first such VPC has the name, else the first one that does |
| State.FindVpcUnique | src/vpcctl/utils.py:108-113 | with unique names, the record found is the one at the name's only index |
| Cidr.MatchedTextOfShape | src/vpcctl/utils.py:60-61 | text made of four groups of decimal digits of any script, a slash and a prefix matches the pattern, with or without one final newline, and the match is the text without the newline |
| Cidr.ValidateCidrOfShape | src/vpcctl/utils.py:59-74 | text of the CIDR shape, with or without one final newline, is accepted exactly when every octet is at most 255 and the prefix at most 32, as `int()` reads them |
| Cidr.Groups | src/vpcctl/utils.py:59-74 | every accepted CIDR is four groups of 1-3 Unicode decimal digits, a slash and a prefix of 1-2 such digits, possibly followed by a newline; read as `int()` reads them, the octets are in 0..255 and the prefix in 0..32 |
| Cidr.GroupsOfShape | src/vpcctl/utils.py:59-74 | a CIDR written from in-range groups is accepted, and its groups and split parts are read back unchanged |
| Cidr.BridgeIpShape | src/vpcctl/vpc.py:20 | for any text, the bridge address is the address text up to its last `.` (all of it when it holds none), then `.1` |
| Cidr.SplitOfValid | src/vpcctl/vpc.py:20-21 | an accepted CIDR splits at its slash into the joined octet groups and the prefix (with the newline kept) |
| Cidr.BridgeIpKeepsThreeGroups | src/vpcctl/vpc.py:20 | the bridge address is the first three octet groups as written, then `.1` |
| Cidr.BridgeIpAddress | src/vpcctl/vpc.py:20 | read as an address, the bridge address is the written address with its last octet set to 1 |
| Cidr.BridgeIpFirstHost | src/vpcctl/vpc.py:20 | when the written address is the network address of a block of /24 or larger, the bridge address is its first host |
| Cidr.BridgeIpFirstHostIff | src/vpcctl/vpc.py:20 | up to a /30, the bridge address is the first host of the block exactly when its network address is the written address with the last octet set to 0 |
| Cidr.BridgeIpOutsideBlock | src/vpcctl/vpc.py:20 | when the written network address does not end in octet 0 or 1, the block is smaller than a /24 and the bridge address lies outside it |
| Cidr.ParseOctet | src/vpcctl/subnet.py:22-23 | an octet `ipaddress` accepts is at most 255 |
| Cidr.ParseAddress | src/vpcctl/subnet.py:22-23 | an address `ipaddress` accepts is below 2^32 |
| Cidr.ParseFormatAddress | src/vpcctl/subnet.py:39-40 | reading back a printed address gives that address |
| Cidr.FormatParseAddress | src/vpcctl/subnet.py:22-23 | an accepted address text is the one `str()` prints for its value |
| Cidr.ParsePrefix | src/vpcctl/subnet.py:22-23 | an accepted prefix is at most 32 |
| Cidr.NonAsciiOctetRefused | src/vpcctl/subnet.py:22-23 | an address with an octet group that is not all ASCII digits is refused by `ipaddress` |
| Cidr.NonAsciiPrefixRefused | src/vpcctl/subnet.py:22-23 | a prefix that is not all ASCII digits is refused by `ipaddress` |
| Cidr.NonAsciiGroupRefused | src/vpcctl/subnet.py:22-23 | an accepted CIDR with an octet group or prefix in non-ASCII digits is refused by `ip_network` |
| Cidr.NonAsciiDigitsPassValidation | src/vpcctl/utils.py:59-74 | `validate_cidr` accepts `١٠.0.0.0/16`, and `ip_network` refuses it |
| Cidr.ParseNetwork | src/vpcctl/subnet.py:22-23 | `ip_network(strict=False)` yields a prefix of at most 32 and an address below 2^32 with its host bits clear |
| Cidr.Masked | src/vpcctl/subnet.py:22-23 | clearing the host bits gives an aligned address no larger than the original |
| Cidr.SubnetOfIsPrefixContainment | src/vpcctl/subnet.py:25 | `subnet_of` holds exactly when the outer prefix is no longer and the two agree on its leading bits (section 3.1 of RFC 4632), equal blocks included |
| Cidr.Hosts | src/vpcctl/subnet.py:38 | `hosts()` is non-empty and every host lies in the block and below 2^32 |
| Cidr.FirstTwoHosts | src/vpcctl/subnet.py:38-40 | there are two hosts exactly when the prefix is at most 31; up to /30 they are network+1 and network+2, for /31 both addresses |
| Cidr.HostsInside | src/vpcctl/subnet.py:38 | up to /30 no host is the network or the broadcast address |
| Cidr.BlockFits | src/vpcctl/subnet.py:38 | every block ends below 2^32 |
| Vpcs.VpcPlan | src/vpcctl/vpc.py:24-43 | `create_vpc` issues seven checked commands |
| Vpcs.RollbackDeletesCreatedBridge | src/vpcctl/vpc.py:24-63 | the first command creates the bridge that the rollback deletes, and no later command creates one |
| Vpcs.NewVpc | src/vpcctl/vpc.py:45-52 | the stored record has the given name and CIDR, bridge `br-<name>`, the textual bridge address, and no subnets or peerings |
| Vpcs.CreateVpc | src/vpcctl/vpc.py:10-64 | a refused CIDR or a taken name issues nothing and saves nothing; otherwise the plan runs up to its first failure, which is followed by a bridge delete with the file untouched; on success the record is appended; the state invariant is kept |
| Vpcs.DeleteVpc | src/vpcctl/vpc.py:66-91 | an unknown VPC, or one with subnets, issues nothing; otherwise one unchecked bridge delete, every record of that name dropped and the name no longer found; the invariant is kept |
| Vpcs.CreateKeepsWellFormed | src/vpcctl/vpc.py:54-56 | appending the new record under a fresh name keeps names unique |
| Vpcs.DeleteUndoesCreate | src/vpcctl/vpc.py:66-84 | right after creation the VPC is found with no subnets and its own bridge, and deleting it restores the records |
| State.AddVpcFound | src/vpcctl/vpc.py:54-56 | appending under a fresh name keeps the invariant; the record is then found, and other lookups are unchanged |
| State.RemoveVpcGone | src/vpcctl/vpc.py:82-84 | after the filter no record has the name, and every other record is kept |
| State.RemoveVpcKeepsWellFormed | src/vpcctl/vpc.py:82-84 | the filter keeps VPC names unique and every VPC's subnet names unique |
| State.RemoveAfterAdd | src/vpcctl/vpc.py:82-84 | filtering out a name right after appending it under that fresh name restores the topology |
| Commands.ShortName | src/vpcctl/subnet.py:34-35 | a veth name (tags `vb` and `vn` here, `vp` for peerings) starts with its tag and is at most ten characters longer, so at most 12 |
| Subnets.VethEndsDiffer | src/vpcctl/subnet.py:34-35 | whatever the names, the two ends of a pair never share a name |
| Subnets.VethNamesTruncate | src/vpcctl/subnet.py:34-35 | subnet names agreeing in their first four characters give the same veth names |
| Subnets.SubnetAddresses | src/vpcctl/subnet.py:38-40 | up to /30 the gateway reads as network+1 and the subnet address as network+2, and they differ |
| Subnets.NewSubnet | src/vpcctl/subnet.py:76-85 | the record keeps the given name, CIDR and type; its gateway and address read back as the first and second host; its two veth names differ and are at most 12 characters |
| Subnets.Admit | src/vpcctl/subnet.py:13-40 | admitted only with an accepted CIDR, a found VPC, both CIDRs parsed, containment, a fresh subnet name and at least two hosts; a refused CIDR or a missing VPC is refused, not raised |
| Subnets.ArabicIndicCidrRaises | src/vpcctl/subnet.py:17-23 | in an existing VPC, a CIDR in Arabic-Indic digits passes the shape check and raises at `ip_network` |
| Subnets.CheckSubnet | src/vpcctl/subnet.py:13-40 | the checks, run against the loaded state, decide as `Admit` does, with no command issued |
| Subnets.SubnetPlan | src/vpcctl/subnet.py:44-75 | eleven checked commands |
| Subnets.RollbackUndoesPlan | src/vpcctl/subnet.py:110-114 | the rollback deletes the namespace and the veth end that the first two commands create, and no later command creates either |
| Subnets.Dispatch | src/vpcctl/subnet.py:95-105 | the routing after the save raises only for a public subnet whose default-route lookup fails, and it issues the public or private routing (or nothing for any other type) |
| Subnets.DispatchPublic | src/vpcctl/subnet.py:95-101 | one checked lookup; NAT and the mesh follow only when an interface is found |
| Subnets.PublicRoutes | src/vpcctl/subnet.py:100-101 | NAT for the subnet, then the mesh, with their results ignored |
| Subnets.Commit | src/vpcctl/subnet.py:88-105 | the subnet is appended to its VPC and saved before the routing runs against the saved state |
| Subnets.Provision | src/vpcctl/subnet.py:43-114 | a failing checked command triggers the rollback with the file untouched; otherwise the record is saved and stays even when the routing raises and the rollback follows |
| Subnets.CreateSubnet | src/vpcctl/subnet.py:12-114 | refusals return False and escaping exceptions end the call, both with nothing issued or saved; otherwise as `Provision`; the invariant is kept |
| Subnets.CreateSubnetFinds | src/vpcctl/subnet.py:77-93 | the appended record is found under its name, and removing it restores the topology |
| Subnets.Teardown | src/vpcctl/subnet.py:131-139 | the namespace and veth are deleted, and the bridge address too when a gateway is recorded, all unchecked |
| Subnets.TeardownPlan | src/vpcctl/subnet.py:134-139 | the namespace delete and the veth delete, then the bridge-address delete exactly when a gateway is recorded |
| Subnets.NatCleanup | src/vpcctl/subnet.py:141-145 | nothing without an interface; with one, the MASQUERADE delete and then the FORWARD delete |
| Subnets.Forget | src/vpcctl/subnet.py:141-152 | when the lookup raises, False and nothing saved; otherwise the NAT clean-up when an interface was found, and the subnets of that name dropped |
| Subnets.DeleteSubnet | src/vpcctl/subnet.py:116-159 | an unknown subnet gives False, a CIDR without a slash raises before any command, otherwise as `Teardown` then `Forget`; afterwards the name is no longer found and the invariant is kept |
| Subnets.NatCleanupKeepsForwardRules | src/vpcctl/subnet.py:144-145 | on a chain without a `-s CIDR` rule, NAT set-up followed by the clean-up leaves the two NAT FORWARD rules in place |
| State.UpdateFirst | src/vpcctl/subnet.py:89-92 | only the first VPC with the name is edited; every other record is unchanged |
| State.EditFirst | src/vpcctl/subnet.py:88-92 | the loop with `break` edits the first VPC with the name and stops |
| State.UpdateFirstKeepsNames | src/vpcctl/subnet.py:89-92 | editing a VPC's subnets keeps every name, so lookups land on the same index |
| State.WithSubnetFound | src/vpcctl/subnet.py:88-93 | the added subnet keeps the invariant and is what `get_subnet` then finds |
| State.WithoutSubnetGone | src/vpcctl/subnet.py:147-152 | after the filter no subnet of that name is found |
| State.WithoutSubnetKeepsWellFormed | src/vpcctl/subnet.py:147-152 | the filter keeps VPC names unique and every VPC's subnet names unique |
| State.RemoveSubnetAfterAdd | src/vpcctl/subnet.py:147-152 | removing a subnet right after adding it restores the topology |
| Routing.NatRules | src/vpcctl/routing.py:16-22 | three rules follow the forwarding switch |
| Routing.NatRest | src/vpcctl/routing.py:12-22 | the forwarding switch is written only when it was not on: three or four commands |
| Routing.NatPlan | src/vpcctl/routing.py:11-22 | the read of the forwarding switch first and the three rules last: four commands when forwarding was on, five otherwise |
| Routing.ForwardingOnIsStrip | src/vpcctl/routing.py:12 | forwarding reads as on exactly when the stripped output equals `1` |
| Routing.SetupNat | src/vpcctl/routing.py:9-30 | the read, the switch when needed, and the three rules, checked up to the first failure; it returns True exactly when nothing failed |
| Routing.NatTraceIsCheckedPlan | src/vpcctl/routing.py:10-30 | what `setup_nat` issues is its whole plan up to the first failure |
| Routing.NatForwardRules | src/vpcctl/routing.py:19-22 | a completed `setup_nat` appends the two NAT forwarding rules to whatever FORWARD held |
| Routing.AddInterSubnetRoutes | src/vpcctl/routing.py:32-67 | False exactly for an unknown VPC; fewer than two subnets issue nothing; otherwise the bridge ACCEPT rule and the mesh |
| Routing.InterSubnetPlan | src/vpcctl/routing.py:33-59 | nothing for an unknown VPC or one with fewer than two subnets; otherwise the bridge-to-bridge ACCEPT rule comes first |
| Routing.AddMesh | src/vpcctl/routing.py:49-60 | the outer loop issues each subnet's routes in list order |
| Routing.MeshRoutes | src/vpcctl/routing.py:49-59 | at most one route per ordered pair of subnets |
| Routing.AddRoutesFrom | src/vpcctl/routing.py:53-60 | the inner loop issues one route per other-named subnet, in order |
| Routing.RoutesFrom | src/vpcctl/routing.py:53-59 | at most one route per subnet in the list |
| Routing.RoutesFromSound | src/vpcctl/routing.py:53-59 | every route issued points at a subnet with another name, via the local gateway |
| Routing.RoutesFromComplete | src/vpcctl/routing.py:53-59 | every subnet with another name gets a route |
| Routing.RoutesFromCount | src/vpcctl/routing.py:53-59 | with unique names one route per other subnet |
| Routing.MeshRouteFor | src/vpcctl/routing.py:49-59 | every ordered pair of subnets with distinct names gets its route |
| Routing.MeshRoutesSound | src/vpcctl/routing.py:49-59 | the mesh holds nothing but such routes between distinct names |
| Routing.MeshRoutesCount | src/vpcctl/routing.py:49-59 | with unique names n subnets get n·(n−1) routes |
| Routing.SetupPrivateSubnetRouting | src/vpcctl/routing.py:69-96 | False exactly for an unknown subnet; otherwise the default route is dropped and a route is added to every other subnet |
| Routing.PrivatePlan | src/vpcctl/routing.py:70-89 | nothing exactly when the subnet is unknown; otherwise the default-route delete in its namespace comes first |
| Peerings.NewPeering | src/vpcctl/peering.py:26-27 | the record names the two VPCs in the given order; both veth names are at most 12 characters, and they coincide when the two names agree in their first four characters |
| Peerings.LinkPlan | src/vpcctl/peering.py:30-38 | five checked link commands |
| Peerings.RollbackDeletesCreatedVeth | src/vpcctl/peering.py:30-79 | the first link command creates the veth that the rollback deletes, and no later one creates a veth |
| Peerings.IssueRoutes | src/vpcctl/peering.py:41-51 | one unchecked route per subnet, in list order, towards the peer CIDR |
| Peerings.PeerRoutesEach | src/vpcctl/peering.py:41-51 | exactly one route per subnet, the i-th in the i-th subnet's namespace via its gateway |
| Peerings.PeerRoutes | src/vpcctl/peering.py:41-51 | one route per subnet |
| Peerings.Swap | src/vpcctl/peering.py:53-56 | the four FORWARD edits, unchecked |
| Peerings.ForwardSwap | src/vpcctl/peering.py:53-56 | the old verdict is deleted for both directions between the bridges, then the new one inserted for both |
| Peerings.Rewire | src/vpcctl/peering.py:41-56 | the routes in both directions, then the FORWARD swap |
| Peerings.Wiring | src/vpcctl/peering.py:41-56 | one route per subnet of either VPC, plus the four FORWARD edits |
| Peerings.SwapChain | src/vpcctl/peering.py:53-56 | after the swap both new rules head the chain and the old two are removed |
| Peerings.SwapDecidesBridges | src/vpcctl/peering.py:53-56 | traffic between the two bridges, either way, is decided by the new verdict whatever the chain held |
| Peerings.SwapKeepsOtherFlows | src/vpcctl/peering.py:53-56 | any other traffic is judged as before |
| Peerings.SwapRoundTrip | src/vpcctl/peering.py:109-112 | with the isolation rules at the head, create and then delete restore the chain |
| Peerings.RecordPeering | src/vpcctl/peering.py:66-71 | the record is appended to every VPC named by either side |
| Peerings.ForgetPeerings | src/vpcctl/peering.py:115-120 | every VPC named by either side keeps only the peerings not joining the two |
| Peerings.Peer | src/vpcctl/peering.py:29-80 | the link commands up to the first failure, which is followed by a veth delete with the file untouched; on success the wiring and the saved records |
| Peerings.Connect | src/vpcctl/peering.py:41-72 | the routes and swap, then the record saved in both VPCs; the invariant is kept |
| Peerings.CreatePeering | src/vpcctl/peering.py:9-80 | a missing side or a self-peering issues nothing; otherwise as `Peer`; the invariant is kept |
| Peerings.Disconnect | src/vpcctl/peering.py:97-121 | veth delete, routes and reverse swap, then the joining records dropped; the invariant is kept |
| Peerings.DeletePeering | src/vpcctl/peering.py:82-128 | missing VPCs issue nothing; otherwise as `Disconnect`, whether or not a peering exists |
| Peerings.DeleteUndoesCreateRecords | src/vpcctl/peering.py:115-121 | deleting in either argument order removes what creating recorded and leaves what deleting alone would |
| Peerings.CreateTwiceRecordsTwice | src/vpcctl/peering.py:66-72 | creating the same peering twice stores the record twice in both VPCs |
| State.WithPeering | src/vpcctl/peering.py:66-72 | the peering edit keeps the number of VPC records |
| State.WithPeeringEffect | src/vpcctl/peering.py:66-72 | both named VPCs get the record at the end of their peerings, nothing else changes, and the invariant is kept |
| State.WithoutPeeringsSymmetric | src/vpcctl/peering.py:115-121 | the filter does not depend on the argument order |
| State.WithoutPeeringsGone | src/vpcctl/peering.py:115-121 | afterwards neither VPC holds a peering joining the two, and the invariant is kept |
| State.RemovePeeringAfterAdd | src/vpcctl/peering.py:115-121 | deleting right after creating leaves what deleting alone would |
| Firewall.ParseEntry | src/vpcctl/firewall.py:28-35 | an entry is rejected exactly when it is not an object, lacks `port`, `protocol` or `action`, or its action is not the string `allow` or `deny`; an accepted entry carries the object's port, protocol and action |
| Firewall.ParseEntries | src/vpcctl/firewall.py:28-35 | a list is accepted exactly when every entry is, and then entry for entry |
| Firewall.ParsePolicy | src/vpcctl/firewall.py:20-38 | an accepted policy is an object with `subnet` and `ingress`, and every accepted action is valid; with a list of entries, it is accepted exactly when no entry is malformed, and then yields the entries one for one; with any other `ingress` it is accepted, with no entries, exactly when that is `{}` or `""` |
| Firewall.ParsePolicyRejectsBadEntry | src/vpcctl/firewall.py:28-35 | one entry that is not an object, lacks one of the three keys, or has an action other than `allow` or `deny` rejects the whole policy |
| Firewall.ParsePolicyJson | src/vpcctl/firewall.py:20-38 | a policy written from entries with valid actions is read back as those entries |
| Firewall.ParseIngress | src/vpcctl/firewall.py:28-35 | a list is accepted exactly when no entry is malformed; of the other values only `{}` and `""` are accepted, as no entries; anything else is rejected |
| Firewall.EmptyIngressDropsNewTraffic | src/vpcctl/firewall.py:28-82 | a policy whose `ingress` is `{}` or `""` is accepted with no entries, and the applied chain then accepts only established and loopback traffic and drops every other packet |
| Firewall.Signed | src/vpcctl/firewall.py:79 | `str()` of an integer: a minus sign exactly for a negative one, followed by digits whose value is its magnitude |
| Firewall.Render | src/vpcctl/firewall.py:79 | a string is written as itself and a number as `Signed` writes it |
| Firewall.EntryRules | src/vpcctl/firewall.py:69-80 | one rule per entry in entry order, `allow` giving ACCEPT and anything else DROP |
| Firewall.AppendAll | src/vpcctl/firewall.py:63-82 | one append per rule |
| Firewall.PolicyPlan | src/vpcctl/firewall.py:60-82 | the flush and `len(ingress) + 3` appends |
| Firewall.ApplyPolicy | src/vpcctl/firewall.py:47-90 | a bad policy or an unknown subnet issues nothing; otherwise the plan up to its first failure, with nothing undone; True exactly when nothing failed |
| Firewall.AppendAllBuilds | src/vpcctl/firewall.py:63-82 | appending rules one by one leaves them in order after the chain |
| Firewall.ApplyLeavesPolicyChain | src/vpcctl/firewall.py:60-83 | whatever INPUT held, a full apply leaves exactly the policy's chain |
| Firewall.PolicyChainShape | src/vpcctl/firewall.py:63-82 | established and loopback first, the entries' rules in order, a final DROP: `len(ingress) + 3` rules |
| Firewall.FailedApplyLeavesPrefix | src/vpcctl/firewall.py:88-90 | a failure at command k leaves the chain untouched (flush failed) or the first k−1 rules of the policy's chain |
| Firewall.EntryRulesVerdict | src/vpcctl/firewall.py:69-82 | the entries' rules and the DROP decide as the first entry for the packet's protocol and port, or DROP |
| Firewall.PolicyChainVerdict | src/vpcctl/firewall.py:63-82 | established and loopback traffic is accepted; any other packet gets the first matching entry's action or DROP |
| Firewall.ClearPlan | src/vpcctl/firewall.py:101-109 | five checked commands |
| Firewall.ClearPolicy | src/vpcctl/firewall.py:92-117 | an unknown subnet issues nothing; otherwise the reset up to its first failure; True exactly when nothing failed |
| Firewall.ClearEmptiesInput | src/vpcctl/firewall.py:101-104 | the reset leaves no INPUT rule, whatever the chain held |
| Firewall.ClearAcceptsInput | src/vpcctl/firewall.py:107 | the reset sets INPUT's policy to ACCEPT, whatever it was |
| Firewall.ClearAdmitsAll | src/vpcctl/firewall.py:101-109 | after a full reset every packet is admitted |

## Left out

- `src/vpcctl/cli.py`: argument parsing, exit codes and the `exec` pass-through. It is wiring only.
- Logging and the coloured formatter in `src/vpcctl/utils.py`: output formatting only.
- `check_root`: a privilege check.
- `list_vpcs` and `list_subnets`: table printing.
- Process execution in `run_command`: the command's effect is an oracle of exit status and output, fixed per trace position.
- File I/O of the state file:
  - JSON encoding, the temporary file and the `replace` are left out; the file is a value.
  - A load or save that fails with an I/O error or malformed JSON is not modelled.
  - The `setdefault`/`get` defaults for `subnets` and `peerings` are not modelled, since records always carry both lists.
  - A recorded subnet without a gateway is modelled as the empty gateway string.
- The file read and the `JSONDecodeError` branch of `parse_policy`: the decoded document is a parameter, `None` when the file is missing or not JSON.
- JSON floating-point numbers: `Firewall.Json` numbers are integers.
- Firewall.Render: how Python's `str()` writes a list or an object inside the rule text is not modelled. Such a port or protocol is rendered as the empty string.
- Cidr.ParseNetwork: the dotted-netmask prefix (`/255.255.0.0`) cannot occur, because `validate_cidr` only lets digits through. The model rejects it.
- Cidr.ParseOctet: refusing an octet with a leading zero (`010`) is what `ipaddress` does from Python 3.8.12 and 3.9.5 on. The model follows those versions; older ones read such an octet as decimal.
- Text.IsDecimalChar: the table is Unicode 15.0 and 15.1's category Nd. A Python built on another Unicode version may have a few decimal digits more or fewer.
- What the kernel does with the commands: only the FORWARD and INPUT chains are rebuilt from the commands.
  - Routes, bridges, namespaces and NAT are recorded as issued commands only.
  - Rule matching keeps just the fields the commands set.
- Concurrency and locking: the code has none.
