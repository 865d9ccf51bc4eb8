# generateqos in Dafny

This project models the core of `generateqos.py`, the tool that turns a
TripleO-style cluster inventory and a latency policy into per-host
traffic-control (tc) scripts. The project covers three parts:

- the `Inventory` object's queries over the two parsed documents. They find
  the roles, the host groups, the addresses and the VIPs, and answer the
  reverse lookups from an address to its host and role.
- the policy queries. These are the per-role and per-role-pair latency
  lookups, the table that gives each latency value a tc mark, and
  `get_latency`, which decides which latency, if any, a host applies
  towards an address.
- the data the two generation passes hand to the template renderer.
  `generate_latencies` builds one bundle per shaped host, with its remote
  addresses, their latencies and the mark table. `generate_distribution_script`
  builds a map from each shaped host to its control-plane address.

Layout:

- `Results.dfy`: `Option`, `Result` and the generator's error conditions. Each error is one of the source's `raise Exception`s, except `UnknownLatency`, which describes the `KeyError` of get_mark's table lookup (generateqos.py:196). Resolver.MarkNeverMissing proves that this error never occurs inside get_latency.
- `Documents.dfy`: the parsed inventory and policy, and the well-formedness the queries take for granted. Most of it asks for parts the queries read, where a missing part makes the source stop with a `KeyError` or an `IndexError`. Only a host group with exactly one host must declare `vars` and the `<net>_ip` of each enabled network. A group with several hosts needs neither, since get_hosts raises `HostCount` for it before anything reads them. Two requirements go further than the source on such inventories; "## Left out" names them.
- `Strings.dfy`: the string order `sorted` uses, `startswith` and `join`.
- `InventoryModel.dfy`: the inventory queries as functions, with lemmas.
- `LatencyPolicy.dfy`: the policy lookups and the mark table, with lemmas.
- `Resolver.dfy`: `get_latency` and its precedence rules.
- `ScriptPlan.dfy`: the host bundles and the distribution map, with lemmas.
- `GenerateQos.dfy`: the `Inventory` class and the two passes. Each method follows the loops of its Python counterpart and is proved equal to the function that specifies it. Most loops walk the documents entry by entry. get_roles_connections builds `combinations(roles, 2)` first and then copies it in a loop, as the source does.

A parsed YAML mapping is a sequence of `(key, value)` pairs in document
order, so every Python iteration over a dict or a set becomes iteration in
document order. An explicit `raise` becomes an `Err` result. The first
failing step ends the call with its error, as the exception would.

## Model

| member | source | states |
|---|---|---|
| GenerateQos.Inventory.constructor | generateqos.py:22-34 | the object holds the two file names and the two parsed documents |
| GenerateQos.Inventory.GetRoles | generateqos.py:36-43 | the loop returns the groups that declare `role_name` among their vars, in order |
| InventoryModel.RolesAreRoleGroups | generateqos.py:36-43 | a name is a role exactly when some group of that name has `role_name` in its vars |
| InventoryModel.RolesDistinct | generateqos.py:36-43 | no role is listed twice |
| InventoryModel.RolesAreRoleNames | generateqos.py:36-43 | a name is listed exactly when the group found under it is a role |
| GenerateQos.Inventory.GetHosts | generateqos.py:45-54 | the loop returns each host group with its single host; the first group without exactly one host raises, and stops the loop |
| InventoryModel.HostsFail | generateqos.py:45-54 | the host table fails exactly when some group has other than one host; the error names the first such group and its hosts |
| InventoryModel.SeveralHostsNoVars | generateqos.py:45-54 | an inventory with a group of two hosts and no `vars` is well formed, and get_hosts raises `HostCount` on it, naming that group and its hosts |
| InventoryModel.HostsPairs | generateqos.py:45-54 | on success every host group has one host, the table pairs each group with that host, and its keys are distinct |
| InventoryModel.HostGroups | generateqos.py:45-54 | the table's keys are exactly the groups that declare `hosts`, each mapped to its one host |
| GenerateQos.Inventory.GetIpHost | generateqos.py:56-72 | the loop implements get_ip_host: the VIP branch first, then the scan of the host groups |
| InventoryModel.IpHostCases | generateqos.py:64-72 | for an address that is not a VIP: an error exactly when two host groups claim it, none when no group does, otherwise the group that claims it |
| InventoryModel.VipHost | generateqos.py:59-62 | a VIP belongs to the least child of `Controller` in sorted order, whoever holds the address |
| InventoryModel.IpHostError | generateqos.py:68-69 | with a good host table, the only error is the shared-address one |
| InventoryModel.IpHostFails | generateqos.py:56-72 | a failing host table makes get_ip_host fail on every address |
| GenerateQos.Inventory.GetAllVips | generateqos.py:74-81 | the loop returns the values of the `overcloud` group's vars, in order, or nothing when it has no vars |
| InventoryModel.VipsOf | generateqos.py:77-80 | one VIP per overcloud variable, the i-th being the i-th variable's value |
| InventoryModel.AllVipsAreOvercloudValues | generateqos.py:74-81 | an address is a VIP exactly when it is the value of some overcloud variable |
| GenerateQos.Inventory.GetRoleHosts | generateqos.py:83-87 | returns get_role_hosts, and fails exactly when get_hosts does |
| InventoryModel.RoleHosts | generateqos.py:83-87 | fails exactly when get_hosts fails, with its error; otherwise its keys are exactly the group's children, each mapped to its single host |
| GenerateQos.Inventory.GetHostRole | generateqos.py:89-98 | the loop over the roles implements get_host_role, stopping at the first failing role |
| InventoryModel.RolesContainingFilters | generateqos.py:90-93 | with a good host table the loop keeps exactly the roles that have the host as a child, without repeats |
| InventoryModel.RolesContainingFails | generateqos.py:91-92 | with a failing host table the loop fails at its first role |
| InventoryModel.HostRoleCases | generateqos.py:89-98 | an error exactly when the host is a child of two roles, none exactly when it is a child of none, otherwise a role that has it as a child |
| InventoryModel.NoHostInNoRoles | generateqos.py:92 | an absent host is in no role |
| InventoryModel.NoHostNoRole | generateqos.py:89-98 | the role of an absent host (`None`) is none |
| InventoryModel.HostRoleError | generateqos.py:94-95 | with a good host table, the only error is the several-roles one |
| InventoryModel.HostRoleFails | generateqos.py:89-98 | with a failing host table, get_host_role fails exactly when there is a role to ask |
| GenerateQos.Inventory.GetIpRole | generateqos.py:100-108 | returns get_ip_role |
| InventoryModel.IpRole | generateqos.py:103-104 | every VIP has role `Controller` |
| GenerateQos.Inventory.GetHostIps | generateqos.py:110-120 | the loop collects `<net>_ip` for each enabled network, skipping repeats; a group without `enabled_networks` has none |
| InventoryModel.NetworkIps | generateqos.py:116-119 | the addresses have no duplicates, and an address is listed exactly when it is the `_ip` of one of the networks |
| InventoryModel.EnabledNetworks | generateqos.py:113-115 | every enabled network declares its address |
| InventoryModel.HostIpOnNetwork | generateqos.py:122-130 | an address exactly when the network is enabled, and then it is the group's `<net>_ip` variable, one of the group's addresses |
| InventoryModel.HostIpsByNetwork | generateqos.py:110-130 | an address is the group's exactly when get_host_ip_network returns it for some network |
| InventoryModel.OwnersFilter | generateqos.py:64-67 | the scan keeps exactly the host groups whose addresses hold the address, without repeats |
| GenerateQos.Inventory.GetRolesConnections | generateqos.py:132-138 | the loop copies `Pairs(roles)`, that is `combinations(roles, 2)`, pair by pair, as generateqos.py:135-137 does |
| InventoryModel.PairsAreOrderedPairs | generateqos.py:133 | a pair is listed exactly when its first role comes before its second in the role list |
| InventoryModel.PairsCount | generateqos.py:133 | there are n(n-1)/2 pairs of n roles |
| LatencyPolicy.IntraRoleLatency | generateqos.py:145-152 | a value only when the role declares one; the declared value whenever it does; none for an absent role |
| GenerateQos.Inventory.GetInterRoleLatency | generateqos.py:154-171 | the loop over the inter-role entries implements get_inter_role_latency |
| LatencyPolicy.ConnectionSymmetric | generateqos.py:158-164 | the entries found do not depend on which key order is asked first |
| LatencyPolicy.InterRoleSymmetric | generateqos.py:154-171 | get_inter_role_latency(a, b) equals get_inter_role_latency(b, a), error included |
| LatencyPolicy.ConnectionCount | generateqos.py:161-164 | the entries found are those under either key, counted once for a key that reads the same both ways |
| LatencyPolicy.KeyCountDistinct | generateqos.py:162 | a parsed mapping holds a key at most once |
| LatencyPolicy.InterRoleCases | generateqos.py:154-171 | an error exactly when both key orders are declared and differ, none exactly when neither is, otherwise the value declared under one of them |
| GenerateQos.Inventory.GetAllLatencies | generateqos.py:174-191 | the mark-assigning loops return the mark table |
| LatencyPolicy.OverwriteKeys | generateqos.py:179-189 | a value is in the table exactly when some visit stores it |
| LatencyPolicy.OverwriteLast | generateqos.py:179-189 | a value's mark is the one of its last visit |
| LatencyPolicy.OverwriteAt | generateqos.py:179-189 | a visit that no later visit repeats decides its value's mark |
| LatencyPolicy.OverwriteInjective | generateqos.py:179-189 | increasing marks give distinct values distinct marks |
| LatencyPolicy.MarksEnd | generateqos.py:174-191 | the default at 10, then the intra-role loop from 11, then the inter-role loop, build the whole mark table |
| LatencyPolicy.VisitsIncreasing | generateqos.py:175-190 | marks strictly increase in visiting order |
| LatencyPolicy.MarkTableKeys | generateqos.py:174-191 | the table holds exactly the values the policy declares |
| LatencyPolicy.RegisteredVisited | generateqos.py:174-191 | every declared value gets a mark |
| LatencyPolicy.VisitedRegistered | generateqos.py:174-191 | every value with a mark is declared |
| LatencyPolicy.MarkTableBoundsAndInjective | generateqos.py:174-191 | marks lie between 10 and 10 + the number of entries, distinct values have distinct marks, and only the default can have mark 10 |
| LatencyPolicy.MarkOfDefault | generateqos.py:177-179 | the default keeps mark 10 unless an entry repeats its value |
| LatencyPolicy.MarkOfIntra | generateqos.py:182-185 | the i-th intra-role entry has mark 11 + i unless a later entry repeats its value |
| LatencyPolicy.MarkOfInter | generateqos.py:187-190 | the j-th inter-role entry has mark 11 + (number of intra-role entries) + j unless a later inter-role entry repeats its value |
| GenerateQos.Inventory.GetMark | generateqos.py:193-196 | returns get_mark |
| LatencyPolicy.Mark | generateqos.py:193-196 | a mark exactly when the policy declares the value, a missing-key error otherwise, and the mark within the table's bounds |
| GenerateQos.Inventory.GetLatency | generateqos.py:204-226 | the sequence of lookups returns get_latency |
| Resolver.NoSelfShaping | generateqos.py:206-207 | a host never shapes traffic to its own addresses |
| Resolver.LookupsRegistered | generateqos.py:213-221 | every value a lookup returns is declared by the policy |
| Resolver.ChoosePrecedence | generateqos.py:213-226 | the inter-role value beats the intra-role one (same role only), which beats the default; the result carries the winner's mark and the remote host; the only error is an ambiguous inter-role declaration |
| Resolver.Precedence | generateqos.py:204-226 | once both roles and the remote host are known, get_latency returns the winning rule with its mark and remote host, or none |
| Resolver.InterRoleWins | generateqos.py:219-221 | a declared inter-role value wins, even between hosts of one role |
| Resolver.ResolvedShaping | generateqos.py:224-225 | a resolved rule is for a remote address, has a declared value with its table mark, and names the host get_ip_host gives |
| Resolver.MarkNeverMissing | generateqos.py:204-226 | get_mark never fails inside get_latency: every error comes from the inventory or from an ambiguous inter-role declaration |
| GenerateQos.Trace | generateqos.py:250-252 | one step of the inner loop: get_latency, then the lookups the debug line makes while building its message |
| GenerateQos.Bundle | generateqos.py:236-268 | the loops build the bundle of one host, the first failing address ending the pass with its error |
| ScriptPlan.RemoteIpsMembers | generateqos.py:236-243 | the remote addresses are exactly those of every group but the host |
| ScriptPlan.CollectTable | generateqos.py:248-254 | the loop succeeds exactly when no address fails; the table holds exactly the addresses with a rule, each with its rule |
| ScriptPlan.IpRoleAfterLatency | generateqos.py:251-252 | get_ip_role cannot fail once get_latency's lookups of the address have succeeded |
| ScriptPlan.TracedIsLatency | generateqos.py:250-252 | the debug line can fail only on the host's own addresses; on any other address it changes nothing |
| ScriptPlan.ResolveAllTable | generateqos.py:248-254 | the latency table succeeds exactly when every address passes; it holds exactly the addresses get_latency resolves, each with get_latency's answer |
| ScriptPlan.TargetsMembers | generateqos.py:239-245 | an address is remote exactly when it is a VIP or an address of another group |
| ScriptPlan.PlanForOtherHosts | generateqos.py:236-238 | a bundle's `other_hosts` holds exactly the host groups other than the host itself, as `hosts - s` gives |
| ScriptPlan.PlanForLatencies | generateqos.py:248-254 | the bundle's latencies cover exactly the remote addresses with a rule, each with get_latency's answer, and never one of the host's own addresses |
| ScriptPlan.ShapedOnly | generateqos.py:234-235 | exactly the groups that do not start with `undercloud` |
| ScriptPlan.GatherFails | generateqos.py:233-272 | the pass fails exactly when some shaped host's bundle fails |
| ScriptPlan.GatherHosts | generateqos.py:233-235 | the bundles are those of the shaped hosts, one each, in order |
| ScriptPlan.GatherBundles | generateqos.py:233-268 | each bundle kept is the bundle of a shaped host |
| GenerateQos.GenerateLatencies | generateqos.py:229-272 | the pass returns the bundles of every shaped host, or the first error |
| ScriptPlan.HostPlansCover | generateqos.py:229-272 | a successful pass yields one bundle per host group not named `undercloud...`, in inventory order, each that host's own bundle built against all host groups |
| ScriptPlan.HostPlansFail | generateqos.py:229-272 | with get_hosts's error when get_hosts fails; otherwise the pass fails exactly when the bundle of some host group not named `undercloud...` does |
| GenerateQos.GenerateDistributionScript | generateqos.py:274-283 | the loop returns the `hosts` map of the distribution script |
| ScriptPlan.DistributionTable | generateqos.py:278-281 | the map's keys are exactly the shaped groups, each with its `ctlplane` address |
| ScriptPlan.DistributionCovers | generateqos.py:274-283 | the map holds exactly the shaped host groups, each with its control-plane address, and fails exactly when get_hosts does |
| Strings.Least | generateqos.py:61 | `sorted(...)[0]` is a member of the list that is at most every member |
| Strings.LexLeTotal | generateqos.py:61 | the string order is total |
| Strings.LexLeTransitive | generateqos.py:61 | the string order is transitive |
| Strings.LexLeAntisymmetric | generateqos.py:61 | the string order is antisymmetric |
| Strings.LexLeReflexive | generateqos.py:61 | the string order is reflexive |
| Documents.Find | generateqos.py:39-41 | a dict lookup finds a value exactly when the key is present |
| Documents.InKeys | generateqos.py:38 | a key is present exactly when some entry carries it |
| InventoryModel.Roles | generateqos.py:36-43 | definition: the groups whose vars hold `role_name`, in document order; pinned down by RolesAreRoleGroups and RolesDistinct |
| InventoryModel.Hosts | generateqos.py:45-54 | definition: each group that declares `hosts` paired with its one host, or the error of the first group without exactly one; pinned down by HostsFail, HostsPairs and HostGroups |
| InventoryModel.AllVips | generateqos.py:74-81 | definition: the values of the `overcloud` group's vars, in order; pinned down by VipsOf and AllVipsAreOvercloudValues |
| InventoryModel.HostIps | generateqos.py:110-120 | definition: the `<net>_ip` values of the enabled networks, without repeats; pinned down by NetworkIps and HostIpsByNetwork |
| InventoryModel.RolesContaining | generateqos.py:90-93 | definition: the loop of get_host_role, the roles whose get_role_hosts holds the host, stopping at the first error; pinned down by RolesContainingFilters and RolesContainingFails |
| InventoryModel.HostRole | generateqos.py:89-98 | definition: get_host_role, an error for several roles, the one role, or none; pinned down by HostRoleCases, HostRoleError and HostRoleFails |
| InventoryModel.IpHost | generateqos.py:56-72 | definition: get_ip_host, the least `Controller` child for a VIP, otherwise the one owning host group, none when nobody owns the address, an error for several owners; pinned down by IpHostCases, VipHost, IpHostError and IpHostFails |
| InventoryModel.Pairs | generateqos.py:133 | definition: `itertools.combinations(s, 2)`; pinned down by PairsAreOrderedPairs and PairsCount |
| LatencyPolicy.InterRoleLatency | generateqos.py:154-171 | definition: the value declared under either order of the pair key, an error when both are; pinned down by InterRoleCases and InterRoleSymmetric |
| LatencyPolicy.Visits | generateqos.py:175-190 | definition: the slots get_all_latencies writes, in order, with the marks it assigns; pinned down by VisitsLength, VisitAt and VisitsIncreasing |
| LatencyPolicy.Overwrite | generateqos.py:179-189 | definition: dictionary assignment repeated over the visits, a later one overwriting an earlier one; pinned down by OverwriteKeys and OverwriteLast |
| LatencyPolicy.MarkTable | generateqos.py:174-191 | definition: the value-to-mark table; pinned down by MarkTableKeys, MarkTableBoundsAndInjective and MarkOfDefault/MarkOfIntra/MarkOfInter |
| Resolver.Latency | generateqos.py:204-226 | definition: get_latency, none for an own address, otherwise the inventory lookups followed by Choose; pinned down by NoSelfShaping, Precedence, ResolvedShaping and MarkNeverMissing |
| Resolver.Choose | generateqos.py:213-226 | definition: the policy half of get_latency; pinned down by ChoosePrecedence |
| ScriptPlan.RemoteIps | generateqos.py:239-243 | definition: the addresses of every other group, group after group; pinned down by RemoteIpsMembers |
| ScriptPlan.Targets | generateqos.py:239-245 | definition: the remote addresses followed by the VIPs; pinned down by TargetsMembers |
| ScriptPlan.Traced | generateqos.py:250-252 | definition: get_latency, then the lookups the debug line makes; pinned down by TracedIsLatency and IpRoleAfterLatency |
| ScriptPlan.Collect | generateqos.py:248-254 | definition: the inner loop storing each resolved rule under its address; pinned down by CollectTable |
| ScriptPlan.ResolveAll | generateqos.py:248-254 | definition: the latency table of one host; pinned down by ResolveAllTable |
| ScriptPlan.PlanFor | generateqos.py:236-268 | definition: the bundle of one host; pinned down by PlanForOtherHosts and PlanForLatencies, with PlanForFields as the proof step that unfolds it |
| ScriptPlan.Gather | generateqos.py:233-272 | definition: the outer loop, skipping unshaped hosts and stopping at the first failing bundle; pinned down by GatherFails, GatherHosts and GatherBundles |
| ScriptPlan.HostPlans | generateqos.py:229-272 | definition: generate_latencies' bundles; pinned down by HostPlansCover and HostPlansFail |
| ScriptPlan.Distribution | generateqos.py:277-281 | definition: each shaped group mapped to its `ctlplane` address; pinned down by DistributionTable |
| ScriptPlan.DistributionHosts | generateqos.py:274-283 | definition: generate_distribution_script's `hosts` map; pinned down by DistributionCovers |
| Strings.StartsWith | generateqos.py:234 | definition: `str.startswith` |
| Strings.Join | generateqos.py:265 | definition: `" ".join(ips)`, the items separated by the separator |
| Documents.WellFormed | generateqos.py:36-130 | definition: what the queries index into without a KeyError or IndexError: distinct names; vars, and a `<net>_ip` for each enabled network, on every host group with one host; role children that are host groups; an `overcloud` group whose variables, if any, are all scalars; and a non-empty `Controller` when there are VIPs |
| InventoryModel.Owners | generateqos.py:64-67 | definition: the host groups, in order, whose addresses hold the address; pinned down by OwnersFilter |
| LatencyPolicy.RoleText | generateqos.py:158-159 | definition: `"%s"` of a role, `None` for a missing one; used through PairKey |
| LatencyPolicy.PairKey | generateqos.py:158-159 | definition: the key `"%s_%s" % (role1, role2)`; pinned down by InterRoleCases and InterRoleSymmetric |
| LatencyPolicy.Connection | generateqos.py:161-164 | definition: the values of the entries under either key, in order; pinned down by ConnectionSymmetric and ConnectionCount |
| LatencyPolicy.StartMarks | generateqos.py:175-180 | definition: the table before the sections' loops, the default alone at 10; pinned down by MarksEnd |
| LatencyPolicy.Stored | generateqos.py:181-190 | definition: one section's loop, storing each value at the next mark; pinned down by StoredStep, OverwriteEntries and MarksEnd |
| Strings.LexLe | generateqos.py:61 | definition: the string order `sorted` uses; pinned down by LexLeReflexive, LexLeTotal, LexLeTransitive and LexLeAntisymmetric |
| ScriptPlan.Shaped | generateqos.py:234 | definition: not `startswith('undercloud')`, tested at lines 234 and 279; pinned down by ShapedOnly, HostPlansCover and DistributionTable |
| InventoryModel.HostsStop | generateqos.py:47-53 | proof step: an error on a prefix of the groups is the error of the whole loop |
| InventoryModel.RolesContainingStep | generateqos.py:91-93 | proof step: one more role of the loop: its error, or the role appended exactly when it holds the host |
| InventoryModel.RolesContainingStop | generateqos.py:91-93 | proof step: an error on a prefix of the roles is the error of the whole loop |
| InventoryModel.NetworkIpsStep | generateqos.py:117-119 | proof step: one more network adds its address unless already there |
| LatencyPolicy.OverwriteStep | generateqos.py:182-189 | proof step: one more visit overwrites one entry |
| LatencyPolicy.VisitsLength | generateqos.py:177-190 | proof step: one visit for the default, if any, and one for each entry |
| LatencyPolicy.VisitAt | generateqos.py:175-190 | proof step: the k-th visit is the default, an intra-role entry or an inter-role entry, with mark 11 + k less the default's slot |
| LatencyPolicy.StoredStep | generateqos.py:182-190 | proof step: one more entry of a section stores its value at the next mark |
| LatencyPolicy.OverwriteEntries | generateqos.py:181-190 | proof step: storing a section after earlier visits is storing it into the table they leave |
| Resolver.LatencySteps | generateqos.py:208-226 | proof step: for a remote address, get_latency succeeds only when all its lookups do, and then it is the policy decision on their results |
| ScriptPlan.RemoteIpsStep | generateqos.py:240-243 | proof step: one more other group adds its addresses |
| ScriptPlan.CollectStepErr | generateqos.py:250-252 | proof step: a failing address ends the inner loop with its error |
| ScriptPlan.CollectStepOk | generateqos.py:253-254 | proof step: an address with a rule is stored under that address |
| ScriptPlan.CollectStop | generateqos.py:249-254 | proof step: an error on a prefix of the addresses is the error of the whole loop |
| ScriptPlan.TracedOk | generateqos.py:250-252 | proof step: when the debug line succeeds it does not change get_latency's result |
| ScriptPlan.PlanForHost | generateqos.py:263 | proof step: a bundle names its own host |
| ScriptPlan.PlanForFields | generateqos.py:258-268 | proof step: the bundle's `host`, `all_ips` (remote then own), `other_ips` (space-joined), `other_hosts`, `latencies` and `all_latencies`; it fails exactly when its latency table does |
| ScriptPlan.CandidateAt | generateqos.py:233-235 | proof step: the i-th candidate of the pass is the i-th host with its bundle |
| ScriptPlan.GatherStepAt | generateqos.py:233-235 | proof step: one more host of the pass: skipped when unshaped, its error, or its bundle appended |
| ScriptPlan.GatherStop | generateqos.py:233-272 | proof step: an error at one host is the error of the whole pass |
| ScriptPlan.CandidatesOwn | generateqos.py:233-263 | proof step: every candidate's bundle names its own host, and the candidates follow the host order |
| ScriptPlan.BundleHostsAppend | generateqos.py:263 | proof step: appending a bundle appends its host |
| ScriptPlan.DistributionStep | generateqos.py:278-281 | proof step: one more group: added with its control-plane address when shaped |
| InventoryModel.RoleNameHasHosts | generateqos.py:84 | proof step: under WellFormed, every child of a role is a host group, so the lookup of line 86 never misses |
| InventoryModel.HostGroupsHaveVars | generateqos.py:65-66 | proof step: under WellFormed, once get_hosts succeeds every host group has vars, so get_host_ips never misses |
| Documents.GroupShape | generateqos.py:21-130 | proof step: every group of a well-formed inventory has the shape the queries expect |
| Documents.KeysAppend | generateqos.py:38 | proof step: appending an entry appends its key |

## Left out

- YAML loading is not modelled. The two documents are constructor parameters, already parsed. A parse error, which the source prints and then ignores, is not modelled either.
- Logging output is not modelled. The arguments the debug line of the inner loop (generateqos.py:251-252) evaluates are kept, since those lookups can raise.
- Template rendering with jinja2, file writes, `chmod`, the output directory, `generate()` and the command line are left out. They are I/O; the model stops at the data handed to the renderer.
- Python's dict and set iteration order is modelled as document order. This covers the order of hosts, of `other_hosts`, of the addresses of get_host_ips (a set in the source, here a duplicate-free list in network order), and of the keys of every map.
- Partial output is not modelled: the scripts written for earlier hosts before a later host raises. The model returns only the error.
- The texts of error messages are not modelled. Each error keeps the data its message names.
- Some `KeyError` and `IndexError` cases are not modelled as errors: those from a missing `children` or `overcloud` entry, a single-host group's missing `vars` or `<net>_ip` entry, a role child that is not a host group, or an empty `Controller`. The `WellFormed` predicate on the inventory rules them out. The one other `KeyError` of the core, get_mark's lookup (generateqos.py:196), is modelled as the `UnknownLatency` error.
- An inventory with a role group that lacks `children`, or with no `overcloud` group, is outside the model even when a group with several hosts makes get_hosts raise `HostCount` first (generateqos.py:52). This matters for generate_latencies and generate_distribution_script, and for the class as a whole. get_role_hosts reads `children` before it calls get_hosts (generateqos.py:84-85), and get_all_vips reads `overcloud` without calling it (generateqos.py:75). Those two `KeyError`s would have to be modelled as errors before the two requirements could be dropped.
- InventoryModel.HostIps, InventoryModel.HostIpOnNetwork and GenerateQos.Inventory.GetHostIps are asked only of host groups with exactly one host. These are the only groups the source asks, since it calls them on the keys of a successful get_hosts. get_host_ips on a group with several hosts is not modelled.
- A YAML `None` in place of a mapping or a list is not modelled: every value has the right kind.
- LatencyPolicy.IntraRoleLatency, InventoryModel.HostIpOnNetwork and `get_default_latency` are modelled as functions, not class methods. They are single lookups with no loop. `get_default_latency` is the policy's `default` field.
- An absent `IntraRoleLatency` or `InterRoleLatency` section is modelled as an empty one. Every query treats the two alike.
- get_ip_host and get_ip_role send every VIP to `Controller`, whatever host holds the address. The model follows the code here: get_ip_host gives the least child of `Controller` in sorted order, and get_ip_role gives the literal role `Controller`.
- An inter-role key is matched on its text, as `"%s_%s"` builds it. A missing role prints as `None`, so `None_Compute` is a valid key.
- get_roles_connections: the `if i:` test of line 136 is always true for a pair, so every pair is kept.
- get_latency's `all_hosts` (line 209) is only computed for its possible error. The model checks that error, then drops the value.
