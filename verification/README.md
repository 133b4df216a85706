# Verification of network-utils

A Dafny model of the decisions that network-utils makes, and proofs about them. `dafny verify dfyconfig.toml` checks everything.

## What is modelled

**Firewall.** `Ruleset` is the nftables connection: reads see the kernel's ruleset, edits wait in a queue, and a flush applies the
queue as one batch or not at all. `NewChain`, `AddJumpRule`, `NewRules`, `AddRules` and the configure-bridge command are methods on it, with every call
allowed to fail. `PacketFilter` gives a ruleset its meaning: a register machine for the expressions the builders emit (offsets as in section 3.1
of RFC 791, section 3.1 of RFC 9293 and RFC 768), chains that run rules in order, call user chains and return, and base chains that end in a
policy. Expressions that no builder emits mean whatever an arbitrary function `env` says, so each theorem holds whatever other tools put in the
chains. `RulePrograms` says exactly which packets a built rule matches; `RulesetEffects`, `RulesetRuns` and
`RulesetUniqueness` say what the edits do to every packet and what every sequence of calls keeps; `ConfigureBridge` is the end-to-end theorem.

**Links and namespaces.** `Links.World` holds links keyed by namespace and name, veth pairs whose ends die together, routes, named
namespaces, open handles, the thread's namespace and its lock depth; a namespace that nothing keeps goes away with its links. Each call may fail without
effect; ghost counters remember whether a deletion or the way back to a namespace failed, so that theorems can say which failures they assume
away. `Ifc`, `Namespace` and `Network` are the provisioning code with its roll-back.

**DNS.** `DnsSame` and `DnsHandler` are the list comparison, the system resolver and the failover loop. `DnsPipeline` has the file watcher,
the unbuffered channel and the storing goroutine as steps that interleave in any order; `DnsFailover` links it to what a client gets.

**Lifecycles.** `ManagedForwarder` and `DefaultInterface` are the two event loops, with a nondeterministic `select`: a tick or an update may still be taken after cancellation.

**Addresses.** `Address` has the carry loop, subnet membership (section 3.1 of RFC 4632) and the range check.

The event loops are given twice: as methods that update the loop's variables, and as step functions, about which the theorems
over all runs are proved; each method is proved to do what its step says.

### Assumptions

- Table names are unique, and chain names are unique across tables: the code looks both up by name only.
- The kernel refuses call cycles and jumps to base chains; theorems take this as `WellFormed`, for any ranking of the chains.
- A flush applies all of the queue or none; the queue is empty afterwards either way. A batch that the kernel does not take counts as a fault.
- A rule may start from any register contents. Rules do not change the packet.
- No rule in the kernel sets an interface name, and a rule that writes packet bytes loads no register by it (`AllLoadable`).
- In the theorems of `DnsFailover` and in `SuppressionIsHarmless`, each server's answer depends on its address only. All exchanges of a request share one deadline, so a server that
  never answers can leave no time for those after it; where that happens, order can decide between success and SERVFAIL.
- Interface names have fewer than 16 bytes and no NUL byte.
- `NewNamed` moves the thread only when it succeeds, and each library call has one point at which it can fail, before it has any effect.

### Where the code does less than one might expect

- Retrying `AddRules` after a read failed leaves duplicates whenever some rule before the failure was not installed yet: it is still queued
  (`RetryDupFreeExactly`, `RetryAfterFailedReadDuplicates`).
- A bridge or tap that existed before the call is deleted when a later step fails; roll-back theorems are about names that were absent. When only switching
  offloading off fails, the bridge stays although an error is returned (`CreateBridgeWithManager`).
- A link that already has the IPv4 address is left as it is, also when it is down or still offloads, and whatever its kind (`BridgeMeetsExactly`,
  `BridgeLeftDown`); a device that exists is only brought up, whatever its kind and master (`TapMeetsExactly`, `TapLeftAlone`).
- A network is an interval of addresses only when its mask is contiguous (`IntervalExactly`); the range check does not look at the mask.
- The address after ::fffe:ffff:ffff is never found usable, because the membership test takes it for an IPv4 address (`FirstUsableExactly`, `NextIsTakenForIPv4`).
- A reordered list of servers is not passed on. As long as each server's answer depends on its address only, the kind of
  answer is unaffected and the code of a negative answer is affected exactly when servers decline with different codes
  and none succeeds (`CodeIsKeptExactly`, `ReorderingChangesTheCode`).
- When the watcher has ended and its last record is stored, the handler's list is nil and every request that the system resolver does not answer fails
  (`NilExactlyAtTheEnd`, `SuppressionIsHarmless`).

## Model

| member | source | states |
|---|---|---|
| Exprs.CompareExprs | src/utils/network/firewall/rules.go:65-77 | true exactly when the programs have one length and all expressions compare equal |
| Exprs.EqualExprsIsEquivalence | src/utils/network/firewall/rules.go:65-131 | always symmetric and transitive; reflexive if and only if the program uses only the seven known kinds |
| Exprs.ExprEqualExactly | src/utils/network/firewall/rules.go:79-131 | two expressions compare equal exactly when they are of a known kind and agree in every field but the skipped ones |
| RulePrograms.EqualMeansSameEffect | src/utils/network/firewall/rules.go:79-131 | an installed rule that compares equal to a built one does the same to every packet, although fields are skipped |
| RulePrograms.ProgramsAreTerminal | src/utils/network/firewall/forward.go:24-35 | every built rule decides the packet or falls through, never jumps, and compares equal to itself |
| RulePrograms.NameCompareExact | src/utils/network/firewall/forward.go:25-32 | comparing with the terminator matches whole names, not prefixes, from any register contents |
| RulePrograms.OutboundExact | src/utils/network/firewall/forward.go:24-35 | accepts exactly the packets from the internal to the host interface |
| RulePrograms.ReturnMirrorsOutbound | src/utils/network/firewall/forward.go:56-67 | matches a packet exactly when the outbound rule matches it with the interfaces swapped |
| RulePrograms.MasqueradeExact | src/utils/network/firewall/masquerade.go:24-31 | masquerades exactly the packets that leave through the named interface |
| RulePrograms.HtonsDecodes | src/utils/network/firewall/port.go:24-26 | two bytes are the encoding of a port exactly when they decode to it |
| RulePrograms.PortExact | src/utils/network/firewall/port.go:41-76 | for every port and protocol, from any registers: accepts exactly when the protocol byte and the decoded destination port agree and the loaded header bytes are there |
| RulePrograms.PortRuleAccepts | src/utils/network/firewall/port.go:12-76 | in numbers: the udp rule accepts exactly protocol 17, the tcp rule protocol 6, with the port in bytes 2 and 3 of the transport header |
| RulePrograms.BigEndianIsTimes256 | src/utils/network/firewall/port.go:24-26 | the port decoded is the high byte times 256 plus the low byte |
| RulePrograms.BuildersMatch | src/utils/network/firewall/forward.go:11-73 | each builder makes the rule of its name |
| Ruleset.NewChain | src/utils/network/firewall/chain.go:25-89 | finds by name or creates; state after success and failure, and exactly when it succeeds if no call fails |
| RulesetEffects.EnsuredChain | src/utils/network/firewall/chain.go:56-82 | a missing chain is created empty in the named table with the policy, after flushing what was queued; one that is there changes nothing |
| Ruleset.AddJumpRule | src/utils/network/firewall/jump.go:13-67 | both chains exist and the jump is at the head unless there was one; where an early return can stop; success when no call fails |
| Ruleset.Rules.Build | src/utils/network/firewall/forward.go:12-40 | a builder appends one rule for a chain that exists, or fails and changes nothing |
| Ruleset.NewRules | src/utils/network/firewall/rules.go:19-27 | all rules in order, or an error; the connection is only read |
| Ruleset.AddRules | src/utils/network/firewall/rules.go:29-52 | appends the rules that no installed rule equals, after what was queued; a failed read leaves the earlier ones queued; exactly when it succeeds |
| PacketFilter.DepthSuffices | src/utils/network/firewall/jump.go:52-66 | with an acyclic call graph evaluation ends, and extra depth changes nothing |
| PacketFilter.Frame | src/utils/network/firewall/jump.go:52-66 | a chain's outcome depends only on the chains it can reach |
| PacketFilter.VerdictsDecide | src/utils/network/firewall/jump.go:52-66 | a chain that begins with accept, drop or return ends so; a jump to a chain without rules goes on, a goto returns; the policy stands in for a missing decision |
| RulesetEffects.JumpTransparency | src/utils/network/firewall/jump.go:47-66 | for every packet and every content of the from-chain: the to-chain's decision if it makes one, else the from-chain's earlier outcome |
| RulesetEffects.AddJumpRulePrecedence | src/utils/network/firewall/jump.go:13-67 | the same for the whole operation, with any leftover queue and any call depth |
| RulesetEffects.AddJumpRuleMeans | src/utils/network/firewall/jump.go:37-66 | with a jump to that very chain anywhere in the from-chain the rules stay; else a jump to it is put before them; after success there is one |
| RulesetEffects.AddJumpRuleVerdict | src/utils/network/firewall/jump.go:13-67 | with depth enough for the call graph: a base chain's verdict is the to-chain's decision if it makes one, else the verdict from before |
| RulesetEffects.FreshJumpHarmless | src/utils/network/firewall/jump.go:52-66 | a jump to a chain without rules changes no packet's outcome in any chain |
| RulesetEffects.AddJumpRuleToNewChain | src/utils/network/firewall/jump.go:23-66 | when the to-chain has to be created, the operation changes no packet's ending and no verdict in any chain, also when it creates the from-chain and whatever was queued |
| RulesetEffects.DedupRefinesAppend | src/utils/network/firewall/rules.go:32-51 | for any kernel and leftover queue, every chain ends on every packet as if the whole batch had been appended |
| RulesetEffects.DedupKeepsVerdicts | src/utils/network/firewall/rules.go:32-51 | the same for the verdict of packets entering a base chain |
| RulesetRuns.RunKeepsOrder | src/utils/network/firewall/rules.go:32-51 | over every sequence of calls, failed ones included: earlier rules stay together and in order, with only jumps put before them |
| RulesetRuns.RunKeepsSingleJumps | src/utils/network/firewall/jump.go:37-66 | over every sequence of calls: at most one jump per pair of chains if that held at the start |
| RulesetRuns.CallsMakeRuns | src/utils/network/firewall/rules.go:29-52 | whatever outcome a call has, with or without failure, it extends the runs that the theorems speak of |
| RulesetUniqueness.AddRulesIdempotent | src/utils/network/firewall/rules.go:32-51 | repeating a successful call changes nothing |
| RulesetUniqueness.AddRulesDupFreeExactly | src/utils/network/firewall/rules.go:38-51 | from any state, whatever is queued: chains are duplicate-free afterwards if and only if flushing the queue alone leaves them so, what the batch adds is so, and none of it equals a rule there |
| RulesetUniqueness.RetryDupFreeExactly | src/utils/network/firewall/rules.go:32-51 | for every batch and every point of failure: retrying after a failed read leaves chains duplicate-free if and only if all rules before the failure were installed and the call would have left them so without the failure |
| RulesetUniqueness.RetryAfterFailedReadDuplicates | src/utils/network/firewall/rules.go:33-36 | the shortest retry that puts a rule in twice |
| RulesetUniqueness.RunStaysDupFree | src/utils/network/firewall/rules.go:29-52 | over every run of calls with empty queues and pairwise unequal batches, chains stay duplicate-free |
| ConfigureBridge.Configure | cmd/configureBridge.go:15-54 | the state after success, where each early return stops, and success from untouched chains when no call fails |
| ConfigureBridge.ConfigureBridgeVerdicts | cmd/configureBridge.go:29-53 | in names and numbers: FORWARD accepts bridge traffic both ways, INPUT accepts IPv4 protocols 6 and 17 to ports 53, 67 and 68, whatever rules were there; every other packet keeps its verdict |
| ConfigureBridge.ConfigureBridgePlaces | cmd/configureBridge.go:29-47 | one jump each at the head of FORWARD and INPUT, to chains of the same name with the prefix, with two and six rules |
| ConfigureBridge.FreshFirewall | cmd/configureBridge.go:29-53 | the kernel with just the three base chains meets what the theorems ask for, with any non-empty prefix |
| ConfigureBridge.FailedConfigureChangesNoVerdict | cmd/configureBridge.go:29-53 | a run that fails anywhere changes the fate of no packet in any chain |
| ConfigureBridge.ConfigureTwice | cmd/configureBridge.go:29-53 | a second run changes nothing |
| ConfigureBridge.RerunAfterFailure | cmd/configureBridge.go:29-53 | a run that fails anywhere, followed by a successful one with a fresh connection, ends exactly where one successful run ends |
| Links.World.AddLink | src/utils/network/ifc/netlink.go:16-35 | adds a link that is down and without addresses, reports one that exists, or fails without effect |
| Links.World.SetIP | src/utils/network/ifc/netlink.go:37-45 | the address is there afterwards and nothing else changed; fails only on a fault or an absent link |
| Links.WithAddrKeeps | src/utils/network/ifc/netlink.go:37-45 | setting an address keeps the link's other addresses and everything else |
| Links.World.Exists | src/utils/network/ifc/netlink.go:47-56 | tells an absent link from a failed look-up |
| Links.World.SetMaster | src/utils/network/ifc/netlink.go:58-68 | needs both links; changes one link's master only |
| Links.World.BringUp | src/utils/network/ifc/netlink.go:70-76 | the link is up and nothing else changed |
| Links.World.HasIP | src/utils/network/ifc/netlink.go:78-93 | true exactly when the link has that IPv4 address with that mask |
| Links.World.DeleteLink | src/utils/network/ifc/netlink.go:95-104 | the link and its veth peer are gone with their routes; an absent link counts as deleted |
| Links.World.SetDefaultRoute | src/utils/network/network/route.go:12-24 | replaces the namespace's default route, needs the link |
| Links.AddThenRemove | src/utils/network/ifc/netlink.go:95-104 | deleting a link that was added restores the whole table, whatever was set on it |
| Links.World.DisableTxOffloading | src/utils/network/ifc/netlink.go:106-109 | offloading is off on that link and nothing else changed; fails only on a fault or an absent link |
| Ifc.CreateBridgeWithManager | src/utils/network/ifc/bridge.go:14-60 | the exact link table for every outcome: success leaves a link that has the IPv4 address untouched and otherwise gives the link, new or there before, the address, up, and offloading off if asked; for a new name and with working deletion an error leaves the table as it was if and only if it is not the one about offloading; at most the link itself changes or goes away; succeeds when no call fails |
| Ifc.BridgeMeetsExactly | src/utils/network/ifc/bridge.go:24-59 | success is an addressed, up bridge, not offloading if asked, if and only if the link is new or a bridge that, in case it has the IPv4 address already, is up and not offloading |
| Ifc.BridgeLeftDown | src/utils/network/ifc/bridge.go:29-36 | the input: a bridge that is down and has the address stays down although creating it succeeds |
| Ifc.BridgeRepeatable | src/utils/network/ifc/bridge.go:24-59 | creating the same bridge again leaves the table as it is |
| Ifc.CreateTapWithManager | src/utils/network/ifc/tap.go:10-36 | the exact link table for every outcome: success brings up a device that was there and otherwise adds one that is up and under the bridge; for a new name and with working deletion every error leaves the table as it was; at most the link itself changes or goes away |
| Ifc.TapMeetsExactly | src/utils/network/ifc/tap.go:15-32 | success is an up tap device under the bridge if and only if the device is new or a tap device under that bridge already |
| Ifc.TapLeftAlone | src/utils/network/ifc/tap.go:15-25 | the input: a tap device under no bridge stays under none although creating it succeeds |
| Namespace.SwitchToNamespace | src/utils/network/network/namespace.go:13-37 | inside the namespace with one handle and one lock more, or exactly as before |
| Namespace.SwitchBack | src/utils/network/network/namespace.go:39-47 | handle closed and lock released on every path; back in the first namespace unless that very call fails |
| Namespace.CreateNamespace | src/utils/network/network/namespace.go:50-84 | lock depth as at entry on every path; the handle returned is the only one left open; back in the first namespace unless the way back fails |
| Network.Execute | src/utils/network/network/network_linux.go:51-59 | for code built from the forms of Fn, nested calls and the set-up closure included: lock depth and handles as at entry, and the thread back in its namespace unless the way back fails; when no call fails, exactly the code's effect on the links, in the named namespace, and its result |
| Network.EffectLaws | src/utils/network/network/network_linux.go:51-59 | the effect of code: steps in sequence stop at the first failure, a nested call runs in its own namespace or fails without effect |
| Network.ConfigureInside | src/utils/network/network/network_linux.go:137-159 | addressed, up bridge, inner end up and enslaved, default route; links and routes of other namespaces untouched on every path, unless a link of the bridge's name was there with a veth peer in another namespace |
| Network.Destroy | src/utils/network/network/network_linux.go:37-49 | makes both deletions, the second also when the first fails, and fails exactly when one did or the name is not there; the veth pair, the name and, if nothing keeps it, the namespace are gone |
| Network.Validate | src/utils/network/network/config.go:57-87 | done exactly for an acceptable configuration |
| Network.AcceptedExactly | src/utils/network/network/config.go:57-87 | acceptable exactly with a name, all parts, and both addresses in the subnet |
| Network.HostGone | src/utils/network/network/network_linux.go:37-42 | deleting the host end takes the inner end too and leaves the other namespaces as before the network |
| Network.RoutesStay | src/utils/network/network/network_linux.go:37-49 | routes of other namespaces survive the clean-up |
| Network.ReapRestores | src/utils/network/network/network_linux.go:44-49 | once nobody keeps the namespace the link table is what it was before the network |
| Network.NewNetwork | src/utils/network/network/network_linux.go:85-165 | all or nothing: success gives exactly the old links and the four parts of the network, failure gives links, routes and names as at entry when the clean-up works; handles and lock depth as at entry always; success when no call fails |
| Network.NetworkInBytes | src/utils/network/network/network_linux.go:108-159 | in the configuration's own bytes, IPv4 short or mapped and IPv6: the host end has exactly the gateway's address, the bridge exactly the bridge's, all up, the inner end under the bridge, other links as they were; needs a contiguous mask |
| Network.DestroyUndoesSetUp | src/utils/network/network/network_linux.go:37-49 | destroying a network that was set up restores links and routes |
| DnsSame.Same | src/utils/network/dns/util.go:3-21 | true exactly when the lists are equal as multisets |
| DnsHandler.ResolveViaSystem | src/utils/network/dns/handler.go:34-102 | no reply exactly for other question counts and types, failed or empty look-ups; otherwise a reply to the request with one record per parsed address of the asked family |
| DnsHandler.SystemReplyMeans | src/utils/network/dns/handler.go:34-102 | the reply in numbers: types 1 and 28, code 0, the request's id, opcode and question, 60 seconds, four address bytes for A and the address for AAAA |
| DnsHandler.ParsedExactly | src/utils/network/dns/handler.go:64-68 | the addresses that count are those whose text parses |
| DnsHandler.FamiliesPartition | src/utils/network/dns/handler.go:64-91 | A and AAAA answers split the parsed addresses between them |
| DnsHandler.FamilyInOrder | src/utils/network/dns/handler.go:64-91 | answers keep the order of the addresses |
| DnsHandler.FamilyIsOne | src/utils/network/dns/handler.go:64-91 | exactly the addresses of the asked family are answered |
| DnsHandler.FamilyInBytes | src/utils/network/dns/handler.go:70-89 | IPv4, written short or mapped, is one family and everything else the other |
| DnsHandler.Handler.ServeDNS | src/utils/network/dns/handler.go:104-166 | one message written per request: the system's if there is one, without asking any server; else the first success, asking only the servers up to it; else the last message; else SERVFAIL |
| DnsHandler.ServedMeans | src/utils/network/dns/handler.go:132-165 | in numbers: no server is asked after one whose message has code 0, which is the answer; else the last message; without any, a reply to the request with code 2 and no answers |
| DnsFailover.ChosenHasClass | src/utils/network/dns/handler.go:132-165 | the client gets success exactly when some server succeeds, a server's negative message when one only declines, SERVFAIL when none answers |
| DnsFailover.ClassInNumbers | src/utils/network/dns/handler.go:132-165 | code 0 exactly when some server answers so, else some server's message, else code 2 |
| DnsFailover.SameServersSameClass | src/utils/network/dns/util.go:3-21 | lists that are equal as multisets have the same class of outcome |
| DnsFailover.ReorderedServersAgree | src/utils/network/dns/resolvconf.go:77-83 | requests served from two such lists, each server answering by its address, agree on success, negative answer or SERVFAIL |
| DnsFailover.CodeIsKeptExactly | src/utils/network/dns/handler.go:132-165 | for every list and every way its servers answer: all reorderings give the client the same code if and only if some server succeeds, or none answers, or all that answer return the same code |
| DnsFailover.ReorderingChangesTheCode | src/utils/network/dns/handler.go:147-159 | the shortest list whose order decides the code: two servers that decline with different codes |
| DnsPipeline.ReadUpstreams | src/utils/network/dns/resolvconf.go:24-36 | host and port joined for each server in order; an empty, non-nil list when the file does not parse |
| DnsPipeline.Pipeline.constructor | src/utils/network/dns/resolver.go:88-98 | static servers are stored at once and nothing is watched; otherwise nothing is stored and the watcher starts |
| DnsPipeline.Pipeline.OnFileChange | src/utils/network/dns/resolvconf.go:77-83 | sends what was read unless it only reorders what was sent last |
| DnsPipeline.Pipeline.Execute | src/utils/network/dns/resolvconf.go:54-100 | any interleaving of the two goroutines is a run of the step function |
| DnsPipeline.SeenIsFileReads | src/utils/network/dns/resolvconf.go:61-83 | the history of reads that the theorems speak of is that of the run's own events |
| DnsPipeline.CurrentStep | src/utils/network/dns/resolvconf.go:77-83 | comparing with the list sent last is the same as comparing with the list read last |
| DnsPipeline.ChannelCarriesTheReads | src/utils/network/dns/resolvconf.go:54-100 | over every interleaving: stored is a prefix of received, received of sent, and sent is what the run reads from the file without repetitions, then one nil record at the end |
| DnsPipeline.StoredFollowsTheFile | src/utils/network/dns/resolver.go:23-31 | over every interleaving: when the watcher waits and the consumer has caught up, the stored list is a permutation of the run's last read of the file |
| DnsPipeline.ChangeReachesTheHandler | src/utils/network/dns/resolvconf.go:68-83 | from every caught-up point a change of the file can be noticed and is stored two steps later; a reordering changes nothing |
| DnsPipeline.FirstReadReachesTheHandler | src/utils/network/dns/resolvconf.go:61-64 | the first contents of the file reach the handler |
| DnsPipeline.EndReachesTheHandler | src/utils/network/dns/resolvconf.go:92-97 | from every caught-up point the watcher can end, and its last record is stored two steps later |
| DnsPipeline.StaticServersStay | src/utils/network/dns/resolver.go:88-98 | with static servers every run leaves the list as it is |
| DnsPipeline.NilExactlyAtTheEnd | src/utils/network/dns/resolver.go:23-31 | over every interleaving: the stored list is nil exactly when the last record has been stored, after all reads |
| DnsPipeline.SuppressionIsHarmless | src/utils/network/dns/resolvconf.go:77-83 | over every interleaving, each server answering by its address: once caught up, the message a client is served from the stored list is in the class of the run's last read, with code 0 exactly when one of its servers gives that; from when the last record is stored the code is 2 |
| DnsPipeline.InternalStepsEnd | src/utils/network/dns/resolvconf.go:54-100 | between outside events only finitely many steps happen |
| DnsPipeline.NeverStuck | src/utils/network/dns/resolver.go:23-31 | the goroutines come to rest only caught up or both ended |
| ManagedForwarder.Manager.TakeTick | src/utils/network/dns/managed.go:73-98 | starts a forwarder when none runs and probe, factory and serve succeed; stops the running one when the probe fails; otherwise changes nothing |
| ManagedForwarder.Manager.Loop | src/utils/network/dns/managed.go:59-101 | the loop's state after any order of events is the run of the step function |
| ManagedForwarder.EveryForwarderIsStopped | src/utils/network/dns/managed.go:50-101 | over every run: serves minus stops is 0 or 1 and equals whether one is held, none is stopped twice, and once done is closed each one served was stopped once |
| ManagedForwarder.ServesAreStarts | src/utils/network/dns/managed.go:73-98 | forwarders are served exactly on the ticks that can start one while none is kept: none beside another, none restarted |
| ManagedForwarder.LoopGoesOn | src/utils/network/dns/managed.go:66-73 | until the loop has returned a tick can be taken, also after cancellation, and it can be cancelled and return |
| ManagedForwarder.DoneMeansCancelled | src/utils/network/dns/managed.go:50-72 | done closes only after cancellation |
| ManagedForwarder.RunsExactlyWhileInterfaceIsThere | src/utils/network/dns/managed.go:73-98 | a forwarder runs exactly when some tick could start one and every probe since succeeded |
| DefaultInterface.GetDefaultInterface | src/utils/network/ifc/default.go:18-34 | the first default route whose link is found; an error exactly when there is none |
| DefaultInterface.DefaultExactly | src/utils/network/ifc/default.go:25 | a default route has the mask of four zero bytes and destination 0.0.0.0, short or mapped, or :: |
| DefaultInterface.Subscription.OnUpdate | src/utils/network/ifc/default.go:80-99 | a failed look-up counts as no interface; a change is sent, a repetition is not |
| DefaultInterface.Subscription.Execute | src/utils/network/ifc/default.go:62-105 | any interleaving of goroutine and subscriber is a run of the step function |
| DefaultInterface.SubscriberSeesTheChanges | src/utils/network/ifc/default.go:48-105 | over every run: received and buffered values are the interfaces that the run's look-ups find, without repetitions, at most the last missing; at the main select the last one sent is the one found last; a failed first look-up sends nothing; nothing is sent after the channel is closed |
| DefaultInterface.ObservedIsFound | src/utils/network/ifc/default.go:65-92 | the history that the theorems speak of is what the run's own events find: a failed later look-up is no interface |
| DefaultInterface.ChangeIsDelivered | src/utils/network/ifc/default.go:80-99 | from every point at rest an update can be noticed; a change is received two steps later, a repetition changes nothing |
| DefaultInterface.FirstIsDelivered | src/utils/network/ifc/default.go:65-76 | the first interface found is received |
| DefaultInterface.DestutterHasNoRepeats | src/utils/network/ifc/default.go:86-98 | neighbouring values sent differ, and the last one is the interface observed last |
| Address.IncrementIP | src/utils/network/address/ip.go:23-32 | a fresh address one higher; the argument is unchanged |
| Address.IncrementAddsOne | src/utils/network/address/ip.go:23-32 | adds one to the number the bytes stand for, modulo 256 to the length |
| Address.GetFirstUsableIP | src/utils/network/address/ip.go:10-21 | the next address when the network contains it; None for a nil network |
| Address.IncrementStaysInNetwork | src/utils/network/address/ip.go:15-18 | under a non-empty contiguous mask the next address is in the network exactly when the host bits are not all one |
| Address.ContainsInBytes | src/utils/network/address/ip.go:16-18 | membership from the bytes of number, mask and address, IPv4 short or mapped and IPv6 |
| Address.FirstUsableExactly | src/utils/network/address/ip.go:10-21 | nil exactly when the host bits are all one or the network number is ::fffe:ffff:ffff, for every form of network number and non-empty contiguous mask |
| Address.OnlyBeforeMapped | src/utils/network/address/ip.go:15-18 | of all addresses that are not IPv4-mapped, only ::fffe:ffff:ffff has a mapped one after it |
| Address.NextIsTakenForIPv4 | src/utils/network/address/ip.go:15-18 | the input: ::fffe:ffff:ffff with a mask of 95 bits has a next address in its network, and nil is returned |
| Address.LexIsNumeric | src/utils/network/address/range.go:17-21 | the order of addresses is the order of their numbers |
| Address.WordIsValue | src/utils/network/address/range.go:18-19 | the word made by shifts and ors is the base-256 value |
| Address.ValidRangeExactly | src/utils/network/address/range.go:5-22 | true exactly for two IPv4 addresses in the network in strict order; then, under a contiguous mask, everything between is in the network |
| Address.IntervalExactly | src/utils/network/address/range.go:12-15 | membership is closed under betweenness if and only if the mask is contiguous |

## Left out

- RemoveRules, Disconnect and the old-interface half of ConfigureFirewall: they delete freshly built rules that carry no handle, so their effect is decided by the nftables library, which is not part of this model.
- Connect and the new-interface half of ConfigureFirewall: the same builders and AddRules again.
- CreateTableFromConfig and the standard tables and chains: every theorem starts from a ruleset whose tables exist.
- Rule handles and their 32-bit cast in AddJumpRule: insertion is placing the rule at the head of the chain.
- Evaluation of Ct and Bitwise: no builder emits them; they are data for the comparison and otherwise any behaviour.
- Overlap of the kernel's 4-byte registers with its 16-byte ones: built rules use the 16-byte ones only.
- Rewriting of packets by masquerading: it is a terminal action.
- The way of a packet through several base chains: a verdict is that of one base chain.
- File system events, parsing of resolv.conf, getaddrinfo, parsing of address text, DNS messages beyond the fields shown, sockets and timeouts: parameters or arbitrary results.
- DNSFailoverForwarder.Serve called more than once, the UDP and TCP servers and their shutdown.
- CoreDNS and Caddy start-up, the Corefile, the DHCP server, command-line flags, logging and the option setters.
- Ruleset.NewChain: does not model a chain's type, hook and priority (a base chain is one with a policy), nor return the chain and table, of which callers use only the names they passed.
- Network.Execute: does not model a closure that panics, nor code other than the forms of Fn.
- The text of errors: outcomes tell error kinds apart where the code branches on them.
- Prefix lengths of non-contiguous masks as netlink encodes them: an address keeps its mask as given.
