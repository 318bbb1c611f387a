# A verified model of fqdn-network-policy

fqdn-network-policy is a Kubernetes controller that resolves the hostnames of egress rules and keeps
plain NetworkPolicy objects up to date with the addresses. This project models, in Dafny, what it does
between the Kubernetes API and the DNS wire, and proves properties of that model. Time, resolver
answers, failing API calls, the order in which Go maps are visited and `net.ParseIP` are inputs, so
every result holds for all of them. Methods follow the loops and in-place updates of the source and are
proved against specification functions or relations; lemmas then say what those mean, over single calls
and over whole runs.

`dafny verify dfyconfig.toml` checks everything. The modules, by component:

- Text and addresses: `Strings`, `Addresses`, `Hostnames`.
- Resolution: `MultiResolver` merges upstream answers, `IPFilter` drops disputed and blocked addresses,
  `ResolutionPass` is the loop over the rules, `RuleMeanings` what each of them adds, `TTLQueues` the keyed heap
  that schedules the next cycle.
- Generated objects: `Policies`, `NetPol` (with a denotation: which pods an object governs, and the
  destinations, protocols and ports it allows them), `PortIntent`, `PortRuns`.
- Controllers: `Conditions`, `Reconciler`, `ReconcilerRuns`, `StoredRuns`, `UnsteadyRuns`,
  `ConditionRuns` for namespaced policies; `ClusterReconciler`, `ClusterRuns`, `ClusterRepeats`,
  `ClusterStatusRuns`, `ClusterStoreRuns`, `ClusterConditionRuns` for cluster policies; `CycleMeanings`,
  `RangeRuns`, `AddressedRuns` for both.
- Stores: `IPCaches`, `ChurnTrackers`, `Observations`, `ObservationSync`.
- Profiling: `Profiler`, `ProfilerTheorems`, `Webhook`, `Drift`.

## What turned out to be conditional

Some properties one would expect do not hold of the code. Each is stated with a condition under which it
does hold, exact unless said otherwise, and fails on the inputs named.

- A skipped write. `ipSetsEqual` compares CIDRs only, so a change of ports or of the pod selector alone is
  never written (`UnsteadyRuns.PortChangeNotWritten`, `UnsteadyRuns.SelectorChangeNotWritten`).
  `ReconcilerRuns.Controller.StoredTrafficIff` and `ClusterStoreRuns.ClusterStoredTrafficIff` say exactly when
  the stored object still governs the right pods and allows the right traffic;
  `AddressedRuns.SteadySpecsStayExact` gives runs in which it always does.
- A host without addresses. Consensus can reject every address of a host and the host is still recorded
  (`UnsteadyRuns.ConsensusCanEmptyAHost`). `Build` then emits a rule with no peers, which in Kubernetes
  means any destination, although its comment says it must not allow everything.
  `NetPol.ConfinedIffAddressed` and `ReconcilerRuns.Controller.StoredTrafficSafeIff` give the condition. While
  consensus leaves an address of every answer, as when it is off and no answer is empty, this never happens
  (`AddressedRuns.RecordedHostsHaveAddresses`, `AddressedRuns.StoredStaysOutOfBlockedRanges`).
- A rule without ports means all ports, but ports are pooled over all rules, so one rule's ports restrict
  another (`PortIntent.IntentCoveredIff`, `PortIntent.PortlessRuleRestricted`) and widen it
  (`PortIntent.OnlyDNSAddedIff`, `PortIntent.PooledPortsWiden`).
- Repeating a cluster reconcile is quiet exactly when its failing lookups fall back on the same addresses
  before and after (`ClusterRepeats.RepeatedReconcileIsQuietIff`), as when the lookups of each pattern fail or
  are answered together, which admission ensures (`ClusterRepeats.AdmittedRepeatsQuietly`); otherwise see
  `ClusterRepeats.DuplicatePatternsDrift`.
- A cluster policy's Degraded condition is never reset (`ClusterConditionRuns.DegradedIffEverFrozen`,
  `ClusterConditionRuns.DegradedOutlivesFreeze`).
- Simulating a profiled policy on its own observations never blocks a name that one normalisation settles
  (`ProfilerTheorems.StableNameAllowed`); others, such as `a.b..`, are blocked
  (`ProfilerTheorems.DoubleDotBlocked`). The blocked names are exactly the unsettled ones whenever two
  normalisations settle every name (`ProfilerTheorems.BlockedIffUnstable`); a name that takes more can shield
  another (`ProfilerTheorems.TripleDotShields`).
- A profiled policy is tight, that is, allows only names with the base domain of some observation, exactly
  when the threshold in force is above one or no wildcard over a single label or a listed suffix was observed
  (`ProfilerTheorems.PolicyTightIff` for settled names, `ProfilerTheorems.StarComNotTight`).
- Query counts never exceed the truth but can fall short (`ObservationSync.RecountedQueryLost`);
  `ObservationSync.QueriesConserved` accounts for every lost query.

Where the repository's texts and its code disagree, the model follows the code: a wildcard threshold of
zero does not disable clustering but means three (README.md:248 against synthesizer.go:47); the refresh
queue is said to refresh at the moment a TTL expires (ttl_queue.go:16-17), but its callers never ask for
less than a minute; drift detection is said to match as rules document (drift.go:17-19), yet it compares
texts as they stand while the simulator normalises them (`Drift.DriftIsCaseSensitive`).

## Model

| member | source | states |
|---|---|---|
| TTLQueues.TTLQueue.Upsert | internal/dns/ttl_queue.go:30-40 | For a new or known hostname, moved earlier or later, the queue afterwards represents the same map with that one deadline set; heap order, back-indices and the key index all still hold. |
| TTLQueues.TTLQueue.Move | internal/dns/ttl_queue.go:32-36 | A known hostname's deadline moves in either direction, with no entry created or dropped. |
| TTLQueues.TTLQueue.Add | internal/dns/ttl_queue.go:37-39 | A new hostname gets one fresh entry. |
| TTLQueues.TTLQueue.PeekNext | internal/dns/ttl_queue.go:44-49 | The least deadline of the represented map, or the zero time when it is empty. |
| TTLQueues.TTLQueue.MinDelay | internal/dns/ttl_queue.go:52-62 | The time to the least deadline, never below the floor; the floor when nothing is tracked. |
| TTLQueues.TTLQueue.Less | internal/dns/ttl_queue.go:68-70 | Orders positions by deadline. |
| TTLQueues.TTLQueue.Swap | internal/dns/ttl_queue.go:72-76 | Exchanges two positions and keeps every back-index equal to its position. |
| TTLQueues.TTLQueue.Push | internal/dns/ttl_queue.go:78-82 | Appends the entry with its own position as index. |
| TTLQueues.TTLQueue.Pop | internal/dns/ttl_queue.go:84-91 | Removes the last entry from the list and from the key index alike. |
| TTLQueues.TTLQueue.Up | internal/dns/ttl_queue.go:38-38 | `container/heap` up: a heap whose only doubtful edge leads into one position becomes a heap. |
| TTLQueues.TTLQueue.Down | internal/dns/ttl_queue.go:34-34 | `container/heap` down over a prefix: either the prefix becomes a heap, or nothing moved and only the edge into the start is in doubt. |
| TTLQueues.TTLQueue.Fix | internal/dns/ttl_queue.go:34-34 | `container/heap` Fix: order is restored after one deadline changed to anything. |
| TTLQueues.TTLQueue.HeapPush | internal/dns/ttl_queue.go:38-38 | `container/heap` Push: the heap gains exactly that entry. |
| TTLQueues.TTLQueue.HeapPop | internal/dns/ttl_queue.go:64-91 | `container/heap` Pop: yields an entry whose deadline is least and removes its hostname from the map. |
| TTLQueues.TTLQueue.RootIsEarliest | internal/dns/ttl_queue.go:44-49 | In a valid queue the first item carries the least deadline of the whole map. |
| TTLQueues.Drain | internal/dns/ttl_queue.go:64-91 | Popping a queue until it is empty is a drain of the map it represents. |
| TTLQueues.RootIsLeast | internal/dns/ttl_queue.go:18-21 | In any heap no deadline is below the first. |
| TTLQueues.DrainIsSorted | internal/dns/ttl_queue.go:64-91 | A drain yields every hostname exactly once, in non-decreasing deadline order. |
| MultiResolver.Merge | internal/dns/multi_resolver.go:92-161 | The merge of the received answers: address set, per-upstream sets, disputed count, least TTL, DNSSEC flag and first chain; no result exactly when no address arrived. |
| MultiResolver.MergedTTL | internal/dns/multi_resolver.go:96-150 | The merged TTL is the least positive one answered, brought into 5 to 300 s. |
| MultiResolver.FirstChainMeaning | internal/dns/multi_resolver.go:111-113 | The merged chain is the first non-empty one in arrival order. |
| MultiResolver.CountDivergence | internal/dns/multi_resolver.go:118-131 | Counts the addresses that some responding upstream did not return. |
| MultiResolver.ArrivalOrderIrrelevant | internal/dns/multi_resolver.go:92-161 | Two merges of the same answers in any arrival order agree in everything but the CNAME chain and list order. |
| MultiResolver.ChainDependsOnOrder | internal/dns/multi_resolver.go:108-110 | For two answers the chain is independent of order exactly when the chains are equal or one is empty. |
| MultiResolver.NoDivergenceIffUnanimous | internal/dns/multi_resolver.go:118-131 | Divergence is zero exactly when all responding upstreams returned the same addresses. |
| MultiResolver.FullConsensusRejectsDisputed | internal/controller/ip_filter.go:79-99 | With two or more responders, demanding agreement of all rejects exactly the disputed addresses, as many as the divergence count, and keeps the rest. |
| Addresses.MatchingCIDR | internal/controller/ip_filter.go:53-60 | The first net of the table that contains the address, if any does. |
| Addresses.TablesMatchRanges | internal/controller/ip_filter.go:21-39 | Prefix matching against the three tables is membership in the published numeric intervals (RFC 1918 section 3, RFC 6598 section 7, RFC 3927 section 2.1, RFC 4291 sections 2.5.3 and 2.5.6). |
| IPFilter.BlockingNet | internal/controller/ip_filter.go:124-141 | An address gets through exactly when the spec says `false` for every published range that holds it, so by default none of the three; otherwise the report names an enabled net that holds it. |
| IPFilter.FilterBlockedIPs | internal/controller/ip_filter.go:104-145 | Splits the list, in order and with repetitions: out goes every address in a published range whose flag the spec does not set to `false`, all three without a spec; unparseable text passes. |
| IPFilter.OptOutIsExact | internal/controller/ip_filter.go:101-111 | Setting one flag to `false` lets through exactly the addresses of its own interval, and nothing of the other two. |
| IPFilter.BlockedByDefault | internal/controller/ip_filter.go:101-111 | Without a spec, or with no flag set to `false`, exactly the addresses outside all three intervals get through. |
| IPFilter.CountResolver | internal/controller/ip_filter.go:85-89 | Adds to each address's count how often one resolver returned it. |
| IPFilter.CountAgreement | internal/controller/ip_filter.go:84-89 | Visiting the resolvers in any order, counts how often all together returned each address. |
| IPFilter.FilterByConsensus | internal/controller/ip_filter.go:79-99 | Keeps, in order, exactly the addresses with enough agreement and reports every other with its count; keeps all without data or with a threshold of one or less. |
| IPFilter.AgreementCountsResolvers | internal/controller/ip_filter.go:71-78 | When no resolver repeats an address, agreement is the number of resolvers that returned it. |
| IPFilter.ConsensusMonotone | internal/controller/ip_filter.go:79-99 | A stricter threshold never lets an address through that a laxer one drops. |
| ResolutionPass.FindPrevious | internal/controller/fqdnnetworkpolicy_controller.go:305-312 | The first recorded host of that name. |
| ResolutionPass.ApplyFilters | internal/controller/fqdnnetworkpolicy_controller.go:105-133 | The addresses that survive both filters, and one problem for each that does not. |
| ResolutionPass.ResolveRule | internal/controller/fqdnnetworkpolicy_controller.go:70-172 | One rule's host, problems and tracked deadline; an answer records no host exactly when blocked ranges hold every address that consensus leaves, and else exactly the addresses neither filter holds back. |
| ResolutionPass.AnswerFailsClosed | internal/controller/fqdnnetworkpolicy_controller.go:105-136 | In both controllers, from spec and answer alone: which answers are not recorded, which addresses of the others are, and that none are only if consensus rejects them all. |
| RuleMeanings.WildcardSkips | internal/controller/fqdnnetworkpolicy_controller.go:75-79 | The namespaced controller leaves wildcards unresolved: one problem, no host, no deadline. |
| RuleMeanings.FailureKeeps | internal/controller/fqdnnetworkpolicy_controller.go:86-98 | A failed lookup keeps the first recorded host of that name and, in the namespaced controller, is due again after 60 s; one problem. |
| RuleMeanings.AnswerDeadline | internal/controller/fqdnnetworkpolicy_controller.go:100-104 | An answer, recorded or not, is due after its TTL, or 60 s when that is zero. |
| RuleMeanings.AnswerRecords | internal/controller/fqdnnetworkpolicy_controller.go:138-163 | The recorded host field by field: whole seconds of TTL, churn, divergence, resolver answers only when disputed, and short TTL below 10 s. |
| RuleMeanings.AnswerProblems | internal/controller/fqdnnetworkpolicy_controller.go:110-171 | The problems of an answer are exactly its outvoted addresses, the blocked ones among the others, and a chain too deep of a recorded host. |
| ResolutionPass.ResolveEgress | internal/controller/fqdnnetworkpolicy_controller.go:66-172 | The loop accumulates the hosts, problems and deadlines of all rules, with the queue representing the deadlines. |
| RuleMeanings.HostsOfRules | internal/controller/fqdnnetworkpolicy_controller.go:74-172 | The hosts of a pass are exactly what its rules record. |
| RuleMeanings.ProblemsOfRules | internal/controller/fqdnnetworkpolicy_controller.go:74-172 | Its problems are exactly those of its rules. |
| RuleMeanings.DeadlinesOfRules | internal/controller/fqdnnetworkpolicy_controller.go:95-104 | The tracked deadline of a hostname is that of the last rule that sets one for it. |
| NetPol.Build | internal/netpol/builder.go:27-113 | Computes the object whose denotation `BuildDenotes` gives, under the name, labels, namespace and pod selector of its policy. |
| NetPol.CollectPorts | internal/netpol/builder.go:115-128 | The pooled port list, in rule order. |
| PortIntent.PooledPortsMeaning | internal/netpol/builder.go:115-128 | The pooled ports are exactly those the rules list, over TCP where no protocol is named. |
| NetPol.HostCIDRDenotesHost | internal/netpol/helpers.go:14-20 | The prefix text of an address matches that one address, in either family. |
| NetPol.PeersOfHosts | internal/netpol/builder.go:35-42 | The peers are the prefixes of the recorded addresses and nothing else. |
| NetPol.BuildDenotes | internal/netpol/builder.go:27-77 | For every status: exactly DNS, and the pooled ports to the recorded addresses, or to everywhere when hosts are recorded without any address. |
| NetPol.BuildDenotesGrant | internal/netpol/builder.go:27-77 | The same in a canonical form that two objects can be compared by. |
| NetPol.GrantsDiffer | internal/netpol/builder.go:115-128 | Two different grants of ports are told apart by some packet to any given address. |
| NetPol.ConfinedIffAddressed | internal/netpol/builder.go:28-42 | Non-DNS traffic is confined to recorded addresses exactly when no hosts are recorded, or some address is, or no port beyond DNS is open. |
| NetPol.ExtractCIDRs | internal/controller/fqdnnetworkpolicy_controller.go:271-282 | All peer prefixes of all rules, sorted. |
| NetPol.IpSetsEqual | internal/controller/fqdnnetworkpolicy_controller.go:270-284 | Equality of the multisets of prefixes, whatever their order. |
| NetPol.SameCIDRsSameRecorded | internal/controller/fqdnnetworkpolicy_controller.go:268-284 | Objects that compare equal come from the same recorded addresses. |
| NetPol.SameTrafficIff | internal/controller/fqdnnetworkpolicy_controller.go:268-284 | Two rule lists that compare equal allow the same traffic exactly when both open the same ports beyond DNS. |
| NetPol.SameEffectIff | internal/netpol/builder.go:58-74 | Two objects say the same about every packet of every pod exactly when they select the same pods and, unless that is no pod, allow the same traffic. |
| NetPol.SkippedWriteHarmlessIff | internal/controller/fqdnnetworkpolicy_controller.go:254-259 | Keeping the older of two objects that compare equal changes nothing for any pod exactly when both select the same pods and, unless that is no pod, open the same ports beyond DNS. |
| PortIntent.IntentCoveredIff | internal/netpol/builder.go:35-75 | The object covers what the rules ask for one by one exactly when no rule lists ports or no portless rule has a recorded address. |
| PortIntent.PortlessRuleRestricted | internal/netpol/builder.go:115-128 | Concretely: beside a rule with port 443, a rule without ports loses port 80. |
| PortIntent.PooledPortsWiden | internal/netpol/builder.go:115-128 | Concretely: of two rules on ports 443 and 80, the first one's address becomes reachable on 80. |
| PortIntent.OnlyDNSAddedIff | internal/netpol/builder.go:35-75 | It adds nothing but DNS exactly when no host is recorded, or some address is and every pooled port is asked for by a rule of each recorded address, or none is and no port beyond DNS is pooled. |
| PortIntent.UniformPortsExact | internal/netpol/builder.go:35-75 | When all rules list the same ports it allows exactly what they ask for, and DNS, exactly when no host is recorded, or some address is, or no port beyond DNS is pooled. |
| PortRuns.SnapFromRules | internal/controller/fqdnnetworkpolicy_controller.go:66-172 | After the loop over the rules every recorded host belongs to one of them. |
| PortRuns.StoredOnlyDNSAddedIff | internal/netpol/builder.go:27-77 | At every point of every run the same exact condition, for the stored object and the rules of the last written cycle. |
| Conditions.SetCondition | internal/controller/fqdnnetworkpolicy_controller.go:341-361 | The in-place update of the first slot of that type, or an append, computes the upsert. |
| Conditions.UpsertKeepsKinds | internal/controller/resolver_divergence.go:74-93 | An upsert touches one type only and never creates a second condition of a type. |
| Conditions.UpsertSets | internal/controller/fqdnnetworkpolicy_controller.go:350-360 | The type upserted then holds the call's data, with its old transition time exactly if the status is unchanged. |
| Conditions.ConditionsSummarizeHistory | internal/controller/fqdnnetworkpolicy_controller.go:341-361 | After any history: at most one condition per type, with the latest reason and message, dated at the first call of the trailing block with the current status. |
| Reconciler.NamespacedReconciler.Reconcile | internal/controller/fqdnnetworkpolicy_controller.go:56-232 | One reconcile computes the specified next status, stored object and delay, for each failing call; in audit mode, or with the freeze flag set and a disputed host resolved, the stored object stays; an override within 5 to 300 s is the delay itself, else the nearer end. |
| Reconciler.NamespacedReconciler.ApplyNetworkPolicy | internal/controller/fqdnnetworkpolicy_controller.go:236-266 | Creates when nothing is stored; when prefixes changed takes over labels, selector and rules under the stored name; otherwise leaves the object; fails exactly when a needed call fails. |
| Reconciler.NamespacedReconciler.EnforceCycle | internal/controller/fqdnnetworkpolicy_controller.go:213-232 | The enforcing end: the object applied as specified, and the new status only if that and the status update succeed. |
| Reconciler.NamespacedReconciler.Finish | internal/controller/fqdnnetworkpolicy_controller.go:227-231 | The status changes only if its update succeeds, and then a requeue follows: after the override itself when that lies in 5 to 300 s, else after the nearer end, and without one as the queue says. |
| CycleMeanings.AuditWritesNothing | internal/controller/fqdnnetworkpolicy_controller.go:178-192 | An audit cycle leaves the stored object as it was. |
| CycleMeanings.AuditKeepsStored | internal/controller/fqdnnetworkpolicy_controller.go:178-192 | Through any run of audit cycles the stored object stays, unless somebody deletes it. |
| CycleMeanings.AuditOnlyStoresNothing | internal/controller/fqdnnetworkpolicy_controller.go:178-192 | A policy that was only ever audited never has an object. |
| CycleMeanings.FrozenIff | internal/controller/fqdnnetworkpolicy_controller.go:194-209 | A cycle is frozen exactly when the flag is set and some rule records a disputed host, by its answer or by keeping one. |
| CycleMeanings.DisputeLeavesStored | internal/controller/fqdnnetworkpolicy_controller.go:194-209 | With the flag set, an answer recorded this cycle on which resolvers disagree leaves the stored object as it was. |
| CycleMeanings.EnforceStores | internal/controller/fqdnnetworkpolicy_controller.go:211-221 | An enforcing cycle that is not frozen and meets no failing call ends with an object for exactly the hosts resolved. |
| CycleMeanings.StatusFields | internal/controller/fqdnnetworkpolicy_controller.go:174-225 | Hosts, generation and object name in the status of the three endings; audit clears the name, a freeze keeps it. |
| CycleMeanings.RequeueMeaning | internal/controller/fqdnnetworkpolicy_controller.go:286-293 | Without an override the next cycle is at least 60 s away, passes no tracked deadline that is 60 s or more away, and if later than 60 s falls on one. |
| CycleMeanings.OverrideMeaning | internal/controller/fqdnnetworkpolicy_controller.go:286-303 | With one the delay is the override in seconds, or 5 s below and 300 s above. |
| ReconcilerRuns.Controller.StoredIsLastWritten | internal/controller/fqdnnetworkpolicy_controller.go:174-266 | At every point of every run, with changing specs, faults and deletions, the stored object is what `Build` made of the last written cycle and has the prefixes of the last applied one. |
| ReconcilerRuns.Controller.StoredTrafficIff | internal/controller/fqdnnetworkpolicy_controller.go:174-284 | At every point it governs the pods and allows the traffic of the last applied cycle exactly when that cycle and the last written one select the same pods and, unless that is no pod, open the same ports beyond DNS. |
| ReconcilerRuns.Controller.SteadyRunsStayExact | internal/controller/fqdnnetworkpolicy_controller.go:174-284 | With an unchanging selector and ports, and an address whenever hosts are recorded, skipped writes and frozen cycles never change which pods are governed or what they may do. |
| ReconcilerRuns.Controller.PassSafe | internal/controller/fqdnnetworkpolicy_controller.go:86-133 | A pass over the rules that starts from safe hosts records only addresses outside the enabled ranges, retained ones included. |
| ReconcilerRuns.Controller.RunKeeps | internal/controller/fqdnnetworkpolicy_controller.go:86-172 | A property that every answer of a run gives its host holds of all hosts in every reachable status, written object and applied cycle, retained ones included. |
| ReconcilerRuns.Controller.RangeSafety | internal/controller/fqdnnetworkpolicy_controller.go:86-133 | In every reachable state under a fixed security spec no recorded or written address lies in an enabled blocked range. |
| RangeRuns.RangeNeverRecorded | internal/controller/fqdnnetworkpolicy_controller.go:86-133 | However the specs of a run change: an address in a range that all of them block is never recorded, written or applied. |
| RangeRuns.BlockedUnlessOptedOut | internal/controller/ip_filter.go:101-141 | In particular the loopback, private or link-local interval, as long as no spec sets its flag to `false`; so without any security spec, all three. |
| RangeRuns.ClusterBlockedUnlessOptedOut | internal/controller/clusterfqdnnetworkpolicy_controller.go:72-119 | The same for cluster policies, for every status and everything fanned out. |
| ReconcilerRuns.Controller.StoredTrafficSafeIff | internal/netpol/builder.go:27-77 | The stored object keeps non-DNS traffic out of the enabled ranges exactly when its hosts are none, or some address is recorded, or no port beyond DNS is open, or no range is enabled. |
| AddressedRuns.ConsensusOffLeavesAll | internal/controller/fqdnnetworkpolicy_controller.go:106-121 | With consensus off, it leaves an address of every answer exactly when no answer is empty. |
| AddressedRuns.RecordedHostsHaveAddresses | internal/controller/fqdnnetworkpolicy_controller.go:130-136 | While it does, every recorded host in every reachable state has an address: failing closed reaches the stored object. |
| AddressedRuns.StoredConfined | internal/netpol/builder.go:27-77 | Then non-DNS traffic of the stored object goes to recorded addresses only, at every point of the run. |
| AddressedRuns.StoredStaysOutOfBlockedRanges | internal/netpol/builder.go:27-77 | And never into the loopback, private or link-local interval whose flag no spec of the run sets to `false`. |
| AddressedRuns.SteadySpecsStayExact | internal/controller/fqdnnetworkpolicy_controller.go:174-284 | If besides all specs select the same pods and pool the same ports, the stored object always has the effect of the last applied cycle. |
| AddressedRuns.ClusterHostsHaveAddresses | internal/controller/clusterfqdnnetworkpolicy_controller.go:102-119 | Under the same condition no cluster policy records or fans out a host without an address. |
| ReconcilerRuns.Controller.PassRetains | internal/controller/fqdnnetworkpolicy_controller.go:86-97 | If all lookups for a recorded hostname fail, the pass records its old entry first under that name, or nothing if it has no rule. |
| ReconcilerRuns.Controller.CycleRetains | internal/controller/fqdnnetworkpolicy_controller.go:86-97 | Such a cycle keeps the entry, and the object it builds allows each of its addresses on the pooled ports. |
| ReconcilerRuns.Controller.OutageRetains | internal/controller/fqdnnetworkpolicy_controller.go:86-97 | However long the failures last, and whatever else happens meanwhile, the entry survives unchanged. |
| StoredRuns.StoredAllowsApplied | internal/controller/fqdnnetworkpolicy_controller.go:236-284 | At every point the stored object allows each address of the last applied cycle on the ports it was written with. |
| StoredRuns.AppliedRetains | internal/controller/fqdnnetworkpolicy_controller.go:86-97 | Once a cycle of an outage has applied, the last applied cycle holds the entry recorded before the outage. |
| StoredRuns.StoredOutageAllows | internal/controller/fqdnnetworkpolicy_controller.go:86-97 | So through an outage of any length the stored object goes on allowing every retained address on the ports it was written with. |
| StoredRuns.FreezeKeepsDisputesOut | internal/controller/fqdnnetworkpolicy_controller.go:193-211 | With the freeze on in every cycle, the stored object is at every point built from hosts that were undisputed when resolved, retained ones included. |
| UnsteadyRuns.ConsensusCanEmptyAHost | internal/controller/fqdnnetworkpolicy_controller.go:105-133 | A concrete cycle in which consensus empties a host that is recorded all the same. |
| UnsteadyRuns.PortChangeNotWritten | internal/controller/fqdnnetworkpolicy_controller.go:254-259 | Two cycles that differ only in a port: the second write is skipped and the stored object allows the wrong traffic. |
| UnsteadyRuns.SelectorChangeNotWritten | internal/controller/fqdnnetworkpolicy_controller.go:254-259 | Two cycles that differ only in the pods they select: the second write is skipped and the stored object governs the wrong pods. |
| ReconcilerRuns.TrackedDeadlines | internal/controller/fqdnnetworkpolicy_controller.go:99-103 | Every tracked deadline was set by a rule of that hostname. |
| ReconcilerRuns.RequeueBounds | internal/controller/fqdnnetworkpolicy_controller.go:286-303 | The delay lies in 5 to 300 s for every override, is at least 60 s without one, and at most 300 s when the answers' TTLs are clamped. |
| ConditionRuns.CallsMakeConditions | internal/controller/fqdnnetworkpolicy_controller.go:174-232 | After any run the conditions are those of the calls of the cycles whose status update succeeded. |
| ConditionRuns.ConditionsOverRuns | internal/controller/fqdnnetworkpolicy_controller.go:328-361 | Over whole runs there is one condition per type, from its latest call and dated at its latest change of status. |
| ConditionRuns.ConditionsTellTheTruth | internal/controller/fqdnnetworkpolicy_controller.go:328-339 | After a successful cycle Ready, Degraded and ResolverDivergence say whether it audited, froze, met problems or saw disputed hosts. |
| ConditionRuns.CallReasons | internal/controller/fqdnnetworkpolicy_controller.go:328-349 | The reasons given by the endings of a cycle, with its generation and time. |
| ClusterReconciler.ClusterController.Reconcile | internal/controller/clusterfqdnnetworkpolicy_controller.go:48-223 | The store changes by one fan-out and collection, or not at all in audit mode, with the freeze flag set and a disputed host resolved, or when namespaces cannot be listed; status and delay are as specified, an override within 5 to 300 s being the delay itself. |
| ClusterReconciler.ClusterController.UpdatedStatus | internal/controller/clusterfqdnnetworkpolicy_controller.go:301-323 | Hosts, namespaces and conditions of the three endings of a reconcile. |
| CycleMeanings.ClusterAuditWritesNothing | internal/controller/clusterfqdnnetworkpolicy_controller.go:152-167 | An audit cycle, and one that cannot list the namespaces, leaves every object in the cluster as it was. |
| CycleMeanings.ClusterAuditKeepsStore | internal/controller/clusterfqdnnetworkpolicy_controller.go:160-167 | So does any run of audit cycles of any cluster policies: from an empty store nothing is ever created. |
| CycleMeanings.ClusterDisputeLeavesStore | internal/controller/clusterfqdnnetworkpolicy_controller.go:169-176 | With the flag set, an answer recorded this cycle on which resolvers disagree leaves the whole store as it was. |
| CycleMeanings.ClusterEnforceConverges | internal/controller/clusterfqdnnetworkpolicy_controller.go:178-223 | An enforcing cycle that is not frozen and meets no failing call converges on the hosts it resolved. |
| CycleMeanings.ClusterStatusFields | internal/controller/clusterfqdnnetworkpolicy_controller.go:301-323 | Hosts, affected namespaces and generation in the status of a cycle that lands. |
| ClusterConditionRuns.CallsMakeConditions | internal/controller/clusterfqdnnetworkpolicy_controller.go:301-324 | After any run the conditions are those of the calls of the cycles that landed. |
| ClusterConditionRuns.ClusterConditionsOverRuns | internal/controller/resolver_divergence.go:74-93 | Over whole runs there is one condition per type, from its latest call and dated at its latest change of status. |
| ClusterConditionRuns.ClusterConditionsTellTheTruth | internal/controller/clusterfqdnnetworkpolicy_controller.go:313-324 | After a cycle that landed, Ready says whether it froze or met problems, ResolverDivergence whether it saw disputed hosts. |
| ClusterConditionRuns.DegradedIffEverFrozen | internal/controller/clusterfqdnnetworkpolicy_controller.go:313-324 | Degraded is there, and true, exactly when some cycle of the run landed frozen; nothing ever resets it. |
| ClusterConditionRuns.DegradedOutlivesFreeze | internal/controller/clusterfqdnnetworkpolicy_controller.go:313-324 | Concretely: a freeze, then a clean fan-out, leave Ready true and Degraded true. |
| ClusterReconciler.ClusterController.FanOut | internal/controller/clusterfqdnnetworkpolicy_controller.go:178-215 | One object per matched namespace, written only if missing or with other prefixes; a failing call skips its namespace only. |
| ClusterReconciler.ClusterController.GarbageCollect | internal/controller/clusterfqdnnetworkpolicy_controller.go:275-299 | In any order, deletes only this policy's objects outside the active namespaces, and all of them unless a call fails. |
| ClusterRuns.NamespacedObjectsSeparate | internal/controller/clusterfqdnnetworkpolicy_controller.go:253-272 | A namespaced policy's object shares its name with a cluster policy's object only if the policy is named `cfqdnnp-` and that cluster policy's name. |
| ClusterRuns.DesiredIdentity | internal/controller/clusterfqdnnetworkpolicy_controller.go:180-187 | Name, namespace, labels and pod selector of the object wanted in a namespace. |
| ClusterRuns.RunsKeepOwned | internal/controller/clusterfqdnnetworkpolicy_controller.go:178-223 | From an empty store, whatever cluster and namespaced policies, faults and deletions do, exactly the objects named for a cluster policy carry its label. |
| ClusterRuns.OneReconcileConverges | internal/controller/clusterfqdnnetworkpolicy_controller.go:178-223 | From any such store one reconcile without faults leaves labelled objects in exactly the matched namespaces, with the desired prefixes. |
| ClusterRuns.OthersUntouched | internal/controller/clusterfqdnnetworkpolicy_controller.go:178-223 | Whatever fails, objects of all other policies stay as they were. |
| ClusterRuns.ConvergedIsQuiet | internal/controller/clusterfqdnnetworkpolicy_controller.go:187-216 | A converged store wants no create, update or delete for hosts with the same prefixes. |
| ClusterRuns.SecondReconcileChangesNothing | internal/controller/clusterfqdnnetworkpolicy_controller.go:178-223 | Hence the next reconcile leaves the whole store as it is, with any faults. |
| ClusterRepeats.AdmittedPermuted | internal/controller/clusterfqdnnetworkpolicy_controller.go:89-111 | The same answer in another order admits and blocks the same addresses. |
| ClusterRepeats.Balance | internal/controller/clusterfqdnnetworkpolicy_controller.go:66-155 | Two passes with the same answers, from any two statuses, record prefixes that differ exactly by what their failing lookups fall back on. |
| ClusterRepeats.SameAnswersSameCIDRsIff | internal/controller/clusterfqdnnetworkpolicy_controller.go:66-155 | A second pass from the first one's hosts, with the same answers in any order, gives the same prefixes exactly when the failing lookups find the same ones in the hosts just recorded as in those before. |
| ClusterRepeats.SameAnswersSameCIDRs | internal/controller/clusterfqdnnetworkpolicy_controller.go:66-155 | In particular when the lookups of any one pattern all fail or are all answered. |
| ClusterRepeats.DuplicatePatternsDrift | internal/controller/clusterfqdnnetworkpolicy_controller.go:72-83 | A concrete pass that fails the condition: of two rules with one pattern one fails and one is answered, and repeating that doubles the prefixes. |
| ClusterRepeats.RepeatedReconcileIsQuietIff | internal/controller/clusterfqdnnetworkpolicy_controller.go:48-223 | After a reconcile without faults, one with the same answers and any faults leaves the whole store as it is under that condition, and, when it fans out without faults to some namespace, only then. |
| ClusterRepeats.RepeatedReconcileIsQuiet | internal/controller/clusterfqdnnetworkpolicy_controller.go:48-223 | So it never touches the store when the lookups of any one pattern failed or were answered together. |
| ClusterRepeats.AdmittedRepeatsQuietly | internal/webhook/validate.go:102-105 | A policy that admission let through has patterns of its own, so repeating its reconcile never touches the store. |
| ClusterStatusRuns.ClusterRangeSafety | internal/controller/clusterfqdnnetworkpolicy_controller.go:72-119 | No reachable cluster status, and nothing ever fanned out, holds an address of an enabled blocked range. |
| ClusterStatusRuns.ClusterOutageRetains | internal/controller/clusterfqdnnetworkpolicy_controller.go:72-83 | Through any run of failing lookups, for wildcard patterns too, the status and the hosts fanned out keep the recorded entry. |
| ClusterStatusRuns.ClusterOutageAllows | internal/controller/clusterfqdnnetworkpolicy_controller.go:72-83 | Meanwhile the object wanted in any namespace allows the retained addresses on the pooled ports. |
| ClusterStoreRuns.FannedSlot | internal/controller/clusterfqdnnetworkpolicy_controller.go:178-215 | A fan-out changes the object of a namespace once at most, whatever happens in the others and however often it is listed. |
| ClusterStoreRuns.WrittenObjectExact | internal/controller/clusterfqdnnetworkpolicy_controller.go:178-223 | Where the object is missing or has other prefixes and no call for its namespace fails, the reconcile leaves exactly the desired one. |
| ClusterStoreRuns.WrittenObjectAllows | internal/controller/clusterfqdnnetworkpolicy_controller.go:178-223 | It governs the selected pods of its namespace and allows them DNS and the pooled ports to the recorded addresses, nothing else while an address is recorded. |
| ClusterStoreRuns.ClusterStoredIsLastWritten | internal/controller/clusterfqdnnetworkpolicy_controller.go:178-223 | At every point of every run of everybody's writes, faults and deletions, the object of a namespace is what `Build` made of the last written fan-out and has the prefixes of the last applied one. |
| ClusterStoreRuns.ClusterStoredTrafficIff | internal/controller/clusterfqdnnetworkpolicy_controller.go:198-213 | It governs the pods and allows the traffic of the last applied fan-out exactly when that one and the last written one select the same pods and, unless that is no pod, open the same ports beyond DNS. |
| IPCaches.IPCache.Record | internal/dns/ip_cache.go:28-51 | From the latest clock reading on, the cache tells the same story as the log of all calls: pruning is invisible. |
| IPCaches.IPCache.Get | internal/dns/ip_cache.go:55-67 | Without repetition, exactly the addresses whose most recent recording for that hostname is less than its TTL ago, or less than 60 s if it had no positive TTL. |
| IPCaches.LiveMeaning | internal/dns/ip_cache.go:28-67 | The log of all calls says the same: an address is live while its last recording is within its TTL. |
| IPCaches.IPCache.Len | internal/dns/ip_cache.go:70-84 | The number of hostnames with such an address. |
| IPCaches.Merged | internal/dns/ip_cache.go:36-46 | New addresses replace old expiries; of the old entries those still alive at the end survive. |
| ChurnTrackers.ChurnRing.Write | internal/dns/churn_tracker.go:33-39 | The ring keeps representing the whole history it was given. |
| ChurnTrackers.ChurnRing.SlotsHoldWindow | internal/dns/churn_tracker.go:41-47 | The slots hold exactly what the last ten sets, or all sets when fewer, hold. |
| ChurnTrackers.ChurnTracker.Record | internal/dns/churn_tracker.go:22-48 | The number of distinct addresses in the last ten sets recorded for that hostname. |
| ChurnTrackers.WindowIsLastTen | internal/dns/churn_tracker.go:33-47 | That window is the last ten sets in order, or all of them when fewer. |
| ChurnTrackers.OtherHostnamesIrrelevant | internal/dns/churn_tracker.go:22-53 | Recordings for other hostnames never change that window. |
| Observations.ObservationStore.Record | internal/dns/observation_store.go:56-72 | One query counted: the count rises by one, the first sighting stays, the last is now; then a prune judged by a later clock reading. Other names are at most dropped. |
| Observations.ObservationStore.PruneLocked | internal/dns/observation_store.go:88-100 | In any order, drops exactly the hostnames unseen for more than 48 hours, and nothing within five minutes of the last prune. |
| Observations.ObservationStore.AllDomains | internal/dns/observation_store.go:75-84 | A copy of the whole store. |
| Observations.MergeObservedDomains | internal/controller/fqdnegressobservation_controller.go:97-145 | Visiting live names in any order: the merged list in hostname order, and the new synced counts. |
| ObservationSync.ObservationReconciler.Reconcile | internal/controller/fqdnegressobservation_controller.go:64-92 | The synced counts move on even when the status write fails. |
| ObservationSync.MergeMonotone | internal/controller/fqdnegressobservation_controller.go:97-145 | A merge keeps strict order, loses no name, and moves first-seen only down, last-seen and counts only up. |
| ObservationSync.StatusOnlyGrows | internal/controller/fqdnegressobservation_controller.go:64-145 | Over every run, with failed writes, prunes and restarts: as long as an object lives its status list never loses a hostname, and first-seen moves only down, last-seen and counts only up. |
| ObservationSync.MergeCount | internal/controller/fqdnegressobservation_controller.go:110-137 | Each count grows by exactly the unsynced queries. |
| ObservationSync.MergeFields | internal/controller/fqdnegressobservation_controller.go:97-145 | Each entry of a merge field by field: earlier first sighting, later last sighting, the count raised by what is new, or by all of it when the store has started over. |
| ObservationSync.QueriesConserved | internal/controller/fqdnegressobservation_controller.go:64-87 | Over every interleaving of queries, prunes, syncs, failed writes, restarts and recreations of the object: persisted, pending and lost queries add up to the queries made. |
| ObservationSync.NeverDoubleCounted | internal/controller/fqdnegressobservation_controller.go:94-116 | The persisted count never exceeds the true one, and right after a successful sync equals it exactly when nothing was lost. |
| ObservationSync.RecountedQueryLost | internal/controller/fqdnegressobservation_controller.go:110-116 | A concrete run that undercounts: a name is synced, pruned and queried again, and the second query is never counted. |
| ObservationSync.UndisturbedRunsExact | internal/controller/fqdnegressobservation_controller.go:64-87 | Without restart, failed write, recreation or a prune of that name it is exact after every successful sync. |
| Hostnames.StableIff | internal/profiler/cluster.go:34-35 | Normalising twice is normalising once exactly when the first result ends in neither a space nor a dot. |
| Hostnames.BaseIsTail | internal/profiler/cluster.go:33-50 | The base domain is the last one to three labels, joined. |
| Hostnames.NameUnderBase | internal/profiler/cluster.go:27-50 | Every name equals its base domain or is a subdomain of it on a label boundary. |
| Hostnames.LongerNameHasProperBase | internal/profiler/cluster.go:41-47 | A name longer than its base domain has one that is no listed two-part suffix and no single label. |
| Hostnames.UnderProperBase | internal/profiler/cluster.go:33-50 | Everything under such a domain has it as base domain. |
| Profiler.FilterDomains | internal/profiler/filter.go:62-71 | The two sublists of external and internal observations, each in order. |
| Profiler.ClusterWildcards | internal/profiler/cluster.go:66-138 | Strictly sorted: one wildcard for each base domain that has an explicit wildcard or enough distinct names, and every name of every other one; the clusters list the members. |
| Profiler.SynthesizePolicy | internal/profiler/synthesizer.go:37-77 | Exactly the clustering's rules of the external names, each with port 443 over TCP, and a summary whose counts and roll-ups are those of the lists. |
| ProfilerTheorems.SynthesisMeaning | internal/profiler/synthesizer.go:37-77 | The rules in full, each with port 443 over TCP: a wildcard for each base domain with a member that is one or with threshold many names, three by default, and every name of the others; with threshold one no wildcard is made. |
| Profiler.FindMatchingRule | internal/profiler/simulator.go:98-117 | The pattern of the first rule that covers the hostname. |
| Profiler.FirstCoverMeaning | internal/profiler/simulator.go:98-117 | A match is reported exactly when some rule covers the hostname, and the rule reported is the first that does. |
| Profiler.Simulate | internal/profiler/simulator.go:62-92 | The observations split into internal, allowed with their rule, and blocked, with their counts. |
| ProfilerTheorems.CandidateCovered | internal/profiler/cluster.go:102-131 | For every threshold each stable name is covered by a rule in normal form, whatever else was observed. |
| ProfilerTheorems.StableNameAllowed | internal/profiler/simulator.go:62-92 | For every list of observations and every threshold, the synthesized policy allows each external name that one normalisation settles. |
| ProfilerTheorems.BlockedAreUnstable | internal/profiler/simulator.go:62-92 | So simulating it on the same list blocks only names that one normalisation does not settle. |
| ProfilerTheorems.ProfileThenSimulateClosed | internal/profiler/simulator.go:62-92 | When it settles every external name, nothing is blocked and all external names are allowed. |
| ProfilerTheorems.ClosureInCounts | internal/profiler/synthesizer.go:121-129 | In the two reports: no blocked names, allowed equals external, internal equals ignored. |
| ProfilerTheorems.BlockedIffUnstable | internal/profiler/simulator.go:98-117 | Among observations that two normalisations settle, wildcards included, exactly the names that one normalisation does not settle are blocked, for every threshold; so is a plain name that two do not settle, if it is the only one of the kind. |
| ProfilerTheorems.ClosedIffStable | internal/profiler/simulator.go:62-117 | If two normalisations settle every external name, but for one plain form at most, nothing is blocked exactly when one normalisation settles them all. |
| ProfilerTheorems.UnstableNameBlocked | internal/profiler/simulator.go:98-117 | A plain external name that one normalisation does not settle is blocked by the policy synthesized from it. |
| ProfilerTheorems.DoubleDotBlocked | internal/profiler/cluster.go:92-93 | Concretely `a.b..`, for every threshold. |
| ProfilerTheorems.TripleDotShields | internal/profiler/simulator.go:98-117 | Why two normalisations must settle the others: next to `a.b...`, the unsettled `a.b..` is allowed. |
| ProfilerTheorems.WildcardsBacked | internal/profiler/cluster.go:116-131 | For settled names: each generated wildcard sits on a proper base domain, never on a listed suffix or a single label, and is backed by at least threshold distinct names unless one of them was observed as a wildcard. |
| ProfilerTheorems.CoveredSharesBase | internal/profiler/cluster.go:102-131 | For settled names: whatever a rule covers has the base domain of some observed name, if the threshold is above one or the rule is no wildcard over a single label or a listed suffix. |
| ProfilerTheorems.SynthesizedPolicyTight | internal/profiler/simulator.go:98-117 | For settled names: whatever the policy allows has the base domain of some external observation, if the threshold in force is above one or none was observed as such a wildcard. |
| ProfilerTheorems.PolicyTightIff | internal/profiler/cluster.go:66-138 | And that condition is exact: otherwise the policy allows some name with a foreign base domain. |
| ProfilerTheorems.StarComNotTight | internal/profiler/cluster.go:67-86 | Concretely, from `*.com` alone, threshold one gives a policy that allows `a.com`. |
| Webhook.ValidateEgressRules | internal/webhook/validate.go:80-118 | Reports exactly the violated checks, in the order rule by rule and check by check. |
| Webhook.NamesAreNoAddresses | internal/webhook/validate.go:94-99 | No text of the name grammar parses as an address, so the address check never rejects a rule alone. |
| Webhook.AdmittedIff | internal/webhook/validate.go:80-118 | There is no message exactly when all names match the grammar, are distinct and use wildcards only with the snoop resolver, and all ports are valid. |
| Webhook.BaseIsPlain | internal/profiler/cluster.go:33-50 | The base domain of a name of the grammar is itself such a name. |
| Webhook.SynthesizedRulesAdmitted | internal/webhook/validate.go:80-118 | If the external names match the grammar, the synthesized rules are strictly sorted and admitted: always with the snoop resolver, without it exactly when none is a wildcard. |
| Drift.ComputeUnpoliciedDomains | internal/controller/drift.go:38-73 | In strict order, exactly the observed names that no rule of any policy matches, with their sighting times and no count; nothing when listing fails. |
| Drift.DiffNewDomains | internal/controller/drift.go:87-98 | The names that were not listed before, in order. |
| Drift.DriftStatus.RecordDrift | internal/controller/drift.go:120-134 | Overwrites the status with the current drift and reports its new names; leaves it alone without the snoop resolver or when listing fails. |
| Drift.DriftUnique | internal/controller/drift.go:38-73 | The policies and observations determine the list. |
| Drift.DriftShrinks | internal/controller/drift.go:105-106 | Adding policies removes from the drift exactly the names they match. |
| Drift.EmptiedIffMatched | internal/controller/drift.go:105-106 | A policy empties the drift exactly when it matches every drifted name. |
| Drift.RulePerNameEmptiesDrift | internal/controller/drift.go:105-106 | One exact rule per drifted name empties it. |
| Drift.MatchersAgree | internal/controller/drift.go:20-28 | The simulator's matcher is the drift matcher on normalised texts. |
| Drift.DriftIsCaseSensitive | internal/controller/drift.go:20-28 | On unnormalised texts they differ, by letter case. |
| Drift.DriftIsWhatSimulationBlocks | internal/profiler/simulator.go:62-117 | With normalised texts the names the simulator blocks are the external names that drift. |
| Drift.SynthesisLeavesInternalDrift | internal/controller/drift.go:38-73 | Deploying the policy synthesized from the observations leaves as drift only internal names and names not observed in normal form. |
| Strings.SortComparesMultisets | internal/controller/fqdnnetworkpolicy_controller.go:280-283 | Comparing sorted lists compares multisets. |

## Left out

- Deletion of a policy object, finalizers and the periodic reading of it: a cycle gets the spec then in force as input.
- Events, metrics, log lines and the wording of messages; a problem or message is a value that names its cause.
- ASN enrichment (`IPEnrichments`), owner references, policy types and the `Source` field: constants or network lookups.
- DNS wire exchange, the snoop proxy, the wildcard resolver, the active resolver's own loops and the cache lookup that precedes a multi-resolver query.
- Concurrency: methods that hold a lock are atomic, and one cycle of a controller is one step. A cycle reads the clock once for its conditions.
- ReconcilerRuns.RequeueBounds: the upper bound without an override takes lookups made between the zero time and the end of the cycle, and TTLs as `clampTTL` produces them.
- Reconciler.NamespacedReconciler.Reconcile: the drift field of the status is modelled apart, in `Drift.DriftStatus`, and the churn rate of a host is an input, computed apart in `ChurnTrackers`.
- ClusterReconciler.ClusterController.Reconcile: the matched namespaces are an input; the namespace selector is not evaluated.
- NetPol.BuildDenotes: peers are prefix texts with the two suffixes that are generated; addresses written in IPv4-mapped IPv6 form, which Go never prints, would denote a wider prefix in Kubernetes.
- NetPol.GrantsDiffer: ports and protocols are unbounded, so a list naming every real port still differs from the empty list that means all ports.
- Hostnames.StableIff: letter case and white space are those of ASCII.
- Webhook.NamesAreNoAddresses: `net.ParseIP` is written out for dotted quads; the IPv6 reader is a parameter.
- Overflow of 64-bit durations and counters: times and counts are unbounded integers.
- ObservationSync.ObservationReconciler.Reconcile: conditions, the observation window and the cycle without a snoop resolver are left out.
- TTLQueues.TTLQueue.Fix: the code of `container/heap` is not part of the repository; it is written out from its documented algorithm, and `heap.Init` on an empty queue does nothing.
- TTLQueues.Drain: the controllers never pop an entry; the method is what `Pop` and `container/heap` provide for.
- NetPol.SkippedWriteHarmlessIff: the effect of one object on its own; how Kubernetes combines several objects that govern one pod is not modelled.
- ProfilerTheorems.BlockedIffUnstable: lists with a name that two normalisations do not settle, beside other unsettled names, as said above.
- ProfilerTheorems.PolicyTightIff: lists with a name that one normalisation does not settle.
- Profiler.SynthesizePolicy: security presets, default names, labels, annotations and category counts are constants or table lookups.
- Profiler.Simulate: categories, providers and the security audits, which read single fields of the policy.
- Report rendering and the kubectl plugin: printing and file handling.
