# Verified model of the Terragraph NMS services

Terragraph is a wireless mesh. Its network management system is a set of services that turn raw counters, events and
topologies into something an operator can act on. This project models the algorithms and protocols of nine of them in
Dafny and proves what they are for. Every file is one module; `dafny verify dfyconfig.toml` checks all of them.

- **Link events (query_service).** `LinkTimeline` turns two firmware counters into intervals in which a link was up with
  or without data, and `IntervalSeconds` says in plain numbers what one interval adds. `LinkEventTable` is the table of
  one link as a state machine: samples arrive in any order, the updater runs, and any database write may be lost.
  `LinkAvailability` reads the rows back as percentages.
- **Topology analysis (optimizer_service).** `Connectivity` holds walks, bridges and components of undirected graphs,
  `CutEdges` the search for edges whose loss cuts client nodes (CNs) off from the points of presence (PoPs), `FlowModel`
  the flow network of the capacity estimate, `MaxMinFlow` the values that the estimate can report, and `Airtime` those
  values in plain sums over links.
- **UDP pinger (udp_pinger).** `PingPlans` holds its plans, `Checksum` is the IPv6/UDP checksum and the 32-bit round-trip
  time, `ProbeSender` the send loop, `Histograms` the statistics of replies, `ProbeReceivers` the receiver threads that
  forward replies to one another, `ReplyHistory` what each of them has counted, `PingerResults` the final accounting, and
  `PingReports` what its results say about the replies.
  `Sums` adds numbers over finite sets, `Sets` compares their sizes and knows sequences without repetitions.
- **Default routes (default_routes_service).** `RouteHistory` is the change log, `RouteOrder` the sorting that makes
  snapshots comparable, and `RouteUtilization` the time spent on each set of routes.
- **Analytics.** `PathLoss` is the two-pointer join, `FoliageFactor` the windowed covariance and its bound,
  `FoliageMoments` the reported number in plain sums, `PowerStatus` the four passes that classify client nodes.
- **Test and scan execution.** `TestSchedule` (when sessions of a network test run), `TestResults` (the status protocol of
  results, cleanup and restart), `ScanExecution` (the life of one scan).
- **Installer.** `ControllerPorts` fills in missing controller ports.

Code that changes state step by step is a method or a class whose contract gives the new state as a function of the old
one; the theorems are lemmas about those functions, most of them over every run or every interleaving.

## Where the code does less, or something else, than it says

Each of these is a result of the model, with the condition under which the code does meet its purpose.

- `find_cn_cut_edges` skips wired links by design, so of the edges that take a CN's last PoP it reports exactly the
  wireless ones. It also reports wireless bridges whose loss costs no CN a PoP. As long as no link ends at a node named
  "source", a wireless bridge is such a false alarm exactly when it lies outside the component of the source and that
  component has a CN, or its near end (the one that stays with the source) is a CN and no CN is behind it
  (`CutEdges.CutEdgesOfTopology`, `CutEdges.FalseAlarmExact`; `CutEdges.RelayingCnOverReports` and
  `CutEdges.IslandOverReports` are networks with one).
- The id of a ping target is meant to be its name and network with a NUL between them, but appending the C string `"\0"`
  appends nothing. No run throws for a list of plans exactly when the targets probed have different ids
  (`PingerResults.NeverFailsExact`; `PingerResults.IdsCollide` are two plans with a run that throws).
- `getLinkEvents` extends the first row it gets although the query has no ORDER BY. The online seconds are right exactly
  when no other row reaches into the extension; newest-first order guarantees that, oldest-first order does not
  (`LinkAvailability.OnlineExact`, `LinkAvailability.OldestFirstOvershoots`).
- In the capacity estimate a CN that lies on the path of a CN visited earlier keeps the constant net flow 0. With positive
  capacities and names that tell links apart, a value above 0 can be reported exactly when there is no such CN
  (`MaxMinFlow.PositiveExact`). The CNs are a Python set, so the same network can give 0 in one visiting order and not in
  another (`MaxMinFlow.FarFirstGivesNothing`, `MaxMinFlow.NearFirstGivesSomething`).
- The foliage factor can exceed 1, because the covariance divides by one less than the variances do. A window of `m`
  samples stays within 1 exactly when the correlation of the two series is at most `(m - 1) / m`
  (`FoliageFactor.WithinOneExact`); identical series give `m / (m - 1)`, and 2 is never exceeded, whatever the settings
  (`FoliageFactor.OutcomeWithin`).
- The route-history handler looks up a node's newest earlier row by the time of the newest earlier row of any node of that
  name, in whatever network. It finds the right rows exactly when no namesake has a later one before the window
  (`RouteHistory.HandlerSelectsExact`, `RouteHistory.NamesakeHides`). With the right rows, utilization is exact for every
  window (`RouteHistory.UtilizationOfSnapshots`).
- A CN with two links is remembered by one of them. With unique link names the second pass of the power status finds the
  links of unreachable nodes for every answer exactly when no CN has two links (`PowerStatus.FlagsExactIff`).
- The power status applies `int()` to the strings that Prometheus sends, and `int("0.033")` raises, so that no state is
  returned at all. The third query asks for a rate per second, which usually is a fraction. A run raises exactly when the
  first answer has a row without a link-name label or one with a name and no integer; or, while links are left, the second
  has a row without an integer or a count above 5 without a node; or, while links are still left, the third has a row
  without a link name or without an integer (`PowerStatus.PowerStatusCheck.CheckAllCriteria`,
  `PowerStatus.FractionalRateRaises`).
- The limit of 480 samples in memory is not applied when a run finds fewer than two valid samples
  (`LinkTimeline.MemoryBound`).
- A restart during the waiting time of the cleanup agrees with the cleanup's verdict exactly when no session has reported
  or one has reported success (`TestResults.RestartAgreesExact`, `TestResults.RestartDiffers`).
- A port set by the user on a later controller can repeat a port generated for an earlier one
  (`ControllerPorts.LateUserPortCollides`). As long as the ranges of the four kinds stay apart, all ports differ exactly
  when every port that is set has, at that moment, not been set before and lies in no range that a counter has passed
  (`ControllerPorts.PortsDistinctIff`); the code does not make this test. Users avoid that by setting no port twice
  and none that is in the range of a port left open before (`ControllerPorts.PortsDistinct`).

## Model

| member | source | states |
|---|---|---|
| LinkTimeline.ProcessLinkStats | query_service/src/NetworkHealthUtils.cpp:37-213 | the whole run: events and samples kept, as functions of the last event and the samples |
| LinkTimeline.FindValid | query_service/src/NetworkHealthUtils.cpp:47-66 | the loop over the samples collects the valid series |
| LinkTimeline.ValidSeriesIs | query_service/src/NetworkHealthUtils.cpp:49-66 | the series is in time order and holds exactly the samples with both counters that are newer than the last event |
| LinkTimeline.AddInterval | query_service/src/NetworkHealthUtils.cpp:75-185 | one loop pass, rewriting the last event in place, is the step that the theorems are about |
| LinkTimeline.DropOld | query_service/src/NetworkHealthUtils.cpp:187-210 | the two erase loops leave the samples from the latest valid one on, at most the newest 480 |
| LinkTimeline.TransitionBounds | query_service/src/NetworkHealthUtils.cpp:109-137 | for consistent counters the truncated start and the rounded-up data-down time fall inside the interval |
| LinkTimeline.AssertionsHold | query_service/src/NetworkHealthUtils.cpp:108-161 | both assertions of the code hold for consistent counters, and the padded event ends by the sample |
| LinkTimeline.StepTimeline | query_service/src/NetworkHealthUtils.cpp:98-185 | every branch keeps events in order and apart, only lengthens the last one, and marks the rest as new |
| LinkTimeline.StepPaints | query_service/src/NetworkHealthUtils.cpp:109-184 | exactly which seconds a pass adds, and in which state, whatever branch it takes |
| LinkTimeline.DataDownAccuracy | query_service/src/NetworkHealthUtils.cpp:133-173 | painted data-down time is the counters' shortfall to within a second, except exactly when a running data-down event that ended before the transition is stretched |
| LinkTimeline.EventsTimeline | query_service/src/NetworkHealthUtils.cpp:72-186 | a whole run yields a timeline that continues the last event |
| LinkTimeline.RunPaints | query_service/src/NetworkHealthUtils.cpp:72-186 | a run's events cover what the last event covered and exactly the seconds that its intervals paint |
| LinkTimeline.MemoryBound | query_service/src/NetworkHealthUtils.cpp:67-71 | at most 480 samples stay exactly when there were no more before or the run had two valid samples |
| IntervalSeconds.UpEventStarts | query_service/src/NetworkHealthUtils.cpp:109-163 | a new up event starts in the second that the uptime counter gives (16 seconds for 625 counts) or at the end of the last event if later; an up event that ended at or after that second is continued instead |
| IntervalSeconds.StepIs | query_service/src/NetworkHealthUtils.cpp:74-185 | the whole step in every branch, also for counters that are not healthy |
| IntervalSeconds.AvailableThroughout | query_service/src/NetworkHealthUtils.cpp:110-129 | an interval with data throughout adds up time from that second, or the last event's end, until now |
| IntervalSeconds.AvailableInPart | query_service/src/NetworkHealthUtils.cpp:135-184 | one with data in part adds up time and then as many data-down seconds as are missing, with one second of padding where there is no up time |
| IntervalSeconds.NeverAvailable | query_service/src/NetworkHealthUtils.cpp:135-184 | one without any data adds data-down seconds, or lengthens a running data-down event over the gap |
| IntervalSeconds.LinkNotUp | query_service/src/NetworkHealthUtils.cpp:98-100 | a counter at zero adds nothing |
| IntervalSeconds.HundredSeconds | query_service/src/NetworkHealthUtils.cpp:109-129 | two samples with a hundred seconds of uptime, without and after an older event |
| LinkEventTable.ApartMeansNoSharedSecond | query_service/src/NetworkHealthUtils.cpp:138-184 | two half-open events are apart if and only if no second belongs to both |
| LinkEventTable.RecordIs | query_service/src/NetworkHealthService.cpp:149-163 | consuming a counter keeps the samples sorted and changes exactly that counter of the sample of that time |
| LinkEventTable.CounterArrives | query_service/src/NetworkHealthService.cpp:149-163 | an arriving counter is stored as it is, the other counter of its sample stays or is -1, and no other sample changes |
| LinkEventTable.KeptIsNewest | query_service/src/NetworkHealthUtils.cpp:187-210 | a run with two valid samples keeps exactly the samples from the last valid one on, or the newest 480 of them |
| LinkEventTable.WriteNew | query_service/src/MySqlClient.cpp:328-366 | inserting new events, with any of the writes lost, keeps the table a timeline |
| LinkEventTable.WriteContinuation | query_service/src/NetworkHealthUtils.cpp:224-241 | writing back a run that continues a newest row changes no other row and moves no end back |
| LinkEventTable.UpdateKeepsTimeline | query_service/src/NetworkHealthService.cpp:187-219 | one updater run keeps all rows apart and extends at most the newest one |
| LinkEventTable.TimelineAlways | query_service/src/NetworkHealthService.cpp:178-222 | after any arrivals and runs, with any lost writes, rows are apart, none is restarted, no end has moved back, and a row that another outlasts never changes again |
| LinkEventTable.UpdateStoresPainted | query_service/src/NetworkHealthService.cpp:187-219 | after a run whose writes all land, the table says of every second what it said before or what the new samples paint |
| LinkEventTable.NeverBothStates | query_service/src/NetworkHealthService.cpp:178-222 | no second is ever stored both with and without data |
| LinkEventTable.NetworkHealthService.LinkHealthUpdater | query_service/src/NetworkHealthService.cpp:178-222 | one updater run as a step of the table machine |
| LinkEventTable.NetworkHealthService.UpdateLinkEventRecords | query_service/src/NetworkHealthUtils.cpp:215-242 | the statements in order, each of which may be lost |
| LinkAvailability.GetLinkEvents | query_service/src/MySqlClient.cpp:202-241 | the clipped events and both percentages of one link |
| LinkAvailability.ClippedSeconds | query_service/src/MySqlClient.cpp:224-229 | a clipped event covers exactly the seconds of the event inside the window |
| LinkAvailability.OnlineIsDepthTotal | query_service/src/MySqlClient.cpp:222-236 | the sum of clipped lengths counts each second as often as events cover it |
| LinkAvailability.ExtensionOverlap | query_service/src/MySqlClient.cpp:208-218 | extending the first row makes seconds count twice exactly when another row reaches into the extension |
| LinkAvailability.OnlineExact | query_service/src/MySqlClient.cpp:208-236 | online seconds equal the seconds covered if and only if the first row has room |
| LinkAvailability.NewestFirstHasRoom | query_service/src/MySqlClient.cpp:209-217 | rows read newest first always leave room |
| LinkAvailability.DataDownWithinOnline | query_service/src/MySqlClient.cpp:230-234 | data-down seconds lie between zero and the online seconds |
| LinkAvailability.PercentagesInOrder | query_service/src/MySqlClient.cpp:237-240 | 0 <= linkAvailForData <= linkAlive <= 100 for rows that are apart and leave room |
| LinkAvailability.PercentagesAreShares | query_service/src/MySqlClient.cpp:211-240 | linkAvailForData is the share of seconds that are up with data (stored so, or after a recent first row), linkAlive the share of those that are up at all |
| LinkAvailability.StoredRowsGivePercentages | query_service/src/MySqlClient.cpp:202-241 | the same for any rows that the service has stored after any history, read newest first, and the percentages are those shares |
| LinkAvailability.OldestFirstOvershoots | query_service/src/MySqlClient.cpp:172-178 | in a window of one hour the same two rows give 100 seconds too many in one order and the exact hour in the other |
| CutEdges.BuildTopologyGraph | optimizer_service/optimizer_service/optimizations/graph.py:13-37 | nodes are the topology's (linked or not), the link ends and the source if it has a PoP; edges are the links and the source's edges to primary PoPs; parallel links share an edge with the last one's type |
| CutEdges.TopologyGraphIs | optimizer_service/optimizer_service/optimizations/graph.py:18-32 | which nodes and edges the graph has and which nodes are CNs, element by element |
| CutEdges.LastTypeIs | optimizer_service/optimizer_service/optimizations/graph.py:29-32 | the type of an edge is that of the last link listed between its ends |
| CutEdges.PopsOfTopologyAre | optimizer_service/optimizer_service/optimizations/graph.py:20-25 | the neighbours of the source are exactly the primary PoP nodes |
| CutEdges.Graph.FindCnCutEdges | optimizer_service/optimizer_service/optimizations/graph.py:40-57 | the result is the wireless bridges that meet the criterion on the whole graph; the edge set is unchanged |
| CutEdges.Graph.IsCnCutEdge | optimizer_service/optimizer_service/optimizations/graph.py:60-92 | removing, searching and restoring leaves nodes and edges as they were |
| Connectivity.NonBridgeHarmless | optimizer_service/optimizer_service/optimizations/graph.py:50-52 | removing an edge that is no bridge changes nobody's connections |
| Connectivity.ConnectedAfterRemoval | optimizer_service/optimizer_service/optimizations/graph.py:74-75 | a connection survives a removal or leads to an end of the removed edge |
| CutEdges.CriterionExact | optimizer_service/optimizer_service/optimizations/graph.py:68-92 | for a bridge, finding a new component with CNs and no PoP means that some CN next to it has no PoP left |
| CutEdges.LosingNeedsBridge | optimizer_service/optimizer_service/optimizations/graph.py:50-56 | only a bridge can take a CN's last PoP |
| CutEdges.ReportedExact | optimizer_service/optimizer_service/optimizations/graph.py:50-57 | an edge is reported, in either direction, exactly if it is a wireless bridge with a CN end or one that isolates a CN |
| CutEdges.CutEdgesCorrect | optimizer_service/optimizer_service/optimizations/graph.py:40-92 | an edge whose loss costs a CN its last PoP is reported exactly if it is wireless; near the source a wireless edge without a CN end is reported only then |
| CutEdges.CutEdgesOfTopology | optimizer_service/optimizer_service/optimizations/graph.py:13-57 | for any topology and pair of nodes, what the result of building the graph and searching it says: losing edges exactly if wireless, false alarms exactly if harmless, and wireless bridges only |
| CutEdges.LosersAreBehindTheBridge | optimizer_service/optimizer_service/optimizations/graph.py:73-90 | the CNs that lose their last PoP are exactly those behind the bridge |
| CutEdges.FalseAlarmExact | optimizer_service/optimizer_service/optimizations/graph.py:40-92 | for every bridge: it is reported and nobody loses a PoP if and only if it is wireless and in a component with a CN but without the source, or wireless with a CN at the near end and none behind |
| CutEdges.RelayingCnOverReports | optimizer_service/optimizer_service/optimizations/graph.py:68-72 | a network of wireless links with a false alarm behind a CN that relays |
| CutEdges.IslandOverReports | optimizer_service/optimizer_service/optimizations/graph.py:73-90 | a network of wireless links with a false alarm on an island, at an edge without a CN end |
| FlowModel.FlowGraph.AddNode | optimizer_service/optimizer_service/optimizations/flow_graph.py:69-71 | a node that is there already keeps its kind of net flow |
| FlowModel.FlowGraph.AddEdge | optimizer_service/optimizer_service/optimizations/flow_graph.py:73-91 | a new edge is wired into both its nodes, a known name changes nothing |
| FlowModel.NewEdgeWired | optimizer_service/optimizer_service/optimizations/flow_graph.py:31-52 | after adding an edge every node lists exactly the flows and times of the edges that touch it |
| FlowModel.Conservation | optimizer_service/optimizer_service/optimizations/flow_graph.py:21-59 | in every feasible assignment the net flows of all nodes cancel |
| FlowModel.SourceFeedsAllSinks | optimizer_service/optimizer_service/optimizations/flow_graph.py:93-104 | a max-min value m costs the source m for every sink |
| FlowModel.EstimateCapacity | optimizer_service/optimizer_service/optimizations/graph.py:126-174 | nodes, sinks and net-flow variables of the network built from the paths; every hop has its edge, and every edge the name, capacity and time sharing of its link |
| FlowModel.VariableExact | optimizer_service/optimizer_service/optimizations/graph.py:143-154 | a sink has a net-flow variable if and only if it relays for no CN visited before it |
| FlowModel.RelayForcesZero | optimizer_service/optimizer_service/optimizations/flow_graph.py:101-104 | with such a sink no value above 0 can be reported |
| MaxMinFlow.AllBalance | optimizer_service/optimizer_service/optimizations/graph.py:142-168 | sending an amount along the path of every sink leaves every node balanced but the source and the sinks |
| MaxMinFlow.Sendable | optimizer_service/optimizer_service/optimizations/flow_graph.py:93-108 | a small enough amount for every sink meets all node and edge constraints |
| MaxMinFlow.PositiveExact | optimizer_service/optimizer_service/optimizations/graph.py:142-173 | some value above 0 can be reported if and only if no sink relays for one visited before it |
| MaxMinFlow.FarFirstGivesNothing | optimizer_service/optimizer_service/optimizations/graph.py:142-154 | a network and visiting order for which nothing above 0 can be reported |
| MaxMinFlow.NearFirstGivesSomething | optimizer_service/optimizer_service/optimizations/graph.py:142-154 | the same network in the other order |
| Airtime.EdgeOfLink | optimizer_service/optimizer_service/optimizations/graph.py:155-168 | every edge has the name, the capacity and the time sharing of its link |
| Airtime.NodeListsWirelessEnds | optimizer_service/optimizer_service/optimizations/flow_graph.py:48-52 | a node lists the time of every wireless edge once for each end there, and no other times |
| Airtime.ReportableExact | optimizer_service/optimizer_service/optimizations/flow_graph.py:20-109 | a value can be reported if and only if some flow gives it to every CN, within the wired capacities and with the wireless links of each node sharing one wireless capacity |
| FlowModel.EstimateBoundedBySource | optimizer_service/optimizer_service/optimizations/graph.py:132-173 | any reported value, times the number of sinks, is paid for by the source |
| Checksum.Uint16Checksum | udp_pinger/src/UdpPinger.cpp:87-101 | the loop over 16-bit loads on a little-endian host is the sum of big-endian words modulo 2^32 |
| Checksum.Ipv6UdpCheckSum | udp_pinger/src/UdpPinger.cpp:103-132 | the checksum is the complement of the whole sum, without wrap-around |
| Checksum.TotalBound | udp_pinger/src/UdpPinger.cpp:113-120 | the 32-bit sum of addresses, pseudo-header and packet never overflows |
| Checksum.ComplementCompletes | udp_pinger/src/UdpPinger.cpp:122-131 | for every sum the result is never 0, and with its two bytes swapped it completes the sum to a positive multiple of 0xFFFF |
| Checksum.TwoFoldsSuffice | udp_pinger/src/UdpPinger.cpp:122-123 | two folds of a 32-bit sum fit into 16 bits and give the sum modulo 0xFFFF, with 0xFFFF for all multiples but 0 |
| Checksum.OnesSumIs | udp_pinger/src/UdpPinger.cpp:122-123 | ones'-complement addition is addition modulo 0xFFFF with 0xFFFF for 0 (sections 1 and 2 of RFC 1071) |
| Checksum.StampedPacketAccepted | udp_pinger/src/UdpPinger.cpp:403-413 | a receiver summing pseudo-header and stamped packet gets 0xFFFF (section 8.1 of RFC 8200, RFC 768) |
| Checksum.BigEndianValue | udp_pinger/src/UdpPinger.cpp:116-117 | htonl: four bytes, the highest first |
| Checksum.AcceptsExact | udp_pinger/src/UdpPinger.cpp:113-120 | a receiver accepts exactly what adds up to a positive multiple of 0xFFFF: addresses, length, protocol and packet, byte by byte |
| Checksum.TotalIsReceived | udp_pinger/src/UdpPinger.cpp:113-120 | what is summed for any packet: the words of both addresses and the packet, plus its length and its protocol |
| Checksum.StampedPacketAddsUp | udp_pinger/src/UdpPinger.cpp:403-413 | stamping changes bytes 6 and 7 only, low byte first, and the packet then adds up |
| Checksum.WordErrorDetected | udp_pinger/src/UdpPinger.cpp:103-132 | damage to one word is noticed unless it swaps 0000 and FFFF |
| Checksum.RttSurvivesWrap | udp_pinger/src/UdpPinger.cpp:706-709 | the 32-bit difference of the four stamps is the true round-trip time below 2^32 microseconds |
| ProbeSender.UdpSender.constructor | udp_pinger/src/UdpPinger.cpp:360-371 | the source ports are the configured range without the missing ones |
| ProbeSender.SrcPortsDistinct | udp_pinger/src/UdpPinger.cpp:364-371 | the ports increase and are exactly the usable ones |
| ProbeSender.UdpSender.PingAllTargets | udp_pinger/src/UdpPinger.cpp:373-465 | with finitely many retries the loop ends, every plan has sent what it should, on the ports in turn |
| ProbeSender.UdpSender.Sweep | udp_pinger/src/UdpPinger.cpp:374-447 | a sweep makes progress unless it reports that all is done |
| ProbeSender.UdpSender.SendProbe | udp_pinger/src/UdpPinger.cpp:395-434 | an attempt that must be repeated gives its turn and its port back |
| ProbeSender.RoundRobinCount | udp_pinger/src/UdpPinger.cpp:395-396 | after q rounds and r probes the first r ports are used q + 1 times and the others q times |
| ProbeSender.PortsBalanced | udp_pinger/src/UdpPinger.cpp:395-427 | per target no two ports differ by more than one |
| Histograms.AverageIsMean | udp_pinger/src/UdpPinger.h:65-69 | the running average of the histogram is the mean |
| Histograms.MaximumAttained | udp_pinger/src/UdpPinger.h:70-72 | the maximum bounds all samples and is one of them, or 0 |
| ReplyHistory.HistogramsExact | udp_pinger/src/UdpPinger.cpp:57-84 | each host's histogram is made of the times of its own replies, each network's of those of its hosts |
| ReplyHistory.ExecuteConsumes | udp_pinger/src/UdpPinger.cpp:729-746 | after any interleaving a receiver's histograms are those of the probes it has consumed, in order |
| ReplyHistory.RunHistograms | udp_pinger/src/UdpPinger.cpp:57-84 | so each histogram of a run holds exactly the times of the replies consumed there |
| ProbeReceivers.ConsumeOk | udp_pinger/src/UdpPinger.cpp:57-84 | counting a reply keeps a network's count equal to its hosts' counts |
| ProbeReceivers.StepOk | udp_pinger/src/UdpPinger.cpp:729-746 | forwarding, losing or consuming a reply keeps every count at the receiver that owns the network |
| ProbeReceivers.RunOk | udp_pinger/src/UdpPinger.cpp:828-846 | so does every interleaving of any number of receivers, from the start |
| ProbeReceivers.CountedOnce | udp_pinger/src/UdpPinger.cpp:729-746 | each network is counted at one receiver only |
| ProbeReceivers.UdpReceiver.ConsumeMessage | udp_pinger/src/UdpPinger.cpp:616-632 | the receiver object's counting is the step of the machine |
| ProbeReceivers.UdpReceiver.TakeFromQueue | udp_pinger/src/UdpPinger.cpp:616-632 | taking one message off the own queue |
| ProbeReceivers.OnMessageAvailable | udp_pinger/src/UdpPinger.cpp:720-746 | a reply is consumed by its owner or put into the owner's queue |
| PingerResults.CountProbes | udp_pinger/src/UdpPinger.cpp:854-867 | expected probes per id (first plan wins) and per network (all plans) |
| PingerResults.FirstTarget | udp_pinger/src/UdpPinger.cpp:814-821 | the target of an address is that of the first plan with it |
| PingerResults.FirstPlan | udp_pinger/src/UdpPinger.cpp:860-867 | the plan of an id is the first one with it |
| PingerResults.SummarizeReceiver | udp_pinger/src/UdpPinger.cpp:562-588 | one result for every host that the receiver counted, with its count, average and maximum |
| PingerResults.SummarizeHosts | udp_pinger/src/UdpPinger.cpp:905-914 | together the receivers have one result for every address that answered |
| PingerResults.SummarizeNetworks | udp_pinger/src/UdpPinger.cpp:590-608 | and one for every network that answered, with its count, average and maximum |
| PingerResults.MatchHosts | udp_pinger/src/UdpPinger.cpp:922-961 | the lookups succeed exactly if all ids are known and distinct; then every id has one result |
| PingerResults.MatchNetworks | udp_pinger/src/UdpPinger.cpp:933-974 | the same for networks |
| PingerResults.HostLookupExact | udp_pinger/src/UdpPinger.cpp:922-927 | the lookup fails if and only if two hosts that answered share an id |
| PingerResults.DistinctIdsLookUp | udp_pinger/src/UdpPinger.cpp:922-927 | with distinct ids it never fails |
| PingerResults.NeverFailsExact | udp_pinger/src/UdpPinger.cpp:811-927 | over all runs from fresh receivers the lookup never fails if and only if the targets probed have different ids |
| PingerResults.IdsCollide | udp_pinger/src/UdpPinger.cpp:861-926 | two plans for different networks, and a run of them that throws |
| PingerResults.NetworkLookupSucceeds | udp_pinger/src/UdpPinger.cpp:933-936 | the lookup of networks never fails |
| PingerResults.OneResultPerTarget | udp_pinger/src/UdpPinger.cpp:922-961 | every target has exactly one result: its replies, or dead |
| PingerResults.RecvAddsUp | udp_pinger/src/UdpPinger.cpp:905-920 | the replies of a network are those of its hosts together |
| PingerResults.XmitAddsUp | udp_pinger/src/UdpPinger.cpp:860-867 | the probes of a network are those of its hosts together |
| PingerResults.NetworksAddUp | udp_pinger/src/UdpPinger.cpp:922-974 | every network has one final result and it is the total of its hosts' results |
| PingerResults.Run | udp_pinger/src/UdpPinger.cpp:854-976 | the accounting from plans and receivers to the two result lists, or the exception |
| PingerResults.RunPinger | udp_pinger/src/UdpPinger.cpp:752-977 | for any receivers, interleaving and losses: it throws exactly if the lookup fails, and with distinct ids every plan has one result, every network one total, and there is nothing else |
| PingerResults.LossIsWeightedMean | udp_pinger/src/UdpPinger.cpp:929-970 | the loss ratio of a network is the mean of its hosts' ratios weighted by the probes sent |
| PingerResults.TimesReported | udp_pinger/src/UdpPinger.cpp:562-586 | the times behind a host's result are those of the replies that its network's owner has consumed |
| PingReports.ResultIsByTimes | udp_pinger/src/UdpPinger.cpp:562-588 | the result of a plan is a function of the times of the replies that were counted from its address |
| PingReports.HostReports | udp_pinger/src/UdpPinger.cpp:576-585 | it reports their number, mean and maximum in milliseconds and the loss, or a dead host if there are none |
| PingReports.UnknownIsDead | udp_pinger/src/UdpPinger.cpp:949-961 | a plan with a malformed address, or one taken by an earlier plan, is reported dead |
| PingReports.NetworkReports | udp_pinger/src/UdpPinger.cpp:590-606 | the result of a network reports number, mean and maximum over all its addresses |
| RouteUtilization.RoutesDuration | default_routes_service/default_routes_service/utils/utilization.py:40-57 | the loop's durations, for exactly the routes met, sum to the window |
| RouteUtilization.DurationExact | default_routes_service/default_routes_service/utils/utilization.py:40-57 | despite the negative first term each duration is the exact time during which the latest row carried the routes |
| RouteUtilization.DurationsExactIff | default_routes_service/default_routes_service/utils/utilization.py:40-57 | for change logs the precondition is exact: all durations are right if and only if at most one row lies before the window |
| RouteUtilization.TwoRowsBeforeFail | default_routes_service/default_routes_service/utils/utilization.py:42-53 | with two rows before the window the first routes get too little |
| RouteUtilization.GroupByNode | default_routes_service/default_routes_service/utils/utilization.py:33-35 | rows are grouped by node in order |
| RouteUtilization.ComputeRoutesUtilization | default_routes_service/default_routes_service/utils/utilization.py:25-68 | one percentage for each of a node's routes, or the division by an empty window |
| RouteUtilization.ChangesOfExact | default_routes_service/default_routes_service/utils/utilization.py:25-68 | a node's group holds exactly its rows, in order |
| RouteUtilization.RoutesSeenExact | default_routes_service/default_routes_service/utils/utilization.py:25-68 | an entry for the routes of every row, and one for the time before the first row if there is such |
| RouteUtilization.PercentagesExact | default_routes_service/default_routes_service/utils/utilization.py:25-68 | a percentage is the share of seconds during which the routes were in force |
| RouteOrder.RouteLeIsTotalOrder | default_routes_service/default_routes_service/utils/db.py:49 | comparing lists of strings lexicographically, down to characters, is a total order |
| RouteOrder.RouteLeIs | default_routes_service/default_routes_service/utils/db.py:49 | a route comes before another if it is its beginning, or if the first hop that differs does |
| RouteOrder.StringLeIs | default_routes_service/default_routes_service/utils/db.py:49 | the same for hops, character by character |
| RouteOrder.SortBySorts | default_routes_service/default_routes_service/utils/db.py:49 | sorting sorts and permutes |
| RouteOrder.SortCanonical | default_routes_service/default_routes_service/utils/db.py:78 | two route lists sort to the same list if and only if one is a permutation of the other |
| RouteHistory.DefaultRoutesHistory.SaveDefaultRoutes | default_routes_service/default_routes_service/utils/db.py:15-89 | a save appends a row for exactly the new and changed nodes and tells which known routes were replaced |
| RouteHistory.DefaultRoutesHistory.CompareNewest | default_routes_service/default_routes_service/utils/db.py:43-67 | the loop over the newest rows deals with exactly the known nodes |
| RouteHistory.DefaultRoutesHistory.AddNewNodes | default_routes_service/default_routes_service/utils/db.py:69-82 | the loop over what is left deals with exactly the new ones |
| RouteHistory.RunIsLog | default_routes_service/default_routes_service/utils/db.py:84-89 | over any sequence of saves the rows of a node are its log |
| RouteHistory.LogIsChangeLog | default_routes_service/default_routes_service/utils/db.py:50-64 | rows of a node follow in time and always differ from the one before |
| RouteHistory.NewestMatchesSnapshot | default_routes_service/default_routes_service/utils/db.py:48-81 | after a save the newest row of every node in the snapshot holds its sorted routes |
| RouteHistory.FlagExact | default_routes_service/default_routes_service/utils/db.py:48-67 | a change is reported for exactly the known nodes whose routes differ, in whatever order, from those they reported last |
| RouteHistory.RowsAreReports | default_routes_service/default_routes_service/utils/db.py:50-82 | every row has the time, the sorted routes and the hop count of one snapshot |
| RouteHistory.LogIsFaithful | default_routes_service/default_routes_service/utils/db.py:41-87 | at every moment the log answers what the snapshots would have answered |
| RouteHistory.OrderLeavesNoTrace | default_routes_service/default_routes_service/utils/db.py:49-51 | permuting the reported routes changes no row |
| RouteHistory.SelectedMeets | default_routes_service/default_routes_service/routes.py:116-165 | the newest earlier row and the rows inside the window meet what the computation asks for |
| RouteHistory.SelectedAt | default_routes_service/default_routes_service/routes.py:116-165 | throughout the window this selection answers what the whole log answers |
| RouteHistory.UtilizationOfSnapshots | default_routes_service/default_routes_service/routes.py:104-187 | for every window, utilization computed from the selection is utilization of the snapshots |
| RouteHistory.HandlerSelectsExact | default_routes_service/default_routes_service/routes.py:130-157 | the handler's query makes that selection if and only if no namesake in another network hides the newest earlier row |
| RouteHistory.NamesakeHides | default_routes_service/default_routes_service/routes.py:141-155 | a table in which a namesake does |
| PathLoss.CalculatePathLoss | analytics/analytics/link_insight.py:104-129 | the two-pointer loop computes the merge of the two lists |
| PathLoss.MergeIsJoin | analytics/analytics/link_insight.py:104-129 | for increasing times the merge is the nested-loop join: keys and values, both directions |
| FoliageFactor.ComputeFoliageFactor | analytics/analytics/link_insight.py:132-186 | for any series and settings: the common times in some order, and too few of them, a division by zero, NaN or the weighted average over the overlapping windows |
| FoliageFactor.WindowTerms | analytics/analytics/link_insight.py:157-177 | weight and factor of the windows that vary enough, or NaN if a negative minimum lets through a window that does not vary |
| FoliageFactor.WeightedAverage | analytics/analytics/link_insight.py:178-186 | the accumulator loop is the weighted average |
| FoliageFactor.SingleSampleIsStable | analytics/analytics/link_insight.py:164-169 | a window of one sample is always skipped, so the covariance is always defined |
| FoliageFactor.CauchySchwarz | analytics/analytics/link_insight.py:172-176 | the square of the dot product is at most the product of the squares |
| FoliageFactor.NormalizedBound | analytics/analytics/link_insight.py:170-176 | a window of m samples has a factor of at most m / (m - 1) in size |
| FoliageFactor.WithinOneExact | analytics/analytics/link_insight.py:170-176 | a window's factor lies within 1 if and only if the correlation of its m samples is at most (m - 1) / m |
| FoliageFactor.IdenticalSeriesExceedOne | analytics/analytics/link_insight.py:170-176 | identical series reach that bound |
| FoliageFactor.FoliageFactorBound | analytics/analytics/link_insight.py:157-186 | the foliage factor lies within w / (w - 1), and within 2 |
| FoliageFactor.OutcomeWithin | analytics/analytics/link_insight.py:147-186 | for any settings a reported number lies within 2; for sensible ones there is a number exactly if there are enough samples |
| FoliageMoments.FactorIs | analytics/analytics/link_insight.py:157-186 | the reported number is the mean of covariance over the root of the variances, weighted by the variances, over the windows that vary, by the textbook formulas over index ranges |
| FoliageMoments.OutcomeKinds | analytics/analytics/link_insight.py:147-158 | when there are too few samples, no windows, or no samples at all |
| FoliageMoments.StillWindowIsNaN | analytics/analytics/link_insight.py:164-177 | with a negative minimum the result is NaN exactly if some window has a series that does not vary |
| PowerStatus.GetCnInfo | analytics/analytics/visibility.py:76-114 | the tables hold the last wireless CN link of every name and no lookup in them fails; they agree with one another if link names are unique; or a KeyError |
| PowerStatus.ReadNodes | analytics/analytics/visibility.py:80-86 | the radios of client nodes, and for every radio the node listed last with it |
| PowerStatus.LastOwnerIs | analytics/analytics/visibility.py:82-84 | the owner of a radio is the last node that lists it |
| PowerStatus.ReadLinks | analytics/analytics/visibility.py:88-114 | the loop over the links builds such tables |
| PowerStatus.LinkNamesAre | analytics/analytics/visibility.py:90-106 | the links listed are the wireless ones with a CN end |
| PowerStatus.TablesHoldEnds | analytics/analytics/visibility.py:94-113 | the tables hold name and address of the CN end (the first end if both are CNs) and the address of the other end |
| PowerStatus.PowerStatusCheck.CheckFwUptime | analytics/analytics/visibility.py:195-224 | exactly the links with a positive uptime row are taken out, as alive; raises exactly for a row without a link-name label, or with a name and no integer |
| PowerStatus.PowerStatusCheck.CheckMiscsysTsf | analytics/analytics/visibility.py:248-301 | exactly the links listed under unreachable nodes are taken out; raises exactly if links are left and a row has no integer, or a count above 5 and no node |
| PowerStatus.PowerStatusCheck.CheckNeighbours | analytics/analytics/visibility.py:286-301 | all client nodes of one unreachable node |
| PowerStatus.PowerStatusCheck.CheckLinkAttempts | analytics/analytics/visibility.py:348-382 | the first row of a link decides; raises exactly if links are left and a row has no link name or no integer |
| PowerStatus.PowerStatusCheck.CheckUnknown | analytics/analytics/visibility.py:385-405 | whatever is left is unknown |
| PowerStatus.PowerStatusCheck.CheckAllCriteria | analytics/analytics/visibility.py:408-449 | for any answers a run raises exactly under the stated condition; otherwise each wireless CN link gets exactly one state, and it is the specified one |
| PowerStatus.StatusMeans | analytics/analytics/visibility.py:195-382 | where no CN has two links: alive with some uptime above zero, unreachable with at most five time stamps of its DN, otherwise decided by the first attempt rate |
| PowerStatus.RightStateMac | analytics/analytics/visibility.py:286-300 | with unique link names every state carries the address of its link's own CN |
| PowerStatus.WhichRowsRaise | analytics/analytics/visibility.py:195-358 | which rows each pass refuses: a missing label, an empty one in the third pass only, and values that are no integers |
| PowerStatus.FractionalRateRaises | analytics/analytics/visibility.py:348-358 | an answer with one fractional rate that makes the whole run raise |
| PowerStatus.FlagsExactIff | analytics/analytics/visibility.py:286-301 | the second pass flags exactly the links of unreachable nodes, for every answer, if and only if no CN has two links |
| PowerStatus.SecondLinkMissed | analytics/analytics/visibility.py:110-113 | the overwritten link of a CN with two links is never flagged |
| TestSchedule.NetworkTest.Save | network_test/network_test/suites/base.py:104-130 | a row for every request, a session for every accepted one, and whether there was any |
| TestSchedule.NetworkTest.StartSequential | network_test/network_test/suites/sequential.py:30-93 | whatever fails, no two assets are live at once (sequentially not two sessions), and all ends within the estimate; at it, if nothing fails |
| TestSchedule.NetworkTest.RunAsset | network_test/network_test/suites/sequential.py:83-91 | one asset, in one wave or two |
| TestSchedule.NetworkTest.StartParallel | network_test/network_test/suites/parallel.py:30-91 | the exact sessions of both directions of all assets, within the estimate; sequential directions never overlap |
| TestSchedule.ParallelEstimateIsTight | network_test/network_test/suites/parallel.py:83-91 | if nothing fails the last session ends exactly at the estimate |
| TestSchedule.AcceptedExact | network_test/network_test/suites/base.py:112-122 | exactly the accepted requests get a session |
| TestSchedule.AllRequestsAre | network_test/network_test/suites/parallel.py:48-81 | both directions of one asset after those of the other |
| TestSchedule.NoSharedMoment | network_test/network_test/suites/sequential.py:84-91 | ordering of sessions means that no moment sees both live |
| TestSchedule.OrderlyAppend | network_test/network_test/suites/sequential.py:83-91 | a wave started after all earlier sessions have ended keeps sessions apart |
| TestSchedule.AlternateDirections | network_test/network_test/suites/parallel.py:83-86 | every other request goes the same way |
| TestResults.Scheduler.ProcessMsg | network_test/network_test/scheduler.py:115-196 | a result marks its row, or is dropped without a matching execution |
| TestResults.Scheduler.StopExecutionBegin | network_test/network_test/scheduler.py:471-489 | the first transaction of the cleanup |
| TestResults.Scheduler.StopExecutionEnd | network_test/network_test/scheduler.py:496-521 | the second transaction, with its verdict |
| TestResults.StepOk | network_test/network_test/scheduler.py:115-196 | every step keeps rows, sessions and verdict consistent |
| TestResults.VerdictExact | network_test/network_test/scheduler.py:507-521 | for any interleaving the verdict is FINISHED if and only if some session reported in time, and no row stays open |
| TestResults.RestartLeavesNothingOpen | network_test/network_test/scheduler.py:219-271 | a restart leaves nothing running or processing: finished rows stay and all others fail, a running test fails, a waiting one has finished if some row has |
| TestResults.RestartAgreesExact | network_test/network_test/scheduler.py:240-270 | exactly when a restart gives the verdict that the cleanup would have given |
| TestResults.RestartDiffers | network_test/network_test/scheduler.py:219-270 | one session that reports an error: FINISHED for the cleanup, FAILED for a restart |
| ScanExecution.ScanTest.constructor | scan_service/scan_service/scan.py:131-146 | all tokens of the range are missing |
| ScanExecution.ScanTest.EventsHandler | scan_service/scan_service/main.py:105-117 | a response takes its token out and finishes the scan with the last one |
| ScanExecution.ScanTest.CleanupExecutionStatus | scan_service/scan_service/scheduler.py:274-294 | the cleanup timer as a step |
| ScanExecution.MissingIs | scan_service/scan_service/main.py:111-113 | the missing tokens are the range without those that have arrived |
| ScanExecution.CleanupExact | scan_service/scan_service/scheduler.py:286-294 | after any history the cleanup fails the scan if and only if no token has arrived |
| ScanExecution.StatusExact | scan_service/scan_service/scheduler.py:257-294 | the status is a function of which tokens have arrived, now and when the cleanup ran |
| ScanExecution.OrderDoesNotMatter | scan_service/scan_service/main.py:105-117 | order and duplicates of responses do not change the status, with or without a cleanup |
| ScanExecution.FinishedNeedsResponse | scan_service/scan_service/main.py:111-117 | a finished scan has had a response |
| ScanExecution.FinishedIsFinal | scan_service/scan_service/scheduler.py:286-287 | FINISHED is never left once the start timer has fired |
| ControllerPorts.GetControllersList | nms_stack/nms_cli/k8s_nms/nms.py:315-358 | every port is filled in as specified, ports that were set are kept, and the search ends |
| ControllerPorts.PortAllocator.UseOrGenerate | nms_stack/nms_cli/k8s_nms/nms.py:329-350 | one port: kept and marked, or the first free one from the key's counter |
| ControllerPorts.PortBound | nms_stack/nms_cli/k8s_nms/nms.py:341-350 | a generated port exceeds its base by at most the earlier ones of its kind and the ports in use |
| ControllerPorts.DefaultPorts | nms_stack/nms_cli/k8s_nms/nms.py:321-356 | without any port set the i-th controller gets 7007 + i, 8007 + i, 17077 + i and 6881 + i |
| ControllerPorts.PortsIncrease | nms_stack/nms_cli/k8s_nms/nms.py:349-350 | generated ports of one kind strictly increase |
| ControllerPorts.GivenOutExact | nms_stack/nms_cli/k8s_nms/nms.py:329-350 | the set of used ports and the counters tell exactly which ports have been given out before |
| ControllerPorts.PortsDistinctIff | nms_stack/nms_cli/k8s_nms/nms.py:329-356 | with ranges apart all ports differ if and only if every port that is set is, by the used ports and counters at that moment, not given out yet |
| ControllerPorts.PortsDistinct | nms_stack/nms_cli/k8s_nms/nms.py:329-356 | all ports differ if no port is set twice and none set later is in the range of a port left open |
| ControllerPorts.LateUserPortCollides | nms_stack/nms_cli/k8s_nms/nms.py:335-339 | two controllers: the port set for the second repeats the one generated for the first |

## Left out

- Kafka, MySQL, Prometheus, HTTP, sockets, clocks and threads as such: tables are sequences or maps, queues are sequences,
  answers and outcomes are parameters, handlers are steps.
- Floating point: counters, averages, path loss and percentages are exact reals or integers, the slope 1000/25.6 is
  exactly 625/16, and the final `round(..., 3)` is not modelled.
- Machine integers, except where a wrap-around matters: the checksum and the round-trip time are modelled at 32 bits; the
  counters of probes, seconds and bytes are unbounded, and so is the `setInt` of time stamps in the link-event table.
- LinkEventTable: one link and one direction (the code only fills direction A), a link name is taken to belong to one
  topology, and the updater's read and its writes are not interleaved with another updater.
- LinkAvailability.PercentagesInOrder: assumes that rows meet the window at the current time; the query compares with the
  database's own clock some moments earlier, and rows that start in the future are not excluded by it.
- Whether splitting a batch of samples gives the same events: it does not, because a later run drops the sample that the
  earlier one kept.
- CutEdges.Graph.FindCnCutEdges: networkx is taken by its definitions (bridges, connected components), and the list of
  bridges is fixed before the loop although the code draws it lazily from a graph that loses and regains edges.
- Attributes of restored edges: an edge that was checked loses them; the model keeps that, and the theorems speak of the
  link types before the search.
- remove_low_uptime_links and find_all_p2mp: the first removes edges while iterating over them, the second is a filter.
- FlowModel: nodes and edges are values in insertion order instead of shared objects, shortest paths are a parameter, and
  the solver is any assignment that meets the constraints.
- Checksum.Uint16Checksum: big-endian hosts and unaligned loads.
- Packet headers other than the checksum, signatures, truncated packets, pacing, sharding of plans over senders.
- PingerResults.Run: the time stamps of the results, which are readings of a clock.
- PingerResults.SummarizeReceiver: percentiles, which folly (not part of this model) estimates from buckets, and the time
  stamp, a reading of a clock.
- PingerResults.SummarizeNetworks: percentiles and the time stamp, as for hosts.
- save_cn_egress_routes: the same change-log pattern as save_default_routes.
- RouteHistory.DefaultRoutesHistory.SaveDefaultRoutes: rows of networks without a snapshot are skipped by the query; in
  the model they match no node of the snapshot.
- RouteHistory.HandlerSelectsExact: the query drops the earlier row of nodes that are no longer in the topology, and rows
  are taken to arrive in the order of time.
- PowerStatus: the text of an answer's value; a row holds the integer that int() makes of it, or none.
- TestSchedule: requests take no time; with slow requests sessions can outlast the estimate.
- TestResults: a manual stop, a result that arrives before its row is inserted, sessions that start after the cleanup has
  begun, and two sessions of one execution with the same pair of nodes.
- ScanExecution: overlapping token ranges, the deletion of a finished execution, and one scan object that is reused by a
  schedule for several executions.
- Health bitmaps, weather, iperf statistics, link and node health, metric cache, topology sanitizing, log parsing,
  installers, migrations, command lines, HTTP routes and user interfaces: routine lookups and straight-line code.
