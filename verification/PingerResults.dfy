/**
  Results of one run of the UDP pinger: what the receivers counted, matched up with what was sent.
 */
module PingerResults {
  import opened Histograms
  import opened Options
  import opened PingPlans
  import opened ProbeReceivers
  import opened ReplyHistory
  import opened Sets
  import opened Sums

  // Times in milliseconds; a loss ratio is None where a division by zero makes it infinite or NaN
  datatype HostResult = HostResult(
    dst: Target, numRecv: nat, rttAvg: real, rttMax: real, numXmit: int, lossRatio: Option<real>, dead: bool)

  datatype NetworkResult = NetworkResult(
    network: Network, numRecv: nat, rttAvg: real, rttMax: real, numXmit: int, lossRatio: Option<real>)

  function LossRatio(numRecv: nat, numXmit: int): Option<real> {
    if numXmit == 0 then None else Some(1.0 - numRecv as real / numXmit as real)
  }

  function HostSent(r: HostResult, numXmit: int): HostResult {
    r.(numXmit := numXmit, lossRatio := LossRatio(r.numRecv, numXmit))
  }

  function NetworkSent(r: NetworkResult, numXmit: int): NetworkResult {
    r.(numXmit := numXmit, lossRatio := LossRatio(r.numRecv, numXmit))
  }

  function HistogramAt<K>(histograms: map<K, Histogram>, key: K): Histogram {
    if key in histograms then histograms[key] else EMPTY
  }

  function HostResultOf(t: Target, h: Histogram): HostResult {
    HostResult(t, h.count, h.average / 1000.0, h.maxSample as real / 1000.0, 0, Some(0.0), false)
  }

  function NetworkResultOf(w: Network, h: Histogram): NetworkResult {
    NetworkResult(w, h.count, h.average / 1000.0, h.maxSample as real / 1000.0, 0, Some(0.0))
  }

  function DeadHost(p: TestPlan): HostResult {
    HostResult(p.target, 0, 0.0, 0.0, p.numPackets, Some(1.0), true)
  }

  function OfflineNetwork(w: Network, numXmit: int): NetworkResult {
    NetworkResult(w, 0, 0.0, 0.0, numXmit, Some(1.0))
  }

  // The code means to put a NUL between the two names, but appending the C string "\0" appends
  // nothing
  function Id(t: Target): string {
    t.name + t.network
  }

  // ---------- the tables built from the plans ----------

  // unordered_map::emplace keeps the first entry for a key
  function TargetMap(plans: seq<TestPlan>): Targets {
    if plans == [] then map[]
    else
      var before, t := TargetMap(plans[..|plans| - 1]), plans[|plans| - 1].target;
      if t.address.None? || t.address.value in before then before else before[t.address.value := t]
  }

  function FirstWithId(plans: seq<TestPlan>): map<string, TestPlan> {
    if plans == [] then map[]
    else
      var before, p := FirstWithId(plans[..|plans| - 1]), plans[|plans| - 1];
      if Id(p.target) in before then before else before[Id(p.target) := p]
  }

  // The target of an address is that of the first plan with it
  lemma {:induction false} FirstTarget(plans: seq<TestPlan>, a: Addr) returns (i: nat)
    requires a in TargetMap(plans)
    ensures i < |plans| && plans[i].target == TargetMap(plans)[a] && plans[i].target.address == Some(a)
    ensures forall j :: 0 <= j < i ==> plans[j].target.address != Some(a)
  {
    var n := |plans| - 1;
    if a in TargetMap(plans[..n]) {
      i := FirstTarget(plans[..n], a);
    } else {
      i := n;
      forall j | 0 <= j < n ensures plans[j].target.address != Some(a) {
        KnownTarget(plans[..n], j);
      }
    }
  }

  lemma {:induction false} KnownTarget(plans: seq<TestPlan>, j: nat)
    requires j < |plans|
    ensures plans[j].target.address.Some? ==> plans[j].target.address.value in TargetMap(plans)
  {
    if j < |plans| - 1 {
      KnownTarget(plans[..|plans| - 1], j);
    }
  }

  // The plan of an id is the first one with it
  lemma {:induction false} FirstPlan(plans: seq<TestPlan>, id: string) returns (i: nat)
    requires id in FirstWithId(plans)
    ensures i < |plans| && FirstWithId(plans)[id] == plans[i] && Id(plans[i].target) == id
    ensures forall j :: 0 <= j < i ==> Id(plans[j].target) != id
  {
    var n := |plans| - 1;
    if id in FirstWithId(plans[..n]) {
      i := FirstPlan(plans[..n], id);
    } else {
      i := n;
      forall j | 0 <= j < n ensures Id(plans[j].target) != id {
        KnownId(plans[..n], j);
      }
    }
  }

  lemma {:induction false} KnownId(plans: seq<TestPlan>, j: nat)
    requires j < |plans|
    ensures Id(plans[j].target) in FirstWithId(plans)
  {
    if j < |plans| - 1 {
      KnownId(plans[..|plans| - 1], j);
    }
  }

  function NetworkXmit(plans: seq<TestPlan>): map<Network, int> {
    if plans == [] then map[]
    else
      var before, p := NetworkXmit(plans[..|plans| - 1]), plans[|plans| - 1];
      var w := p.target.network;
      before[w := p.numPackets + if w in before then before[w] else 0]
  }

  // ---------- matching results with plans ----------

  function HostIds(hosts: seq<HostResult>): seq<string> {
    seq(|hosts|, k requires 0 <= k < |hosts| => Id(hosts[k].dst))
  }

  function NetworkNames(networks: seq<NetworkResult>): seq<Network> {
    seq(|networks|, k requires 0 <= k < |networks| => networks[k].network)
  }

  // Each key is found by .at() before it is erased
  predicate LooksUp<T(==)>(keys: seq<T>, known: set<T>) {
    Distinct(keys) && forall k :: k in keys ==> k in known
  }

  ghost predicate HostsComplete(first: map<string, TestPlan>, partial: seq<HostResult>, final: seq<HostResult>) {
    && |partial| <= |final|
    && Distinct(HostIds(final))
    && (forall id :: id in HostIds(final) <==> id in first)
    && (forall k :: 0 <= k < |partial| ==>
          Id(partial[k].dst) in first && final[k] == HostSent(partial[k], first[Id(partial[k].dst)].numPackets))
    && (forall k :: |partial| <= k < |final| ==>
          var id := Id(final[k].dst);
          id in first && final[k] == DeadHost(first[id]))
  }

  ghost predicate NetworksComplete(xmit: map<Network, int>, partial: seq<NetworkResult>, final: seq<NetworkResult>) {
    && |partial| <= |final|
    && Distinct(NetworkNames(final))
    && (forall w :: w in NetworkNames(final) <==> w in xmit)
    && (forall k :: 0 <= k < |partial| ==>
          partial[k].network in xmit && final[k] == NetworkSent(partial[k], xmit[partial[k].network]))
    && (forall k :: |partial| <= k < |final| ==>
          final[k].network in xmit && final[k] == OfflineNetwork(final[k].network, xmit[final[k].network]))
  }

  lemma FirstWithIdIs(plans: seq<TestPlan>, id: string)
    requires id in FirstWithId(plans)
    ensures FirstWithId(plans)[id] in plans && Id(FirstWithId(plans)[id].target) == id
  {
    if plans != [] && id in FirstWithId(plans[..|plans| - 1]) {
      FirstWithIdIs(plans[..|plans| - 1], id);
    }
  }

  method CountProbes(plans: seq<TestPlan>) returns (hostProbeCount: map<string, int>,
    hostToTarget: map<string, Target>, networkProbeCount: map<Network, int>)
    ensures var first := FirstWithId(plans);
            && hostProbeCount == (map id | id in first :: first[id].numPackets)
            && hostToTarget == (map id | id in first :: first[id].target)
    ensures networkProbeCount == NetworkXmit(plans)
  {
    hostProbeCount, hostToTarget, networkProbeCount := map[], map[], map[];
    for i := 0 to |plans|
      invariant var first := FirstWithId(plans[..i]);
                && hostProbeCount == (map id | id in first :: first[id].numPackets)
                && hostToTarget == (map id | id in first :: first[id].target)
      invariant networkProbeCount == NetworkXmit(plans[..i])
    {
      assert plans[..i + 1][..i] == plans[..i];
      var target, id := plans[i].target, Id(plans[i].target);
      if id !in hostProbeCount {
        hostProbeCount := hostProbeCount[id := plans[i].numPackets];
      }
      if target.network !in networkProbeCount {
        networkProbeCount := networkProbeCount[target.network := 0];
      }
      networkProbeCount := networkProbeCount[target.network := networkProbeCount[target.network] + plans[i].numPackets];
      if id !in hostToTarget {
        hostToTarget := hostToTarget[id := target];
      }
    }
    assert plans[..|plans|] == plans;
  }

  // The first k results have been given what was sent to them
  ghost predicate HostsSent(first: map<string, TestPlan>, partial: seq<HostResult>, results: seq<HostResult>, k: nat)
    requires k <= |partial|
  {
    && |results| == k
    && forall j :: 0 <= j < k ==>
         Id(partial[j].dst) in first && results[j] == HostSent(partial[j], first[Id(partial[j].dst)].numPackets)
  }

  lemma OneMoreLookedUp(keys: seq<string>, k: nat, known: set<string>)
    requires k < |keys| && LooksUp(keys[..k], known)
    ensures keys[k] in known && keys[k] !in keys[..k] ==> LooksUp(keys[..k + 1], known)
    ensures !(keys[k] in known && keys[k] !in keys[..k]) ==> !LooksUp(keys, known)
  {
    assert keys[..k + 1] == keys[..k] + [keys[k]];
    if keys[k] in keys[..k] {
      var j :| 0 <= j < k && keys[..k][j] == keys[k];
      assert keys[j] == keys[k];
    }
  }

  // None stands for the std::out_of_range that .at() throws
  method MatchHosts(plans: seq<TestPlan>, counts: map<string, int>, targets: map<string, Target>,
                    partial: seq<HostResult>) returns (final: Option<seq<HostResult>>)
    requires var first := FirstWithId(plans);
             && counts == (map id | id in first :: first[id].numPackets)
             && targets == (map id | id in first :: first[id].target)
    ensures final.Some? <==> LooksUp(HostIds(partial), FirstWithId(plans).Keys)
    ensures final.Some? ==> HostsComplete(FirstWithId(plans), partial, final.value)
  {
    ghost var first := FirstWithId(plans);
    var left := counts;
    var results: seq<HostResult> := [];
    for k := 0 to |partial|
      invariant HostsSent(first, partial, results, k)
      invariant LooksUp(HostIds(partial)[..k], first.Keys)
      invariant left == map id | id in counts && id !in HostIds(partial)[..k] :: counts[id]
    {
      var id := Id(partial[k].dst);
      assert HostIds(partial)[k] == id;
      OneMoreLookedUp(HostIds(partial), k, first.Keys);
      if id !in left {
        return None;
      }
      results := results + [HostSent(partial[k], left[id])];
      left := left - {id};
    }
    assert HostIds(partial)[..|partial|] == HostIds(partial);
    results := AddDead(plans, counts, targets, partial, results, left.Keys);
    final := Some(results);
  }

  // Hosts that never answered
  method AddDead(plans: seq<TestPlan>, counts: map<string, int>, targets: map<string, Target>,
                 ghost partial: seq<HostResult>, answered: seq<HostResult>, left: set<string>)
    returns (final: seq<HostResult>)
    requires var first := FirstWithId(plans);
             && counts == (map id | id in first :: first[id].numPackets)
             && targets == (map id | id in first :: first[id].target)
    requires LooksUp(HostIds(partial), FirstWithId(plans).Keys) && |answered| == |partial|
    requires forall k :: 0 <= k < |partial| ==>
               Id(partial[k].dst) in counts && answered[k] == HostSent(partial[k], counts[Id(partial[k].dst)])
    requires left == set id | id in counts && id !in HostIds(partial)
    ensures HostsComplete(FirstWithId(plans), partial, final)
  {
    ghost var first := FirstWithId(plans);
    final := answered;
    var rest := left;
    assert HostIds(final) == HostIds(partial);
    while rest != {}
      invariant rest <= left && |partial| <= |final| && final[..|partial|] == answered
      invariant Distinct(HostIds(final))
      invariant forall id :: id in HostIds(final) <==> id in first && id !in rest
      invariant forall k :: |partial| <= k < |final| ==>
                  var id := Id(final[k].dst);
                  id in first && final[k] == DeadHost(first[id])
      decreases |rest|
    {
      var id :| id in rest;
      FirstWithIdIs(plans, id);
      var result := HostResult(targets[id], 0, 0.0, 0.0, counts[id], Some(1.0), true);
      assert HostIds(final + [result]) == HostIds(final) + [id];
      final := final + [result];
      rest := rest - {id};
    }
    forall k | 0 <= k < |partial|
      ensures final[k] == HostSent(partial[k], first[Id(partial[k].dst)].numPackets)
    {
      assert final[..|partial|][k] == answered[k];
    }
  }

  method MatchNetworks(counts: map<Network, int>, partial: seq<NetworkResult>)
    returns (final: Option<seq<NetworkResult>>)
    ensures final.Some? <==> LooksUp(NetworkNames(partial), counts.Keys)
    ensures final.Some? ==> NetworksComplete(counts, partial, final.value)
  {
    var left := counts;
    var results: seq<NetworkResult> := [];
    for k := 0 to |partial|
      invariant |results| == k
      invariant LooksUp(NetworkNames(partial)[..k], counts.Keys)
      invariant left == map w | w in counts && w !in NetworkNames(partial)[..k] :: counts[w]
      invariant forall j :: 0 <= j < k ==>
                  partial[j].network in counts && results[j] == NetworkSent(partial[j], counts[partial[j].network])
    {
      var w := partial[k].network;
      assert NetworkNames(partial)[k] == w;
      if w !in left {
        return None;
      }
      results := results + [NetworkSent(partial[k], left[w])];
      left := left - {w};
    }
    assert NetworkNames(partial)[..|partial|] == NetworkNames(partial);
    results := AddOffline(counts, partial, results, left.Keys);
    final := Some(results);
  }

  // Networks that never answered
  method AddOffline(counts: map<Network, int>, ghost partial: seq<NetworkResult>, answered: seq<NetworkResult>,
                    left: set<Network>) returns (final: seq<NetworkResult>)
    requires LooksUp(NetworkNames(partial), counts.Keys) && |answered| == |partial|
    requires forall k :: 0 <= k < |partial| ==>
               partial[k].network in counts && answered[k] == NetworkSent(partial[k], counts[partial[k].network])
    requires left == set w | w in counts && w !in NetworkNames(partial)
    ensures NetworksComplete(counts, partial, final)
  {
    final := answered;
    var rest := left;
    assert NetworkNames(final) == NetworkNames(partial);
    while rest != {}
      invariant rest <= left && |partial| <= |final| && final[..|partial|] == answered
      invariant Distinct(NetworkNames(final))
      invariant forall w :: w in NetworkNames(final) <==> w in counts && w !in rest
      invariant forall k :: |partial| <= k < |final| ==>
                  final[k].network in counts && final[k] == OfflineNetwork(final[k].network, counts[final[k].network])
      decreases |rest|
    {
      var w :| w in rest;
      var result := OfflineNetwork(w, counts[w]);
      assert NetworkNames(final + [result]) == NetworkNames(final) + [w];
      final := final + [result];
      rest := rest - {w};
    }
    forall k | 0 <= k < |partial|
      ensures final[k] == NetworkSent(partial[k], counts[partial[k].network])
    {
      assert final[..|partial|][k] == answered[k];
    }
  }

  // ---------- what the receivers hand over ----------

  function HostHistogram(rs: seq<Receiver>, targets: Targets, hash: string -> nat, a: Addr): Histogram
    requires |rs| > 0
  {
    if a in targets then HistogramAt(rs[Owner(targets[a].network, hash, |rs|)].hosts, a) else EMPTY
  }

  function NetworkHistogram(rs: seq<Receiver>, hash: string -> nat, w: Network): Histogram
    requires |rs| > 0
  {
    HistogramAt(rs[Owner(w, hash, |rs|)].networks, w)
  }

  function Hits(rs: seq<Receiver>, targets: Targets, hash: string -> nat, a: Addr): nat
    requires |rs| > 0
  {
    HostHistogram(rs, targets, hash, a).count
  }

  function NetworkHits(rs: seq<Receiver>, hash: string -> nat, w: Network): nat
    requires |rs| > 0
  {
    NetworkHistogram(rs, hash, w).count
  }

  // The result of every listed address
  ghost predicate ResultsFit(rs: seq<Receiver>, targets: Targets, hash: string -> nat,
                             addrs: seq<Addr>, hosts: seq<HostResult>)
    requires |rs| > 0
  {
    && |addrs| == |hosts|
    && forall k :: 0 <= k < |hosts| ==>
         addrs[k] in targets && hosts[k] == HostResultOf(targets[addrs[k]], HostHistogram(rs, targets, hash, addrs[k]))
  }

  ghost predicate GatheredHosts(rs: seq<Receiver>, targets: Targets, hash: string -> nat,
                                addrs: seq<Addr>, hosts: seq<HostResult>)
    requires |rs| > 0
  {
    && Distinct(addrs) && ResultsFit(rs, targets, hash, addrs, hosts)
    && (forall a :: a in addrs <==> a in targets && Hits(rs, targets, hash, a) > 0)
  }

  ghost predicate GatheredNetworks(rs: seq<Receiver>, hash: string -> nat, networks: seq<NetworkResult>)
    requires |rs| > 0
  {
    && Distinct(NetworkNames(networks))
    && (forall w :: w in NetworkNames(networks) <==> NetworkHits(rs, hash, w) > 0)
    && (forall k :: 0 <= k < |networks| ==>
          networks[k] == NetworkResultOf(networks[k].network, NetworkHistogram(rs, hash, networks[k].network)))
  }

  method SummarizeReceiver(r: Receiver, targets: Targets) returns (addrs: seq<Addr>, hosts: seq<HostResult>)
    requires r.hosts.Keys <= targets.Keys
    ensures |addrs| == |hosts| && Distinct(addrs) && forall a :: a in addrs <==> a in r.hosts
    ensures forall k :: 0 <= k < |hosts| ==> hosts[k] == HostResultOf(targets[addrs[k]], r.hosts[addrs[k]])
  {
    addrs, hosts := [], [];
    var rest := r.hosts.Keys;
    while rest != {}
      invariant rest <= r.hosts.Keys
      invariant |addrs| == |hosts| && Distinct(addrs)
      invariant forall a :: a in addrs <==> a in r.hosts && a !in rest
      invariant forall k :: 0 <= k < |hosts| ==>
                  addrs[k] in r.hosts.Keys && hosts[k] == HostResultOf(targets[addrs[k]], r.hosts[addrs[k]])
      decreases |rest|
    {
      var a :| a in rest;
      addrs, hosts := addrs + [a], hosts + [HostResultOf(targets[a], r.hosts[a])];
      rest := rest - {a};
    }
  }

  // The results of the first n receivers
  ghost predicate GatheredFrom(rs: seq<Receiver>, targets: Targets, hash: string -> nat, n: nat,
                               addrs: seq<Addr>, hosts: seq<HostResult>)
    requires |rs| > 0
  {
    && Distinct(addrs) && ResultsFit(rs, targets, hash, addrs, hosts)
    && (forall a :: a in addrs <==>
          a in targets && Owner(targets[a].network, hash, |rs|) < n && Hits(rs, targets, hash, a) > 0)
  }

  lemma DistinctJoin<T>(a: seq<T>, b: seq<T>)
    requires Distinct(a) && Distinct(b) && forall x :: x in a ==> x !in b
    ensures Distinct(a + b)
  {
    forall i, j | 0 <= i < j < |a + b|
      ensures (a + b)[i] != (a + b)[j]
    {
      if i < |a| <= j {
        assert a[i] in a && b[j - |a|] in b;
      }
    }
  }

  // Receiver n has entries for exactly what it owns and has hits for
  lemma EntriesAreHits(rs: seq<Receiver>, targets: Targets, hash: string -> nat, n: nat)
    requires n < |rs| && ReceiverOk(rs[n], n, |rs|, targets, hash)
    ensures forall a :: a in rs[n].hosts <==>
              a in targets && Owner(targets[a].network, hash, |rs|) == n && Hits(rs, targets, hash, a) > 0
    ensures forall w :: w in rs[n].networks <==> Owner(w, hash, |rs|) == n && NetworkHits(rs, hash, w) > 0
    ensures forall a :: a in rs[n].hosts ==> HostHistogram(rs, targets, hash, a) == rs[n].hosts[a]
    ensures forall w :: w in rs[n].networks ==> NetworkHistogram(rs, hash, w) == rs[n].networks[w]
  {
  }

  lemma GatherOneMore(rs: seq<Receiver>, targets: Targets, hash: string -> nat, n: nat,
                      addrs: seq<Addr>, hosts: seq<HostResult>, more: seq<Addr>, results: seq<HostResult>)
    requires n < |rs| && GatheredFrom(rs, targets, hash, n, addrs, hosts)
    requires forall a :: a in more <==>
               a in targets && Owner(targets[a].network, hash, |rs|) == n && Hits(rs, targets, hash, a) > 0
    requires Distinct(more) && ResultsFit(rs, targets, hash, more, results)
    ensures GatheredFrom(rs, targets, hash, n + 1, addrs + more, hosts + results)
  {
    DistinctJoin(addrs, more);
    forall a
      ensures a in addrs + more <==>
                a in targets && Owner(targets[a].network, hash, |rs|) < n + 1 && Hits(rs, targets, hash, a) > 0
    {
    }
    ResultsJoin(rs, targets, hash, addrs, hosts, more, results);
  }

  lemma ResultsJoin(rs: seq<Receiver>, targets: Targets, hash: string -> nat,
                    addrs: seq<Addr>, hosts: seq<HostResult>, more: seq<Addr>, results: seq<HostResult>)
    requires |rs| > 0 && ResultsFit(rs, targets, hash, addrs, hosts) && ResultsFit(rs, targets, hash, more, results)
    ensures ResultsFit(rs, targets, hash, addrs + more, hosts + results)
  {
  }

  method SummarizeHosts(rs: seq<Receiver>, targets: Targets, ghost hash: string -> nat)
    returns (addrs: seq<Addr>, hosts: seq<HostResult>)
    requires AllOk(rs, targets, hash)
    ensures GatheredHosts(rs, targets, hash, addrs, hosts)
  {
    addrs, hosts := [], [];
    for i := 0 to |rs|
      invariant GatheredFrom(rs, targets, hash, i, addrs, hosts)
    {
      EntriesAreHits(rs, targets, hash, i);
      var more, results := SummarizeReceiver(rs[i], targets);
      forall k | 0 <= k < |results|
        ensures results[k] == HostResultOf(targets[more[k]], HostHistogram(rs, targets, hash, more[k]))
      {
        assert more[k] in more;
      }
      GatherOneMore(rs, targets, hash, i, addrs, hosts, more, results);
      addrs, hosts := addrs + more, hosts + results;
    }
  }

  method SummarizeReceiverNetworks(r: Receiver) returns (networks: seq<NetworkResult>)
    ensures Distinct(NetworkNames(networks))
    ensures forall w :: w in NetworkNames(networks) <==> w in r.networks
    ensures forall k :: 0 <= k < |networks| ==>
              networks[k] == NetworkResultOf(networks[k].network, HistogramAt(r.networks, networks[k].network))
  {
    networks := [];
    var rest := r.networks.Keys;
    while rest != {}
      invariant rest <= r.networks.Keys
      invariant Distinct(NetworkNames(networks))
      invariant forall w :: w in NetworkNames(networks) <==> w in r.networks && w !in rest
      invariant forall k :: 0 <= k < |networks| ==>
                  networks[k] == NetworkResultOf(networks[k].network, HistogramAt(r.networks, networks[k].network))
      decreases |rest|
    {
      var w :| w in rest;
      var result := NetworkResultOf(w, r.networks[w]);
      assert NetworkNames(networks + [result]) == NetworkNames(networks) + [w];
      networks := networks + [result];
      rest := rest - {w};
    }
  }

  // The results of the first n receivers
  ghost predicate NetworksFrom(rs: seq<Receiver>, hash: string -> nat, n: nat, networks: seq<NetworkResult>)
    requires |rs| > 0
  {
    && Distinct(NetworkNames(networks))
    && (forall w :: w in NetworkNames(networks) <==> Owner(w, hash, |rs|) < n && NetworkHits(rs, hash, w) > 0)
    && (forall k :: 0 <= k < |networks| ==>
          networks[k] == NetworkResultOf(networks[k].network, NetworkHistogram(rs, hash, networks[k].network)))
  }

  lemma NetworksOneMore(rs: seq<Receiver>, hash: string -> nat, n: nat,
                        networks: seq<NetworkResult>, more: seq<NetworkResult>)
    requires |rs| > 0 && NetworksFrom(rs, hash, n, networks) && Distinct(NetworkNames(more))
    requires forall w :: w in NetworkNames(more) <==> Owner(w, hash, |rs|) == n && NetworkHits(rs, hash, w) > 0
    requires forall k :: 0 <= k < |more| ==>
               more[k] == NetworkResultOf(more[k].network, NetworkHistogram(rs, hash, more[k].network))
    ensures NetworksFrom(rs, hash, n + 1, networks + more)
  {
    DistinctJoin(NetworkNames(networks), NetworkNames(more));
    assert NetworkNames(networks + more) == NetworkNames(networks) + NetworkNames(more);
  }

  method SummarizeNetworks(rs: seq<Receiver>, ghost targets: Targets, ghost hash: string -> nat)
    returns (networks: seq<NetworkResult>)
    requires AllOk(rs, targets, hash)
    ensures GatheredNetworks(rs, hash, networks)
  {
    networks := [];
    for i := 0 to |rs|
      invariant NetworksFrom(rs, hash, i, networks)
    {
      EntriesAreHits(rs, targets, hash, i);
      var more := SummarizeReceiverNetworks(rs[i]);
      forall k | 0 <= k < |more|
        ensures more[k] == NetworkResultOf(more[k].network, NetworkHistogram(rs, hash, more[k].network))
      {
        assert NetworkNames(more)[k] in NetworkNames(more);
      }
      NetworksOneMore(rs, hash, i, networks, more);
      networks := networks + more;
    }
  }

  // ---------- when no lookup fails ----------

  predicate DistinctIds(plans: seq<TestPlan>) {
    forall i, j :: 0 <= i < j < |plans| ==> Id(plans[i].target) != Id(plans[j].target)
  }

  lemma {:induction false} TargetMapIs(plans: seq<TestPlan>, a: Addr)
    requires a in TargetMap(plans)
    ensures TargetMap(plans)[a].address == Some(a)
    ensures exists p :: p in plans && p.target == TargetMap(plans)[a]
    ensures Id(TargetMap(plans)[a]) in FirstWithId(plans)
    ensures TargetMap(plans)[a].network in NetworkXmit(plans)
  {
    var front, last := plans[..|plans| - 1], plans[|plans| - 1];
    assert plans == front + [last];
    if a in TargetMap(front) {
      TargetMapIs(front, a);
    } else {
      assert last in plans;
    }
  }

  // The lookup of host results fails exactly when two hosts that answered share an id
  lemma HostLookupExact(rs: seq<Receiver>, plans: seq<TestPlan>, hash: string -> nat,
                        addrs: seq<Addr>, hosts: seq<HostResult>)
    requires |rs| > 0 && GatheredHosts(rs, TargetMap(plans), hash, addrs, hosts)
    ensures var targets := TargetMap(plans);
            LooksUp(HostIds(hosts), FirstWithId(plans).Keys)
            <==> forall i, j :: 0 <= i < j < |addrs| ==> Id(targets[addrs[i]]) != Id(targets[addrs[j]])
  {
    var ids := HostIds(hosts);
    forall k | 0 <= k < |addrs|
      ensures ids[k] == Id(TargetMap(plans)[addrs[k]]) && ids[k] in FirstWithId(plans)
    {
      TargetMapIs(plans, addrs[k]);
    }
    assert (forall k :: k in ids ==> k in FirstWithId(plans).Keys);
    if LooksUp(ids, FirstWithId(plans).Keys) {
      forall i, j | 0 <= i < j < |addrs|
        ensures Id(TargetMap(plans)[addrs[i]]) != Id(TargetMap(plans)[addrs[j]])
      {
        assert ids[i] != ids[j];
      }
    }
  }

  lemma DistinctIdsLookUp(rs: seq<Receiver>, plans: seq<TestPlan>, hash: string -> nat,
                          addrs: seq<Addr>, hosts: seq<HostResult>)
    requires |rs| > 0 && GatheredHosts(rs, TargetMap(plans), hash, addrs, hosts) && DistinctIds(plans)
    ensures LooksUp(HostIds(hosts), FirstWithId(plans).Keys)
  {
    var targets := TargetMap(plans);
    forall i, j | 0 <= i < j < |addrs|
      ensures Id(targets[addrs[i]]) != Id(targets[addrs[j]])
    {
      TargetMapIs(plans, addrs[i]);
      TargetMapIs(plans, addrs[j]);
      assert addrs[i] != addrs[j];
    }
    HostLookupExact(rs, plans, hash, addrs, hosts);
  }

  // The lookup of network results never fails
  lemma NetworkLookupSucceeds(rs: seq<Receiver>, plans: seq<TestPlan>, hash: string -> nat,
                              networks: seq<NetworkResult>)
    requires AllOk(rs, TargetMap(plans), hash) && GatheredNetworks(rs, hash, networks)
    ensures LooksUp(NetworkNames(networks), NetworkXmit(plans).Keys)
  {
    var targets := TargetMap(plans);
    forall w | w in NetworkNames(networks)
      ensures w in NetworkXmit(plans)
    {
      var i := Owner(w, hash, |rs|);
      CountedOnce(rs, targets, hash, w, i);
      if forall a :: a in targets ==> targets[a].network != w {
        SumWithin(targets.Keys, {}, Share(targets, rs[i].hosts, w));
      }
      var a :| a in targets && targets[a].network == w;
      TargetMapIs(plans, a);
    }
  }

  // ---------- when some run throws ----------

  function Fresh(n: nat): seq<Receiver> {
    seq(n, _ => FRESH)
  }

  function After(plans: seq<TestPlan>, hash: string -> nat, n: nat, steps: seq<Step>): seq<Receiver>
    requires n > 0
  {
    Execute(Fresh(n), TargetMap(plans), hash, steps)
  }

  // However the results of the run are gathered, the lookup of its hosts succeeds
  ghost predicate LookupSucceeds(plans: seq<TestPlan>, hash: string -> nat, n: nat, steps: seq<Step>)
    requires n > 0
  {
    forall addrs, hosts :: GatheredHosts(After(plans, hash, n, steps), TargetMap(plans), hash, addrs, hosts) ==>
      LooksUp(HostIds(hosts), FirstWithId(plans).Keys)
  }

  // No two of the addresses probed belong to targets with one id
  ghost predicate TargetsApart(plans: seq<TestPlan>) {
    forall a, b :: a in TargetMap(plans) && b in TargetMap(plans) && a != b ==>
      Id(TargetMap(plans)[a]) != Id(TargetMap(plans)[b])
  }

  lemma ApartLooksUp(plans: seq<TestPlan>, hash: string -> nat, n: nat, steps: seq<Step>)
    requires n > 0 && TargetsApart(plans)
    ensures LookupSucceeds(plans, hash, n, steps)
  {
    var rs := After(plans, hash, n, steps);
    forall addrs, hosts | GatheredHosts(rs, TargetMap(plans), hash, addrs, hosts)
      ensures LooksUp(HostIds(hosts), FirstWithId(plans).Keys)
    {
      forall i, j | 0 <= i < j < |addrs|
        ensures Id(TargetMap(plans)[addrs[i]]) != Id(TargetMap(plans)[addrs[j]])
      {
        assert addrs[i] != addrs[j];
      }
      HostLookupExact(rs, plans, hash, addrs, hosts);
    }
  }

  // A reply that arrives at the owner of its network is counted, and no other count is lost
  lemma ArrivalCounts(rs: seq<Receiver>, targets: Targets, hash: string -> nat, a: Addr, b: Addr)
    requires AllOk(rs, targets, hash) && a in targets
    ensures var next := Next(rs, targets, hash, Arrives(Owner(targets[a].network, hash, |rs|), Probe(a, 0), true));
            Hits(next, targets, hash, a) > 0 && Hits(next, targets, hash, b) >= Hits(rs, targets, hash, b)
  {
    var i := Owner(targets[a].network, hash, |rs|);
    assert ReceiverOk(rs[i], i, |rs|, targets, hash);
  }

  lemma ListOut<T>(s: set<T>) returns (list: seq<T>)
    ensures Distinct(list) && forall x :: x in list <==> x in s
    decreases |s|
  {
    list := [];
    if s != {} {
      var x :| x in s;
      var rest := ListOut(s - {x});
      list := [x] + rest;
    }
  }

  lemma CanGather(rs: seq<Receiver>, targets: Targets, hash: string -> nat)
    returns (addrs: seq<Addr>, hosts: seq<HostResult>)
    requires |rs| > 0
    ensures GatheredHosts(rs, targets, hash, addrs, hosts)
  {
    addrs := ListOut(set a | a in targets && Hits(rs, targets, hash, a) > 0);
    var listed := addrs;
    assert forall k :: 0 <= k < |listed| ==> listed[k] in listed;
    hosts := seq(|listed|, k requires 0 <= k < |listed| =>
      HostResultOf(targets[listed[k]], HostHistogram(rs, targets, hash, listed[k])));
  }

  // One reply from each of two hosts with one id
  function TwoReplies(plans: seq<TestPlan>, hash: string -> nat, n: nat, a: Addr, b: Addr): seq<Step>
    requires n > 0 && a in TargetMap(plans) && b in TargetMap(plans)
  {
    [Arrives(Owner(TargetMap(plans)[a].network, hash, n), Probe(a, 0), true),
     Arrives(Owner(TargetMap(plans)[b].network, hash, n), Probe(b, 0), true)]
  }

  lemma BothAnswer(plans: seq<TestPlan>, hash: string -> nat, n: nat, a: Addr, b: Addr)
    requires n > 0 && a in TargetMap(plans) && b in TargetMap(plans)
    ensures var rs := After(plans, hash, n, TwoReplies(plans, hash, n, a, b));
            Hits(rs, TargetMap(plans), hash, a) > 0 && Hits(rs, TargetMap(plans), hash, b) > 0
  {
    var targets, steps := TargetMap(plans), TwoReplies(plans, hash, n, a, b);
    RunOk(n, targets, hash, []);
    var first := Next(Fresh(n), targets, hash, steps[0]);
    StepOk(Fresh(n), targets, hash, steps[0]);
    ArrivalCounts(Fresh(n), targets, hash, a, a);
    ArrivalCounts(first, targets, hash, b, a);
    assert steps[1..] == [steps[1]] && [steps[1]][1..] == [];
    var second := Next(first, targets, hash, steps[1]);
    assert Execute(first, targets, hash, [steps[1]]) == Execute(second, targets, hash, []) == second;
  }

  lemma SharedIdFails(plans: seq<TestPlan>, hash: string -> nat, n: nat, a: Addr, b: Addr)
    requires n > 0 && a in TargetMap(plans) && b in TargetMap(plans) && a != b
    requires Id(TargetMap(plans)[a]) == Id(TargetMap(plans)[b])
    ensures !LookupSucceeds(plans, hash, n, TwoReplies(plans, hash, n, a, b))
  {
    var rs := After(plans, hash, n, TwoReplies(plans, hash, n, a, b));
    BothAnswer(plans, hash, n, a, b);
    var addrs, hosts := CanGather(rs, TargetMap(plans), hash);
    assert a in addrs && b in addrs;
    var i :| 0 <= i < |addrs| && addrs[i] == a;
    var j :| 0 <= j < |addrs| && addrs[j] == b;
    assert HostIds(hosts)[i] == HostIds(hosts)[j];
    assert !LooksUp(HostIds(hosts), FirstWithId(plans).Keys);
  }

  // Whether the lookup succeeds does not depend on the order in which results are gathered
  lemma GatheredAlike(rs: seq<Receiver>, plans: seq<TestPlan>, hash: string -> nat, addrs: seq<Addr>,
                      hosts: seq<HostResult>, addrs': seq<Addr>, hosts': seq<HostResult>)
    requires |rs| > 0 && GatheredHosts(rs, TargetMap(plans), hash, addrs, hosts)
    requires GatheredHosts(rs, TargetMap(plans), hash, addrs', hosts')
    requires LooksUp(HostIds(hosts), FirstWithId(plans).Keys)
    ensures LooksUp(HostIds(hosts'), FirstWithId(plans).Keys)
  {
    var targets := TargetMap(plans);
    HostLookupExact(rs, plans, hash, addrs, hosts);
    forall i, j | 0 <= i < j < |addrs'|
      ensures Id(targets[addrs'[i]]) != Id(targets[addrs'[j]])
    {
      assert addrs'[i] in addrs' && addrs'[j] in addrs' && addrs'[i] != addrs'[j];
      var k :| 0 <= k < |addrs| && addrs[k] == addrs'[i];
      var l :| 0 <= l < |addrs| && addrs[l] == addrs'[j];
      assert Id(targets[addrs[k]]) != Id(targets[addrs[l]]) by {
        if k < l {
        } else {
          assert l < k;
        }
      }
    }
    HostLookupExact(rs, plans, hash, addrs', hosts');
  }

  // Over all runs the lookup never fails if and only if the targets probed have different ids
  lemma NeverFailsExact(plans: seq<TestPlan>, hash: string -> nat, n: nat)
    requires n > 0
    ensures (forall steps :: LookupSucceeds(plans, hash, n, steps)) <==> TargetsApart(plans)
  {
    if TargetsApart(plans) {
      forall steps ensures LookupSucceeds(plans, hash, n, steps) {
        ApartLooksUp(plans, hash, n, steps);
      }
    } else {
      var a, b :| a in TargetMap(plans) && b in TargetMap(plans) && a != b
                  && Id(TargetMap(plans)[a]) == Id(TargetMap(plans)[b]);
      SharedIdFails(plans, hash, n, a, b);
    }
  }

  function CollidingPlans(): seq<TestPlan> {
    [TestPlan(Target(Some("x"), "ab", "c"), 1, 0), TestPlan(Target(Some("y"), "a", "bc"), 1, 0)]
  }

  lemma CollidingTargets()
    ensures TargetMap(CollidingPlans()) == map["x" := CollidingPlans()[0].target, "y" := CollidingPlans()[1].target]
  {
    var first, second := CollidingPlans()[0], CollidingPlans()[1];
    assert CollidingPlans()[..1] == [first] && [first][..0] == [];
    assert "x"[0] != "y"[0];
    assert TargetMap([first]) == map["x" := first.target];
  }

  // Two hosts of two networks with one id, and a run that throws
  lemma IdsCollide(hash: string -> nat, n: nat)
    requires n > 0
    ensures exists steps :: !LookupSucceeds(CollidingPlans(), hash, n, steps)
  {
    CollidingTargets();
    assert "x"[0] != "y"[0] && "ab" + "c" == "abc" == "a" + "bc";
    SharedIdFails(CollidingPlans(), hash, n, "x", "y");
  }

  // ---------- one result each, and networks add up ----------

  function RecvTotal(hosts: seq<HostResult>, w: Network): nat {
    if hosts == [] then 0
    else RecvTotal(hosts[..|hosts| - 1], w)
         + var r := hosts[|hosts| - 1]; if r.dst.network == w then r.numRecv else 0
  }

  function XmitTotal(hosts: seq<HostResult>, w: Network): int {
    if hosts == [] then 0
    else XmitTotal(hosts[..|hosts| - 1], w)
         + var r := hosts[|hosts| - 1]; if r.dst.network == w then r.numXmit else 0
  }

  // A plan and its only result
  predicate ResultOf(p: TestPlan, rs: seq<Receiver>, targets: Targets, hash: string -> nat, r: HostResult)
    requires |rs| > 0
  {
    var answered := p.target.address.Some? && p.target.address.value in targets
                    && targets[p.target.address.value] == p.target
                    && Hits(rs, targets, hash, p.target.address.value) > 0;
    r == if answered
         then HostSent(HostResultOf(p.target, HostHistogram(rs, targets, hash, p.target.address.value)), p.numPackets)
         else DeadHost(p)
  }

  lemma {:induction false} FirstIsOnly(plans: seq<TestPlan>, p: TestPlan)
    requires DistinctIds(plans) && p in plans
    ensures Id(p.target) in FirstWithId(plans) && FirstWithId(plans)[Id(p.target)] == p
  {
    var front, last := plans[..|plans| - 1], plans[|plans| - 1];
    assert plans == front + [last];
    NewIdNotSeen(front, last);
    if p in front {
      FirstIsOnly(front, p);
      FirstWithIdIs(front, Id(p.target));
    }
  }

  lemma {:induction false} IdsOfPlans(plans: seq<TestPlan>, id: string)
    ensures id in FirstWithId(plans) <==> exists i :: 0 <= i < |plans| && Id(plans[i].target) == id
  {
    if plans != [] {
      var front, n := plans[..|plans| - 1], |plans| - 1;
      IdsOfPlans(front, id);
      if i :| 0 <= i < |plans| && Id(plans[i].target) == id {
        assert i < n ==> front[i] == plans[i];
      }
    }
  }

  lemma NewIdNotSeen(front: seq<TestPlan>, last: TestPlan)
    requires DistinctIds(front + [last])
    ensures DistinctIds(front) && Id(last.target) !in FirstWithId(front)
  {
    var plans := front + [last];
    forall i | 0 <= i < |front|
      ensures Id(front[i].target) != Id(last.target)
    {
      assert Id(plans[i].target) != Id(plans[|front|].target);
    }
    forall i, j | 0 <= i < j < |front|
      ensures Id(front[i].target) != Id(front[j].target)
    {
      assert Id(plans[i].target) != Id(plans[j].target);
    }
    IdsOfPlans(front, Id(last.target));
  }

  lemma OneResultPerTarget(rs: seq<Receiver>, plans: seq<TestPlan>, hash: string -> nat, addrs: seq<Addr>,
                           hosts: seq<HostResult>, final: seq<HostResult>, p: TestPlan) returns (k: nat)
    requires |rs| > 0 && DistinctIds(plans) && p in plans
    requires GatheredHosts(rs, TargetMap(plans), hash, addrs, hosts)
    requires HostsComplete(FirstWithId(plans), hosts, final)
    ensures k < |final| && ResultOf(p, rs, TargetMap(plans), hash, final[k])
    ensures forall j :: 0 <= j < |final| && final[j].dst == p.target ==> j == k
  {
    var targets, id := TargetMap(plans), Id(p.target);
    FirstIsOnly(plans, p);
    assert id in HostIds(final);
    k :| 0 <= k < |final| && HostIds(final)[k] == id;
    forall j | 0 <= j < |final| && final[j].dst == p.target
      ensures j == k
    {
      assert HostIds(final)[j] == id;
    }
    if k < |hosts| {
      var a := addrs[k];
      assert a in addrs;
      TargetMapIs(plans, a);
      var q :| q in plans && q.target == targets[a];
      FirstIsOnly(plans, q);
    } else {
      forall j | 0 <= j < |addrs|
        ensures Id(targets[addrs[j]]) != id
      {
        assert HostIds(final)[j] != HostIds(final)[k];
      }
    }
  }

  function Firsts<T>(s: seq<T>, n: nat): set<T>
    requires n <= |s|
  {
    set k | 0 <= k < n :: s[k]
  }

  // How many of a network's replies each address accounts for
  function HitsIn(rs: seq<Receiver>, targets: Targets, hash: string -> nat, w: Network): Addr -> int
    requires |rs| > 0
  {
    (a: Addr) => if a in targets && targets[a].network == w then Hits(rs, targets, hash, a) else 0
  }

  lemma SumOneMore<T>(s: seq<T>, f: T -> int, n: nat)
    requires 0 < n <= |s| && Distinct(s)
    ensures SumOver(Firsts(s, n), f) == SumOver(Firsts(s, n - 1), f) + f(s[n - 1])
  {
    assert Firsts(s, n) == Firsts(s, n - 1) + {s[n - 1]};
    SumAdd(Firsts(s, n - 1), f, s[n - 1]);
  }

  lemma {:induction false} RecvOverAddresses(rs: seq<Receiver>, targets: Targets, hash: string -> nat,
                                             addrs: seq<Addr>, hosts: seq<HostResult>, w: Network, n: nat)
    requires |rs| > 0 && n <= |hosts| && GatheredHosts(rs, targets, hash, addrs, hosts)
    ensures RecvTotal(hosts[..n], w) == SumOver(Firsts(addrs, n), HitsIn(rs, targets, hash, w))
  {
    var f := HitsIn(rs, targets, hash, w);
    if n > 0 {
      RecvOverAddresses(rs, targets, hash, addrs, hosts, w, n - 1);
      SumOneMore(addrs, f, n);
      assert hosts[..n][..n - 1] == hosts[..n - 1];
    }
  }

  lemma {:induction false} DeadAddNothing(hosts: seq<HostResult>, final: seq<HostResult>, w: Network)
    requires |hosts| <= |final|
    requires forall k :: 0 <= k < |hosts| ==> final[k].dst == hosts[k].dst && final[k].numRecv == hosts[k].numRecv
    requires forall k :: |hosts| <= k < |final| ==> final[k].numRecv == 0
    ensures RecvTotal(final, w) == RecvTotal(hosts, w)
  {
    if |hosts| < |final| {
      DeadAddNothing(hosts, final[..|final| - 1], w);
    } else if hosts != [] {
      DeadAddNothing(hosts[..|hosts| - 1], final[..|final| - 1], w);
    }
  }

  lemma HitsAddUp(rs: seq<Receiver>, targets: Targets, hash: string -> nat, w: Network)
    requires AllOk(rs, targets, hash)
    ensures SumOver(targets.Keys, HitsIn(rs, targets, hash, w)) == NetworkHits(rs, hash, w)
  {
    var i := Owner(w, hash, |rs|);
    SumSame(targets.Keys, HitsIn(rs, targets, hash, w), Share(targets, rs[i].hosts, w));
    CountedOnce(rs, targets, hash, w, i);
  }

  lemma GatheredRecv(rs: seq<Receiver>, targets: Targets, hash: string -> nat,
                     addrs: seq<Addr>, hosts: seq<HostResult>, w: Network)
    requires |rs| > 0 && GatheredHosts(rs, targets, hash, addrs, hosts)
    ensures RecvTotal(hosts, w) == SumOver(targets.Keys, HitsIn(rs, targets, hash, w))
  {
    RecvOverAddresses(rs, targets, hash, addrs, hosts, w, |hosts|);
    assert hosts[..|hosts|] == hosts;
    var answered := Firsts(addrs, |hosts|);
    forall a | a in targets.Keys - answered
      ensures HitsIn(rs, targets, hash, w)(a) == 0
    {
      assert a !in addrs;
    }
    SumWithin(targets.Keys, answered, HitsIn(rs, targets, hash, w));
  }

  // The replies counted for a network are those of its hosts together
  lemma RecvAddsUp(rs: seq<Receiver>, plans: seq<TestPlan>, hash: string -> nat, addrs: seq<Addr>,
                   hosts: seq<HostResult>, final: seq<HostResult>, w: Network)
    requires AllOk(rs, TargetMap(plans), hash)
    requires GatheredHosts(rs, TargetMap(plans), hash, addrs, hosts)
    requires HostsComplete(FirstWithId(plans), hosts, final)
    ensures RecvTotal(final, w) == NetworkHits(rs, hash, w)
  {
    DeadAddNothing(hosts, final, w);
    GatheredRecv(rs, TargetMap(plans), hash, addrs, hosts, w);
    HitsAddUp(rs, TargetMap(plans), hash, w);
  }

  function XmitIn(first: map<string, TestPlan>, w: Network): string -> int {
    (id: string) => if id in first && first[id].target.network == w then first[id].numPackets else 0
  }

  lemma {:induction false} XmitOverIds(first: map<string, TestPlan>, final: seq<HostResult>, w: Network, n: nat)
    requires n <= |final| && Distinct(HostIds(final))
    requires forall k :: 0 <= k < |final| ==>
               var id := Id(final[k].dst);
               id in first && final[k].dst == first[id].target && final[k].numXmit == first[id].numPackets
    ensures XmitTotal(final[..n], w) == SumOver(Firsts(HostIds(final), n), XmitIn(first, w))
  {
    if n > 0 {
      XmitOverIds(first, final, w, n - 1);
      SumOneMore(HostIds(final), XmitIn(first, w), n);
      assert final[..n][..n - 1] == final[..n - 1];
    }
  }

  lemma {:induction false} XmitOverPlans(plans: seq<TestPlan>, w: Network)
    requires DistinctIds(plans)
    ensures (if w in NetworkXmit(plans) then NetworkXmit(plans)[w] else 0)
            == SumOver(FirstWithId(plans).Keys, XmitIn(FirstWithId(plans), w))
  {
    if plans != [] {
      var front, last := plans[..|plans| - 1], plans[|plans| - 1];
      assert plans == front + [last];
      NewIdNotSeen(front, last);
      XmitOverPlans(front, w);
      XmitOfNewId(FirstWithId(front), last, w);
    }
  }

  lemma XmitOfNewId(before: map<string, TestPlan>, p: TestPlan, w: Network)
    requires Id(p.target) !in before
    ensures var after := before[Id(p.target) := p];
            SumOver(after.Keys, XmitIn(after, w))
            == SumOver(before.Keys, XmitIn(before, w)) + if p.target.network == w then p.numPackets else 0
  {
    var after := before[Id(p.target) := p];
    SumSame(before.Keys, XmitIn(before, w), XmitIn(after, w));
    SumAdd(before.Keys, XmitIn(after, w), Id(p.target));
    assert after.Keys == before.Keys + {Id(p.target)};
  }

  // The probes sent to a network are those sent to its hosts together
  lemma XmitAddsUp(rs: seq<Receiver>, plans: seq<TestPlan>, hash: string -> nat, addrs: seq<Addr>,
                   hosts: seq<HostResult>, final: seq<HostResult>, w: Network)
    requires |rs| > 0 && DistinctIds(plans)
    requires GatheredHosts(rs, TargetMap(plans), hash, addrs, hosts)
    requires HostsComplete(FirstWithId(plans), hosts, final)
    ensures XmitTotal(final, w) == if w in NetworkXmit(plans) then NetworkXmit(plans)[w] else 0
  {
    var first := FirstWithId(plans);
    forall k | 0 <= k < |final|
      ensures var id := Id(final[k].dst);
              id in first && final[k].dst == first[id].target && final[k].numXmit == first[id].numPackets
    {
      var id := Id(final[k].dst);
      assert HostIds(final)[k] == id;
      if k < |hosts| {
        assert addrs[k] in addrs;
        TargetMapIs(plans, addrs[k]);
        var q :| q in plans && q.target == TargetMap(plans)[addrs[k]];
        FirstIsOnly(plans, q);
      }
    }
    XmitOverIds(first, final, w, |final|);
    assert final[..|final|] == final;
    var ids := Firsts(HostIds(final), |final|);
    assert forall id :: id in HostIds(final) ==> id in ids;
    assert ids == first.Keys;
    XmitOverPlans(plans, w);
  }

  // Every network has one result, and it is the total of its hosts' results
  lemma NetworksAddUp(rs: seq<Receiver>, plans: seq<TestPlan>, hash: string -> nat, addrs: seq<Addr>,
                      hosts: seq<HostResult>, networks: seq<NetworkResult>,
                      finalHosts: seq<HostResult>, finalNetworks: seq<NetworkResult>, k: nat)
    requires AllOk(rs, TargetMap(plans), hash) && DistinctIds(plans) && k < |finalNetworks|
    requires GatheredHosts(rs, TargetMap(plans), hash, addrs, hosts) && GatheredNetworks(rs, hash, networks)
    requires HostsComplete(FirstWithId(plans), hosts, finalHosts)
    requires NetworksComplete(NetworkXmit(plans), networks, finalNetworks)
    ensures var r := finalNetworks[k];
            && r.numRecv == RecvTotal(finalHosts, r.network)
            && r.numXmit == XmitTotal(finalHosts, r.network)
            && forall j :: 0 <= j < |finalNetworks| && finalNetworks[j].network == r.network ==> j == k
  {
    var w := finalNetworks[k].network;
    RecvAddsUp(rs, plans, hash, addrs, hosts, finalHosts, w);
    XmitAddsUp(rs, plans, hash, addrs, hosts, finalHosts, w);
    var names := NetworkNames(finalNetworks);
    assert names[k] == w;
    if k >= |networks| {
      forall j | 0 <= j < |networks|
        ensures NetworkNames(networks)[j] != w
      {
        assert names[j] != names[k];
      }
    }
    forall j | 0 <= j < |finalNetworks| && finalNetworks[j].network == w
      ensures j == k
    {
      assert names[j] == w;
    }
  }

  // ---------- the run ----------

  method Run(plans: seq<TestPlan>, receivers: seq<Receiver>, ghost hash: string -> nat)
    returns (ghost addrs: seq<Addr>, ghost hosts: seq<HostResult>, ghost networks: seq<NetworkResult>,
             results: Option<(seq<HostResult>, seq<NetworkResult>)>)
    requires AllOk(receivers, TargetMap(plans), hash)
    ensures GatheredHosts(receivers, TargetMap(plans), hash, addrs, hosts)
    ensures GatheredNetworks(receivers, hash, networks)
    ensures results.Some? <==> LooksUp(HostIds(hosts), FirstWithId(plans).Keys)
    ensures DistinctIds(plans) ==> results.Some?
    ensures results.Some? ==>
              && HostsComplete(FirstWithId(plans), hosts, results.value.0)
              && NetworksComplete(NetworkXmit(plans), networks, results.value.1)
  {
    var hostProbeCount, hostToTarget, networkProbeCount := CountProbes(plans);
    var answered, hostResults := SummarizeHosts(receivers, TargetMap(plans), hash);
    var networkResults := SummarizeNetworks(receivers, TargetMap(plans), hash);
    addrs, hosts, networks := answered, hostResults, networkResults;
    NetworkLookupSucceeds(receivers, plans, hash, networks);
    if DistinctIds(plans) {
      DistinctIdsLookUp(receivers, plans, hash, addrs, hosts);
    }
    var finalHosts := MatchHosts(plans, hostProbeCount, hostToTarget, hostResults);
    if finalHosts.None? {
      return addrs, hosts, networks, None;
    }
    var finalNetworks := MatchNetworks(networkProbeCount, networkResults);
    results := Some((finalHosts.value, finalNetworks.value));
  }

  // ---------- the run over every interleaving ----------

  ghost predicate OnlyResult(p: TestPlan, rs: seq<Receiver>, targets: Targets, hash: string -> nat,
                             hosts: seq<HostResult>, k: nat)
    requires |rs| > 0
  {
    && k < |hosts| && ResultOf(p, rs, targets, hash, hosts[k])
    && forall j :: 0 <= j < |hosts| && hosts[j].dst == p.target ==> j == k
  }

  ghost predicate OnlyTotal(hosts: seq<HostResult>, networks: seq<NetworkResult>, k: nat) {
    && k < |networks|
    && networks[k].numRecv == RecvTotal(hosts, networks[k].network)
    && networks[k].numXmit == XmitTotal(hosts, networks[k].network)
    && RatioFits(networks[k].numRecv, networks[k].numXmit, networks[k].lossRatio)
    && forall j :: 0 <= j < |networks| && networks[j].network == networks[k].network ==> j == k
  }

  // A host or network that never answered has lost everything, even if nothing was sent to it
  predicate RatioFits(numRecv: nat, numXmit: int, lossRatio: Option<real>) {
    lossRatio == LossRatio(numRecv, numXmit) || (numRecv == 0 && lossRatio == Some(1.0))
  }

  lemma NetworkRatioFits(xmit: map<Network, int>, networks: seq<NetworkResult>, final: seq<NetworkResult>, k: nat)
    requires NetworksComplete(xmit, networks, final) && k < |final|
    ensures RatioFits(final[k].numRecv, final[k].numXmit, final[k].lossRatio)
  {
  }

  // One result for every plan and nothing else, and one total for every network and nothing else
  ghost predicate Accounted(plans: seq<TestPlan>, rs: seq<Receiver>, hash: string -> nat,
                            hosts: seq<HostResult>, networks: seq<NetworkResult>)
    requires |rs| > 0
  {
    && (forall p :: p in plans ==> exists k :: OnlyResult(p, rs, TargetMap(plans), hash, hosts, k))
    && (forall r :: r in hosts ==> exists p :: p in plans && p.target == r.dst)
    && (forall k :: 0 <= k < |networks| ==> OnlyTotal(hosts, networks, k))
    && (forall w :: w in NetworkNames(networks) <==> w in NetworkXmit(plans))
    && (forall k :: 0 <= k < |networks| ==> TimesOfNetwork(rs, hash, networks[k]))
  }

  // Its count and its times are those of the network's histogram
  predicate TimesOfNetwork(rs: seq<Receiver>, hash: string -> nat, r: NetworkResult)
    requires |rs| > 0
  {
    var h := NetworkHistogram(rs, hash, r.network);
    r.numRecv == h.count && r.rttAvg == h.average / 1000.0 && r.rttMax == h.maxSample as real / 1000.0
  }

  lemma NetworkTimesFit(rs: seq<Receiver>, targets: Targets, hash: string -> nat, xmit: map<Network, int>,
                        networks: seq<NetworkResult>, final: seq<NetworkResult>, k: nat)
    requires AllOk(rs, targets, hash) && GatheredNetworks(rs, hash, networks)
    requires NetworksComplete(xmit, networks, final) && k < |final|
    ensures TimesOfNetwork(rs, hash, final[k])
  {
    var w := final[k].network;
    if k >= |networks| {
      forall j | 0 <= j < |networks| ensures NetworkNames(networks)[j] != w {
        assert NetworkNames(final)[j] != NetworkNames(final)[k];
      }
      assert NetworkHits(rs, hash, w) == 0;
      NoHitsNoHistogram(rs, targets, hash, w);
    }
  }

  lemma NoHitsNoHistogram(rs: seq<Receiver>, targets: Targets, hash: string -> nat, w: Network)
    requires AllOk(rs, targets, hash) && NetworkHits(rs, hash, w) == 0
    ensures NetworkHistogram(rs, hash, w) == EMPTY
  {
    assert ReceiverOk(rs[Owner(w, hash, |rs|)], Owner(w, hash, |rs|), |rs|, targets, hash);
  }

  lemma RunAccounts(rs: seq<Receiver>, plans: seq<TestPlan>, hash: string -> nat, addrs: seq<Addr>,
                    hosts: seq<HostResult>, networks: seq<NetworkResult>,
                    finalHosts: seq<HostResult>, finalNetworks: seq<NetworkResult>)
    requires AllOk(rs, TargetMap(plans), hash) && DistinctIds(plans)
    requires GatheredHosts(rs, TargetMap(plans), hash, addrs, hosts) && GatheredNetworks(rs, hash, networks)
    requires HostsComplete(FirstWithId(plans), hosts, finalHosts)
    requires NetworksComplete(NetworkXmit(plans), networks, finalNetworks)
    ensures Accounted(plans, rs, hash, finalHosts, finalNetworks)
  {
    forall p | p in plans ensures exists k :: OnlyResult(p, rs, TargetMap(plans), hash, finalHosts, k) {
      var k := OneResultPerTarget(rs, plans, hash, addrs, hosts, finalHosts, p);
      assert OnlyResult(p, rs, TargetMap(plans), hash, finalHosts, k);
    }
    forall k | 0 <= k < |finalNetworks| ensures OnlyTotal(finalHosts, finalNetworks, k) {
      NetworksAddUp(rs, plans, hash, addrs, hosts, networks, finalHosts, finalNetworks, k);
      NetworkRatioFits(NetworkXmit(plans), networks, finalNetworks, k);
    }
    forall k | 0 <= k < |finalNetworks| ensures TimesOfNetwork(rs, hash, finalNetworks[k]) {
      NetworkTimesFit(rs, TargetMap(plans), hash, NetworkXmit(plans), networks, finalNetworks, k);
    }
    forall r | r in finalHosts ensures exists p :: p in plans && p.target == r.dst {
      var k :| 0 <= k < |finalHosts| && finalHosts[k] == r;
      ResultHasPlan(rs, plans, hash, addrs, hosts, finalHosts, k);
    }
  }

  lemma ResultHasPlan(rs: seq<Receiver>, plans: seq<TestPlan>, hash: string -> nat, addrs: seq<Addr>,
                      hosts: seq<HostResult>, final: seq<HostResult>, k: nat)
    requires |rs| > 0 && GatheredHosts(rs, TargetMap(plans), hash, addrs, hosts)
    requires HostsComplete(FirstWithId(plans), hosts, final) && k < |final|
    ensures exists p :: p in plans && p.target == final[k].dst
  {
    if k < |hosts| {
      TargetMapIs(plans, addrs[k]);
    } else {
      FirstWithIdIs(plans, Id(final[k].dst));
    }
  }

  // What was lost on the way to and from the hosts of a network, weighted by what was sent
  function LostTotal(hosts: seq<HostResult>, w: Network): real {
    if hosts == [] then 0.0
    else
      var r := hosts[|hosts| - 1];
      LostTotal(hosts[..|hosts| - 1], w)
      + if r.dst.network == w && r.lossRatio.Some? then r.lossRatio.value * r.numXmit as real else 0.0
  }

  lemma LossTimesSent(numRecv: nat, numXmit: int, lossRatio: Option<real>)
    requires RatioFits(numRecv, numXmit, lossRatio) && lossRatio.Some?
    ensures lossRatio.value * numXmit as real == numXmit as real - numRecv as real
  {
    if lossRatio == LossRatio(numRecv, numXmit) {
      TimesDivisor(numRecv as real, numXmit as real);
    }
  }

  lemma TimesDivisor(x: real, y: real)
    requires y != 0.0
    ensures (1.0 - x / y) * y == y - x
  {
    assert (1.0 - x / y) * y == y - x / y * y;
  }

  lemma {:induction false} LostIsSentLessReceived(hosts: seq<HostResult>, w: Network)
    requires forall k :: 0 <= k < |hosts| ==>
               hosts[k].lossRatio.Some? && RatioFits(hosts[k].numRecv, hosts[k].numXmit, hosts[k].lossRatio)
    ensures LostTotal(hosts, w) == XmitTotal(hosts, w) as real - RecvTotal(hosts, w) as real
  {
    if hosts != [] {
      var last := hosts[|hosts| - 1];
      LostIsSentLessReceived(hosts[..|hosts| - 1], w);
      LossTimesSent(last.numRecv, last.numXmit, last.lossRatio);
    }
  }

  // The loss ratio of a network is the mean of its hosts' ratios, weighted by the probes sent
  lemma LossIsWeightedMean(plans: seq<TestPlan>, rs: seq<Receiver>, hash: string -> nat,
                           hosts: seq<HostResult>, networks: seq<NetworkResult>, k: nat)
    requires |rs| > 0 && Accounted(plans, rs, hash, hosts, networks) && k < |networks|
    requires forall p :: p in plans ==> p.numPackets != 0
    ensures networks[k].lossRatio.Some? ==>
              networks[k].lossRatio.value * networks[k].numXmit as real == LostTotal(hosts, networks[k].network)
  {
    forall i | 0 <= i < |hosts|
      ensures hosts[i].lossRatio.Some? && RatioFits(hosts[i].numRecv, hosts[i].numXmit, hosts[i].lossRatio)
    {
      HostRatioFits(plans, rs, hash, hosts, networks, i);
    }
    LostIsSentLessReceived(hosts, networks[k].network);
    TotalFits(hosts, networks, k);
  }

  lemma TotalFits(hosts: seq<HostResult>, networks: seq<NetworkResult>, k: nat)
    requires OnlyTotal(hosts, networks, k)
    ensures var r := networks[k];
            r.lossRatio.Some? ==> r.lossRatio.value * r.numXmit as real
                                  == XmitTotal(hosts, r.network) as real - RecvTotal(hosts, r.network) as real
  {
    var r := networks[k];
    if r.lossRatio.Some? {
      LossTimesSent(r.numRecv, r.numXmit, r.lossRatio);
    }
  }

  lemma HostRatioFits(plans: seq<TestPlan>, rs: seq<Receiver>, hash: string -> nat,
                      hosts: seq<HostResult>, networks: seq<NetworkResult>, i: nat)
    requires |rs| > 0 && Accounted(plans, rs, hash, hosts, networks) && i < |hosts|
    requires forall p :: p in plans ==> p.numPackets != 0
    ensures hosts[i].lossRatio.Some? && RatioFits(hosts[i].numRecv, hosts[i].numXmit, hosts[i].lossRatio)
  {
    assert hosts[i] in hosts;
    var p :| p in plans && p.target == hosts[i].dst;
    var k :| OnlyResult(p, rs, TargetMap(plans), hash, hosts, k);
    assert i == k && ResultOf(p, rs, TargetMap(plans), hash, hosts[i]);
  }

  // Any number of receivers, any interleaving of replies and forwarding, any losses
  method RunPinger(plans: seq<TestPlan>, n: nat, hash: string -> nat, steps: seq<Step>)
    returns (results: Option<(seq<HostResult>, seq<NetworkResult>)>)
    requires n > 0
    ensures results.Some? <==> LookupSucceeds(plans, hash, n, steps)
    ensures TargetsApart(plans) || DistinctIds(plans) ==> results.Some?
    ensures results.Some? && DistinctIds(plans) ==>
              Accounted(plans, After(plans, hash, n, steps), hash, results.value.0, results.value.1)
  {
    var receivers := After(plans, hash, n, steps);
    RunOk(n, TargetMap(plans), hash, steps);
    ghost var addrs, hosts, networks;
    addrs, hosts, networks, results := Run(plans, receivers, hash);
    if results.Some? {
      forall addrs', hosts' | GatheredHosts(receivers, TargetMap(plans), hash, addrs', hosts')
        ensures LooksUp(HostIds(hosts'), FirstWithId(plans).Keys)
      {
        GatheredAlike(receivers, plans, hash, addrs, hosts, addrs', hosts');
      }
    }
    if TargetsApart(plans) {
      ApartLooksUp(plans, hash, n, steps);
    }
    if results.Some? && DistinctIds(plans) {
      RunAccounts(receivers, plans, hash, addrs, hosts, networks, results.value.0, results.value.1);
    }
  }

  // The times behind a result are those of the replies that the owner of the network has consumed
  lemma TimesReported(plans: seq<TestPlan>, n: nat, hash: string -> nat, steps: seq<Step>, a: Addr)
    requires n > 0 && a in TargetMap(plans)
    ensures var targets := TargetMap(plans);
            var probes := ConsumedBy(Fresh(n), targets, hash, steps, Owner(targets[a].network, hash, n));
            HostHistogram(After(plans, hash, n, steps), targets, hash, a) == Fill(RttsOf(probes, targets, a))
  {
    var targets := TargetMap(plans);
    RunHistograms(n, targets, hash, steps, Owner(targets[a].network, hash, n), a, targets[a].network);
  }
}
