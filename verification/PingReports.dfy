/** What the results of a pinger run say about the replies that arrived, in plain sums. */
module PingReports {
  import opened Histograms
  import opened Options
  import opened PingPlans
  import opened PingerResults
  import opened ProbeReceivers
  import opened ReplyHistory

  // Count, mean and maximum of some times: those are in microseconds, the results in milliseconds
  ghost predicate Reports(numRecv: nat, rttAvg: real, rttMax: real, rtts: seq<nat>) {
    && numRecv == |rtts|
    && 1000.0 * rttAvg * numRecv as real == Sum(rtts) as real
    && (forall t :: t in rtts ==> t as real <= 1000.0 * rttMax)
    && (rtts != [] ==> exists t :: t in rtts && t as real == 1000.0 * rttMax)
    && (rtts == [] ==> rttAvg == rttMax == 0.0)
  }

  lemma InMilliseconds(x: real)
    ensures 1000.0 * (x / 1000.0) == x
  {
  }

  lemma MeanInMilliseconds(average: real, count: nat, sum: nat)
    requires IsMean(average, count, sum)
    ensures 1000.0 * (average / 1000.0) * count as real == sum as real
  {
    InMilliseconds(average);
  }

  lemma {:induction false} FilledReports(rtts: seq<nat>)
    ensures var h := Fill(rtts); Reports(h.count, h.average / 1000.0, h.maxSample as real / 1000.0, rtts)
  {
    var h := Fill(rtts);
    AverageIsMean(rtts);
    MeanInMilliseconds(h.average, |rtts|, Sum(rtts));
    MaximumAttained(rtts);
    InMilliseconds(h.maxSample as real);
    if rtts != [] {
      LargestIsThere(rtts, h.maxSample);
    }
  }

  lemma {:induction false} LargestIsThere(rtts: seq<nat>, max: int)
    requires rtts != [] && (max == 0 || max in rtts) && forall t :: t in rtts ==> t <= max
    ensures max in rtts
  {
    assert rtts[0] in rtts;
  }

  // The probes that the receiver responsible for a network has counted
  function Counted(plans: seq<TestPlan>, n: nat, hash: string -> nat, steps: seq<Step>, w: Network): seq<Probe>
    requires n > 0
  {
    ConsumedBy(Fresh(n), TargetMap(plans), hash, steps, Owner(w, hash, n))
  }

  // The result of a plan is that of the times of the replies from its address, or dead without any
  function ResultByTimes(p: TestPlan, rtts: seq<nat>): HostResult {
    if rtts == [] then DeadHost(p) else HostSent(HostResultOf(p.target, Fill(rtts)), p.numPackets)
  }

  lemma {:induction false} ResultIsByTimes(plans: seq<TestPlan>, n: nat, hash: string -> nat, steps: seq<Step>,
                                           p: TestPlan, r: HostResult, a: Addr)
    requires n > 0 && ResultOf(p, After(plans, hash, n, steps), TargetMap(plans), hash, r)
    requires p.target.address == Some(a) && a in TargetMap(plans) && TargetMap(plans)[a] == p.target
    ensures r == ResultByTimes(p, RttsOf(Counted(plans, n, hash, steps, p.target.network), TargetMap(plans), a))
  {
    var rtts := RttsOf(Counted(plans, n, hash, steps, p.target.network), TargetMap(plans), a);
    TimesReported(plans, n, hash, steps, a);
    AverageIsMean(rtts);
  }

  // It reports these times; a host without any is dead
  lemma {:induction false} HostReports(p: TestPlan, rtts: seq<nat>)
    ensures var r := ResultByTimes(p, rtts);
            && Reports(r.numRecv, r.rttAvg, r.rttMax, rtts)
            && r.dst == p.target && r.numXmit == p.numPackets && (r.dead <==> rtts == [])
            && (r.lossRatio.Some? ==>
                  r.lossRatio.value * r.numXmit as real == r.numXmit as real - |rtts| as real)
            && (p.numPackets != 0 ==> r.lossRatio.Some?)
  {
    var r := ResultByTimes(p, rtts);
    FilledReports(rtts);
    if rtts == [] {
      InMilliseconds(0.0);
    }
    if r.lossRatio.Some? {
      LossTimesSent(r.numRecv, r.numXmit, r.lossRatio);
    }
  }

  // A plan whose address is malformed, or taken by an earlier plan, is reported dead
  lemma UnknownIsDead(plans: seq<TestPlan>, n: nat, hash: string -> nat, steps: seq<Step>, p: TestPlan, r: HostResult)
    requires n > 0 && ResultOf(p, After(plans, hash, n, steps), TargetMap(plans), hash, r)
    requires p.target.address.None? || p.target.address.value !in TargetMap(plans)
             || TargetMap(plans)[p.target.address.value] != p.target
    ensures r == HostResult(p.target, 0, 0.0, 0.0, p.numPackets, Some(1.0), true)
  {
  }

  lemma {:induction false} NetworkHoldsTimes(plans: seq<TestPlan>, n: nat, hash: string -> nat, steps: seq<Step>,
                                             w: Network)
    requires n > 0
    ensures NetworkHistogram(After(plans, hash, n, steps), hash, w)
            == Fill(NetworkRtts(Counted(plans, n, hash, steps, w), TargetMap(plans), w))
  {
    RunHistograms(n, TargetMap(plans), hash, steps, Owner(w, hash, n), "", w);
  }

  // The result of a network reports the replies from all its addresses
  lemma {:induction false} NetworkReports(plans: seq<TestPlan>, n: nat, hash: string -> nat, steps: seq<Step>,
                                          hosts: seq<HostResult>, networks: seq<NetworkResult>, k: nat)
    requires n > 0 && Accounted(plans, After(plans, hash, n, steps), hash, hosts, networks) && k < |networks|
    ensures var r := networks[k];
            Reports(r.numRecv, r.rttAvg, r.rttMax,
                    NetworkRtts(Counted(plans, n, hash, steps, r.network), TargetMap(plans), r.network))
  {
    var w := networks[k].network;
    assert TimesOfNetwork(After(plans, hash, n, steps), hash, networks[k]);
    NetworkHoldsTimes(plans, n, hash, steps, w);
    FilledReports(NetworkRtts(Counted(plans, n, hash, steps, w), TargetMap(plans), w));
  }
}
