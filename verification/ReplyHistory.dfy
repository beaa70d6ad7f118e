/** Which replies the receivers of the UDP pinger have counted, and what their histograms say about them. */
module ReplyHistory {
  import opened Histograms
  import opened PingPlans
  import opened ProbeReceivers

  function ConsumeAll(r: Receiver, targets: Targets, probes: seq<Probe>): Receiver {
    if probes == [] then r else Consume(ConsumeAll(r, targets, probes[..|probes| - 1]), targets, probes[|probes| - 1])
  }

  function RttsOf(probes: seq<Probe>, targets: Targets, a: Addr): seq<nat> {
    if probes == [] then []
    else
      var last := probes[|probes| - 1];
      AppendIf(RttsOf(probes[..|probes| - 1], targets, a), last.address in targets && last.address == a, last.rtt)
  }

  function NetworkRtts(probes: seq<Probe>, targets: Targets, w: Network): seq<nat> {
    if probes == [] then []
    else
      var last := probes[|probes| - 1];
      AppendIf(NetworkRtts(probes[..|probes| - 1], targets, w),
               last.address in targets && targets[last.address].network == w, last.rtt)
  }

  lemma ConsumeHolds(r: Receiver, targets: Targets, probe: Probe, a: Addr, own: seq<nat>, w: Network, all: seq<nat>)
    requires Holds(r.hosts, a, own) && Holds(r.networks, w, all)
    ensures var after, known := Consume(r, targets, probe), probe.address in targets;
            && Holds(after.hosts, a, AppendIf(own, known && probe.address == a, probe.rtt))
            && Holds(after.networks, w, AppendIf(all, known && targets[probe.address].network == w, probe.rtt))
  {
    if probe.address in targets {
      AddToHolds(r.hosts, probe.address, a, own, probe.rtt);
      AddToHolds(r.networks, targets[probe.address].network, w, all, probe.rtt);
    }
  }

  // Each host's histogram is made of the times of its own replies, each network's of those of its hosts
  lemma {:induction false} HistogramsExact(targets: Targets, probes: seq<Probe>, a: Addr, w: Network)
    ensures var r := ConsumeAll(FRESH, targets, probes);
            Holds(r.hosts, a, RttsOf(probes, targets, a)) && Holds(r.networks, w, NetworkRtts(probes, targets, w))
  {
    if probes != [] {
      var front, last := probes[..|probes| - 1], probes[|probes| - 1];
      HistogramsExact(targets, front, a, w);
      ConsumeHolds(ConsumeAll(FRESH, targets, front), targets, last,
                   a, RttsOf(front, targets, a), w, NetworkRtts(front, targets, w));
    }
  }

  // ---------- which probes a receiver has consumed ----------

  // The probe that the i-th receiver consumes in a step, if any
  function ConsumedIn(rs: seq<Receiver>, targets: Targets, hash: string -> nat, step: Step, i: nat): seq<Probe>
    requires |rs| > 0
  {
    if step.receiver != i || i >= |rs| then []
    else
      match step
      case Arrives(_, probe, _) =>
        if probe.address !in targets then []
        else
          var network := targets[probe.address].network;
          var queueId := if network in rs[i].queueIds then rs[i].queueIds[network] else Owner(network, hash, |rs|);
          if queueId == i then [probe] else []
      case TakesFromQueue(_) => if rs[i].queue == [] then [] else [rs[i].queue[0]]
  }

  function ConsumedBy(rs: seq<Receiver>, targets: Targets, hash: string -> nat, steps: seq<Step>, i: nat): seq<Probe>
    requires |rs| > 0
    decreases steps
  {
    if steps == [] then []
    else
      ConsumedIn(rs, targets, hash, steps[0], i)
      + ConsumedBy(Next(rs, targets, hash, steps[0]), targets, hash, steps[1..], i)
  }

  predicate SameHistograms(a: Receiver, b: Receiver) {
    a.hosts == b.hosts && a.networks == b.networks
  }

  lemma {:induction false} ConsumeAllSame(a: Receiver, b: Receiver, targets: Targets, probes: seq<Probe>)
    requires SameHistograms(a, b)
    ensures SameHistograms(ConsumeAll(a, targets, probes), ConsumeAll(b, targets, probes))
  {
    if probes != [] {
      ConsumeAllSame(a, b, targets, probes[..|probes| - 1]);
    }
  }

  lemma {:induction false} ConsumeAllConcat(r: Receiver, targets: Targets, a: seq<Probe>, b: seq<Probe>)
    ensures ConsumeAll(r, targets, a + b) == ConsumeAll(ConsumeAll(r, targets, a), targets, b)
  {
    if b == [] {
      assert a + b == a;
    } else {
      ConsumeAllConcat(r, targets, a, b[..|b| - 1]);
      assert (a + b)[..|a + b| - 1] == a + b[..|b| - 1];
    }
  }

  lemma StepConsumes(rs: seq<Receiver>, targets: Targets, hash: string -> nat, step: Step, i: nat)
    requires i < |rs|
    ensures SameHistograms(Next(rs, targets, hash, step)[i],
                           ConsumeAll(rs[i], targets, ConsumedIn(rs, targets, hash, step, i)))
  {
    var probes := ConsumedIn(rs, targets, hash, step, i);
    if probes != [] {
      assert probes == [probes[0]] && [probes[0]][..0] == [];
      assert ConsumeAll(rs[i], targets, probes) == Consume(rs[i], targets, probes[0]);
    }
  }

  // After any interleaving a receiver's histograms are those of the probes it has consumed, in order
  lemma {:induction false} ExecuteConsumes(rs: seq<Receiver>, targets: Targets, hash: string -> nat,
                                           steps: seq<Step>, i: nat)
    requires i < |rs|
    ensures SameHistograms(Execute(rs, targets, hash, steps)[i],
                           ConsumeAll(rs[i], targets, ConsumedBy(rs, targets, hash, steps, i)))
    decreases steps
  {
    if steps != [] {
      var next, first := Next(rs, targets, hash, steps[0]), ConsumedIn(rs, targets, hash, steps[0], i);
      var rest := ConsumedBy(next, targets, hash, steps[1..], i);
      StepConsumes(rs, targets, hash, steps[0], i);
      ExecuteConsumes(next, targets, hash, steps[1..], i);
      ConsumeAllSame(next[i], ConsumeAll(rs[i], targets, first), targets, rest);
      ConsumeAllConcat(rs[i], targets, first, rest);
    }
  }

  // So each histogram holds exactly the times of the replies consumed there
  lemma RunHistograms(n: nat, targets: Targets, hash: string -> nat, steps: seq<Step>, i: nat, a: Addr, w: Network)
    requires i < n
    ensures var r := Execute(seq(n, _ => FRESH), targets, hash, steps)[i];
            var probes := ConsumedBy(seq(n, _ => FRESH), targets, hash, steps, i);
            Holds(r.hosts, a, RttsOf(probes, targets, a)) && Holds(r.networks, w, NetworkRtts(probes, targets, w))
  {
    ExecuteConsumes(seq(n, _ => FRESH), targets, hash, steps, i);
    HistogramsExact(targets, ConsumedBy(seq(n, _ => FRESH), targets, hash, steps, i), a, w);
  }
}
