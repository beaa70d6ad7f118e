/**
  The receiver threads of the UDP pinger.

  A reply may reach any receiver.  Replies of one network are all counted by the receiver that the
  network's name hashes to; the others forward them through its queue.  A step of the system is the
  arrival of one reply at one receiver, or one receiver taking one message off its queue; messages
  may be lost, and whatever is still queued when the run stops is dropped.
 */
module ProbeReceivers {
  import opened Histograms
  import opened PingPlans
  import opened Sums

  datatype Probe = Probe(address: Addr, rtt: nat)

  datatype Receiver = Receiver(
    hosts: map<Addr, Histogram>,
    networks: map<Network, Histogram>,
    queueIds: map<Network, nat>,
    queue: seq<Probe>)

  type Targets = map<Addr, Target>

  // ---------- the steps ----------

  datatype Step =
    | Arrives(receiver: nat, probe: Probe, enqueued: bool)
    | TakesFromQueue(receiver: nat)

  function Owner(network: Network, hash: string -> nat, n: nat): nat
    requires n > 0
  {
    hash(network) % n
  }

  function Consume(r: Receiver, targets: Targets, probe: Probe): Receiver {
    if probe.address in targets then
      r.(hosts := AddTo(r.hosts, probe.address, probe.rtt),
         networks := AddTo(r.networks, targets[probe.address].network, probe.rtt))
    else
      r
  }

  function Next(rs: seq<Receiver>, targets: Targets, hash: string -> nat, step: Step): seq<Receiver>
    requires |rs| > 0
  {
    var i := step.receiver;
    if i >= |rs| then rs
    else
      match step
      case Arrives(_, probe, enqueued) =>
        if probe.address !in targets then rs
        else
          var network := targets[probe.address].network;
          var cached := network in rs[i].queueIds;
          var queueId := if cached then rs[i].queueIds[network] else Owner(network, hash, |rs|);
          var rs' := rs[i := rs[i].(queueIds := rs[i].queueIds[network := queueId])];
          if queueId == i then rs'[i := Consume(rs'[i], targets, probe)]
          else if enqueued && queueId < |rs| then rs'[queueId := rs'[queueId].(queue := rs'[queueId].queue + [probe])]
          else rs'
      case TakesFromQueue(_) =>
        if rs[i].queue == [] then rs
        else rs[i := Consume(rs[i].(queue := rs[i].queue[1..]), targets, rs[i].queue[0])]
  }

  function Execute(rs: seq<Receiver>, targets: Targets, hash: string -> nat, steps: seq<Step>): (after: seq<Receiver>)
    requires |rs| > 0
    ensures |after| == |rs|
    decreases steps
  {
    if steps == [] then rs else Execute(Next(rs, targets, hash, steps[0]), targets, hash, steps[1..])
  }

  // ---------- what every step keeps ----------

  function Count<K>(histograms: map<K, Histogram>, key: K): nat {
    if key in histograms then histograms[key].count else 0
  }

  function Share(targets: Targets, hosts: map<Addr, Histogram>, network: Network): Addr -> int {
    (a: Addr) => if a in targets && targets[a].network == network then Count(hosts, a) else 0
  }

  ghost predicate ReceiverOk(r: Receiver, i: nat, n: nat, targets: Targets, hash: string -> nat)
    requires n > 0
  {
    && (forall a :: a in r.hosts ==>
          a in targets && Owner(targets[a].network, hash, n) == i && r.hosts[a].count > 0)
    && (forall w :: w in r.networks ==> Owner(w, hash, n) == i && r.networks[w].count > 0)
    && (forall w :: w in r.queueIds ==> r.queueIds[w] == Owner(w, hash, n))
    && (forall p :: p in r.queue ==> p.address in targets && Owner(targets[p.address].network, hash, n) == i)
    && (forall w :: Count(r.networks, w) == SumOver(targets.Keys, Share(targets, r.hosts, w)))
  }

  ghost predicate AllOk(rs: seq<Receiver>, targets: Targets, hash: string -> nat) {
    |rs| > 0 && forall i :: 0 <= i < |rs| ==> ReceiverOk(rs[i], i, |rs|, targets, hash)
  }

  lemma ShareAfterConsume(targets: Targets, hosts: map<Addr, Histogram>, probe: Probe, w: Network)
    requires probe.address in targets
    ensures SumOver(targets.Keys, Share(targets, AddTo(hosts, probe.address, probe.rtt), w))
            == SumOver(targets.Keys, Share(targets, hosts, w))
               + if targets[probe.address].network == w then 1 else 0
  {
    var a, after := probe.address, AddTo(hosts, probe.address, probe.rtt);
    SumTake(targets.Keys, Share(targets, hosts, w), a);
    SumTake(targets.Keys, Share(targets, after, w), a);
    SumSame(targets.Keys - {a}, Share(targets, hosts, w), Share(targets, after, w));
  }

  lemma ConsumeOk(r: Receiver, i: nat, n: nat, targets: Targets, hash: string -> nat, probe: Probe)
    requires n > 0 && ReceiverOk(r, i, n, targets, hash)
    requires probe.address in targets && Owner(targets[probe.address].network, hash, n) == i
    ensures ReceiverOk(Consume(r, targets, probe), i, n, targets, hash)
  {
    var after := Consume(r, targets, probe);
    forall w
      ensures Count(after.networks, w) == SumOver(targets.Keys, Share(targets, after.hosts, w))
    {
      ShareAfterConsume(targets, r.hosts, probe, w);
    }
  }

  lemma ReplaceOk(rs: seq<Receiver>, targets: Targets, hash: string -> nat, i: nat, r: Receiver)
    requires AllOk(rs, targets, hash) && i < |rs| && ReceiverOk(r, i, |rs|, targets, hash)
    ensures AllOk(rs[i := r], targets, hash)
  {
  }

  lemma StepOk(rs: seq<Receiver>, targets: Targets, hash: string -> nat, step: Step)
    requires AllOk(rs, targets, hash)
    ensures AllOk(Next(rs, targets, hash, step), targets, hash)
  {
    var i, n := step.receiver, |rs|;
    if i < n {
      var r := rs[i];
      match step {
        case Arrives(_, probe, enqueued) =>
          if probe.address in targets {
            var network := targets[probe.address].network;
            var queueId := Owner(network, hash, n);
            var cached := r.(queueIds := r.queueIds[network := queueId]);
            assert ReceiverOk(cached, i, n, targets, hash);
            ReplaceOk(rs, targets, hash, i, cached);
            if queueId == i {
              ConsumeOk(cached, i, n, targets, hash, probe);
              ReplaceOk(rs[i := cached], targets, hash, i, Consume(cached, targets, probe));
            } else {
              var other := rs[queueId];
              var longer := other.(queue := other.queue + [probe]);
              assert ReceiverOk(longer, queueId, n, targets, hash);
              ReplaceOk(rs[i := cached], targets, hash, queueId, longer);
            }
          }
        case TakesFromQueue(_) =>
          if r.queue != [] {
            var probe := r.queue[0];
            assert probe in r.queue;
            var shorter := r.(queue := r.queue[1..]);
            assert ReceiverOk(shorter, i, n, targets, hash);
            ConsumeOk(shorter, i, n, targets, hash, probe);
            ReplaceOk(rs, targets, hash, i, Consume(shorter, targets, probe));
          }
      }
    }
  }

  const FRESH: Receiver := Receiver(map[], map[], map[], [])

  lemma {:induction false} FreshSum(keys: set<Addr>, targets: Targets, w: Network)
    ensures SumOver(keys, Share(targets, map[], w)) == 0
    decreases |keys|
  {
    if keys != {} {
      var a :| a in keys;
      SumTake(keys, Share(targets, map[], w), a);
      FreshSum(keys - {a}, targets, w);
    }
  }

  // Any number of receivers, any interleaving, any losses
  lemma {:induction false} ExecuteOk(rs: seq<Receiver>, targets: Targets, hash: string -> nat, steps: seq<Step>)
    requires AllOk(rs, targets, hash)
    ensures AllOk(Execute(rs, targets, hash, steps), targets, hash)
    decreases steps
  {
    if steps != [] {
      StepOk(rs, targets, hash, steps[0]);
      ExecuteOk(Next(rs, targets, hash, steps[0]), targets, hash, steps[1..]);
    }
  }

  lemma RunOk(n: nat, targets: Targets, hash: string -> nat, steps: seq<Step>)
    requires n > 0
    ensures AllOk(Execute(seq(n, _ => FRESH), targets, hash, steps), targets, hash)
  {
    forall w ensures SumOver(targets.Keys, Share(targets, FRESH.hosts, w)) == 0 {
      FreshSum(targets.Keys, targets, w);
    }
    ExecuteOk(seq(n, _ => FRESH), targets, hash, steps);
  }

  // A network is counted in one place only, and there it has as many replies as its hosts together
  lemma CountedOnce(rs: seq<Receiver>, targets: Targets, hash: string -> nat, w: Network, i: nat)
    requires AllOk(rs, targets, hash) && i < |rs|
    ensures w in rs[i].networks ==> i == hash(w) % |rs|
    ensures forall a :: a in targets && targets[a].network == w && a in rs[i].hosts ==> i == hash(w) % |rs|
    ensures Count(rs[i].networks, w) == SumOver(targets.Keys, Share(targets, rs[i].hosts, w))
  {
    assert ReceiverOk(rs[i], i, |rs|, targets, hash);
  }

  // ---------- the receiver object ----------

  class UdpReceiver {
    const receiverId: nat
    var state: Receiver

    constructor (id: nat)
      ensures receiverId == id && state == FRESH
    {
      receiverId, state := id, FRESH;
    }

    method ConsumeMessage(targets: Targets, probe: Probe)
      modifies this
      ensures state == Consume(old(state), targets, probe)
    {
      if probe.address in targets {
        var network := targets[probe.address].network;
        var hosts, networks := state.hosts, state.networks;
        if probe.address !in hosts {
          hosts := hosts[probe.address := EMPTY];
        }
        hosts := hosts[probe.address := AddValue(hosts[probe.address], probe.rtt)];
        if network !in networks {
          networks := networks[network := EMPTY];
        }
        networks := networks[network := AddValue(networks[network], probe.rtt)];
        state := state.(hosts := hosts, networks := networks);
      }
    }

    method TakeFromQueue(targets: Targets)
      modifies this
      ensures state == if old(state).queue == [] then old(state)
                       else Consume(old(state).(queue := old(state).queue[1..]), targets, old(state).queue[0])
    {
      if state.queue != [] {
        var probe := state.queue[0];
        state := state.(queue := state.queue[1..]);
        ConsumeMessage(targets, probe);
      }
    }
  }

  method OnMessageAvailable(receivers: seq<UdpReceiver>, i: nat, targets: Targets, hash: string -> nat,
                            probe: Probe, enqueued: bool)
    requires i < |receivers| && forall j, k :: 0 <= j < k < |receivers| ==> receivers[j] != receivers[k]
    requires forall j :: 0 <= j < |receivers| ==> receivers[j].receiverId == j
    modifies receivers
    ensures States(receivers) == Next(old(States(receivers)), targets, hash, Arrives(i, probe, enqueued))
  {
    if probe.address !in targets {
      return;
    }
    var r := receivers[i];
    var network := targets[probe.address].network;
    var queueId;
    if network in r.state.queueIds {
      queueId := r.state.queueIds[network];
    } else {
      queueId := hash(network) % |receivers|;
    }
    r.state := r.state.(queueIds := r.state.queueIds[network := queueId]);
    if queueId == r.receiverId {
      r.ConsumeMessage(targets, probe);
    } else if enqueued && queueId < |receivers| {
      var other := receivers[queueId];
      other.state := other.state.(queue := other.state.queue + [probe]);
    }
  }

  function States(receivers: seq<UdpReceiver>): (states: seq<Receiver>)
    reads receivers
    ensures |states| == |receivers| && forall i :: 0 <= i < |receivers| ==> states[i] == receivers[i].state
  {
    seq(|receivers|, i requires 0 <= i < |receivers| reads receivers => receivers[i].state)
  }
}
