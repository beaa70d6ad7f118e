/**
  The send loop of one UDP pinger thread.

  Every sweep sends one probe of every unfinished plan; the source port rotates over the usable
  ports.  A send that would block (EAGAIN) gives its turn back, any other error uses it up.  The
  result of the k-th sendto call is outcome(k).
 */
module ProbeSender {
  import opened PingPlans

  datatype SendOutcome = Sent | TryAgain | Failed

  datatype Attempt = Attempt(plan: nat, port: int, outcome: SendOutcome)

  // ---------- what is on the wire ----------

  // The ports in the configured range that the receivers could bind
  function SrcPorts(basePort: int, count: nat, missing: set<int>): seq<int> {
    if count == 0 then []
    else SrcPorts(basePort, count - 1, missing)
         + if basePort + count - 1 in missing then [] else [basePort + count - 1]
  }

  // The source ports of the attempts of one plan that used their turn
  function PortsUsed(log: seq<Attempt>, plan: nat): seq<int> {
    if log == [] then []
    else
      var last := log[|log| - 1];
      PortsUsed(log[..|log| - 1], plan) + if last.plan == plan && last.outcome != TryAgain then [last.port] else []
  }

  lemma UsedAfterAttempt(log: seq<Attempt>, a: Attempt)
    ensures forall i: nat :: PortsUsed(log + [a], i)
                             == PortsUsed(log, i) + if a.plan == i && a.outcome != TryAgain then [a.port] else []
  {
    assert (log + [a])[..|log|] == log;
  }

  function RoundRobin(ports: seq<int>, n: nat): seq<int>
    requires n == 0 || ports != []
  {
    if n == 0 then [] else RoundRobin(ports, n - 1) + [ports[(n - 1) % |ports|]]
  }

  function Quota(numPackets: int): nat {
    if numPackets < 0 then 0 else numPackets
  }

  // ---------- progress ----------

  function Remaining(plans: seq<TestPlan>): nat {
    if plans == [] then 0
    else Remaining(plans[1..])
         + if plans[0].packetsSent < plans[0].numPackets then plans[0].numPackets - plans[0].packetsSent else 0
  }

  lemma {:induction false} RemainingAfterSend(plans: seq<TestPlan>, i: nat)
    requires i < |plans| && plans[i].packetsSent < plans[i].numPackets
    ensures Remaining(plans[i := plans[i].(packetsSent := plans[i].packetsSent + 1)]) == Remaining(plans) - 1
  {
    var after := plans[i := plans[i].(packetsSent := plans[i].packetsSent + 1)];
    if i == 0 {
      assert after[1..] == plans[1..];
    } else {
      RemainingAfterSend(plans[1..], i - 1);
      assert after[1..] == plans[1..][i - 1 := after[i]];
    }
  }

  // Attempts that may still be told to try again
  function Patience(quiet: nat, log: seq<Attempt>): nat {
    if |log| < quiet then quiet - |log| else 0
  }

  class UdpSender {
    var testPlans: seq<TestPlan>
    const srcPorts: seq<int>
    const isLoopback: bool

    constructor (plans: seq<TestPlan>, basePort: int, portCount: nat, missingPorts: set<int>, loopback: bool)
      ensures testPlans == plans && isLoopback == loopback
      ensures srcPorts == SrcPorts(basePort, portCount, missingPorts)
    {
      testPlans, isLoopback := plans, loopback;
      var ports: seq<int> := [];
      for i := 0 to portCount
        invariant ports == SrcPorts(basePort, i, missingPorts)
      {
        if basePort + i !in missingPorts {
          ports := ports + [basePort + i];
        }
      }
      srcPorts := ports;
    }

    predicate Usable()
    {
      !isLoopback && srcPorts != []
    }

    // Every plan has sent on exactly the next ports in turn
    ghost predicate InTurn(log: seq<Attempt>)
      reads this
    {
      forall i :: 0 <= i < |testPlans| ==>
        && (testPlans[i].packetsSent > 0 ==> srcPorts != [])
        && PortsUsed(log, i) == RoundRobin(srcPorts, testPlans[i].packetsSent)
    }

    ghost predicate SamePlans(plans: seq<TestPlan>)
      reads this
    {
      && |testPlans| == |plans|
      && forall i :: 0 <= i < |plans| ==>
           && testPlans[i] == plans[i].(packetsSent := testPlans[i].packetsSent)
           && testPlans[i].packetsSent <= Quota(plans[i].numPackets)
    }

    predicate Outcomes(log: seq<Attempt>, outcome: nat -> SendOutcome) {
      forall k :: 0 <= k < |log| ==> log[k].outcome == outcome(k)
    }

    // quiet bounds the calls that are told to try again
    method PingAllTargets(outcome: nat -> SendOutcome, ghost quiet: nat) returns (log: seq<Attempt>)
      requires forall k :: quiet <= k ==> outcome(k) != TryAgain
      requires forall p :: p in testPlans ==> p.packetsSent == 0
      modifies this
      ensures SamePlans(old(testPlans)) && InTurn(log)
      ensures if isLoopback || srcPorts == [] then log == [] && testPlans == old(testPlans)
              else forall i :: 0 <= i < |testPlans| ==>
                testPlans[i].packetsSent == if testPlans[i].numPackets < 0 then 0 else testPlans[i].numPackets
      ensures Outcomes(log, outcome)
    {
      log := [];
      var done := false;
      while !done
        invariant SamePlans(old(testPlans)) && InTurn(log)
        invariant Outcomes(log, outcome)
        invariant !Usable() ==> log == [] && testPlans == old(testPlans)
        invariant done && Usable() ==> forall i :: 0 <= i < |testPlans| ==>
                    testPlans[i].packetsSent >= testPlans[i].numPackets
        decreases !done, Remaining(testPlans) + Patience(quiet, log)
      {
        done, log := Sweep(log, outcome, quiet, old(testPlans));
      }
    }

    // One probe for every plan that is not finished
    method Sweep(before: seq<Attempt>, outcome: nat -> SendOutcome, ghost quiet: nat, ghost plans: seq<TestPlan>)
      returns (done: bool, log: seq<Attempt>)
      requires forall k :: quiet <= k ==> outcome(k) != TryAgain
      requires SamePlans(plans)
      requires InTurn(before) && Outcomes(before, outcome)
      modifies this
      ensures InTurn(log) && Outcomes(log, outcome)
      ensures SamePlans(plans)
      ensures !Usable() ==> done && log == before && testPlans == old(testPlans)
      ensures done && Usable() ==> forall i :: 0 <= i < |testPlans| ==>
                testPlans[i].packetsSent >= testPlans[i].numPackets
      ensures done ==> log == before && testPlans == old(testPlans)
      ensures !done ==> Remaining(testPlans) + Patience(quiet, log)
                        < old(Remaining(testPlans)) + Patience(quiet, before)
    {
      done, log := true, before;
      for i := 0 to |testPlans|
        invariant |testPlans| == old(|testPlans|)
        invariant InTurn(log) && Outcomes(log, outcome)
        invariant SamePlans(plans)
        invariant done ==> log == before && testPlans == old(testPlans)
        invariant done && Usable() ==> forall j :: 0 <= j < i ==>
                    testPlans[j].packetsSent >= testPlans[j].numPackets
        invariant !Usable() ==> done
        invariant !done ==> Remaining(testPlans) + Patience(quiet, log)
                            < old(Remaining(testPlans)) + Patience(quiet, before)
      {
        var plan := testPlans[i];
        if !isLoopback && |srcPorts| > 0 && plan.packetsSent < plan.numPackets {
          done := false;
          log := SendProbe(i, log, outcome, quiet, plans);
        }
      }
    }

    method SendProbe(i: nat, before: seq<Attempt>, outcome: nat -> SendOutcome, ghost quiet: nat,
                     ghost plans: seq<TestPlan>)
      returns (log: seq<Attempt>)
      requires forall k :: quiet <= k ==> outcome(k) != TryAgain
      requires SamePlans(plans)
      requires i < |testPlans| && Usable() && testPlans[i].packetsSent < testPlans[i].numPackets
      requires InTurn(before) && Outcomes(before, outcome)
      modifies this
      ensures InTurn(log) && Outcomes(log, outcome) && |log| == |before| + 1
      ensures SamePlans(plans)
      ensures |testPlans| == old(|testPlans|)
      ensures Remaining(testPlans) + Patience(quiet, log) < old(Remaining(testPlans)) + Patience(quiet, before)
    {
      var plan := testPlans[i];
      ghost var was := testPlans;
      var port := srcPorts[plan.packetsSent % |srcPorts|];
      testPlans := testPlans[i := plan.(packetsSent := plan.packetsSent + 1)];
      var result := outcome(|before|);
      log := before + [Attempt(i, port, result)];
      assert log[..|log| - 1] == before;
      if result == TryAgain {
        testPlans := testPlans[i := plan];
        assert testPlans == was;
      } else {
        RemainingAfterSend(was, i);
      }
      UsedAfterAttempt(before, log[|before|]);
    }
  }

  // ---------- fairness of the rotation ----------

  function Count(s: seq<int>, x: int): nat {
    if s == [] then 0 else Count(s[..|s| - 1], x) + if s[|s| - 1] == x then 1 else 0
  }

  lemma AtLeastOneRound(q: int, q': int, n: nat)
    requires q > q'
    ensures q * n >= q' * n + n
  {
    assert q * n == q' * n + (q - q') * n;
    assert (q - q') * n == n + (q - q' - 1) * n;
  }

  lemma DivModUnique(x: int, n: nat, q: int, r: int)
    requires n > 0 && 0 <= r < n && x == q * n + r
    ensures x % n == r
  {
    var q', r' := x / n, x % n;
    assert x == q' * n + r';
    if q > q' {
      AtLeastOneRound(q, q', n);
    } else if q < q' {
      AtLeastOneRound(q', q, n);
    }
  }

  lemma DivMod(x: nat, n: nat) returns (q: nat, r: nat)
    requires n > 0
    ensures x == q * n + r && r < n
  {
    q, r := x / n, x % n;
  }

  // After q full rounds and r more probes the first r ports are one ahead
  lemma {:induction false} RoundRobinCount(ports: seq<int>, q: nat, r: nat, j: nat)
    requires j < |ports| && r < |ports|
    requires forall a, b :: 0 <= a < b < |ports| ==> ports[a] != ports[b]
    ensures q * |ports| + r >= 0
    ensures Count(RoundRobin(ports, q * |ports| + r), ports[j]) == q + if j < r then 1 else 0
    decreases q, r
  {
    var n := |ports|;
    var total := q * n + r;
    if r > 0 {
      DivModUnique(total - 1, n, q, r - 1);
      RoundRobinCount(ports, q, r - 1, j);
      LastPort(ports, total, j);
    } else if q > 0 {
      assert total - 1 == (q - 1) * n + (n - 1);
      DivModUnique(total - 1, n, q - 1, n - 1);
      RoundRobinCount(ports, q - 1, n - 1, j);
      LastPort(ports, total, j);
    }
  }

  lemma LastPort(ports: seq<int>, total: nat, j: nat)
    requires total > 0 && j < |ports|
    requires forall a, b :: 0 <= a < b < |ports| ==> ports[a] != ports[b]
    ensures Count(RoundRobin(ports, total), ports[j])
            == Count(RoundRobin(ports, total - 1), ports[j]) + if (total - 1) % |ports| == j then 1 else 0
  {
    var before := RoundRobin(ports, total - 1);
    assert RoundRobin(ports, total)[..|before|] == before;
  }

  lemma {:induction false} SrcPortsDistinct(basePort: int, count: nat, missing: set<int>)
    ensures var ports := SrcPorts(basePort, count, missing);
            && (forall a, b :: 0 <= a < b < |ports| ==> ports[a] < ports[b])
            && (forall p :: p in ports <==> basePort <= p < basePort + count && p !in missing)
  {
    if count > 0 {
      SrcPortsDistinct(basePort, count - 1, missing);
      var front := SrcPorts(basePort, count - 1, missing);
      forall a | 0 <= a < |front|
        ensures front[a] < basePort + count - 1
      {
        assert front[a] in front;
      }
    }
  }

  // No two usable ports of a plan's probes differ by more than one
  lemma PortsBalanced(ports: seq<int>, total: nat, p: int, p': int)
    requires forall a, b :: 0 <= a < b < |ports| ==> ports[a] < ports[b]
    requires p in ports && p' in ports
    ensures Count(RoundRobin(ports, total), p) <= Count(RoundRobin(ports, total), p') + 1
  {
    var n := |ports|;
    var j :| 0 <= j < n && ports[j] == p;
    var j' :| 0 <= j' < n && ports[j'] == p';
    var q, r := DivMod(total, n);
    RoundRobinCount(ports, q, r, j);
    RoundRobinCount(ports, q, r, j');
  }
}
