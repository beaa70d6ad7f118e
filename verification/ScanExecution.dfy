/**
  The life of one scan execution: its start timer, scan responses, and the cleanup timer.

  A scan covers a range of tokens; a response takes its token out of the set of tokens still missing.
  The three handlers are atomic steps that may come in any order and any number.
 */
module ScanExecution {
  import opened Sets

  datatype Status = Queued | Running | Finished | Failed

  datatype Step = StartTimer | Response(token: int) | Cleanup

  datatype Scan = Scan(startToken: int, endToken: int, missing: set<int>, tokenCount: nat, status: Status)

  function Tokens(start: int, end: int): (tokens: set<int>)
    ensures forall t :: t in tokens <==> start <= t <= end
    decreases end - start
  {
    if end < start then {} else Tokens(start, end - 1) + {end}
  }

  function New(start: int, end: int): Scan {
    Scan(start, end, Tokens(start, end), |Tokens(start, end)|, Queued)
  }

  function Next(s: Scan, step: Step): Scan {
    match step
    case StartTimer => s.(status := Running)
    case Response(t) =>
      if !(s.startToken <= t <= s.endToken) then s
      else
        var left := s.missing - {t};
        s.(missing := left, status := if left == {} then Finished else s.status)
    case Cleanup =>
      if s.status == Finished then s
      else s.(status := if s.tokenCount == |s.missing| then Failed else Finished)
  }

  function Execute(s: Scan, steps: seq<Step>): Scan {
    if steps == [] then s else Next(Execute(s, steps[..|steps| - 1]), steps[|steps| - 1])
  }

  class ScanTest {
    const startToken: int
    const endToken: int
    const tokenCount: nat
    var tokenRange: set<int>
    var status: Status

    function State(): Scan
      reads this
    {
      Scan(startToken, endToken, tokenRange, tokenCount, status)
    }

    constructor (start: int, end: int)
      ensures State() == New(start, end)
    {
      startToken, endToken, status := start, end, Queued;
      var tokens: set<int> := {};
      var t := start;
      while t <= end
        invariant start <= t && (t <= end + 1 || t == start)
        invariant tokens == Tokens(start, t - 1)
      {
        tokens := tokens + {t};
        t := t + 1;
      }
      tokenRange, tokenCount := tokens, |tokens|;
      new;
      assert tokens == Tokens(start, end);
    }

    method OnStartTimer()
      modifies this
      ensures State() == Next(old(State()), StartTimer)
    {
      status := Running;
    }

    // get_execution finds no execution for a token outside the range
    method EventsHandler(token: int)
      modifies this
      ensures State() == Next(old(State()), Response(token))
    {
      if startToken <= token <= endToken {
        tokenRange := tokenRange - {token};
        if tokenRange == {} {
          status := Finished;
        }
      }
    }

    method CleanupExecutionStatus()
      modifies this
      ensures State() == Next(old(State()), Cleanup)
    {
      if status == Finished {
        return;
      }
      status := if tokenCount == |tokenRange| then Failed else Finished;
    }
  }

  // ---------- what has arrived ----------

  function Arrived(start: int, end: int, steps: seq<Step>): set<int> {
    if steps == [] then {}
    else
      var last := steps[|steps| - 1];
      Arrived(start, end, steps[..|steps| - 1])
      + if last.Response? && start <= last.token <= end then {last.token} else {}
  }

  lemma {:induction false} ArrivedIs(start: int, end: int, steps: seq<Step>)
    ensures forall t :: t in Arrived(start, end, steps) <==> start <= t <= end && Response(t) in steps
  {
    if steps != [] {
      var front, last := steps[..|steps| - 1], steps[|steps| - 1];
      ArrivedIs(start, end, front);
      assert steps == front + [last];
    }
  }

  lemma {:induction false} MissingIs(start: int, end: int, steps: seq<Step>)
    ensures var after := Execute(New(start, end), steps);
            && after.startToken == start && after.endToken == end
            && after.tokenCount == |Tokens(start, end)|
            && after.missing == Tokens(start, end) - Arrived(start, end, steps)
  {
    if steps != [] {
      var front, last := steps[..|steps| - 1], steps[|steps| - 1];
      MissingIs(start, end, front);
      StepMissing(Execute(New(start, end), front), last);
    }
  }

  // The token of a response in range
  function TokenOf(s: Scan, step: Step): set<int> {
    if step.Response? && s.startToken <= step.token <= s.endToken then {step.token} else {}
  }

  lemma StepMissing(s: Scan, step: Step)
    ensures var after := Next(s, step);
            && after.startToken == s.startToken && after.endToken == s.endToken && after.tokenCount == s.tokenCount
            && after.missing == s.missing - TokenOf(s, step)
  {
  }

  lemma NothingMissingYet(start: int, end: int, steps: seq<Step>)
    ensures var s := Execute(New(start, end), steps);
            s.tokenCount == |s.missing| <==> Arrived(start, end, steps) == {}
  {
    MissingIs(start, end, steps);
    ArrivedIs(start, end, steps);
    var all, arrived := Tokens(start, end), Arrived(start, end, steps);
    SubsetSize(all - arrived, all);
    assert arrived <= all;
    assert all - arrived == all <==> arrived == {};
  }

  // ---------- the theorems ----------

  lemma {:induction false} FinishedNeedsResponse(start: int, end: int, steps: seq<Step>)
    requires start <= end && Execute(New(start, end), steps).status == Finished
    ensures Arrived(start, end, steps) != {}
  {
    if steps != [] {
      var front, last := steps[..|steps| - 1], steps[|steps| - 1];
      NothingMissingYet(start, end, front);
      if Execute(New(start, end), front).status == Finished {
        FinishedNeedsResponse(start, end, front);
      } else if last.Response? {
        MissingIs(start, end, steps);
        assert start in Tokens(start, end);
      }
    }
  }

  // Whatever came before, the cleanup reports failure exactly when no response has come
  lemma CleanupExact(start: int, end: int, steps: seq<Step>)
    requires start <= end
    ensures var after := Execute(New(start, end), steps + [Cleanup]);
            && after.status in {Finished, Failed}
            && (after.status == Failed <==> Arrived(start, end, steps) == {})
  {
    assert (steps + [Cleanup])[..|steps|] == steps;
    NothingMissingYet(start, end, steps);
    if Execute(New(start, end), steps).status == Finished {
      FinishedNeedsResponse(start, end, steps);
    }
  }

  // The start timer fires once and before anything else
  predicate StartsFirst(steps: seq<Step>) {
    steps != [] && steps[0] == StartTimer && forall i :: 0 < i < |steps| ==> steps[i] != StartTimer
  }

  // What had arrived when the cleanup ran last
  function ArrivedAtCleanup(start: int, end: int, steps: seq<Step>): set<int> {
    if steps == [] then {}
    else if steps[|steps| - 1] == Cleanup then Arrived(start, end, steps)
    else ArrivedAtCleanup(start, end, steps[..|steps| - 1])
  }

  function StatusOf(start: int, end: int, arrived: set<int>, atCleanup: set<int>, cleaned: bool): Status {
    if arrived == Tokens(start, end) then Finished
    else if !cleaned then Running
    else if atCleanup == {} then Failed else Finished
  }

  // The status depends only on which tokens have arrived, now and when the cleanup ran: neither the
  // order of the responses nor duplicates matter
  lemma {:induction false} StatusExact(start: int, end: int, steps: seq<Step>)
    requires start <= end && StartsFirst(steps)
    ensures Execute(New(start, end), steps).status
            == StatusOf(start, end, Arrived(start, end, steps), ArrivedAtCleanup(start, end, steps), Cleanup in steps)
  {
    var front, last := steps[..|steps| - 1], steps[|steps| - 1];
    assert steps == front + [last];
    if |steps| > 1 {
      StatusExact(start, end, front);
      StatusAfter(start, end, steps);
    } else {
      assert start in Tokens(start, end);
    }
  }

  lemma StatusAfter(start: int, end: int, steps: seq<Step>)
    requires start <= end && steps != [] && steps[|steps| - 1] != StartTimer
    requires var front := steps[..|steps| - 1];
             Execute(New(start, end), front).status
             == StatusOf(start, end, Arrived(start, end, front), ArrivedAtCleanup(start, end, front), Cleanup in front)
    ensures Execute(New(start, end), steps).status
            == StatusOf(start, end, Arrived(start, end, steps), ArrivedAtCleanup(start, end, steps), Cleanup in steps)
  {
    var front, last := steps[..|steps| - 1], steps[|steps| - 1];
    InLonger(steps, Cleanup);
    MissingFacts(start, end, front);
    NothingLeft(start, end, steps);
    CleanupSawLess(start, end, front);
    StatusStep(Execute(New(start, end), front), last, Tokens(start, end), Arrived(start, end, front),
               Arrived(start, end, steps), ArrivedAtCleanup(start, end, front), Cleanup in front);
  }

  lemma InLonger(steps: seq<Step>, step: Step)
    requires steps != []
    ensures step in steps <==> step in steps[..|steps| - 1] || steps[|steps| - 1] == step
  {
    assert steps == steps[..|steps| - 1] + [steps[|steps| - 1]];
  }

  lemma StatusStep(s: Scan, step: Step, all: set<int>, arrived: set<int>, arrivedNow: set<int>,
                   atCleanup: set<int>, cleaned: bool)
    requires step != StartTimer && all == Tokens(s.startToken, s.endToken) && atCleanup <= arrived <= all
    requires s.missing == {} <==> arrived == all
    requires s.tokenCount == |s.missing| <==> arrived == {}
    requires Next(s, step).missing == {} <==> arrivedNow == all
    requires arrivedNow == arrived + TokenOf(s, step)
    requires s.status == StatusOf(s.startToken, s.endToken, arrived, atCleanup, cleaned)
    ensures Next(s, step).status
            == StatusOf(s.startToken, s.endToken, arrivedNow, if step == Cleanup then arrivedNow else atCleanup,
                        cleaned || step == Cleanup)
  {
    if step == Cleanup {
      assert arrivedNow == arrived;
    }
  }

  lemma NothingLeft(start: int, end: int, steps: seq<Step>)
    ensures Execute(New(start, end), steps).missing == {} <==> Arrived(start, end, steps) == Tokens(start, end)
    ensures Arrived(start, end, steps) <= Tokens(start, end)
  {
    MissingIs(start, end, steps);
    ArrivedIs(start, end, steps);
    var all, arrived := Tokens(start, end), Arrived(start, end, steps);
    assert arrived <= all;
    assert all - arrived == {} <==> all <= arrived;
  }

  // All that the status depends on
  lemma MissingFacts(start: int, end: int, steps: seq<Step>)
    ensures var s, arrived := Execute(New(start, end), steps), Arrived(start, end, steps);
            && s.startToken == start && s.endToken == end && arrived <= Tokens(start, end)
            && (s.missing == {} <==> arrived == Tokens(start, end))
            && (s.tokenCount == |s.missing| <==> arrived == {})
  {
    MissingIs(start, end, steps);
    NothingLeft(start, end, steps);
    NothingMissingYet(start, end, steps);
  }

  lemma {:induction false} CleanupSawLess(start: int, end: int, steps: seq<Step>)
    ensures ArrivedAtCleanup(start, end, steps) <= Arrived(start, end, steps)
  {
    if steps != [] {
      CleanupSawLess(start, end, steps[..|steps| - 1]);
    }
  }

  // FINISHED is final as long as the start timer does not fire again
  lemma {:induction false} FinishedIsFinal(s: Scan, steps: seq<Step>)
    requires s.status == Finished && StartTimer !in steps
    ensures Execute(s, steps).status == Finished
  {
    if steps != [] {
      FinishedIsFinal(s, steps[..|steps| - 1]);
    }
  }

  // Two runs with the same responses end alike, if the last cleanup of each (where there is one) had
  // seen the same responses
  lemma OrderDoesNotMatter(start: int, end: int, a: seq<Step>, b: seq<Step>)
    requires start <= end && StartsFirst(a) && StartsFirst(b)
    requires forall t :: Response(t) in a <==> Response(t) in b
    requires Cleanup in a <==> Cleanup in b
    requires ArrivedAtCleanup(start, end, a) == ArrivedAtCleanup(start, end, b)
    ensures Execute(New(start, end), a).status == Execute(New(start, end), b).status
  {
    StatusExact(start, end, a);
    StatusExact(start, end, b);
    SameArrived(start, end, a, b);
  }

  lemma SameArrived(start: int, end: int, a: seq<Step>, b: seq<Step>)
    requires forall t :: Response(t) in a <==> Response(t) in b
    ensures Arrived(start, end, a) == Arrived(start, end, b)
  {
    ArrivedIs(start, end, a);
    ArrivedIs(start, end, b);
    forall t ensures t in Arrived(start, end, a) <==> t in Arrived(start, end, b) {
      assert Response(t) in a <==> Response(t) in b;
    }
  }
}
