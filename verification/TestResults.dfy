/**
  The status protocol of one network test execution: results arriving from the stream, the cleanup
  task, and a restart of the service.

  Every started session has one row, and rows are named by their sessions.  The cleanup task works in
  two transactions with a waiting time between them.  A manual stop is not part of the model.
 */
module TestResults {
  import opened Sets

  datatype Status = Running | Processing | Finished | Failed

  datatype Phase = Starting | Waiting | Judged | Removed

  // sessions: ids of the started sessions, kept until the test is stopped.
  // reported: the latest result of each session that reported before the verdict, and whether it was
  // an error (a history variable)
  datatype Execution = Execution(
    status: Status,
    rows: map<string, Status>,
    sessions: set<string>,
    phase: Phase,
    reported: map<string, bool>)

  datatype Step =
    | SessionStarts(session: string)
    | StartFails(row: string)
    | ResultArrives(session: string, error: bool)
    | CleanupBegins
    | CleanupEnds
    | TestStops

  const NEW: Execution := Execution(Running, map[], {}, Starting, map[])

  function Replace(rows: map<string, Status>, from: Status, to: Status): map<string, Status> {
    map r | r in rows :: if rows[r] == from then to else rows[r]
  }

  // The rows that an UPDATE ... WHERE status = s touches
  function WithStatus(rows: map<string, Status>, s: Status): set<string> {
    set r | r in rows && rows[r] == s
  }

  predicate Enabled(e: Execution, step: Step) {
    match step
    case SessionStarts(s) => e.phase == Starting && s !in e.rows
    case StartFails(r) => e.phase == Starting && r !in e.rows
    case ResultArrives(_, _) => true
    case CleanupBegins => e.phase == Starting
    case CleanupEnds => e.phase == Waiting
    case TestStops => e.phase == Judged
  }

  function Next(e: Execution, step: Step): Execution {
    match step
    case SessionStarts(s) => e.(rows := e.rows[s := Running], sessions := e.sessions + {s})
    case StartFails(r) => e.(rows := e.rows[r := Failed])
    case ResultArrives(s, error) =>
      // without a matching execution the message is dropped
      if s !in e.sessions then e
      else e.(rows := e.rows[s := if error then Failed else Finished],
              reported := if e.phase in {Starting, Waiting} then e.reported[s := error] else e.reported)
    case CleanupBegins => e.(status := Processing, rows := Replace(e.rows, Running, Processing), phase := Waiting)
    case CleanupEnds =>
      var touched := WithStatus(e.rows, Processing);
      e.(rows := Replace(e.rows, Processing, Failed),
         status := if e.sessions == {} || |touched| == |e.sessions| then Failed else Finished,
         phase := Judged)
    case TestStops => e.(sessions := {}, phase := Removed)
  }

  function Execute(e: Execution, steps: seq<Step>): Execution
    decreases steps
  {
    if steps == [] then e else Execute(Next(e, steps[0]), steps[1..])
  }

  predicate AllEnabled(e: Execution, steps: seq<Step>)
    decreases steps
  {
    steps == [] || (Enabled(e, steps[0]) && AllEnabled(Next(e, steps[0]), steps[1..]))
  }

  // What every step keeps
  predicate Ok(e: Execution) {
    && e.sessions <= e.rows.Keys && e.reported.Keys <= e.rows.Keys
    && (e.phase in {Starting, Waiting} ==>
          && e.reported.Keys <= e.sessions
          && (forall s :: s in e.reported ==> e.rows[s] == if e.reported[s] then Failed else Finished)
          && (forall r :: r in e.rows && r !in e.sessions ==> e.rows[r] == Failed)
          && forall r :: r in e.rows ==>
               (e.rows[r] == (if e.phase == Starting then Running else Processing)
                <==> r in e.sessions && r !in e.reported))
    && (e.phase == Starting ==> e.status == Running && forall r :: r in e.rows ==> e.rows[r] != Processing)
    && (e.phase == Waiting ==> e.status == Processing && forall r :: r in e.rows ==> e.rows[r] != Running)
    && (e.phase in {Judged, Removed} ==>
          && (forall r :: r in e.rows ==> e.rows[r] in {Finished, Failed})
          && e.status == if e.reported != map[] then Finished else Failed)
  }

  lemma StepOk(e: Execution, step: Step)
    requires Ok(e) && Enabled(e, step)
    ensures Ok(Next(e, step))
  {
    match step {
      case ResultArrives(s, error) => ResultOk(e, s, error);
      case CleanupEnds => VerdictOk(e);
      case _ =>
    }
  }

  lemma ResultOk(e: Execution, s: string, error: bool)
    requires Ok(e)
    ensures Ok(Next(e, ResultArrives(s, error)))
  {
  }

  lemma VerdictOk(e: Execution)
    requires Ok(e) && e.phase == Waiting
    ensures Ok(Next(e, CleanupEnds))
  {
    NobodyReported(e);
  }

  // The rows touched are as many as the sessions exactly if no session has reported
  lemma NobodyReported(e: Execution)
    requires Ok(e) && e.phase == Waiting
    ensures e.sessions == {} || |WithStatus(e.rows, Processing)| == |e.sessions| <==> e.reported == map[]
  {
    var touched := WithStatus(e.rows, Processing);
    assert touched == e.sessions - e.reported.Keys;
    SubsetSize(touched, e.sessions);
    assert e.sessions == touched <==> e.reported.Keys == {};
  }

  // For every interleaving of results with the cleanup
  lemma {:induction false} ExecuteOk(e: Execution, steps: seq<Step>)
    requires Ok(e) && AllEnabled(e, steps)
    ensures Ok(Execute(e, steps))
    decreases steps
  {
    if steps != [] {
      StepOk(e, steps[0]);
      ExecuteOk(Next(e, steps[0]), steps[1..]);
    }
  }

  // Once judged, the execution is finished if and only if some session reported in time, and no row
  // is left running or processing
  lemma VerdictExact(steps: seq<Step>)
    requires AllEnabled(NEW, steps) && Execute(NEW, steps).phase in {Judged, Removed}
    ensures var e := Execute(NEW, steps);
            && (e.status == Finished <==> e.reported != map[])
            && e.status in {Finished, Failed}
            && forall r :: r in e.rows ==> e.rows[r] in {Finished, Failed}
  {
    ExecuteOk(NEW, steps);
  }

  // ---------- a restart of the service ----------

  predicate AnyFinished(rows: map<string, Status>) {
    exists r :: r in rows && rows[r] == Finished
  }

  function Restart(e: Execution): Execution {
    var rows := Replace(Replace(e.rows, Running, Failed), Processing, Failed);
    e.(rows := rows,
       status := match e.status
                 case Running => Failed
                 case Processing => if AnyFinished(rows) then Finished else Failed
                 case _ => e.status)
  }

  // Finished rows stay, all others are failed.  A test that was running has failed; one that waited for
  // its cleanup has finished if some row has.
  lemma RestartLeavesNothingOpen(e: Execution)
    ensures var after := Restart(e);
            && after.rows.Keys == e.rows.Keys
            && (forall r :: r in e.rows ==> after.rows[r] == if e.rows[r] == Finished then Finished else Failed)
            && after.status in {Finished, Failed}
            && (after.status == Finished
                <==> || e.status == Finished
                     || (e.status == Processing && exists r :: r in e.rows && e.rows[r] == Finished))
  {
    var after := Restart(e);
    if r :| r in e.rows && e.rows[r] == Finished {
      assert after.rows[r] == Finished;
    }
  }

  // Restarting while the cleanup waits gives the verdict that the cleanup would have given, unless
  // sessions reported but none of them a success
  lemma RestartAgreesExact(e: Execution)
    requires Ok(e) && e.phase == Waiting
    ensures Restart(e).status == Next(e, CleanupEnds).status
            <==> (e.reported == map[] || exists s :: s in e.reported && !e.reported[s])
    ensures Restart(e).rows == Next(e, CleanupEnds).rows
  {
    StepOk(e, CleanupEnds);
    var rows := Restart(e).rows;
    assert Next(e, CleanupEnds).reported == e.reported;
    assert rows == Next(e, CleanupEnds).rows;
    if r :| r in rows && rows[r] == Finished {
      FinishedWasReported(e, r);
    }
    if s :| s in e.reported && !e.reported[s] {
      assert rows[s] == Finished;
    }
  }

  // One session that reports an error: the cleanup calls the test finished, a restart calls it failed
  lemma RestartDiffers(s: string)
    ensures var steps := [SessionStarts(s), ResultArrives(s, true), CleanupBegins];
            && AllEnabled(NEW, steps) && Execute(NEW, steps).phase == Waiting
            && Next(Execute(NEW, steps), CleanupEnds).status == Finished
            && Restart(Execute(NEW, steps)).status == Failed
  {
    var started := Next(NEW, SessionStarts(s));
    var heard := Next(started, ResultArrives(s, true));
    var waiting := Next(heard, CleanupBegins);
    assert [SessionStarts(s), ResultArrives(s, true), CleanupBegins][1..] == [ResultArrives(s, true), CleanupBegins];
    assert [ResultArrives(s, true), CleanupBegins][1..] == [CleanupBegins];
    assert [CleanupBegins][1..] == [];
    assert Execute(heard, [CleanupBegins]) == waiting;
    assert Execute(started, [ResultArrives(s, true), CleanupBegins]) == waiting;
    assert AllEnabled(started, [ResultArrives(s, true), CleanupBegins]);
    assert waiting.sessions == {s} && heard.rows == map[s := Failed];
    assert waiting.rows == Replace(heard.rows, Running, Processing) == map[s := Failed];
    assert WithStatus(waiting.rows, Processing) == {};
  }

  // Rows that failed to start never finish, so a finished row is a reported one
  lemma FinishedWasReported(e: Execution, r: string)
    requires Ok(e) && e.phase == Waiting && r in e.rows && e.rows[r] == Finished
    ensures r in e.reported && !e.reported[r]
  {
  }

  // ---------- the scheduler's own operations on the tables ----------

  class Scheduler {
    var status: Status
    var rows: map<string, Status>
    var sessionIds: set<string>
    var phase: Phase
    ghost var reported: map<string, bool>

    ghost function State(): Execution
      reads this
    {
      Execution(status, rows, sessionIds, phase, reported)
    }

    constructor ()
      ensures State() == NEW
    {
      status, rows, sessionIds, phase, reported := Running, map[], {}, Starting, map[];
    }

    method ProcessMsg(session: string, error: bool)
      modifies this
      ensures State() == Next(old(State()), ResultArrives(session, error))
    {
      if session in sessionIds {
        rows := rows[session := if error then Failed else Finished];
        if phase in {Starting, Waiting} {
          reported := reported[session := error];
        }
      }
    }

    // Up to the waiting time
    method StopExecutionBegin()
      requires phase == Starting
      modifies this
      ensures State() == Next(old(State()), CleanupBegins)
    {
      status := Processing;
      var touched := UpdateWhere(Running, Processing);
      phase := Waiting;
    }

    // After the waiting time
    method StopExecutionEnd()
      requires phase == Waiting
      modifies this
      ensures State() == Next(old(State()), CleanupEnds)
    {
      var rowcount := UpdateWhere(Processing, Failed);
      status := if sessionIds == {} || rowcount == |sessionIds| then Failed else Finished;
      phase := Judged;
    }

    // UPDATE rows SET status = to WHERE status = from; the result is the number of rows touched
    method UpdateWhere(from: Status, to: Status) returns (rowcount: nat)
      modifies this`rows
      ensures rows == Replace(old(rows), from, to) && rowcount == |WithStatus(old(rows), from)|
    {
      var touched := WithStatus(rows, from);
      rowcount := |touched|;
      var before, todo := rows, touched;
      while todo != {}
        invariant todo <= touched && rows.Keys == before.Keys
        invariant forall r :: r in rows ==> rows[r] == if r in touched && r !in todo then to else before[r]
        decreases |todo|
      {
        var r :| r in todo;
        rows := rows[r := to];
        todo := todo - {r};
      }
    }
  }
}
