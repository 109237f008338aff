/** What holds in every interleaving of workers and readers. */
module HandlerSafety {
  import opened Wrappers
  import opened Handler

  predicate Recorded(s: State, id: Id) {
    FirstResult(s.results, id).Some?
  }

  /** A worker that is past the check that no task is running. */
  predicate InTask(w: Worker) {
    w.Adding? || w.Replying? || w.Processing? || w.Recording? || w.Removing?
  }

  predicate HoldsLock(w: Worker) {
    w.Counting? || InTask(w) || w.Leaving?
  }

  /** The state of the task that a worker is in. */
  ghost predicate TaskRight(s: State, w: Worker) {
    InTask(w) ==>
      && !s.failed && w.id in s.generated
      && s.longRunningAgentTask == (if w.Adding? then [] else [w.id])
      && (w.Adding? || w.Replying? <==> w.id !in s.published)
      && (w.Removing? <==> Recorded(s, w.id))
  }

  ghost predicate WorkerRight(s: State, t: Thread) {
    t in s.workers ==> (HoldsLock(s.workers[t]) <==> s.lock == Some(t)) && TaskRight(s, s.workers[t])
  }

  /** Nobody is in a task: the running list is empty unless a task has failed. */
  ghost predicate Idle(s: State) {
    (s.lock.Some? && s.lock.value in s.workers && InTask(s.workers[s.lock.value]))
    || |s.longRunningAgentTask| == if s.failed then 1 else 0
  }

  ghost predicate RunningRight(s: State) {
    && |s.longRunningAgentTask| <= 1
    && (forall id | id in s.longRunningAgentTask :: id in s.generated)
    && (s.lock.Some? ==> s.lock.value in s.workers)
  }

  ghost predicate RecordedRight(s: State) {
    && (forall id | Recorded(s, id) :: id in s.generated)
    && (s.failed ==> forall id | id in s.longRunningAgentTask :: !Recorded(s, id))
  }

  ghost predicate PublishedRight(s: State) {
    forall id | id in s.published :: id in s.generated && (id in s.longRunningAgentTask || Recorded(s, id))
  }

  ghost predicate ResultsRight(s: State) {
    RecordedRight(s) && PublishedRight(s)
  }

  ghost predicate IdsRight(s: State) {
    RunningRight(s) && ResultsRight(s)
  }

  /** No running answer for the id was begun at the given time or later. */
  ghost predicate NotRunningSince(s: State, id: Id, since: nat) {
    && id !in s.longRunningAgentTask && Recorded(s, id) && id in s.generated && since < s.clock
    && forall i | 0 <= i < |s.answers| && s.answers[i].id == id && s.answers[i].reply.Running?
         :: s.answers[i].since < since
  }

  ghost predicate ReaderRight(s: State, t: Thread) {
    t in s.readers && s.readers[t].Seeking? ==>
      s.readers[t].since < s.clock && (s.readers[t].known ==> NotRunningSince(s, s.readers[t].id, s.readers[t].since))
  }

  ghost predicate AnswerRight(s: State, a: Answer) {
    && a.since < s.clock
    && (a.known && !a.reply.Running? ==>
          && NotRunningSince(s, a.id, a.since)
          && a.reply == Finished(FirstResult(s.results, a.id).value))
  }

  ghost predicate Inv(s: State) {
    && IdsRight(s) && Idle(s)
    && (forall t | t in s.workers :: WorkerRight(s, t))
    && (forall t | t in s.readers :: ReaderRight(s, t))
    && (forall i | 0 <= i < |s.answers| :: AnswerRight(s, s.answers[i]))
  }

  lemma {:induction false} FirstResultStays(results: seq<HandlerResult>, r: HandlerResult, id: Id)
    ensures FirstResult(results + [r], id)
            == if FirstResult(results, id).Some? then FirstResult(results, id)
               else if r.agentTaskId == id then Some(r.result) else None
  {
    if results == [] {
      assert results + [r] == [r];
    } else {
      assert (results + [r])[1..] == results[1..] + [r];
      FirstResultStays(results[1..], r, id);
    }
  }

  /** What a step does to the recorded results. */
  lemma RecordedAfter(s: State, step: Step, id: Id)
    requires Enabled(s, step)
    ensures Recorded(s, id) ==> FirstResult(Next(s, step).results, id) == FirstResult(s.results, id)
    ensures Recorded(Next(s, step), id) <==> Recorded(s, id) || (step.Record? && s.workers[step.t].id == id)
  {
    if step.Record? {
      var w := s.workers[step.t];
      FirstResultStays(s.results, HandlerResult(w.id, w.result), id);
    }
  }

  /** The worker that takes a step, if one does. */
  function WorkerOf(step: Step): Option<Thread> {
    if step.Ask? || step.LookInRunning? || step.LookInResults? || step.OtherWorkFails? then None else Some(step.t)
  }

  lemma IdsKept(s: State, step: Step)
    requires Inv(s) && Enabled(s, step)
    ensures IdsRight(Next(s, step))
  {
    if WorkerOf(step).Some? {
      assert step.t in s.workers ==> WorkerRight(s, step.t);
    }
    RunningKept(s, step);
    ResultsKept(s, step);
  }

  /** What is needed of the worker that takes a step. */
  ghost predicate ActiveRight(s: State, step: Step) {
    WorkerOf(step).Some? ==> WorkerRight(s, step.t)
  }

  lemma RunningKept(s: State, step: Step)
    requires RunningRight(s) && ActiveRight(s, step) && Enabled(s, step)
    ensures RunningRight(Next(s, step))
  {}

  lemma ResultsKept(s: State, step: Step)
    requires ResultsRight(s) && ActiveRight(s, step) && Enabled(s, step)
    ensures ResultsRight(Next(s, step))
  {
    RecordedKept(s, step);
    PublishedKept(s, step);
  }

  lemma RecordedKept(s: State, step: Step)
    requires RecordedRight(s) && ActiveRight(s, step) && Enabled(s, step)
    ensures RecordedRight(Next(s, step))
  {
    forall id ensures Recorded(Next(s, step), id) <==> Recorded(s, id) || (step.Record? && s.workers[step.t].id == id) {
      RecordedAfter(s, step, id);
    }
  }

  lemma PublishedKept(s: State, step: Step)
    requires PublishedRight(s) && ActiveRight(s, step) && Enabled(s, step)
    ensures PublishedRight(Next(s, step))
  {
    forall id ensures Recorded(Next(s, step), id) <==> Recorded(s, id) || (step.Record? && s.workers[step.t].id == id) {
      RecordedAfter(s, step, id);
    }
  }

  /** The worker that takes the step. */
  lemma ActiveWorkerKept(s: State, step: Step)
    requires Inv(s) && Enabled(s, step) && WorkerOf(step).Some?
    ensures WorkerRight(Next(s, step), step.t)
  {
    var w := Next(s, step).workers[step.t];
    if InTask(w) {
      RecordedAfter(s, step, w.id);
    }
    if step.t in s.workers {
      assert WorkerRight(s, step.t);
    }
  }

  lemma OtherWorkerKept(s: State, step: Step, t: Thread)
    requires Inv(s) && Enabled(s, step) && t in s.workers && WorkerOf(step) != Some(t)
    ensures WorkerRight(Next(s, step), t)
  {
    assert WorkerRight(s, t);
    if WorkerOf(step).Some? {
      assert step.t in s.workers ==> WorkerRight(s, step.t);
    }
    LockUntouched(s, step, t);
    if InTask(s.workers[t]) {
      TaskUntouched(s, step, t);
    }
  }

  lemma LockUntouched(s: State, step: Step, t: Thread)
    requires ActiveRight(s, step) && Enabled(s, step) && t in s.workers && WorkerOf(step) != Some(t)
    ensures var s' := Next(s, step);
            t in s'.workers && s'.workers[t] == s.workers[t] && (s'.lock == Some(t) <==> s.lock == Some(t))
  {}

  /** While a worker is in a task, no other can change the running list, publish an id or record a result. */
  lemma TaskUntouched(s: State, step: Step, t: Thread)
    requires WorkerRight(s, t) && t in s.workers && InTask(s.workers[t])
    requires ActiveRight(s, step) && Enabled(s, step) && WorkerOf(step) != Some(t)
    ensures var s' := Next(s, step);
            && s'.longRunningAgentTask == s.longRunningAgentTask && s'.published == s.published
            && s'.results == s.results && s'.failed == s.failed && s.generated <= s'.generated
  {}

  lemma IdleKept(s: State, step: Step)
    requires Inv(s) && Enabled(s, step)
    ensures Idle(Next(s, step))
  {
    if WorkerOf(step).Some? && step.t in s.workers {
      assert WorkerRight(s, step.t);
    }
  }

  /** Once an id that was running is not, it stays so, and answers that it is running are from before. */
  lemma NotRunningKept(s: State, step: Step, id: Id, since: nat)
    requires Inv(s) && Enabled(s, step) && NotRunningSince(s, id, since)
    ensures NotRunningSince(Next(s, step), id, since)
    ensures FirstResult(Next(s, step).results, id) == FirstResult(s.results, id)
  {
    RecordedAfter(s, step, id);
    if WorkerOf(step).Some? && step.t in s.workers {
      assert WorkerRight(s, step.t);
    }
  }

  lemma ReaderKept(s: State, step: Step, t: Thread)
    requires Inv(s) && Enabled(s, step) && t in Next(s, step).readers
    ensures ReaderRight(Next(s, step), t)
  {
    var r := Next(s, step).readers[t];
    if r.Seeking? {
      if step.LookInRunning? && step.t == t {
        forall i | 0 <= i < |s.answers| ensures s.answers[i].since < s.clock {
          assert AnswerRight(s, s.answers[i]);
        }
      } else {
        assert ReaderRight(s, t);
        if r.known { NotRunningKept(s, step, r.id, r.since); }
      }
    }
  }

  lemma AnswerKept(s: State, step: Step, i: nat)
    requires Inv(s) && Enabled(s, step) && i < |Next(s, step).answers|
    ensures AnswerRight(Next(s, step), Next(s, step).answers[i])
  {
    if i < |s.answers| {
      var a := s.answers[i];
      assert AnswerRight(s, a);
      if a.known && !a.reply.Running? {
        NotRunningKept(s, step, a.id, a.since);
      }
    } else if step.LookInResults? {
      assert ReaderRight(s, step.t);
      if s.readers[step.t].known { NotRunningKept(s, step, s.readers[step.t].id, s.readers[step.t].since); }
    }
  }

  lemma StepKeepsInv(s: State, step: Step)
    requires Inv(s) && Enabled(s, step)
    ensures Inv(Next(s, step))
  {
    IdsKept(s, step);
    IdleKept(s, step);
    forall t | t in Next(s, step).workers ensures WorkerRight(Next(s, step), t) {
      if WorkerOf(step) == Some(t) {
        ActiveWorkerKept(s, step);
      } else {
        OtherWorkerKept(s, step, t);
      }
    }
    forall t | t in Next(s, step).readers ensures ReaderRight(Next(s, step), t) {
      ReaderKept(s, step, t);
    }
    forall i | 0 <= i < |Next(s, step).answers| ensures AnswerRight(Next(s, step), Next(s, step).answers[i]) {
      AnswerKept(s, step, i);
    }
  }

  lemma {:induction false} RunKeepsInv(s: State, steps: seq<Step>)
    requires Inv(s) && IsRun(s, steps)
    ensures Inv(After(s, steps))
    decreases |steps|
  {
    if steps != [] {
      StepKeepsInv(s, steps[0]);
      RunKeepsInv(Next(s, steps[0]), steps[1..]);
    }
  }

  ghost predicate Reachable(s: State) {
    exists steps :: IsRun(Initial(), steps) && After(Initial(), steps) == s
  }

  lemma ReachableIsRight(s: State)
    requires Reachable(s)
    ensures Inv(s)
  {
    var steps :| IsRun(Initial(), steps) && After(Initial(), steps) == s;
    InitialIsRight();
    RunKeepsInv(Initial(), steps);
  }

  lemma InitialIsRight()
    ensures Inv(Initial())
  {
    forall id ensures !Recorded(Initial(), id) {}
  }

  /** An answer to any reader: a task that runs has been given its id, and a finished one has this result. */
  ghost predicate Told(s: State, a: Answer) {
    match a.reply
    case Running => a.id in s.generated
    case Finished(result) => FirstResult(s.results, a.id) == Some(result)
    case Unknown => true
  }

  ghost predicate AllTold(s: State) {
    forall i | 0 <= i < |s.answers| :: Told(s, s.answers[i])
  }

  lemma StepTold(s: State, step: Step)
    requires Inv(s) && AllTold(s) && Enabled(s, step)
    ensures AllTold(Next(s, step))
  {
    forall i | 0 <= i < |Next(s, step).answers| ensures Told(Next(s, step), Next(s, step).answers[i]) {
      RecordedAfter(s, step, Next(s, step).answers[i].id);
      assert i < |s.answers| ==> Told(s, s.answers[i]);
    }
  }

  lemma {:induction false} RunTold(s: State, steps: seq<Step>)
    requires Inv(s) && AllTold(s) && IsRun(s, steps)
    ensures AllTold(After(s, steps))
    decreases |steps|
  {
    if steps != [] {
      StepTold(s, steps[0]);
      StepKeepsInv(s, steps[0]);
      RunTold(Next(s, steps[0]), steps[1..]);
    }
  }

  /**
   * Whoever asks, whenever: only a task that was given its id is answered to run, only with its first result is one
   * answered to be finished, and an id that no task was given is answered to be unknown.
   */
  lemma EveryAnswerIsTrue(s: State, i: nat)
    requires Reachable(s) && i < |s.answers|
    ensures var a := s.answers[i];
            && (a.reply.Running? ==> a.id in s.generated)
            && (a.reply.Finished? ==> FirstResult(s.results, a.id) == Some(a.reply.result))
            && (a.id !in s.generated ==> a.reply == Unknown)
  {
    ReachableIsRight(s);
    var steps :| IsRun(Initial(), steps) && After(Initial(), steps) == s;
    InitialIsRight();
    RunTold(Initial(), steps);
    assert Told(s, s.answers[i]);
    assert Recorded(s, s.answers[i].id) ==> s.answers[i].id in s.generated;
  }

  /** In every interleaving at most one task is in the running list, and a published one never gets lost. */
  lemma OneTaskRuns(s: State)
    requires Reachable(s)
    ensures |s.longRunningAgentTask| <= 1
    ensures forall id | id in s.published :: id in s.longRunningAgentTask || FirstResult(s.results, id).Some?
  {
    ReachableIsRight(s);
    forall id | id in s.published ensures id in s.longRunningAgentTask || Recorded(s, id) {}
  }

  /** An id that was published by the time a reader began is never answered to be unknown. */
  lemma PublishedIsKnown(s: State, i: nat)
    requires Reachable(s) && i < |s.answers| && s.answers[i].known
    ensures s.answers[i].reply != Unknown
  {
    ReachableIsRight(s);
    assert AnswerRight(s, s.answers[i]);
  }

  /** In the order in which they began, answers for an id go from running to one result, and never back. */
  lemma AnswersAreInOrder(s: State, i: nat, j: nat)
    requires Reachable(s) && i < |s.answers| && j < |s.answers|
    requires s.answers[i].known && s.answers[j].known && s.answers[i].id == s.answers[j].id
    requires s.answers[i].since <= s.answers[j].since && !s.answers[i].reply.Running?
    ensures s.answers[i].reply.Finished? && s.answers[j].reply == s.answers[i].reply
  {
    ReachableIsRight(s);
    assert AnswerRight(s, s.answers[i]) && AnswerRight(s, s.answers[j]);
  }

  /**
   * A reader that nobody comes in between of is told that the task runs if it is in the running list, else its first
   * result, and that it is unknown only if it has neither.
   */
  lemma ReaderIsTold(s: State, t: Thread, id: Id)
    requires t !in s.readers
    ensures Enabled(s, Ask(t, id)) && Enabled(Next(s, Ask(t, id)), LookInRunning(t))
    ensures var s1 := Next(Next(s, Ask(t, id)), LookInRunning(t));
            if id in s.longRunningAgentTask then LastReply(s1) == Some(Running)
            else Enabled(s1, LookInResults(t)) &&
                 LastReply(Next(s1, LookInResults(t))) ==
                 match FirstResult(s.results, id) case None => Some(Unknown) case Some(r) => Some(Finished(r))
  {}

  function LastReply(s: State): Option<Reply> {
    if s.answers == [] then None else Some(s.answers[|s.answers| - 1].reply)
  }

  /** The worker of a new message waits for the lock exactly if the agent is not restarting. */
  lemma MessageWaitsUnlessRestarting(s: State, t: Thread)
    requires t !in s.workers
    ensures Enabled(s, Receive(t)) && Enabled(Next(s, Receive(t)), LookWhetherRestarting(t))
    ensures var s' := Next(Next(s, Receive(t)), LookWhetherRestarting(t));
            && At(s', t, if s.restartingAgent then Gone else Waiting)
            && s'.lock == s.lock && s'.generated == s.generated && s'.failed == s.failed
  {}

  /** A task that is started gets into the running list, and then its id is published. */
  lemma TaskIsPublished(s: State, t: Thread, id: Id)
    requires Reachable(s) && At(s, t, Adding(id))
    ensures Enabled(s, Add(t)) && Enabled(Next(s, Add(t)), Reply(t))
    ensures Next(s, Add(t)).longRunningAgentTask == [id] && id !in Next(s, Add(t)).published
    ensures var s' := Next(Next(s, Add(t)), Reply(t));
            At(s', t, Processing(id)) && s'.longRunningAgentTask == [id] && id in s'.published
  {
    ReachableIsRight(s);
    assert WorkerRight(s, t);
  }

  /** A waiting worker that gets the lock starts its task exactly when no earlier task has failed. */
  lemma TaskStartsUnlessFailed(s: State, t: Thread, newId: Id)
    requires Reachable(s) && At(s, t, Waiting) && s.lock == None && newId !in s.generated
    ensures IsRun(s, [TakeLock(t), Count(t, newId)])
    ensures At(After(s, [TakeLock(t), Count(t, newId)]), t, Adding(newId)) <==> !s.failed
  {
    ReachableIsRight(s);
    var s1 := Next(s, TakeLock(t));
    var steps := [TakeLock(t), Count(t, newId)];
    assert steps[1..] == [Count(t, newId)] && steps[1..][1..] == [];
    assert IsRun(s1, steps[1..]);
    assert After(s1, steps[1..]) == Next(s1, Count(t, newId)) by {
      assert After(Next(s1, Count(t, newId)), []) == Next(s1, Count(t, newId));
    }
  }

  lemma FailedStepKeeps(s: State, step: Step)
    requires Inv(s) && s.failed && Enabled(s, step)
    ensures var s' := Next(s, step);
            s'.failed && s'.longRunningAgentTask == s.longRunningAgentTask && s'.published == s.published
            && s'.results == s.results
  {
    if WorkerOf(step).Some? && step.t in s.workers {
      assert WorkerRight(s, step.t);
    }
  }

  /** After an agent exception the task stays in the running list for ever, and no other is ever started. */
  lemma {:induction false} FailedForEver(s: State, steps: seq<Step>)
    requires Inv(s) && s.failed && IsRun(s, steps)
    ensures var s' := After(s, steps);
            s'.failed && s'.longRunningAgentTask == s.longRunningAgentTask && s'.published == s.published
            && s'.results == s.results
    decreases |steps|
  {
    if steps != [] {
      FailedStepKeeps(s, steps[0]);
      StepKeepsInv(s, steps[0]);
      FailedForEver(Next(s, steps[0]), steps[1..]);
    }
  }

  /** When a task ends with an agent exception, its id is left in the running list, without a result. */
  lemma AgentExceptionFails(s: State, t: Thread)
    requires Reachable(s) && Enabled(s, Process(t, AgentException))
    ensures var s', id := Next(s, Process(t, AgentException)), s.workers[t].id;
            Inv(s') && s'.failed && s'.longRunningAgentTask == [id] && id in s'.published && !Recorded(s', id)
  {
    ReachableIsRight(s);
    assert WorkerRight(s, t);
    StepKeepsInv(s, Process(t, AgentException));
  }

  /** So from then on no task is published or finished, and a reader that asks for the failed one is told it runs. */
  lemma AgentExceptionBlocks(s: State, t: Thread, steps: seq<Step>)
    requires Reachable(s) && Enabled(s, Process(t, AgentException))
    requires IsRun(Next(s, Process(t, AgentException)), steps)
    ensures var s', id := After(Next(s, Process(t, AgentException)), steps), s.workers[t].id;
            && s'.longRunningAgentTask == [id] && s'.published == s.published && s'.results == s.results
            && forall r | Enabled(s', LookInRunning(r)) && s'.readers[r].id == id ::
                 Next(s', LookInRunning(r)).answers == s'.answers + [Answer(id, s'.clock, true, Running)]
  {
    AgentExceptionFails(s, t);
    FailedForEver(Next(s, Process(t, AgentException)), steps);
  }

  /** A worker that has not looked yet, or has been refused. */
  predicate NotAdmitted(s: State, t: Thread) {
    t !in s.workers || s.workers[t].Started? || s.workers[t].Gone?
  }

  /** Once the agent is restarting it stays so, and no worker that has not looked by then gets any further. */
  lemma {:induction false} RestartingRefuses(s: State, steps: seq<Step>, t: Thread)
    requires s.restartingAgent && NotAdmitted(s, t) && IsRun(s, steps)
    ensures After(s, steps).restartingAgent && NotAdmitted(After(s, steps), t)
    decreases |steps|
  {
    if steps != [] {
      RestartingRefuses(Next(s, steps[0]), steps[1..], t);
    }
  }

  /** The three steps that finish a task, and the states after them. */
  lemma ResultIsRecorded(s: State, t: Thread, id: Id, result: string)
    requires At(s, t, Recording(id, result)) && WorkerRight(s, t) && s.longRunningAgentTask == [id]
    requires FirstResult(s.results, id) == None
    ensures Enabled(s, Record(t))
    ensures var s' := Next(s, Record(t));
            At(s', t, Removing(id)) && s'.longRunningAgentTask == [id] && FirstResult(s'.results, id) == Some(result)
            && s'.restartingAgent == s.restartingAgent
  {
    FirstResultStays(s.results, HandlerResult(id, result), id);
  }

  lemma TaskIsRemoved(s: State, t: Thread, id: Id)
    requires At(s, t, Removing(id)) && s.longRunningAgentTask == [id]
    ensures Enabled(s, Remove(t))
    ensures var s' := Next(s, Remove(t));
            At(s', t, Leaving) && s'.longRunningAgentTask == [] && s'.results == s.results
            && s'.restartingAgent == s.restartingAgent
  {}

  lemma TaskIsProcessed(s: State, t: Thread, outcome: Outcome)
    requires Inv(s) && t in s.workers && s.workers[t].Processing? && !outcome.AgentException?
    ensures var id, s' := s.workers[t].id, Next(s, Process(t, outcome));
            && At(s', t, Recording(id, outcome.payload)) && WorkerRight(s', t) && s'.longRunningAgentTask == [id]
            && FirstResult(s'.results, id) == None
            && s'.restartingAgent == (s.restartingAgent || outcome.OtherException?)
  {
    assert WorkerRight(s, t);
    ActiveWorkerKept(s, Process(t, outcome));
  }

  /**
   * A task that ends otherwise than with an agent exception can always be finished: its result is recorded, the running
   * list is empty again and the lock is free. An unexpected exception also makes the agent restart.
   */
  lemma TaskFinishes(s: State, t: Thread, outcome: Outcome)
    requires Reachable(s) && t in s.workers && s.workers[t].Processing? && !outcome.AgentException?
    ensures var id := s.workers[t].id;
            var s1 := Next(s, Process(t, outcome));
            && Enabled(s1, Record(t)) && Enabled(Next(s1, Record(t)), Remove(t))
            && Enabled(Next(Next(s1, Record(t)), Remove(t)), ReleaseLock(t))
            && var s' := Next(Next(Next(s1, Record(t)), Remove(t)), ReleaseLock(t));
            && FirstResult(s'.results, id) == Some(outcome.payload)
            && s'.longRunningAgentTask == [] && s'.lock == None && At(s', t, Gone)
            && s'.restartingAgent == (s.restartingAgent || outcome.OtherException?)
  {
    var id := s.workers[t].id;
    ReachableIsRight(s);
    TaskIsProcessed(s, t, outcome);
    var s1 := Next(s, Process(t, outcome));
    ResultIsRecorded(s1, t, id, outcome.payload);
    TaskIsRemoved(Next(s1, Record(t)), t, id);
  }
}
