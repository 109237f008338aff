/** The agent's long-running tasks: worker threads and readers that ask for a task, one atomic step at a time. */
module Handler {
  import opened Wrappers

  type Id = nat
  type Thread = nat

  /** Where a worker thread is in processing one message. */
  datatype Worker =
    | Started                                  // has not looked whether the agent is restarting
    | Waiting                                  // for the lock
    | Counting                                 // holds the lock, and looks whether a task is running
    | Adding(id: Id)                           // has generated an id
    | Replying(id: Id)                         // its id is in the running list
    | Processing(id: Id)                       // the id has been published
    | Recording(id: Id, result: string)
    | Removing(id: Id)
    | Leaving                                  // about to release the lock
    | Gone

  /** A reader makes two lookups; `since` is the time of the first, `known` whether the id was published by then. */
  datatype Reader = Asking(id: Id) | Seeking(id: Id, since: nat, known: bool) | Served

  datatype Reply = Running | Finished(result: string) | Unknown

  datatype Answer = Answer(id: Id, since: nat, known: bool, reply: Reply)

  datatype HandlerResult = HandlerResult(agentTaskId: Id, result: string)

  /** How processing a message ends. */
  datatype Outcome =
    | Value(payload: string)
    | AgentException                           // gives null, on which the conversion to a string throws
    | OtherException(payload: string)          // the agent is to be restarted

  datatype State = State(
    longRunningAgentTask: seq<Id>,
    results: seq<HandlerResult>,
    restartingAgent: bool,
    lock: Option<Thread>,
    workers: map<Thread, Worker>,
    readers: map<Thread, Reader>,
    generated: set<Id>,
    published: set<Id>,
    answers: seq<Answer>,
    clock: nat,
    // Whether a task has ended with an agent exception.
    failed: bool)

  datatype Step =
    | Receive(t: Thread)
    | LookWhetherRestarting(t: Thread)
    | TakeLock(t: Thread)
    | Count(t: Thread, newId: Id)
    | Add(t: Thread)
    | Reply(t: Thread)
    | Process(t: Thread, outcome: Outcome)
    | Record(t: Thread)
    | Remove(t: Thread)
    | ReleaseLock(t: Thread)
    | Ask(t: Thread, id: Id)
    | LookInRunning(t: Thread)
    | LookInResults(t: Thread)
    | OtherWorkFails                           // a short message ends with an unexpected exception

  function Initial(): State {
    State([], [], false, None, map[], map[], {}, {}, [], 0, false)
  }

  /** The list without the first occurrence of an id. */
  function Without(ids: seq<Id>, id: Id): seq<Id> {
    if ids == [] then [] else if ids[0] == id then ids[1..] else [ids[0]] + Without(ids[1..], id)
  }

  /** The first result recorded for an id. */
  function FirstResult(results: seq<HandlerResult>, id: Id): Option<string> {
    if results == [] then None
    else if results[0].agentTaskId == id then Some(results[0].result)
    else FirstResult(results[1..], id)
  }

  predicate At(s: State, t: Thread, w: Worker) {
    t in s.workers && s.workers[t] == w
  }

  /** A step that the state of its thread allows; a generated id is a new one, and the lock is taken when free. */
  predicate Enabled(s: State, step: Step) {
    match step
    case Receive(t) => t !in s.workers
    case LookWhetherRestarting(t) => At(s, t, Started)
    case TakeLock(t) => At(s, t, Waiting) && s.lock == None
    case Count(t, newId) => At(s, t, Counting) && newId !in s.generated
    case Add(t) => t in s.workers && s.workers[t].Adding?
    case Reply(t) => t in s.workers && s.workers[t].Replying?
    case Process(t, _) => t in s.workers && s.workers[t].Processing?
    case Record(t) => t in s.workers && s.workers[t].Recording?
    case Remove(t) => t in s.workers && s.workers[t].Removing?
    case ReleaseLock(t) => At(s, t, Leaving)
    case Ask(t, _) => t !in s.readers
    case LookInRunning(t) => t in s.readers && s.readers[t].Asking?
    case LookInResults(t) => t in s.readers && s.readers[t].Seeking?
    case OtherWorkFails => true
  }

  function Go(s: State, t: Thread, w: Worker): State {
    s.(workers := s.workers[t := w])
  }

  function Serve(s: State, t: Thread, a: Answer): State {
    s.(readers := s.readers[t := Served], answers := s.answers + [a])
  }

  function Effect(s: State, step: Step): State
    requires Enabled(s, step)
  {
    match step
    case Receive(t) => Go(s, t, Started)
    case LookWhetherRestarting(t) => Go(s, t, if s.restartingAgent then Gone else Waiting)
    case TakeLock(t) => Go(s, t, Counting).(lock := Some(t))
    case Count(t, newId) =>
      if |s.longRunningAgentTask| == 0 then Go(s, t, Adding(newId)).(generated := s.generated + {newId})
      else Go(s, t, Leaving)
    case Add(t) =>
      var id := s.workers[t].id;
      Go(s, t, Replying(id)).(longRunningAgentTask := s.longRunningAgentTask + [id])
    case Reply(t) =>
      var id := s.workers[t].id;
      Go(s, t, Processing(id)).(published := s.published + {id})
    case Process(t, outcome) =>
      var id := s.workers[t].id;
      (match outcome
       case Value(payload) => Go(s, t, Recording(id, payload))
       case AgentException => Go(s, t, Leaving).(failed := true)
       case OtherException(payload) => Go(s, t, Recording(id, payload)).(restartingAgent := true))
    case Record(t) =>
      var w := s.workers[t];
      Go(s, t, Removing(w.id)).(results := s.results + [HandlerResult(w.id, w.result)])
    case Remove(t) =>
      Go(s, t, Leaving).(longRunningAgentTask := Without(s.longRunningAgentTask, s.workers[t].id))
    case ReleaseLock(t) => Go(s, t, Gone).(lock := None)
    case Ask(t, id) => s.(readers := s.readers[t := Asking(id)])
    case LookInRunning(t) =>
      var id := s.readers[t].id;
      if id in s.longRunningAgentTask then Serve(s, t, Answer(id, s.clock, id in s.published, Running))
      else s.(readers := s.readers[t := Seeking(id, s.clock, id in s.published)])
    case LookInResults(t) =>
      var r := s.readers[t];
      var found := FirstResult(s.results, r.id);
      Serve(s, t, Answer(r.id, r.since, r.known, if found.Some? then Finished(found.value) else Unknown))
    case OtherWorkFails => s.(restartingAgent := true)
  }

  function Next(s: State, step: Step): State
    requires Enabled(s, step)
  {
    Effect(s, step).(clock := s.clock + 1)
  }

  /** A run: every step is enabled where it is taken. */
  predicate IsRun(s: State, steps: seq<Step>)
    decreases |steps|
  {
    steps == [] || (Enabled(s, steps[0]) && IsRun(Next(s, steps[0]), steps[1..]))
  }

  function After(s: State, steps: seq<Step>): State
    requires IsRun(s, steps)
    decreases |steps|
  {
    if steps == [] then s else After(Next(s, steps[0]), steps[1..])
  }
}
