/** The query object's page prefetch: the application thread and the fetch
    workers, interleaved step by step. Every access to the shared request, queue,
    closing flag, mutex and condition variable is a step of its own. */
module Prefetch {

  import opened Common
  import opened Service

  datatype Owner = Free | MainThread | WorkerThread(id: nat)

  /** Program points of AsyncFetchOnePage. */
  datatype WorkerPc = Call | Acquire | Test | Waiting | Push | Notify | Release | Exited

  /** `started` records the request token at thread creation. */
  datatype Worker = Worker(pc: WorkerPc, started: nat, result: Outcome)

  /** Index side of the cursor: `pos` Increment calls were made on `rows`. */
  datatype Cursor = Cursor(rows: seq<Row>, pos: nat)

  /** Program points of the application thread: MakeRequestExecute, the wait and the
      page switch of SwitchCursor, InternalClose. `Idle` is between API calls. */
  datatype ExecPc = Request | Retry(token: nat) | SetFirst(token: nat) | SpawnFirst | FlagFirst
  datatype WaitPc = Lock | Check | Blocked | Pop
  datatype SwitchPc = Unlock(page: Outcome) | Decide(page: Outcome) | Join(token: nat) | SetNext(token: nat) | SpawnNext
  datatype MainPc =
    | Idle
    | InExecute(exec: ExecPc)
    | InWait(wait: WaitPc)
    | InSwitch(switch: SwitchPc)
    | InClose(reply: Event, flagSet: bool)

  datatype State = State(
    pc: MainPc,
    request: nat,
    queue: seq<Outcome>,
    closing: bool,
    lock: Owner,
    workers: seq<Worker>,
    threads: seq<nat>,
    hasAsyncFetch: bool,
    hasResult: bool,
    cursor: Option<Cursor>,
    rowCounter: nat,
    executed: bool,
    log: History)

  /** A freshly built query object. */
  const Init := State(Idle, 0, [], false, Free, [], [], false, false, None, 0, false, Start)

  /** One atomic step. `readable` is the outcome of reading the bound columns of a
      row; `Wake` is a spurious wakeup; a notifying worker wakes one blocked thread. */
  datatype Action =
    | CallExecute
    | CallFetch(readable: bool)
    | CallClose
    | Main(readable: bool)
    | Work(id: nat)
    | WorkNotify(id: nat, wakes: Owner)
    | Wake(who: Owner)

  function Log(s: State, e: Event): State {
    s.(pc := Idle, log := Then(s.log, e),
       rowCounter := if e.Handed? && e.readable then s.rowCounter + 1 else s.rowCounter)
  }

  function Spawn(s: State): State {
    s.(workers := s.workers + [Worker(Call, s.request, Failure)], threads := s.threads + [|s.workers|])
  }

  function SetWorker(s: State, id: nat, pc: WorkerPc): State
    requires id < |s.workers|
  {
    s.(workers := s.workers[id := s.workers[id].(pc := pc)])
  }

  predicate IsBlocked(s: State, who: Owner) {
    match who
    case Free => false
    case MainThread => s.pc == InWait(Blocked)
    case WorkerThread(id) => id < |s.workers| && s.workers[id].pc == Waiting
  }

  function WakeUp(s: State, who: Owner): State
    requires IsBlocked(s, who)
  {
    if who == MainThread then s.(pc := InWait(Lock)) else SetWorker(s, who.id, Acquire)
  }

  /** join() returns once the thread at the front of the handle list has exited. */
  predicate Joinable(s: State) {
    s.threads == [] || (s.threads[0] < |s.workers| && s.workers[s.threads[0]].pc == Exited)
  }

  // ---- Execute ----

  /** MakeRequestExecute after one service call. */
  function Answered(s: State, outcome: Outcome): State {
    match outcome
    case Failure => s.(pc := InClose(Executed(Error), false))
    case Page(rows, token) =>
      if rows == [] && token == 0 then Log(s.(hasResult := true), Executed(NoRows))
      else if rows == [] then s.(hasResult := true, pc := InExecute(Retry(token)))
      else if token == 0 then Log(s.(hasResult := true, cursor := Some(Cursor(rows, 0))), Executed(Success))
      else s.(hasResult := true, cursor := Some(Cursor(rows, 0)), pc := InExecute(SetFirst(token)))
  }

  function ExecNext(svc: Pages, s: State): State
    requires s.pc.InExecute?
  {
    match s.pc.exec
    case Request => Answered(s, Serve(svc, s.request))
    case Retry(token) => s.(request := token, pc := InExecute(Request))
    case SetFirst(token) => s.(request := token, pc := InExecute(SpawnFirst))
    case SpawnFirst => Spawn(s).(pc := InExecute(FlagFirst))
    case FlagFirst => Log(s.(hasAsyncFetch := true), Executed(Success))
  }

  // ---- Fetch ----

  /** FetchNextRow up to the point where it may have to wait for the next page. */
  function BeginFetch(s: State, readable: bool): State {
    if s.cursor.None? then Log(s, NoData)
    else
      var c := s.cursor.value.(pos := s.cursor.value.pos + 1);
      var s' := s.(cursor := Some(c));
      if c.pos <= |c.rows| then Log(s', Handed(c.rows[c.pos - 1], readable))
      else if s.hasAsyncFetch then s'.(pc := InWait(Lock))
      else Log(s', NoData)
  }

  predicate WaitEnabled(s: State)
    requires s.pc.InWait?
  {
    match s.pc.wait
    case Lock => s.lock == Free
    case Check => true
    case Blocked => false
    case Pop => s.queue != []
  }

  function WaitNext(s: State): State
    requires s.pc.InWait? && WaitEnabled(s)
  {
    match s.pc.wait
    case Lock => s.(lock := MainThread, pc := InWait(Check))
    case Check => if s.queue != [] then s.(pc := InWait(Pop)) else s.(lock := Free, pc := InWait(Blocked))
    case Pop => s.(queue := s.queue[1..], pc := InSwitch(Unlock(s.queue[0])))
  }

  /** SwitchCursor after the page left the queue and the mutex is released. */
  function Switched(s: State, page: Outcome, readable: bool): State {
    match page
    case Failure => Log(s.(cursor := None, hasAsyncFetch := false), Failed)
    case Page(rows, token) =>
      if rows == [] then Log(s.(hasResult := true), NoData)
      else if token == 0 then
        Log(s.(hasResult := true, cursor := Some(Cursor(rows, 1)), hasAsyncFetch := false), Handed(rows[0], readable))
      else s.(hasResult := true, cursor := Some(Cursor(rows, 1)), pc := InSwitch(Join(token)))
  }

  predicate SwitchEnabled(s: State)
    requires s.pc.InSwitch?
  {
    && (s.pc.switch.Join? ==> Joinable(s))
    && (s.pc.switch.SpawnNext? ==> s.cursor.Some? && s.cursor.value.rows != [])
  }

  function SwitchNext(s: State, readable: bool): State
    requires s.pc.InSwitch? && SwitchEnabled(s)
  {
    match s.pc.switch
    case Unlock(page) => s.(lock := Free, pc := InSwitch(Decide(page)))
    case Decide(page) => Switched(s, page, readable)
    case Join(token) =>
      s.(pc := InSwitch(SetNext(token)), threads := if s.threads == [] then [] else s.threads[1..])
    case SetNext(token) => s.(request := token, pc := InSwitch(SpawnNext))
    case SpawnNext => Log(Spawn(s), Handed(s.cursor.value.rows[0], readable))
  }

  // ---- Close ----

  function CloseNext(s: State): State
    requires s.pc.InClose? && (s.pc.flagSet ==> Joinable(s))
  {
    if !s.pc.flagSet then s.(closing := true, pc := InClose(s.pc.reply, true))
    else if s.threads != [] then s.(threads := s.threads[1..])
    else Log(s.(hasResult := false, cursor := None), s.pc.reply)
  }

  // ---- Workers ----

  predicate WorkEnabled(s: State, id: nat) {
    && id < |s.workers|
    && s.workers[id].pc != Waiting && s.workers[id].pc != Notify && s.workers[id].pc != Exited
    && (s.workers[id].pc == Acquire ==> s.lock == Free)
  }

  function WorkNext(svc: Pages, s: State, id: nat): State
    requires WorkEnabled(s, id)
  {
    match s.workers[id].pc
    case Call =>
      s.(workers := s.workers[id := s.workers[id].(pc := Acquire, result := Serve(svc, s.request))])
    case Acquire => SetWorker(s.(lock := WorkerThread(id)), id, Test)
    case Test =>
      if s.queue == [] then SetWorker(s, id, Push)
      else if s.closing then SetWorker(s, id, Release)
      else SetWorker(s.(lock := Free), id, Waiting)
    case Push => SetWorker(s.(queue := s.queue + [s.workers[id].result]), id, Notify)
    case Release => SetWorker(s.(lock := Free), id, Exited)
  }

  // ---- All steps ----

  predicate MainEnabled(s: State) {
    match s.pc
    case Idle => false
    case InExecute(_) => true
    case InWait(_) => WaitEnabled(s)
    case InSwitch(_) => SwitchEnabled(s)
    case InClose(_, flagSet) => flagSet ==> Joinable(s)
  }

  function MainNext(svc: Pages, s: State, readable: bool): State
    requires MainEnabled(s)
  {
    match s.pc
    case InExecute(_) => ExecNext(svc, s)
    case InWait(_) => WaitNext(s)
    case InSwitch(_) => SwitchNext(s, readable)
    case InClose(_, _) => CloseNext(s)
  }

  ghost predicate Enabled(s: State, a: Action) {
    match a
    case CallExecute => s.pc == Idle && !s.executed
    case CallFetch(_) => s.pc == Idle
    case CallClose => s.pc == Idle
    case Main(_) => MainEnabled(s)
    case Work(id) => WorkEnabled(s, id)
    case WorkNotify(id, wakes) =>
      && id < |s.workers| && s.workers[id].pc == Notify
      && (IsBlocked(s, wakes) || (wakes == Free && forall w :: !IsBlocked(s, w)))
    case Wake(who) => IsBlocked(s, who)
  }

  ghost function Next(svc: Pages, s: State, a: Action): State
    requires Enabled(s, a)
  {
    match a
    case CallExecute => s.(pc := InExecute(Request), executed := true)
    case CallFetch(readable) => BeginFetch(s, readable)
    case CallClose => s.(pc := InClose(Closed, false))
    case Main(readable) => MainNext(svc, s, readable)
    case Work(id) => WorkNext(svc, s, id)
    case WorkNotify(id, wakes) =>
      var s' := SetWorker(s, id, Release);
      if wakes == Free then s' else WakeUp(s', wakes)
    case Wake(who) => WakeUp(s, who)
  }

  /** An execution: any interleaving of enabled steps from a fresh object. */
  ghost predicate Execution(svc: Pages, run: seq<State>) {
    && run != [] && run[0] == Init
    && forall i | 0 < i < |run| :: Steps(svc, run[i - 1], run[i])
  }

  ghost predicate Steps(svc: Pages, s: State, t: State) {
    exists a :: Enabled(s, a) && t == Next(svc, s, a)
  }

  // ---- Invariant, structural part: threads, mutex, queue, waiting ----

  ghost predicate Holds(pc: MainPc) {
    pc == InWait(Check) || pc == InWait(Pop) || (pc.InSwitch? && pc.switch.Unlock?)
  }

  ghost predicate WorkerHolds(pc: WorkerPc) {
    pc.Test? || pc.Push? || pc.Notify? || pc.Release?
  }

  /** Has this worker put its page into the queue? */
  ghost predicate Pushed(w: Worker) {
    w.pc.Notify? || w.pc.Release? || w.pc.Exited?
  }

  ghost predicate LastPushed(s: State) {
    s.workers != [] && Pushed(s.workers[|s.workers| - 1])
  }

  /** Execute before its first worker exists. */
  ghost predicate NoWorkerYet(pc: MainPc) {
    pc.InExecute? && !pc.exec.FlagFirst?
  }

  /** At most one worker is alive, it is the newest, and its handle is kept until joined. */
  ghost predicate OneWorker(s: State) {
    && (forall i | 0 <= i < |s.workers| - 1 :: s.workers[i].pc == Exited)
    && (s.threads == [] || (s.workers != [] && s.threads == [|s.workers| - 1]))
    && (s.threads == [] && s.workers != [] ==> s.workers[|s.workers| - 1].pc == Exited)
  }

  ghost predicate MutexMatches(s: State) {
    && (s.lock == MainThread <==> Holds(s.pc))
    && (forall i | 0 <= i < |s.workers| :: WorkerHolds(s.workers[i].pc) <==> s.lock == WorkerThread(i))
    && (s.lock.WorkerThread? ==> s.lock.id < |s.workers|)
  }

  /** The queue holds at most the newest worker's page; a worker that has not pushed
      sees it empty and hence never waits; a blocked main thread will be notified. */
  ghost predicate QueueMatches(s: State) {
    && |s.queue| <= 1
    && (s.queue != [] ==> LastPushed(s))
    && (forall i | 0 <= i < |s.workers| :: s.workers[i].pc != Waiting)
    && (s.pc == InWait(Blocked) && s.queue != [] ==> s.workers[|s.workers| - 1].pc == Notify)
    && (s.pc == InWait(Pop) ==> s.queue != [])
    && (s.pc.InSwitch? ==> s.queue == [] && LastPushed(s))
  }

  ghost predicate ControlMatches(s: State) {
    && (NoWorkerYet(s.pc) ==> s.workers == [] && s.executed && !s.hasAsyncFetch)
    && (!s.executed ==> s.request == 0 && s.workers == [] && s.cursor == None && !s.hasResult && !s.hasAsyncFetch)
    && (s.pc == InExecute(FlagFirst) || s.hasAsyncFetch ==> s.workers != [])
    && (s.pc.InWait? || s.pc.InSwitch? ==> s.hasAsyncFetch)
    && (s.pc.InSwitch? && (s.pc.switch.SetNext? || s.pc.switch.SpawnNext?) ==> s.threads == [])
    && (s.threads != [] ==> s.hasResult)
    && (s.pc.InExecute? && (s.pc.exec.SetFirst? || s.pc.exec.SpawnFirst?) ==> s.hasResult)
    && (s.pc.InSwitch? && (s.pc.switch.Join? || s.pc.switch.SetNext? || s.pc.switch.SpawnNext?) ==> s.hasResult)
  }

  ghost predicate Structure(s: State) {
    OneWorker(s) && MutexMatches(s) && QueueMatches(s) && ControlMatches(s)
  }

  // ---- Invariant, meaning: what the state stands for in the sequential reference ----

  /** The token the newest worker was started with; 0 when there is none. */
  function LastToken(s: State): nat {
    if s.workers == [] then 0 else s.workers[|s.workers| - 1].started
  }

  /** The page of the newest worker was taken and had no rows. */
  ghost predicate Spent(s: State) {
    s.hasAsyncFetch && s.queue == [] && LastPushed(s)
  }

  predicate Past(c: Cursor) {
    c.pos > |c.rows|
  }

  ghost function Read(st: Stream): Session {
    Reading(st.rows, st.end)
  }

  /** What is still to be read in the middle of a page switch. */
  ghost function Ahead(svc: Pages, s: State, rows: seq<Row>): Stream
    requires s.pc.InSwitch?
  {
    match s.pc.switch
    case Unlock(_) => Tail(svc, LastToken(s))
    case Decide(_) => Tail(svc, LastToken(s))
    case Join(token) => Append(rows, Tail(svc, token))
    case SetNext(token) => Append(rows, Tail(svc, token))
    case SpawnNext => Append(rows, Tail(svc, s.request))
  }

  /** The session this state stands for; a call in progress has not happened yet. */
  ghost function Abs(svc: Pages, s: State): Session {
    if !s.executed || s.pc.InExecute? || (s.pc.InClose? && s.pc.reply.Executed?) then Fresh
    else if s.cursor.None? then Ended
    else if s.pc.InSwitch? then Read(Ahead(svc, s, s.cursor.value.rows))
    else if Spent(s) then Hung
    else Read(Append(Rest(s.cursor.value.rows, s.cursor.value.pos), Tail(svc, if s.hasAsyncFetch then LastToken(s) else 0)))
  }

  /** Every worker asks for the page of the token it was started with, and the queue
      holds the newest worker's answer. */
  ghost predicate WorkersFaithful(svc: Pages, s: State) {
    && (forall i | 0 <= i < |s.workers| :: s.workers[i].started != 0)
    && (forall i | 0 <= i < |s.workers| && s.workers[i].pc == Call :: s.request == s.workers[i].started)
    && (forall i | 0 <= i < |s.workers| && s.workers[i].pc != Call ::
          s.workers[i].result == Serve(svc, s.workers[i].started))
    && (s.queue != [] ==> s.queue[0] == Serve(svc, LastToken(s)))
  }

  ghost predicate FirstPage(svc: Pages, s: State, token: nat) {
    s.cursor.Some? && s.cursor.value.pos == 0 && token != 0 && Open(svc, 0) == Opened(s.cursor.value.rows, token)
  }

  ghost predicate NewPage(s: State, token: nat) {
    s.cursor.Some? && s.cursor.value.pos == 1 && s.cursor.value.rows != [] && token != 0
  }

  ghost predicate ExecFaithful(svc: Pages, s: State)
    requires s.pc.InExecute?
  {
    match s.pc.exec
    case Request => Open(svc, 0) == Open(svc, s.request) && s.cursor == None
    case Retry(token) => Open(svc, 0) == Open(svc, token) && s.cursor == None
    case SetFirst(token) => FirstPage(svc, s, token)
    case SpawnFirst => FirstPage(svc, s, s.request)
    case FlagFirst => FirstPage(svc, s, LastToken(s)) && !(s.queue == [] && LastPushed(s))
  }

  ghost predicate SwitchFaithful(svc: Pages, s: State)
    requires s.pc.InSwitch?
  {
    match s.pc.switch
    case Unlock(page) => page == Serve(svc, LastToken(s)) && s.cursor.Some? && Past(s.cursor.value)
    case Decide(page) => page == Serve(svc, LastToken(s)) && s.cursor.Some? && Past(s.cursor.value)
    case Join(token) => NewPage(s, token)
    case SetNext(token) => NewPage(s, token)
    case SpawnNext => NewPage(s, s.request)
  }

  /** The tokens and pages held in locals of the application thread are the right ones. */
  ghost predicate LocalsFaithful(svc: Pages, s: State) {
    match s.pc
    case Idle => Spent(s) && s.cursor.Some? ==> Past(s.cursor.value)
    case InExecute(_) => ExecFaithful(svc, s)
    case InWait(_) => s.cursor.Some? && Past(s.cursor.value)
    case InSwitch(_) => SwitchFaithful(svc, s)
    case InClose(reply, _) => reply == Closed || (reply == Executed(Error) && Open(svc, 0) == OpenFailed && s.executed)
  }

  ghost predicate Faithful(svc: Pages, s: State) {
    WorkersFaithful(svc, s) && LocalsFaithful(svc, s)
  }

  ghost predicate Sound(svc: Pages, s: State) {
    Structure(s) && Faithful(svc, s)
  }

  ghost predicate Inv(svc: Pages, s: State) {
    && Sound(svc, s)
    && Replay(svc, s.log) == Some(Abs(svc, s))
    && ReadableCount(s.log) == s.rowCounter
  }

  /** A step either keeps the session and the log, or completes one call with a
      reply that the reference gives. */
  ghost predicate Refines(svc: Pages, s: State, t: State) {
    if t.log == s.log then Abs(svc, t) == Abs(svc, s) && t.rowCounter == s.rowCounter
    else
      && t.log.Then? && t.log.before == s.log
      && var e := t.log.last;
         && Follow(svc, Abs(svc, s), e) == Some(Abs(svc, t))
         && t.rowCounter == s.rowCounter + (if e.Handed? && e.readable then 1 else 0)
  }

  /** Steps of the application thread that touch neither threads nor mutex. */
  lemma SameThreads(s: State, t: State)
    requires OneWorker(s) && MutexMatches(s)
    requires t.workers == s.workers && t.threads == s.threads && t.lock == s.lock && Holds(t.pc) == Holds(s.pc)
    ensures OneWorker(t) && MutexMatches(t)
  {
  }

  // ---- Execute keeps the invariant ----

  lemma StructureSpawnFirst(svc: Pages, s: State)
    requires Structure(s) && s.pc == InExecute(SpawnFirst)
    ensures Structure(ExecNext(svc, s))
  {
  }

  lemma StructureExec(svc: Pages, s: State)
    requires Structure(s) && s.pc.InExecute? && !s.pc.exec.Request?
    ensures Structure(ExecNext(svc, s))
  {
    if s.pc.exec.SpawnFirst? {
      StructureSpawnFirst(svc, s);
    }
  }

  lemma StructureAnswered(s: State, outcome: Outcome)
    requires Structure(s) && s.pc == InExecute(Request)
    ensures Structure(Answered(s, outcome))
  {
  }

  lemma FlagRefines(svc: Pages, s: State)
    requires Sound(svc, s) && s.pc == InExecute(FlagFirst)
    ensures var t := ExecNext(svc, s); Faithful(svc, t) && Refines(svc, s, t)
  {
    if s.cursor.Some? {
      var rows := s.cursor.value.rows;
      assert rows[0..] == rows;
    }
  }

  lemma ExecRefines(svc: Pages, s: State)
    requires Sound(svc, s) && s.pc.InExecute? && !s.pc.exec.Request?
    ensures var t := ExecNext(svc, s); Faithful(svc, t) && Refines(svc, s, t)
  {
    if s.pc.exec.FlagFirst? {
      FlagRefines(svc, s);
    }
  }

  lemma AnsweredRefines(svc: Pages, s: State)
    requires Sound(svc, s) && s.pc == InExecute(Request)
    ensures var t := Answered(s, Serve(svc, s.request)); Faithful(svc, t) && Refines(svc, s, t)
  {
    var t := Answered(s, Serve(svc, s.request));
    if t.cursor.Some? {
      var rows := t.cursor.value.rows;
      assert rows[0..] == rows == rows + [];
    }
  }

  // ---- Fetch keeps the invariant ----

  lemma StructureWait(s: State)
    requires Structure(s) && s.pc.InWait? && WaitEnabled(s)
    ensures Structure(WaitNext(s))
  {
  }

  lemma PopFaithful(svc: Pages, s: State)
    requires Sound(svc, s) && s.pc == InWait(Pop)
    ensures WaitEnabled(s) && Faithful(svc, WaitNext(s))
  {
  }

  lemma PopRefines(svc: Pages, s: State)
    requires Sound(svc, s) && s.pc == InWait(Pop) && WaitEnabled(s)
    ensures Refines(svc, s, WaitNext(s))
  {
    var r := Tail(svc, LastToken(s));
    assert [] + r.rows == r.rows;
  }

  lemma CheckRefines(svc: Pages, s: State)
    requires Sound(svc, s) && s.pc == InWait(Check)
    ensures var t := WaitNext(s); Faithful(svc, t) && Refines(svc, s, t)
  {
  }

  lemma LockRefines(svc: Pages, s: State)
    requires Sound(svc, s) && s.pc == InWait(Lock) && WaitEnabled(s)
    ensures var t := WaitNext(s); Faithful(svc, t) && Refines(svc, s, t)
  {
  }

  lemma WaitRefines(svc: Pages, s: State)
    requires Sound(svc, s) && s.pc.InWait? && WaitEnabled(s)
    ensures var t := WaitNext(s); Faithful(svc, t) && Refines(svc, s, t)
  {
    match s.pc.wait
    case Lock => LockRefines(svc, s);
    case Check => CheckRefines(svc, s);
    case Pop =>
      PopFaithful(svc, s);
      PopRefines(svc, s);
  }

  lemma StructureUnlock(s: State, readable: bool)
    requires Structure(s) && s.pc.InSwitch? && s.pc.switch.Unlock?
    ensures Structure(SwitchNext(s, readable))
  {
  }

  lemma StructureSpawn(s: State, readable: bool)
    requires Structure(s) && s.pc.InSwitch? && s.pc.switch.SpawnNext? && SwitchEnabled(s)
    ensures Structure(SwitchNext(s, readable))
  {
  }

  lemma StructureSwitch(s: State, readable: bool)
    requires Structure(s) && s.pc.InSwitch? && SwitchEnabled(s) && !s.pc.switch.Decide?
    ensures Structure(SwitchNext(s, readable))
  {
    if s.pc.switch.Unlock? {
      StructureUnlock(s, readable);
    } else if s.pc.switch.SpawnNext? {
      StructureSpawn(s, readable);
    }
  }

  lemma StructureSwitched(s: State, readable: bool)
    requires Structure(s) && s.pc.InSwitch? && s.pc.switch.Decide?
    ensures Structure(Switched(s, s.pc.switch.page, readable))
  {
    SameThreads(s, Switched(s, s.pc.switch.page, readable));
  }

  /** The switch to a page that ends the reading: a failure, or one without rows. */
  lemma EndReachedRefines(svc: Pages, s: State, readable: bool)
    requires Sound(svc, s) && s.pc.InSwitch? && s.pc.switch.Decide?
    requires s.pc.switch.page.Page? ==> s.pc.switch.page.rows == []
    ensures var t := Switched(s, s.pc.switch.page, readable); Faithful(svc, t) && Refines(svc, s, t)
  {
  }

  lemma LastPageRefines(svc: Pages, s: State, readable: bool)
    requires Sound(svc, s) && s.pc.InSwitch? && s.pc.switch.Decide?
    requires s.pc.switch.page.Page? && s.pc.switch.page.rows != [] && s.pc.switch.page.token == 0
    ensures var t := Switched(s, s.pc.switch.page, readable); Faithful(svc, t) && Refines(svc, s, t)
  {
    var rows := s.pc.switch.page.rows;
    assert rows[1..] + [] == rows[1..];
  }

  lemma MorePagesRefines(svc: Pages, s: State, readable: bool)
    requires Sound(svc, s) && s.pc.InSwitch? && s.pc.switch.Decide?
    requires s.pc.switch.page.Page? && s.pc.switch.page.rows != [] && s.pc.switch.page.token != 0
    ensures var t := Switched(s, s.pc.switch.page, readable); Faithful(svc, t) && Refines(svc, s, t)
  {
  }

  lemma SwitchedRefines(svc: Pages, s: State, readable: bool)
    requires Sound(svc, s) && s.pc.InSwitch? && s.pc.switch.Decide?
    ensures var t := Switched(s, s.pc.switch.page, readable); Faithful(svc, t) && Refines(svc, s, t)
  {
    var page := s.pc.switch.page;
    if page.Page? && page.rows != [] {
      if page.token == 0 {
        LastPageRefines(svc, s, readable);
      } else {
        MorePagesRefines(svc, s, readable);
      }
    } else {
      EndReachedRefines(svc, s, readable);
    }
  }

  lemma SpawnRefines(svc: Pages, s: State, readable: bool)
    requires Sound(svc, s) && s.pc == InSwitch(SpawnNext) && SwitchEnabled(s)
    ensures var t := SwitchNext(s, readable); Faithful(svc, t) && Refines(svc, s, t)
  {
    var rows, rest := s.cursor.value.rows, Tail(svc, s.request).rows;
    assert (rows + rest)[1..] == rows[1..] + rest;
  }

  lemma SwitchRefines(svc: Pages, s: State, readable: bool)
    requires Sound(svc, s) && s.pc.InSwitch? && SwitchEnabled(s) && !s.pc.switch.Decide?
    ensures var t := SwitchNext(s, readable); Faithful(svc, t) && Refines(svc, s, t)
  {
    if s.pc.switch.SpawnNext? {
      SpawnRefines(svc, s, readable);
    }
  }

  lemma FetchTouches(s: State, readable: bool)
    requires s.pc.Idle?
    ensures var t := BeginFetch(s, readable);
      t == s.(cursor := t.cursor, pc := t.pc, log := t.log, rowCounter := t.rowCounter)
    ensures BeginFetch(s, readable).pc.Idle? || (BeginFetch(s, readable).pc == InWait(Lock) && s.hasAsyncFetch)
  {
  }

  lemma StructureFetch(s: State, readable: bool)
    requires Structure(s) && s.pc.Idle?
    ensures Structure(BeginFetch(s, readable))
  {
    FetchTouches(s, readable);
    SameThreads(s, BeginFetch(s, readable));
  }

  lemma FetchInPageRefines(svc: Pages, s: State, readable: bool)
    requires Sound(svc, s) && s.pc.Idle? && s.cursor.Some? && s.cursor.value.pos < |s.cursor.value.rows|
    ensures var t := BeginFetch(s, readable); Faithful(svc, t) && Refines(svc, s, t)
  {
    var c := s.cursor.value;
    var rest := Tail(svc, if s.hasAsyncFetch then LastToken(s) else 0).rows;
    assert (c.rows[c.pos..] + rest)[1..] == c.rows[c.pos + 1..] + rest;
  }

  lemma FetchPastPageRefines(svc: Pages, s: State, readable: bool)
    requires Sound(svc, s) && s.pc.Idle? && (s.cursor.None? || s.cursor.value.pos >= |s.cursor.value.rows|)
    ensures var t := BeginFetch(s, readable); Faithful(svc, t) && Refines(svc, s, t)
  {
  }

  // ---- Close keeps the invariant ----

  lemma StructureClose(s: State)
    requires Structure(s) && s.pc.InClose? && (s.pc.flagSet ==> Joinable(s))
    ensures Structure(CloseNext(s))
  {
  }

  lemma CloseRefines(svc: Pages, s: State)
    requires Sound(svc, s) && s.pc.InClose? && (s.pc.flagSet ==> Joinable(s))
    ensures var t := CloseNext(s); Faithful(svc, t) && Refines(svc, s, t)
  {
  }

  // ---- Workers keep the invariant, invisibly to the session ----

  lemma WorkKeepsMutex(svc: Pages, s: State, id: nat)
    requires Structure(s) && WorkEnabled(s, id) && id == |s.workers| - 1
    ensures MutexMatches(WorkNext(svc, s, id))
  {
  }

  lemma WorkKeepsOne(svc: Pages, s: State, id: nat)
    requires OneWorker(s) && WorkEnabled(s, id)
    ensures id == |s.workers| - 1 && OneWorker(WorkNext(svc, s, id))
  {
  }

  lemma WorkKeepsQueue(svc: Pages, s: State, id: nat)
    requires Structure(s) && WorkEnabled(s, id) && id == |s.workers| - 1
    ensures QueueMatches(WorkNext(svc, s, id))
  {
  }

  lemma WorkKeepsControl(svc: Pages, s: State, id: nat)
    requires Structure(s) && WorkEnabled(s, id)
    ensures ControlMatches(WorkNext(svc, s, id))
  {
  }

  lemma StructureWork(svc: Pages, s: State, id: nat)
    requires Structure(s) && WorkEnabled(s, id)
    ensures Structure(WorkNext(svc, s, id))
  {
    WorkKeepsOne(svc, s, id);
    WorkKeepsMutex(svc, s, id);
    WorkKeepsQueue(svc, s, id);
    WorkKeepsControl(svc, s, id);
  }

  lemma WorkersOnly(svc: Pages, s: State, t: State)
    requires t == s.(workers := t.workers, lock := t.lock, queue := t.queue)
    requires LocalsFaithful(svc, s) && LastToken(t) == LastToken(s)
    requires LastPushed(s) && s.queue == [] <==> LastPushed(t) && t.queue == []
    ensures LocalsFaithful(svc, t) && Refines(svc, s, t)
  {
  }

  lemma WorkFaithful(svc: Pages, s: State, id: nat)
    requires Sound(svc, s) && WorkEnabled(s, id) && id == |s.workers| - 1
    ensures WorkersFaithful(svc, WorkNext(svc, s, id))
  {
  }

  lemma WorkUnseen(svc: Pages, s: State, id: nat)
    requires Structure(s) && WorkEnabled(s, id) && id == |s.workers| - 1
    ensures var t := WorkNext(svc, s, id);
      && t == s.(workers := t.workers, lock := t.lock, queue := t.queue)
      && LastToken(t) == LastToken(s) && (LastPushed(s) && s.queue == [] <==> LastPushed(t) && t.queue == [])
  {
  }

  lemma WorkRefines(svc: Pages, s: State, id: nat)
    requires Sound(svc, s) && WorkEnabled(s, id)
    ensures var t := WorkNext(svc, s, id); Faithful(svc, t) && Refines(svc, s, t)
  {
    WorkKeepsOne(svc, s, id);
    WorkFaithful(svc, s, id);
    WorkUnseen(svc, s, id);
    WorkersOnly(svc, s, WorkNext(svc, s, id));
  }

  /** Only the application thread ever waits, so it is the one woken. */
  lemma NotifyWakesMain(svc: Pages, s: State, id: nat, wakes: Owner)
    requires Structure(s) && Enabled(s, WorkNotify(id, wakes))
    ensures id == |s.workers| - 1
    ensures Next(svc, s, WorkNotify(id, wakes)) ==
            SetWorker(s, id, Release).(pc := if s.pc == InWait(Blocked) then InWait(Lock) else s.pc)
  {
    assert s.pc == InWait(Blocked) ==> IsBlocked(s, MainThread);
  }

  /** The state after a notification. */
  predicate Notified(s: State, id: nat, t: State) {
    && id == |s.workers| - 1 && s.workers[id].pc == Notify
    && t == SetWorker(s, id, Release).(pc := if s.pc == InWait(Blocked) then InWait(Lock) else s.pc)
  }

  lemma StructureNotify(s: State, id: nat, t: State)
    requires Structure(s) && id < |s.workers| && Notified(s, id, t)
    ensures Structure(t)
  {
  }

  lemma NotifyFaithful(svc: Pages, s: State, id: nat, t: State)
    requires Sound(svc, s) && id < |s.workers| && Notified(s, id, t)
    ensures Faithful(svc, t)
  {
  }

  lemma NotifyRefines(svc: Pages, s: State, id: nat, t: State)
    requires Sound(svc, s) && id < |s.workers| && Notified(s, id, t)
    ensures Refines(svc, s, t)
  {
  }

  lemma ExecuteKeeps(svc: Pages, s: State)
    requires Sound(svc, s) && Enabled(s, CallExecute)
    ensures var t := Next(svc, s, CallExecute); Sound(svc, t) && Refines(svc, s, t)
  {
  }

  lemma CloseKeeps(svc: Pages, s: State)
    requires Sound(svc, s) && Enabled(s, CallClose)
    ensures var t := Next(svc, s, CallClose); Sound(svc, t) && Refines(svc, s, t)
  {
  }

  lemma WakeKeeps(svc: Pages, s: State, who: Owner)
    requires Sound(svc, s) && Enabled(s, Wake(who))
    ensures var t := Next(svc, s, Wake(who)); Sound(svc, t) && Refines(svc, s, t)
  {
  }

  // ---- One step, every step ----

  lemma MainStep(svc: Pages, s: State, readable: bool)
    requires Sound(svc, s) && MainEnabled(s)
    ensures var t := MainNext(svc, s, readable); Sound(svc, t) && Refines(svc, s, t)
  {
    match s.pc
    case InExecute(at) =>
      if at.Request? {
        StructureAnswered(s, Serve(svc, s.request));
        AnsweredRefines(svc, s);
      } else {
        StructureExec(svc, s);
        ExecRefines(svc, s);
      }
    case InWait(_) =>
      StructureWait(s);
      WaitRefines(svc, s);
    case InSwitch(at) =>
      if at.Decide? {
        StructureSwitched(s, readable);
        SwitchedRefines(svc, s, readable);
      } else {
        StructureSwitch(s, readable);
        SwitchRefines(svc, s, readable);
      }
    case InClose(_, _) =>
      StructureClose(s);
      CloseRefines(svc, s);
  }

  lemma Step(svc: Pages, s: State, a: Action)
    requires Sound(svc, s) && Enabled(s, a)
    ensures var t := Next(svc, s, a); Sound(svc, t) && Refines(svc, s, t)
  {
    match a
    case Main(readable) => MainStep(svc, s, readable);
    case Work(id) =>
      StructureWork(svc, s, id);
      WorkRefines(svc, s, id);
    case WorkNotify(id, wakes) =>
      NotifyWakesMain(svc, s, id, wakes);
      StructureNotify(s, id, Next(svc, s, a));
      NotifyFaithful(svc, s, id, Next(svc, s, a));
      NotifyRefines(svc, s, id, Next(svc, s, a));
    case CallFetch(readable) =>
      StructureFetch(s, readable);
      if s.cursor.Some? && s.cursor.value.pos < |s.cursor.value.rows| {
        FetchInPageRefines(svc, s, readable);
      } else {
        FetchPastPageRefines(svc, s, readable);
      }
    case CallExecute => ExecuteKeeps(svc, s);
    case CallClose => CloseKeeps(svc, s);
    case Wake(who) => WakeKeeps(svc, s, who);
  }

  lemma InvStep(svc: Pages, s: State, t: State)
    requires Inv(svc, s) && Steps(svc, s, t)
    ensures Inv(svc, t)
  {
    var a :| Enabled(s, a) && t == Next(svc, s, a);
    Step(svc, s, a);
  }

  /** Every state of every interleaving satisfies the invariant. */
  lemma {:induction false} ExecutionInv(svc: Pages, run: seq<State>, i: nat)
    requires Execution(svc, run) && i < |run|
    ensures Inv(svc, run[i])
  {
    if i > 0 {
      ExecutionInv(svc, run, i - 1);
      InvStep(svc, run[i - 1], run[i]);
    }
  }
}
