/** What every interleaving of the application thread and the workers guarantees. */
module PrefetchSafety {

  import opened Common
  import opened Service
  import opened Prefetch
  import opened TokenChain

  /** Under every interleaving the replies are those of the sequential reference, and
      the rows handed out are a prefix of all pages concatenated in token order. */
  lemma RowsInTokenOrder(svc: Pages, run: seq<State>, i: nat)
    requires Execution(svc, run) && i < |run|
    ensures Replay(svc, run[i].log) == Some(Abs(svc, run[i]))
    ensures HandedRows(run[i].log) <= Deliverable(svc).rows
    ensures HandedRows(run[i].log) <= Chain(svc)
  {
    ExecutionInv(svc, run, i);
    HandedIsPrefix(svc, run[i].log);
    HandedIsChainPrefix(svc, run[i].log);
  }

  /** A fetch that ends an open cursor without a row comes only after all deliverable
      rows were handed out, fails exactly when the chain ends in a failure before any
      page without rows behind one with rows, and has lost nothing
      exactly when no page without rows lies between two with rows. */
  lemma StopMeansComplete(svc: Pages, run: seq<State>, i: nat)
    requires Execution(svc, run) && i < |run|
    ensures var log := run[i].log;
      Stopped(svc, log) ==>
        && HandedRows(log) == Deliverable(svc).rows
        && (log.last.Failed? <==> EndsInFailure(Links(svc, 0)) && !EmptyAfterRows(Links(svc, 0)))
        && (HandedRows(log) == Chain(svc) <==> !Gap(Links(svc, 0)))
  {
    ExecutionInv(svc, run, i);
    var log := run[i].log;
    if Stopped(svc, log) {
      StoppedHandedAll(svc, log);
    }
  }

  // ---- Data races ----

  datatype Location = TheRequest | TheQueue | TheClosingFlag

  /** One access of a thread's next step to a location both threads can reach. */
  datatype Access = Access(location: Location, write: bool)

  function MainAccesses(s: State): set<Access> {
    match s.pc
    case Idle => {}
    case InExecute(at) =>
      if at.Request? then {Access(TheRequest, false)}
      else if at.Retry? || at.SetFirst? then {Access(TheRequest, true)}
      else {}
    case InWait(at) =>
      if at.Check? then {Access(TheQueue, false)}
      else if at.Pop? then {Access(TheQueue, true)}
      else {}
    case InSwitch(at) => if at.SetNext? then {Access(TheRequest, true)} else {}
    case InClose(_, flagSet) => if flagSet then {} else {Access(TheClosingFlag, true)}
  }

  /** The wait predicate is a short-circuit disjunction: the flag is read only when
      the queue is not empty. */
  function WorkerAccesses(s: State, id: nat): set<Access>
    requires id < |s.workers|
  {
    match s.workers[id].pc
    case Call => {Access(TheRequest, false)}
    case Test => {Access(TheQueue, false)} + (if s.queue == [] then {} else {Access(TheClosingFlag, false)})
    case Push => {Access(TheQueue, true)}
    case _ => {}
  }

  ghost predicate Conflict(a: set<Access>, b: set<Access>) {
    exists x, y :: x in a && y in b && x.location == y.location && (x.write || y.write)
  }

  /** No two threads are ever about to make conflicting accesses, although the
      closing flag and the request are used without the mutex. */
  lemma RaceFree(svc: Pages, run: seq<State>, i: nat, id: nat, other: nat)
    requires Execution(svc, run) && i < |run| && id < |run[i].workers| && other < |run[i].workers|
    ensures !Conflict(MainAccesses(run[i]), WorkerAccesses(run[i], id))
    ensures id != other ==> !Conflict(WorkerAccesses(run[i], id), WorkerAccesses(run[i], other))
    ensures Access(TheClosingFlag, false) !in WorkerAccesses(run[i], id)
  {
    ExecutionInv(svc, run, i);
    var s := run[i];
    WorkerConflictsNot(s, id);
    if id < |s.workers| - 1 {
      OlderIsDone(s, id);
    }
    if other < |s.workers| - 1 {
      OlderIsDone(s, other);
    }
  }

  lemma OlderIsDone(s: State, id: nat)
    requires OneWorker(s) && id < |s.workers| - 1
    ensures WorkerAccesses(s, id) == {}
  {
  }

  lemma WorkerConflictsNot(s: State, id: nat)
    requires Structure(s) && id < |s.workers|
    ensures !Conflict(MainAccesses(s), WorkerAccesses(s, id))
    ensures Access(TheClosingFlag, false) !in WorkerAccesses(s, id)
  {
  }

  // ---- Threads and queue ----

  /** At most one worker is alive, the queue and the handle list hold at most one
      element, no worker ever waits, and every worker that called the service got the
      answer to the token it was started with. */
  lemma OneFaithfulWorker(svc: Pages, run: seq<State>, i: nat, id: nat)
    requires Execution(svc, run) && i < |run| && id < |run[i].workers|
    ensures var s, w := run[i], run[i].workers[id];
      && |s.queue| <= 1 && |s.threads| <= 1
      && (w.pc != Exited ==> s.threads == [id] && id == |s.workers| - 1)
      && w.pc != Waiting
      && (w.pc in {Test, Push} ==> s.queue == [])
      && (w.pc == Call ==> s.request == w.started)
      && (w.pc != Call ==> w.result == Serve(svc, w.started))
  {
    ExecutionInv(svc, run, i);
    var s := run[i];
    if id < |s.workers| - 1 {
      assert s.workers[id].pc == Exited;
    }
  }

  /** Destroying the object between calls never drops a running thread: the
      destructor joins whenever a result is held, and without one no handle is left. */
  lemma DestructionJoins(svc: Pages, run: seq<State>, i: nat)
    requires Execution(svc, run) && i < |run| && !run[i].hasResult
    ensures run[i].threads == []
    ensures forall id | 0 <= id < |run[i].workers| :: run[i].workers[id].pc == Exited
  {
    ExecutionInv(svc, run, i);
  }

  /** Between calls, a query that was closed last, or failed to execute last, has nothing
      left: no cursor, no result, no handle and no live worker. */
  ghost predicate ClosedIsEmpty(s: State) {
    s.pc.Idle? && s.log.Then? && (s.log.last == Closed || s.log.last == Executed(ExecResult.Error)) ==>
      && s.cursor.None? && !s.hasResult && s.closing && s.threads == []
      && forall id | 0 <= id < |s.workers| :: s.workers[id].pc == Exited
  }

  ghost predicate ClosingFlagged(s: State) {
    s.pc.InClose? && s.pc.flagSet ==> s.closing
  }

  lemma CloseStepLeavesNothing(s: State)
    requires OneWorker(s) && s.pc.InClose? && (s.pc.flagSet ==> Joinable(s)) && ClosingFlagged(s)
    ensures ClosedIsEmpty(CloseNext(s)) && ClosingFlagged(CloseNext(s))
  {
  }

  /** The other calls in progress end with other replies. */
  ghost predicate NotClosing(s: State) {
    !s.pc.InClose? && (s.pc.Idle? ==> s.log.Then? && s.log.last != Closed && s.log.last != Executed(ExecResult.Error))
  }

  lemma ExecStepNotClosing(svc: Pages, s: State)
    requires s.pc.InExecute?
    ensures NotClosing(ExecNext(svc, s)) || ExecNext(svc, s).pc == InClose(Executed(ExecResult.Error), false)
  {
  }

  lemma SwitchStepNotClosing(s: State, readable: bool)
    requires s.pc.InSwitch? && SwitchEnabled(s)
    ensures NotClosing(SwitchNext(s, readable))
  {
  }

  lemma WaitStepNotClosing(s: State)
    requires s.pc.InWait? && WaitEnabled(s)
    ensures NotClosing(WaitNext(s))
  {
  }

  lemma FetchStepNotClosing(s: State, readable: bool)
    ensures NotClosing(BeginFetch(s, readable))
  {
  }

  lemma WorkLeavesNothing(svc: Pages, s: State, id: nat)
    requires OneWorker(s) && WorkEnabled(s, id) && ClosingFlagged(s) && ClosedIsEmpty(s)
    ensures ClosedIsEmpty(WorkNext(svc, s, id)) && ClosingFlagged(WorkNext(svc, s, id))
  {
    WorkKeepsOne(svc, s, id);
  }

  lemma NotifyLeavesNothing(svc: Pages, s: State, id: nat, wakes: Owner)
    requires Structure(s) && Enabled(s, WorkNotify(id, wakes)) && ClosingFlagged(s) && ClosedIsEmpty(s)
    ensures var t := Next(svc, s, WorkNotify(id, wakes)); ClosedIsEmpty(t) && ClosingFlagged(t)
  {
    NotifyWakesMain(svc, s, id, wakes);
  }

  lemma MainLeavesNothing(svc: Pages, s: State, readable: bool)
    requires Structure(s) && MainEnabled(s) && ClosingFlagged(s)
    ensures ClosedIsEmpty(MainNext(svc, s, readable)) && ClosingFlagged(MainNext(svc, s, readable))
  {
    match s.pc
    case InExecute(_) => ExecStepNotClosing(svc, s);
    case InWait(_) => WaitStepNotClosing(s);
    case InSwitch(_) => SwitchStepNotClosing(s, readable);
    case InClose(_, _) => CloseStepLeavesNothing(s);
  }

  lemma StepLeavesNothing(svc: Pages, s: State, a: Action)
    requires Structure(s) && Enabled(s, a) && ClosingFlagged(s) && ClosedIsEmpty(s)
    ensures ClosedIsEmpty(Next(svc, s, a)) && ClosingFlagged(Next(svc, s, a))
  {
    match a
    case Main(readable) => MainLeavesNothing(svc, s, readable);
    case Work(id) => WorkLeavesNothing(svc, s, id);
    case WorkNotify(id, wakes) => NotifyLeavesNothing(svc, s, id, wakes);
    case CallFetch(readable) => FetchStepNotClosing(s, readable);
    case CallExecute =>
    case CallClose =>
    case Wake(_) =>
  }

  lemma StepsLeaveNothing(svc: Pages, s: State, t: State)
    requires Structure(s) && Steps(svc, s, t) && ClosingFlagged(s) && ClosedIsEmpty(s)
    ensures ClosedIsEmpty(t) && ClosingFlagged(t)
  {
    var a :| Enabled(s, a) && t == Next(svc, s, a);
    StepLeavesNothing(svc, s, a);
  }

  lemma {:induction false} CloseLeavesNothing(svc: Pages, run: seq<State>, i: nat)
    requires Execution(svc, run) && i < |run|
    ensures ClosedIsEmpty(run[i]) && ClosingFlagged(run[i])
  {
    if i > 0 {
      CloseLeavesNothing(svc, run, i - 1);
      ExecutionInv(svc, run, i - 1);
      StepsLeaveNothing(svc, run[i - 1], run[i]);
    }
  }

  // ---- Row number ----

  /** DataQuery::RowNumber. */
  function RowNumber(s: State): nat {
    if s.cursor.None? || s.cursor.value.pos > |s.cursor.value.rows| then 0 else s.rowCounter
  }

  ghost predicate OnRow(s: State) {
    && s.cursor.Some? && 1 <= s.cursor.value.pos <= |s.cursor.value.rows|
    && (s.pc.Idle? || s.pc.InClose?)
  }

  /** The row under the cursor is the one handed out last. */
  ghost predicate CurrentRow(s: State) {
    OnRow(s) ==>
      HandedRows(s.log) != [] && HandedRows(s.log)[|HandedRows(s.log)| - 1] == s.cursor.value.rows[s.cursor.value.pos - 1]
  }

  function Current(s: State): Row
    requires OnRow(s)
  {
    s.cursor.value.rows[s.cursor.value.pos - 1]
  }

  /** A step that puts the cursor on a row logs that row as handed out. */
  ghost predicate LogsCurrent(s: State, t: State) {
    OnRow(t) ==>
      if t.log == s.log then OnRow(s) && Current(t) == Current(s)
      else t.log.Then? && t.log.last.Handed? && t.log.last.row == Current(t)
  }

  lemma ExecLogsCurrent(svc: Pages, s: State)
    requires s.pc.InExecute? && LocalsFaithful(svc, s)
    ensures LogsCurrent(s, ExecNext(svc, s))
  {
  }

  lemma SwitchedLogsCurrent(svc: Pages, s: State, readable: bool)
    requires s.pc.InSwitch? && s.pc.switch.Decide? && LocalsFaithful(svc, s)
    ensures LogsCurrent(s, Switched(s, s.pc.switch.page, readable))
  {
  }

  lemma SwitchLogsCurrent(svc: Pages, s: State, readable: bool)
    requires s.pc.InSwitch? && SwitchEnabled(s) && LocalsFaithful(svc, s) && !s.pc.switch.Decide?
    ensures LogsCurrent(s, SwitchNext(s, readable))
  {
  }

  lemma MainLogsCurrent(svc: Pages, s: State, readable: bool)
    requires Sound(svc, s) && MainEnabled(s)
    ensures LogsCurrent(s, MainNext(svc, s, readable))
  {
    match s.pc
    case InExecute(_) => ExecLogsCurrent(svc, s);
    case InSwitch(at) =>
      if at.Decide? {
        SwitchedLogsCurrent(svc, s, readable);
      } else {
        SwitchLogsCurrent(svc, s, readable);
      }
    case _ =>
  }

  lemma WorkLogsCurrent(svc: Pages, s: State, id: nat)
    requires WorkEnabled(s, id)
    ensures LogsCurrent(s, WorkNext(svc, s, id))
  {
  }

  lemma FetchLogsCurrent(s: State, readable: bool)
    requires s.pc.Idle?
    ensures LogsCurrent(s, BeginFetch(s, readable))
  {
  }

  lemma NotifyLogsCurrent(svc: Pages, s: State, id: nat, wakes: Owner)
    requires Structure(s) && Enabled(s, WorkNotify(id, wakes))
    ensures LogsCurrent(s, Next(svc, s, WorkNotify(id, wakes)))
  {
    NotifyWakesMain(svc, s, id, wakes);
  }

  lemma StepLogsCurrent(svc: Pages, s: State, a: Action)
    requires Sound(svc, s) && Enabled(s, a)
    ensures LogsCurrent(s, Next(svc, s, a))
  {
    match a
    case Main(readable) => MainLogsCurrent(svc, s, readable);
    case Work(id) => WorkLogsCurrent(svc, s, id);
    case WorkNotify(id, wakes) => NotifyLogsCurrent(svc, s, id, wakes);
    case CallFetch(readable) => FetchLogsCurrent(s, readable);
    case _ =>
  }

  lemma LoggedRowIsCurrent(svc: Pages, s: State, t: State)
    requires CurrentRow(s) && LogsCurrent(s, t) && Refines(svc, s, t)
    ensures CurrentRow(t)
  {
  }

  lemma CurrentRowStep(svc: Pages, s: State, a: Action)
    requires Sound(svc, s) && Enabled(s, a) && CurrentRow(s)
    ensures CurrentRow(Next(svc, s, a))
  {
    var t := Next(svc, s, a);
    StepLogsCurrent(svc, s, a);
    Step(svc, s, a);
    LoggedRowIsCurrent(svc, s, t);
  }

  lemma CurrentRowKept(svc: Pages, s: State, t: State)
    requires Sound(svc, s) && Steps(svc, s, t) && CurrentRow(s)
    ensures CurrentRow(t)
  {
    var a :| Enabled(s, a) && t == Next(svc, s, a);
    CurrentRowStep(svc, s, a);
  }

  lemma {:induction false} CurrentRowAlways(svc: Pages, run: seq<State>, i: nat)
    requires Execution(svc, run) && i < |run|
    ensures CurrentRow(run[i])
  {
    if i > 0 {
      CurrentRowAlways(svc, run, i - 1);
      ExecutionInv(svc, run, i - 1);
      CurrentRowKept(svc, run[i - 1], run[i]);
    }
  }

  /** Across any number of page switches the cursor is on row n - 1 of the chain of
      pages after n handed-out rows, and RowNumber is n exactly when no row so far
      had a column that could not be read. */
  lemma RowNumberIsPosition(svc: Pages, run: seq<State>, i: nat)
    requires Execution(svc, run) && i < |run| && run[i].pc == Idle && OnRow(run[i])
    ensures var s, n := run[i], |HandedRows(run[i].log)|;
      && 0 < n <= |Chain(svc)|
      && s.cursor.value.rows[s.cursor.value.pos - 1] == Chain(svc)[n - 1]
      && (RowNumber(s) == n <==> AllReadable(s.log))
  {
    CurrentRowAlways(svc, run, i);
    ExecutionInv(svc, run, i);
    HandedIsChainPrefix(svc, run[i].log);
    ReadableIsAll(run[i].log);
  }
}
