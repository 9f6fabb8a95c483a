/** Which calls return: a call can hang only after the service returned an empty
    later page, every other call completes, and the hang is then unavoidable. */
module PrefetchProgress {

  import opened Common
  import opened Service
  import opened Prefetch
  import opened TokenChain

  /** A fetch waits for a page although the newest worker's page, an empty one, was
      already taken. */
  ghost predicate Stuck(s: State) {
    s.pc.InWait? && Spent(s)
  }

  /** A step of a call or a worker; not the start of a call, not a spurious wakeup. */
  predicate Proper(a: Action) {
    a.Main? || a.Work? || a.WorkNotify?
  }

  // ---- A hang is permanent, and needs an empty later page ----

  lemma StuckForever(svc: Pages, s: State, a: Action)
    requires Sound(svc, s) && Stuck(s) && Enabled(s, a)
    ensures Stuck(Next(svc, s, a))
  {
    if a.WorkNotify? {
      NotifyWakesMain(svc, s, a.id, a.wakes);
    }
  }

  lemma StuckNeedsEmptyPage(svc: Pages, run: seq<State>, i: nat)
    requires Execution(svc, run) && i < |run| && Stuck(run[i])
    ensures Deliverable(svc).end == Empty && HandedRows(run[i].log) == Deliverable(svc).rows
  {
    ExecutionInv(svc, run, i);
    HandedIsPrefix(svc, run[i].log);
  }

  // ---- Every step of a call brings its return closer ----

  function WorkerRank(pc: WorkerPc): nat {
    match pc
    case Call => 12
    case Acquire => 11
    case Waiting => 11
    case Test => 10
    case Push => 9
    case Notify => 8
    case Release => 3
    case Exited => 0
  }

  function Distance(svc: Pages, token: nat): nat {
    if token < |svc| then |svc| - token else 0
  }

  function ExecRank(svc: Pages, s: State, pc: ExecPc): nat {
    match pc
    case Request => 100 + 10 * Distance(svc, s.request)
    case Retry(token) => 105 + 10 * Distance(svc, token)
    case SetFirst(_) => 60
    case SpawnFirst => 50
    case FlagFirst => 20
  }

  function WaitRank(s: State, pc: WaitPc): nat {
    match pc
    case Lock => if s.queue == [] then 43 else 34
    case Check => if s.queue == [] then 42 else 33
    case Blocked => if s.queue == [] then 41 else 35
    case Pop => 32
  }

  function SwitchRank(pc: SwitchPc): nat {
    match pc
    case Unlock(_) => 31
    case Decide(_) => 30
    case Join(_) => 29
    case SetNext(_) => 28
    case SpawnNext => 20
  }

  function MainRank(svc: Pages, s: State): nat {
    match s.pc
    case Idle => 0
    case InExecute(at) => ExecRank(svc, s, at)
    case InWait(at) => WaitRank(s, at)
    case InSwitch(at) => SwitchRank(at)
    case InClose(_, flagSet) => if flagSet then 5 + |s.threads| else 10
  }

  /** Only the newest worker can be alive. */
  function Rank(svc: Pages, s: State): nat {
    MainRank(svc, s) + (if s.workers == [] then 0 else WorkerRank(s.workers[|s.workers| - 1].pc))
  }

  lemma ExecDecreases(svc: Pages, s: State)
    requires Structure(s) && s.pc.InExecute?
    ensures Rank(svc, ExecNext(svc, s)) < Rank(svc, s)
  {
  }

  lemma SwitchedDecreases(svc: Pages, s: State, readable: bool)
    requires s.pc.InSwitch? && s.pc.switch.Decide?
    ensures Rank(svc, Switched(s, s.pc.switch.page, readable)) < Rank(svc, s)
  {
  }

  lemma SwitchDecreases(svc: Pages, s: State, readable: bool)
    requires Structure(s) && s.pc.InSwitch? && SwitchEnabled(s) && !s.pc.switch.Decide?
    ensures Rank(svc, SwitchNext(s, readable)) < Rank(svc, s)
  {
  }

  lemma MainDecreases(svc: Pages, s: State, readable: bool)
    requires Structure(s) && MainEnabled(s)
    ensures Rank(svc, MainNext(svc, s, readable)) < Rank(svc, s)
  {
    match s.pc
    case InExecute(_) => ExecDecreases(svc, s);
    case InSwitch(at) =>
      if at.Decide? {
        SwitchedDecreases(svc, s, readable);
      } else {
        SwitchDecreases(svc, s, readable);
      }
    case _ =>
  }

  lemma WorkDecreases(svc: Pages, s: State, id: nat)
    requires Structure(s) && WorkEnabled(s, id)
    ensures Rank(svc, WorkNext(svc, s, id)) < Rank(svc, s)
  {
    assert id == |s.workers| - 1;
  }

  /** At most Rank steps separate any state from the next quiet one, whatever the
      scheduler does, as long as it adds no spurious wakeups. */
  lemma ProperDecreases(svc: Pages, s: State, a: Action)
    requires Structure(s) && Enabled(s, a) && Proper(a)
    ensures Rank(svc, Next(svc, s, a)) < Rank(svc, s)
  {
    match a
    case Main(readable) => MainDecreases(svc, s, readable);
    case Work(id) => WorkDecreases(svc, s, id);
    case WorkNotify(id, wakes) => NotifyWakesMain(svc, s, id, wakes);
  }

  /** The newest worker can move unless it has exited or needs the mutex that the
      application thread holds. */
  lemma WorkerCanMove(svc: Pages, s: State) returns (a: Action)
    requires Structure(s) && s.workers != [] && s.workers[|s.workers| - 1].pc != Exited
    requires !Holds(s.pc)
    ensures Proper(a) && Enabled(s, a)
  {
    var id := |s.workers| - 1;
    var pc := s.workers[id].pc;
    if pc == Notify {
      a := WorkNotify(id, if s.pc == InWait(Blocked) then MainThread else Free);
      assert forall w :: IsBlocked(s, w) ==> w == MainThread;
    } else {
      a := Work(id);
    }
  }

  /** No deadlock: while a call is in progress and not stuck, some thread can move. */
  lemma SomeoneCanMove(svc: Pages, s: State) returns (a: Action)
    requires Sound(svc, s) && s.pc != Idle && !Stuck(s)
    ensures Proper(a) && Enabled(s, a)
  {
    if MainEnabled(s) {
      a := Main(true);
    } else {
      if s.pc == InWait(Lock) {
        assert WorkerHolds(s.workers[s.lock.id].pc);
      }
      a := WorkerCanMove(svc, s);
    }
  }

  // ---- Calls return ----

  datatype Kind = ExecuteCall | FetchCall | CloseCall

  /** The API call in progress. */
  function KindOf(s: State): Kind
    requires s.pc != Idle
  {
    match s.pc
    case InExecute(_) => ExecuteCall
    case InWait(_) => FetchCall
    case InSwitch(_) => FetchCall
    case InClose(reply, _) => ReplyKind(reply)
  }

  function ReplyKind(e: Event): Kind {
    if e.Executed? then ExecuteCall else if e.Closed? then CloseCall else FetchCall
  }

  /** The call returns with one reply of its own kind, the one the reference gives. */
  ghost predicate Returned(svc: Pages, s: State, t: State) {
    s.pc != Idle && t.pc == Idle && KindKept(s, t) && Refines(svc, s, t)
  }

  ghost predicate Continues(svc: Pages, s: State, t: State) {
    s.pc != Idle && t.pc != Idle && KindKept(s, t) && Refines(svc, s, t)
  }

  ghost predicate KindKept(s: State, t: State)
    requires s.pc != Idle
  {
    if t.pc == Idle then
      t.log.Then? && t.log.before == s.log && ReplyKind(t.log.last) == KindOf(s)
    else
      t.log == s.log && KindOf(t) == KindOf(s)
  }

  lemma ExecKeepsKind(svc: Pages, s: State)
    requires s.pc.InExecute?
    ensures KindKept(s, ExecNext(svc, s))
  {
  }

  lemma SwitchedKeepsKind(s: State, page: Outcome, readable: bool)
    requires s.pc.InSwitch?
    ensures KindKept(s, Switched(s, page, readable))
  {
  }

  lemma SwitchKeepsKind(s: State, readable: bool)
    requires s.pc.InSwitch? && SwitchEnabled(s) && !s.pc.switch.Decide?
    ensures KindKept(s, SwitchNext(s, readable))
  {
  }

  lemma MainKeepsKind(svc: Pages, s: State, readable: bool)
    requires LocalsFaithful(svc, s) && MainEnabled(s)
    ensures KindKept(s, MainNext(svc, s, readable))
  {
    match s.pc
    case InExecute(_) => ExecKeepsKind(svc, s);
    case InSwitch(at) =>
      if at.Decide? {
        SwitchedKeepsKind(s, at.page, readable);
      } else {
        SwitchKeepsKind(s, readable);
      }
    case _ =>
  }

  lemma WorkKeepsKind(svc: Pages, s: State, id: nat)
    requires s.pc != Idle && WorkEnabled(s, id)
    ensures KindKept(s, WorkNext(svc, s, id))
  {
  }

  lemma ProperContinues(svc: Pages, s: State, a: Action)
    requires Sound(svc, s) && s.pc != Idle && Enabled(s, a) && Proper(a)
    ensures var t := Next(svc, s, a); Sound(svc, t) && (Returned(svc, s, t) || Continues(svc, s, t))
  {
    Step(svc, s, a);
    KindStep(svc, s, a);
  }

  lemma KindStep(svc: Pages, s: State, a: Action)
    requires Sound(svc, s) && s.pc != Idle && Enabled(s, a) && Proper(a)
    ensures KindKept(s, Next(svc, s, a))
  {
    match a
    case Main(readable) => MainKeepsKind(svc, s, readable);
    case Work(id) => WorkKeepsKind(svc, s, id);
    case WorkNotify(id, wakes) => NotifyWakesMain(svc, s, id, wakes);
  }

  /** Execute and Close always return: only a fetch can be stuck. */
  lemma OnlyFetchSticks(svc: Pages, s: State)
    requires Sound(svc, s) && Stuck(s)
    ensures KindOf(s) == FetchCall && Abs(svc, s) == Hung
  {
  }

  /** Extends an execution by one step. */
  lemma Extend(svc: Pages, run: seq<State>, a: Action) returns (longer: seq<State>)
    requires Execution(svc, run) && Enabled(run[|run| - 1], a)
    ensures Execution(svc, longer) && |longer| == |run| + 1 && run <= longer
    ensures longer[|run|] == Next(svc, run[|run| - 1], a)
  {
    longer := run + [Next(svc, run[|run| - 1], a)];
    assert Steps(svc, run[|run| - 1], longer[|run|]);
    forall i | 0 < i < |longer|
      ensures Steps(svc, longer[i - 1], longer[i])
    {
      assert i < |run| ==> longer[i] == run[i] && longer[i - 1] == run[i - 1];
    }
  }

  lemma OneProperStep(svc: Pages, run: seq<State>) returns (longer: seq<State>)
    requires Execution(svc, run) && run[|run| - 1].pc != Idle && !Stuck(run[|run| - 1])
    ensures Execution(svc, longer) && run <= longer
    ensures var s, t := run[|run| - 1], longer[|longer| - 1];
      (Returned(svc, s, t) || Continues(svc, s, t)) && Rank(svc, t) < Rank(svc, s)
  {
    var s := run[|run| - 1];
    ExecutionInv(svc, run, |run| - 1);
    var a := SomeoneCanMove(svc, s);
    ProperDecreases(svc, s, a);
    ProperContinues(svc, s, a);
    longer := Extend(svc, run, a);
  }

  lemma Joined(svc: Pages, s: State, t: State, u: State)
    requires Continues(svc, s, t)
    ensures Returned(svc, t, u) ==> Returned(svc, s, u)
    ensures t.pc != Idle && KindOf(t) == KindOf(s) && Abs(svc, t) == Abs(svc, s)
  {
  }

  /** Every call in progress can be driven to its return, unless it is a fetch that
      the reference gives no reply to. */
  lemma CallReturns(svc: Pages, run: seq<State>) returns (longer: seq<State>)
    requires Execution(svc, run) && run[|run| - 1].pc != Idle
    ensures Execution(svc, longer) && run <= longer
    ensures var s, t := run[|run| - 1], longer[|longer| - 1];
      Returned(svc, s, t) || (Stuck(t) && KindOf(s) == FetchCall && Abs(svc, s) == Hung)
    decreases Rank(svc, run[|run| - 1])
  {
    var s := run[|run| - 1];
    if Stuck(s) {
      ExecutionInv(svc, run, |run| - 1);
      OnlyFetchSticks(svc, s);
      longer := run;
    } else {
      longer := OneProperStep(svc, run);
      var t := longer[|longer| - 1];
      if t.pc != Idle {
        longer := CallReturns(svc, longer);
        Joined(svc, s, t, longer[|longer| - 1]);
      }
    }
  }

  // ---- A hang is reachable exactly when a later page is empty ----

  function Measure(q: Session): nat {
    match q
    case Reading(rest, _) => |rest| + 2
    case Hung => 1
    case _ => 0
  }

  ghost predicate WillHang(q: Session) {
    q.Hung? || (q.Reading? && q.end == Empty)
  }

  ghost predicate FetchReplied(svc: Pages, s: State, t: State) {
    && t.log.Then? && ReplyKind(t.log.last) == FetchCall
    && Follow(svc, Abs(svc, s), t.log.last) == Some(Abs(svc, t))
  }

  lemma FetchBegins(svc: Pages, s: State, t: State)
    requires s.pc == Idle && t == BeginFetch(s, true) && Refines(svc, s, t)
    ensures if t.pc == Idle then FetchReplied(svc, s, t) else KindOf(t) == FetchCall && Abs(svc, t) == Abs(svc, s)
  {
  }

  /** A fetch reply of the reference on a session that will hang. */
  lemma CloserToHang(svc: Pages, q: Session, e: Event)
    requires WillHang(q) && ReplyKind(e) == FetchCall && Follow(svc, q, e).Some?
    ensures var r := Follow(svc, q, e).value; WillHang(r) && Measure(r) < Measure(q)
  {
  }

  lemma FetchStarts(svc: Pages, run: seq<State>) returns (longer: seq<State>)
    requires Execution(svc, run) && run[|run| - 1].pc == Idle
    ensures Execution(svc, longer)
    ensures var s, t := run[|run| - 1], longer[|longer| - 1];
      if t.pc == Idle then FetchReplied(svc, s, t) else KindOf(t) == FetchCall && Abs(svc, t) == Abs(svc, s)
  {
    var s := run[|run| - 1];
    ExecutionInv(svc, run, |run| - 1);
    longer := Extend(svc, run, CallFetch(true));
    Step(svc, s, CallFetch(true));
    FetchBegins(svc, s, longer[|run|]);
  }

  /** One fetch call from an idle state, run until it returns or is stuck. */
  lemma FetchCallReturns(svc: Pages, run: seq<State>) returns (longer: seq<State>)
    requires Execution(svc, run) && run[|run| - 1].pc == Idle
    ensures Execution(svc, longer)
    ensures var s, t := run[|run| - 1], longer[|longer| - 1];
      Stuck(t) || (t.pc == Idle && FetchReplied(svc, s, t))
  {
    longer := FetchStarts(svc, run);
    var s, t := run[|run| - 1], longer[|longer| - 1];
    if t.pc != Idle {
      longer := CallReturns(svc, longer);
      ReturnReplies(svc, s, t, longer[|longer| - 1]);
    }
  }

  lemma ReturnReplies(svc: Pages, s: State, t: State, u: State)
    requires t.pc != Idle && KindOf(t) == FetchCall && Abs(svc, t) == Abs(svc, s)
    ensures Returned(svc, t, u) ==> FetchReplied(svc, s, u)
  {
  }

  lemma OneFetch(svc: Pages, run: seq<State>) returns (longer: seq<State>)
    requires Execution(svc, run) && run[|run| - 1].pc == Idle && WillHang(Abs(svc, run[|run| - 1]))
    ensures Execution(svc, longer)
    ensures var t := longer[|longer| - 1];
      Stuck(t) || (t.pc == Idle && WillHang(Abs(svc, t)) && Measure(Abs(svc, t)) < Measure(Abs(svc, run[|run| - 1])))
  {
    longer := FetchCallReturns(svc, run);
    var s, t := run[|run| - 1], longer[|longer| - 1];
    if !Stuck(t) {
      CloserToHang(svc, Abs(svc, s), t.log.last);
    }
  }

  lemma FetchUntilStuck(svc: Pages, run: seq<State>) returns (longer: seq<State>)
    requires Execution(svc, run) && run[|run| - 1].pc == Idle && WillHang(Abs(svc, run[|run| - 1]))
    ensures Execution(svc, longer) && Stuck(longer[|longer| - 1])
    decreases Measure(Abs(svc, run[|run| - 1]))
  {
    longer := OneFetch(svc, run);
    if !Stuck(longer[|longer| - 1]) {
      longer := FetchUntilStuck(svc, longer);
    }
  }

  lemma HangReachable(svc: Pages) returns (run: seq<State>)
    requires Deliverable(svc).end == Empty
    ensures Execution(svc, run) && Stuck(run[|run| - 1])
  {
    run := [Init];
    run := Extend(svc, run, CallExecute);
    run := CallReturns(svc, run);
    run := FetchUntilStuck(svc, run);
  }

  /** Some interleaving of some sequence of calls hangs if and only if, along the token
      chain, a page without rows comes after one with rows. */
  lemma HangsIffEmptyPage(svc: Pages)
    ensures (exists run :: Execution(svc, run) && Stuck(run[|run| - 1])) <==> EmptyAfterRows(Links(svc, 0))
  {
    EndsEmptyIff(svc);
    if Deliverable(svc).end == Empty {
      var run := HangReachable(svc);
    }
    forall run | Execution(svc, run) && Stuck(run[|run| - 1])
      ensures Deliverable(svc).end == Empty
    {
      StuckNeedsEmptyPage(svc, run, |run| - 1);
    }
  }

  /** A stuck fetch follows the reply that ended the open cursor. */
  lemma StuckWasStopped(svc: Pages, run: seq<State>, i: nat)
    requires Execution(svc, run) && i < |run| && Stuck(run[i])
    ensures Stopped(svc, run[i].log)
  {
    ExecutionInv(svc, run, i);
    var log := run[i].log;
    assert log.Then? && Follow(svc, Replay(svc, log.before).value, log.last) == Some(Hung);
  }

  /** Under every interleaving a reply without a row means that every row of the service
      was handed out, if and only if no page without rows lies between two with rows. */
  lemma DeliversAllIff(svc: Pages)
    ensures (forall run: seq<State> | Execution(svc, run) && Stopped(svc, run[|run| - 1].log) ::
        HandedRows(run[|run| - 1].log) == Chain(svc)) <==> !Gap(Links(svc, 0))
  {
    forall run: seq<State> | Execution(svc, run) && Stopped(svc, run[|run| - 1].log)
      ensures HandedRows(run[|run| - 1].log) == Chain(svc) <==> !Gap(Links(svc, 0))
    {
      StoppedHandedAll(svc, run[|run| - 1].log);
    }
    if Gap(Links(svc, 0)) {
      GapEndsEmpty(svc);
      var run := HangReachable(svc);
      StuckWasStopped(svc, run, |run| - 1);
      StoppedHandedAll(svc, run[|run| - 1].log);
    }
  }
}
