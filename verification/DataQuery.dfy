/** The query object, one API call at a time. Every call is proved to give the reply of
    the sequential reference (Service.Follow), with the page request, the handle list
    and the page queue updated in place. How the worker is interleaved with the calls
    is the subject of Prefetch; here a worker runs when the application thread waits
    for it. */
module DataQuery {

  import opened Common
  import opened Service
  import opened Cursor
  import opened TokenChain
  import AppBuffer
  import DatumText
  import StrBuffer

  /** SqlResult, and the outcome of a call that never returns. */
  datatype Result = SqlSuccess | SqlSuccessWithInfo | SqlNoData | SqlError | Blocked

  ghost predicate Shaped(rows: seq<Row>, columns: nat) {
    forall r | r in rows :: |r.data| >= columns
  }

  /** Every row of every page has a datum for each column. */
  ghost predicate WellShaped(svc: Pages, columns: nat) {
    forall o | o in svc && o.Page? :: Shaped(o.rows, columns)
  }

  lemma ServedShaped(svc: Pages, columns: nat, token: nat)
    requires WellShaped(svc, columns)
    ensures Serve(svc, token).Page? ==> Shaped(Serve(svc, token).rows, columns)
  {
  }

  /** The reply of the reference to a fetch that reads the given columns. */
  ghost function FetchReply(q: Session, metas: seq<ColumnMeta>, bound: set<nat>): Event {
    if HasNext(q) then Handed(q.rest[0], Readable(metas, bound, q.rest[0])) else StopReply(q)
  }

  ghost predicate HasNext(q: Session) {
    q.Reading? && q.rest != []
  }

  ghost function StopReply(q: Session): Event {
    if q == Reading([], Broken) then Failed else Event.NoData
  }

  lemma FetchReplyFollows(svc: Pages, q: Session, metas: seq<ColumnMeta>, bound: set<nat>)
    requires q != Hung
    ensures Follow(svc, q, FetchReply(q, metas, bound)).Some?
  {
    if q.Reading? && q.rest == [] {
      assert q == Reading([], q.end);
      assert q.end == Done || q.end == Broken || q.end == Empty;
    }
  }

  /** The bound buffers after a fetch with reply `e` into one element. */
  ghost function StoreAfter(store: Store, metas: seq<ColumnMeta>, bound: set<nat>, element: nat, e: Event)
    : Store
  {
    if e.Handed? then WithRow(store, bound, e.row, element, ReadUpTo(metas, bound, e.row, 1)) else store
  }

  /** What a fetch can change: the session, the history and the bound buffers. */
  datatype View = View(session: Session, log: History, store: Store)

  /** One fetch into `element`, as the reference has it; on a session that hangs it does
      not return and changes nothing. */
  ghost predicate FetchStep(svc: Pages, metas: seq<ColumnMeta>, bound: set<nat>, element: nat, v: View, result: Result, w: View) {
    if v.session == Hung then result == Blocked && w == v
    else
      var e := FetchReply(v.session, metas, bound);
      && result == FetchResult(e)
      && Follow(svc, v.session, e) == Some(w.session)
      && w.log == Then(v.log, e)
      && w.store == StoreAfter(v.store, metas, bound, element, e)
  }

  function FetchResult(e: Event): Result {
    match e
    case Handed(_, readable) => if readable then SqlSuccess else SqlError
    case Failed => SqlError
    case _ => SqlNoData
  }

  /** What a fetch answers on a session that does not hang: success for a row whose bound
      columns can all be read, an error for any other row and for a failed page, no data in
      every other case. */
  lemma FetchResultIff(q: Session, metas: seq<ColumnMeta>, bound: set<nat>)
    ensures var r, all := FetchResult(FetchReply(q, metas, bound)),
        HasNext(q) && forall c | c in bound && 1 <= c <= |metas| :: Reads(metas, q.rest[0], c);
      && (r == SqlSuccess <==> all)
      && (r == SqlError <==> (HasNext(q) && !all) || (q.Reading? && q.rest == [] && q.end == Broken))
      && (r == SqlNoData <==> !HasNext(q) && !(q.Reading? && q.end == Broken))
  {
    if HasNext(q) {
      ReadableMeansAllRead(metas, bound, q.rest[0]);
    }
  }

  function ExecuteResult(r: ExecResult): Result {
    match r
    case Success => SqlSuccess
    case NoRows => SqlNoData
    case Error => SqlError
  }

  /** The session of an executed query whose cursor is at `pos` of a page; `pending` is
      the token whose page a worker has been started for, if any. */
  ghost function Ongoing(svc: Pages, rows: seq<Row>, pos: nat, pending: Option<nat>): Session {
    match pending
    case None => Reading(Rest(rows, pos), Done)
    case Some(token) =>
      var ahead := Append(Rest(rows, pos), Tail(svc, token));
      Reading(ahead.rows, ahead.end)
  }

  /** ProcessConversionResult. */
  function OfConversion(c: StrBuffer.Conversion): Result {
    match c
    case Success => SqlSuccess
    case Truncated => SqlSuccessWithInfo
    case NoData => SqlNoData
    case Failure => SqlError
  }

  // ---- Steps of the reference ----

  lemma OpensOn(svc: Pages, rows: seq<Row>, token: nat)
    requires rows != [] && Open(svc, 0) == Opened(rows, token)
    ensures Follow(svc, Fresh, Executed(ExecResult.Success))
      == Some(Ongoing(svc, rows, 0, if token == 0 then None else Some(token)))
  {
    assert Rest(rows, 0) == rows;
    if token == 0 {
      assert rows + [] == rows;
    }
  }

  lemma HandsInPage(svc: Pages, rows: seq<Row>, pos: nat, pending: Option<nat>, readable: bool)
    requires pos < |rows|
    ensures var q := Ongoing(svc, rows, pos, pending);
      && q.rest != [] && q.rest[0] == rows[pos]
      && Follow(svc, q, Handed(rows[pos], readable)) == Some(Ongoing(svc, rows, pos + 1, pending))
  {
    var q := Ongoing(svc, rows, pos, pending);
    assert Rest(rows, pos)[1..] == Rest(rows, pos + 1);
    if pending.Some? {
      assert q.rest[1..] == Rest(rows, pos + 1) + Tail(svc, pending.value).rows;
    }
  }

  /** Past the end of a page, what is left is what the pending token still gives. */
  lemma PastPage(svc: Pages, rows: seq<Row>, pos: nat, token: nat)
    requires pos >= |rows|
    ensures Ongoing(svc, rows, pos, Some(token)) == Reading(Tail(svc, token).rows, Tail(svc, token).end)
  {
    assert [] + Tail(svc, token).rows == Tail(svc, token).rows;
  }

  lemma SwitchesTo(svc: Pages, token: nat, rows: seq<Row>, next: nat)
    requires token != 0 && Serve(svc, token) == Page(rows, next) && rows != []
    ensures Reading(Tail(svc, token).rows, Tail(svc, token).end)
      == Ongoing(svc, rows, 0, if next == 0 then None else Some(next))
  {
    assert Rest(rows, 0) == rows;
  }

  /** What reading a column of a row puts into a buffer: its text if it has one, and
      otherwise nothing. */
  twostate predicate ColumnPut(
    metas: seq<ColumnMeta>, row: Row, c: nat, buffer: AppBuffer.ApplicationDataBuffer, converted: StrBuffer.Conversion)
    requires old(buffer.Valid())
    reads buffer, buffer.Areas()
  {
    if !Reads(metas, row, c) then converted == StrBuffer.Failure && buffer.cellOffset == old(buffer.cellOffset)
    else
      var d := row.data[c - 1];
      if DatumText.HasText(d) then buffer.StringPut(DatumText.Printed(d).value, converted)
      else
        && converted == (if d.Null? then StrBuffer.Success else StrBuffer.NoData)
        && buffer.cellOffset == old(buffer.cellOffset)
        && (d.Null? && buffer.reslen != null ==>
            buffer.reslen[..] == old(buffer.reslen[..])[old(buffer.IndicatorIndex()) := -1])
  }

  class DataQuery {
    const svc: Pages
    const metas: seq<ColumnMeta>
    var request: nat
    var hasResult: bool
    var cursor: IoTSiteWiseCursor?
    var hasAsyncFetch: bool
    /** The started fetch threads, at most one; each entry says whether it has run. */
    var threads: seq<bool>
    var queue: seq<Outcome>
    var isClosing: bool
    var rowCounter: nat
    ghost var executed: bool
    ghost var log: History

    /** A started fetch thread has still to run. */
    predicate Running()
      reads this
    {
      threads != [] && !threads[0]
    }

    function Cursors(): set<IoTSiteWiseCursor>
      reads this
    {
      if cursor == null then {} else {cursor}
    }

    predicate OnRow()
      reads this, Cursors()
    {
      cursor != null && cursor.OnRow()
    }

    function Current(): Row
      requires OnRow()
      reads this, Cursors()
    {
      cursor.rows[cursor.curPos - 1]
    }

    /** What the object stands for in the reference. */
    ghost function Abs(): Session
      reads this, Cursors()
    {
      if !executed then Fresh
      else if cursor == null then Ended
      else if hasAsyncFetch && !Running() then Hung
      else Ongoing(svc, cursor.rows, cursor.curPos, if hasAsyncFetch then Some(request) else None)
    }

    ghost predicate Structure()
      reads this, Cursors()
    {
      && WellShaped(svc, |metas|)
      && |threads| <= 1
      && (!executed ==> cursor == null && request == 0 && threads == [] && queue == [] && !hasAsyncFetch)
      && (cursor != null ==>
        && executed && queue == []
        && cursor.Valid() && cursor.metas == metas && cursor.rows != [] && Shaped(cursor.rows, |metas|)
        && (hasAsyncFetch ==> request != 0 && |threads| == 1)
        && (hasAsyncFetch && !Running() ==> cursor.curPos > |cursor.rows|))
    }

    /** The history of replies is one of the reference, the counter counts the rows read
        without error, the cursor is on the row handed out last, and one that was not moved
        yet means that nothing was handed out. */
    ghost predicate History()
      reads this, Cursors()
    {
      && Replay(svc, log) == Some(Abs())
      && rowCounter == ReadableCount(log)
      && (OnRow() ==> HandedRows(log) != [] && HandedRows(log)[|HandedRows(log)| - 1] == Current())
      && (cursor != null && cursor.curPos == 0 ==> HandedRows(log) == [])
    }

    ghost predicate Valid()
      reads this, Cursors()
    {
      Structure() && History()
    }

    constructor (svc: Pages, metas: seq<ColumnMeta>)
      requires WellShaped(svc, |metas|)
      ensures Valid() && this.svc == svc && this.metas == metas && !executed && log == Start && cursor == null
    {
      this.svc, this.metas := svc, metas;
      request, hasResult, cursor, hasAsyncFetch := 0, false, null, false;
      threads, queue, isClosing, rowCounter := [], [], false, 0;
      executed, log := false, Start;
    }

    /** The fetch thread, run to its end: the page is pushed when the queue is empty. */
    method AsyncFetchOnePage()
      requires Running() && (queue == [] || isClosing)
      modifies this`queue, this`threads
      ensures |threads| == |old(threads)| && !Running()
      ensures queue == if old(queue) == [] then [Serve(svc, request)] else old(queue)
    {
      var result := Serve(svc, request);
      if queue == [] {
        queue := queue + [result];
      }
      threads := threads[0 := true];
    }

    method InternalClose()
      requires |threads| <= 1
      modifies this`isClosing, this`threads, this`queue, this`hasResult, this`cursor
      ensures isClosing && threads == [] && !hasResult && cursor == null
      ensures old(threads) == [] ==> queue == old(queue)
    {
      isClosing := true;
      while threads != []
        invariant |threads| <= 1 && isClosing
        invariant old(threads) == [] ==> threads == [] && queue == old(queue)
        decreases |threads|
      {
        if Running() {
          AsyncFetchOnePage();
        }
        threads := threads[1..];
      }
      hasResult := false;
      cursor := null;
    }

    method Close()
      requires Valid()
      modifies this
      ensures Valid() && log == Then(old(log), Closed) && executed == old(executed) && cursor == null
    {
      InternalClose();
      log := Then(log, Closed);
    }

    /** The reply of a call joins the history. */
    ghost method Record(e: Event)
      requires Structure() && Replay(svc, log).Some? && Follow(svc, Replay(svc, log).value, e) == Some(Abs())
      requires rowCounter == ReadableCount(log) + (if e.Handed? && e.readable then 1 else 0)
      requires OnRow() ==> e.Handed? && e.row == Current()
      requires cursor != null && cursor.curPos == 0 ==> e.Executed? && HandedRows(log) == []
      modifies this`log
      ensures Valid() && log == Then(old(log), e) && Abs() == old(Abs())
    {
      log := Then(log, e);
    }

    /** The request loop of Execute: the first request is repeated with the token it
        returned for as long as pages are empty. */
    method FirstPage() returns (opening: Opening)
      requires request == 0 && WellShaped(svc, |metas|)
      modifies this`request, this`hasResult
      ensures opening == Open(svc, 0)
      ensures opening.Opened? ==> Shaped(opening.first, |metas|)
    {
      while true
        invariant Open(svc, request) == Open(svc, 0)
        decreases if request < |svc| then |svc| - request else 0
      {
        var outcome := Serve(svc, request);
        if outcome.Failure? {
          return OpenFailed;
        }
        hasResult := true;
        if outcome.rows != [] {
          ServedShaped(svc, |metas|, request);
          return Opened(outcome.rows, outcome.token);
        }
        if outcome.token == 0 {
          return OpenEmpty;
        }
        request := outcome.token;
      }
    }

    /** Execute up to its reply: the first page with rows is opened, and a worker started
        for the page after it. */
    method OpenFirst() returns (result: Result)
      requires Structure() && !executed
      modifies this`executed, this`request, this`hasResult, this`isClosing, this`threads, this`queue, this`cursor,
        this`hasAsyncFetch
      ensures Structure() && executed && fresh(Cursors())
      ensures cursor != null ==> cursor.curPos == 0
      ensures Follow(svc, Fresh, Executed(Opened0(svc).1)) == Some(Abs()) && result == ExecuteResult(Opened0(svc).1)
    {
      executed := true;
      var opening := FirstPage();
      match opening {
      case OpenFailed =>
        InternalClose();
        result := SqlError;
      case OpenEmpty =>
        result := SqlNoData;
      case Opened(rows, token) =>
        OpensOn(svc, rows, token);
        cursor := new IoTSiteWiseCursor(rows, metas);
        if token != 0 {
          request := token;
          threads := threads + [false];
          hasAsyncFetch := true;
        }
        result := SqlSuccess;
      }
    }

    /** Execute on a fresh object: an error when the first answer that is not a page without
        rows is a failure, no data when there is no such answer, success when it has rows. */
    method Execute() returns (result: Result)
      requires Valid() && !executed
      modifies this
      ensures Valid() && executed && fresh(Cursors())
      ensures log == Then(old(log), Executed(Opened0(svc).1))
      ensures result == SqlError <==> FailureFirst(Links(svc, 0))
      ensures result == SqlNoData <==> AllEmpty(Links(svc, 0))
      ensures result == SqlSuccess <==> RowsFirst(Links(svc, 0))
    {
      OpenTells(svc, 0);
      HandedIsPrefix(svc, log);
      result := OpenFirst();
      Record(Executed(Opened0(svc).1));
    }

    /** Takes the next page from the queue, waiting for the worker to push it. The wait
        never ends when the worker has run and its page is gone. */
    method SwitchCursor() returns (result: Result)
      requires Structure() && cursor != null && hasAsyncFetch && cursor.curPos > |cursor.rows|
      modifies this`cursor, this`hasAsyncFetch, this`threads, this`queue, this`hasResult, this`request
      ensures Structure()
      ensures old(!Running()) ==>
        result == Blocked && !Running() && cursor == old(cursor) && hasAsyncFetch && request == old(request)
      ensures old(Running()) ==>
        match Serve(svc, old(request))
        case Failure => result == SqlError && cursor == null
        case Page(rows, token) =>
          if rows == [] then
            result == SqlNoData && cursor == old(cursor) && hasAsyncFetch && !Running()
          else
            && result == SqlSuccess && cursor != null && fresh(cursor)
            && cursor.rows == rows && cursor.curPos == 1 && cursor.Valid()
            && hasAsyncFetch == (token != 0) && (token != 0 ==> request == token && Running())
    {
      if queue == [] && Running() {
        AsyncFetchOnePage();
      }
      if queue == [] {
        return Blocked;
      }
      var outcome := queue[0];
      queue := queue[1..];
      if outcome.Failure? {
        cursor := null;
        hasAsyncFetch := false;
        return SqlError;
      }
      hasResult := true;
      ServedShaped(svc, |metas|, request);
      if outcome.rows == [] {
        return SqlNoData;
      }
      cursor := new IoTSiteWiseCursor(outcome.rows, metas);
      var more := cursor.Increment();
      if outcome.token == 0 {
        hasAsyncFetch := false;
      } else {
        if threads != [] {
          // The join: this worker pushed the page just popped.
          assert !Running();
          threads := threads[1..];
        }
        request := outcome.token;
        threads := threads + [false];
      }
      result := SqlSuccess;
    }

    /** Puts one bound column of the current row, if it can be read. */
    method ReadBound(i: nat, bindings: ColumnBindings) returns (ok: bool)
      requires Structure() && OnRow() && 1 <= i <= |metas| && ReadyFor(bindings.store, bindings.elementOffset + 1)
      modifies cursor`columns, bindings`store
      ensures cursor.Valid() && (ok <==> Reads(metas, Current(), i))
      ensures bindings.store ==
        if ok then PutInto(old(bindings.store), i, bindings.elementOffset, Current().data[i - 1]) else old(bindings.store)
    {
      assert Current() in cursor.rows;
      var cell := cursor.ReadColumn(i);
      ok := cell.Found? && !cell.datum.Unset?;
      if ok {
        bindings.Put(i, cell.datum);
      }
    }

    /** Puts the bound columns of the current row, stopping at the first that cannot be
        read. */
    method ReadRow(bindings: ColumnBindings) returns (ok: bool)
      requires Structure() && OnRow() && ReadyFor(bindings.store, bindings.elementOffset + 1)
      modifies cursor`columns, bindings`store
      ensures cursor.Valid()
      ensures var row := Current();
        && (ok <==> Readable(metas, bindings.columns, row))
        && bindings.store == WithRow(old(bindings.store), bindings.columns, row, bindings.elementOffset,
            ReadUpTo(metas, bindings.columns, row, 1))
    {
      ghost var row, before := Current(), bindings.store;
      assert row in cursor.rows;
      ghost var last := ReadUpTo(metas, bindings.columns, row, 1);
      for i := 1 to |metas| + 1
        invariant cursor.Valid() && i <= last + 1
        invariant bindings.store == WithRow(before, bindings.columns, row, bindings.elementOffset, i - 1)
      {
        if i in bindings.columns {
          WithRowKeepsReady(before, bindings.columns, row, bindings.elementOffset, i - 1, bindings.elementOffset + 1);
          ok := ReadBound(i, bindings);
          if !ok {
            assert last == i - 1;
            return;
          }
        }
      }
      ok := true;
    }

    /** The switch as the reference sees it: the page of the pending token is opened. */
    method NextPage() returns (result: Result)
      requires Structure() && cursor != null && hasAsyncFetch && cursor.curPos > |cursor.rows|
      modifies this`cursor, this`hasAsyncFetch, this`threads, this`queue, this`hasResult, this`request
      ensures Structure() && (cursor == old(cursor) || cursor == null || fresh(cursor))
      ensures Moved(old(Abs()), result) && (cursor != null ==> cursor.curPos > 0)
    {
      ghost var token := request;
      PastPage(svc, cursor.rows, cursor.curPos, token);
      result := SwitchCursor();
      if result == SqlSuccess {
        var next := Serve(svc, token).token;
        SwitchesTo(svc, token, cursor.rows, next);
        HandsInPage(svc, cursor.rows, 0, if next == 0 then None else Some(next), true);
      }
    }

    /** The state after the cursor was moved from session `q`: on the next row when there
        is one, otherwise where the reply without a row leads. */
    ghost predicate Moved(q: Session, result: Result)
      reads this, Cursors()
    {
      if q == Hung then result == Blocked && Abs() == Hung && !OnRow()
      else if HasNext(q) then
        && result == SqlSuccess && OnRow() && Current() == q.rest[0]
        && Follow(svc, q, Handed(Current(), true)) == Some(Abs())
      else
        result == FetchResult(StopReply(q)) && !OnRow() && Follow(svc, q, StopReply(q)) == Some(Abs())
    }

    /** FetchNextRow up to the reading of the columns. */
    method Advance() returns (result: Result)
      requires Structure()
      modifies this`cursor, this`hasAsyncFetch, this`threads, this`queue, this`hasResult, this`request, Cursors()
      ensures Structure() && (cursor == old(cursor) || cursor == null || fresh(cursor))
      ensures Moved(old(Abs()), result) && (cursor != null ==> cursor.curPos > 0)
    {
      if cursor == null {
        return SqlNoData;
      }
      ghost var rows, pos := cursor.rows, cursor.curPos;
      if pos < |rows| {
        HandsInPage(svc, rows, pos, if hasAsyncFetch then Some(request) else None, true);
      } else {
        PastPage(svc, rows, pos, request);
        PastPage(svc, rows, pos + 1, request);
      }
      var more := cursor.Increment();
      if !more {
        if hasAsyncFetch {
          result := NextPage();
        } else {
          result := SqlNoData;
        }
      } else {
        result := SqlSuccess;
      }
    }

    /** The rest of FetchNextRow: the columns of the row moved to, and the counter. */
    method HandOver(bindings: ColumnBindings, ghost q: Session) returns (result: Result)
      requires Structure() && rowCounter == ReadableCount(log) && Replay(svc, log) == Some(q)
      requires Moved(q, SqlSuccess) && OnRow()
      requires ReadyFor(bindings.store, bindings.elementOffset + 1)
      modifies this`rowCounter, this`log, cursor`columns, bindings`store
      ensures Valid()
      ensures FetchStep(svc, metas, bindings.columns, bindings.elementOffset,
        View(q, old(log), old(bindings.store)), result, Seen(bindings))
    {
      var ok := ReadRow(bindings);
      if ok {
        rowCounter := rowCounter + 1;
      }
      Record(Handed(Current(), ok));
      result := if ok then SqlSuccess else SqlError;
    }

    /** A fetch without a row leaves the bound buffers as they were, and one that does not
        return everything. */
    ghost method Stop(bindings: ColumnBindings, q: Session, result: Result)
      requires Structure() && rowCounter == ReadableCount(log) && Replay(svc, log) == Some(q)
      requires Moved(q, result) && result != SqlSuccess && (cursor != null ==> cursor.curPos > 0)
      modifies this`log
      ensures Valid()
      ensures FetchStep(svc, metas, bindings.columns, bindings.elementOffset,
        View(q, old(log), bindings.store), result, Seen(bindings))
    {
      if q != Hung {
        Record(StopReply(q));
      }
    }

    ghost function Seen(bindings: ColumnBindings): View
      reads this, Cursors(), bindings
    {
      View(Abs(), log, bindings.store)
    }

    /** FetchNextRow: gives the reply of the reference, puts the columns of the row it
        hands out, and never returns exactly when the reference hangs. */
    method FetchNextRow(bindings: ColumnBindings) returns (result: Result)
      requires Valid() && ReadyFor(bindings.store, bindings.elementOffset + 1)
      modifies this, Cursors(), bindings`store
      ensures Valid() && executed == old(executed)
      ensures cursor == old(cursor) || cursor == null || fresh(cursor)
      ensures FetchStep(svc, metas, bindings.columns, bindings.elementOffset, old(Seen(bindings)), result, Seen(bindings))
    {
      ghost var q := Abs();
      result := Advance();
      if result == SqlSuccess {
        result := HandOver(bindings, q);
      } else {
        Stop(bindings, q, result);
      }
    }

    /** A fetch into one element of the bound columns. */
    method FetchInto(bindings: ColumnBindings, element: nat) returns (result: Result)
      requires Valid() && ReadyFor(bindings.store, element + 1)
      modifies this, Cursors(), bindings
      ensures Valid()
      ensures cursor == old(cursor) || cursor == null || fresh(cursor)
      ensures FetchStep(svc, metas, bindings.columns, element, old(Seen(bindings)), result, Seen(bindings))
    {
      bindings.SetElementOffset(element);
      result := FetchNextRow(bindings);
    }

    /** While the cursor is on a row, it is the row of the token chain that was handed out
        last, and the number is its position exactly when every row so far could be read.
        Without a row, before the first fetch too, the number is 0. */
    method RowNumber() returns (n: nat)
      requires Valid()
      ensures !OnRow() ==> n == 0
      ensures OnRow() ==>
        var handed := HandedRows(log);
        && 0 < |handed| <= |Chain(svc)| && Chain(svc)[|handed| - 1] == Current()
        && n <= |handed| && (n == |handed| <==> AllReadable(log))
    {
      if cursor == null {
        return 0;
      }
      var has := cursor.HasData();
      if !has {
        return 0;
      }
      HandedIsChainPrefix(svc, log);
      ReadableIsAll(log);
      n := rowCounter;
    }

    /** The row a column is read from outside a fetch: the one at the iterator, which
        before the first fetch is the first of the page. */
    predicate HasRow()
      reads this, Cursors()
    {
      cursor != null && cursor.curPos <= |cursor.rows| && cursor.iterator_ < |cursor.rows|
    }

    function RowAtIterator(): Row
      requires HasRow()
      reads this, Cursors()
    {
      cursor.rows[cursor.iterator_]
    }

    /** A column is read from the row handed out last exactly when some row was handed out;
        otherwise it is read from the row that the next fetch will hand out first. */
    lemma RowReadIsLast()
      requires Valid() && HasRow()
      ensures OnRow() <==> HandedRows(log) != []
      ensures OnRow() ==> HandedRows(log)[|HandedRows(log)| - 1] == RowAtIterator()
      ensures !OnRow() ==> HasNext(Abs()) && Abs().rest[0] == RowAtIterator()
    {
      if !OnRow() && !(hasAsyncFetch && !Running()) {
        HandsInPage(svc, cursor.rows, 0, if hasAsyncFetch then Some(request) else None, true);
      }
    }

    /** The columns that a cursor has created are not part of what the query stands for. */
    twostate lemma StaysValid()
      requires old(Valid()) && cursor != null && unchanged(this)
      requires unchanged(cursor`iterator_) && unchanged(cursor`curPos) && cursor.Valid()
      ensures Valid() && Abs() == old(Abs())
    {
    }

    /** ReadColumnToBuffer on the row at the iterator. */
    method ReadInto(columnIdx: nat, buffer: AppBuffer.ApplicationDataBuffer) returns (converted: StrBuffer.Conversion)
      requires Valid() && HasRow() && buffer.Valid()
      modifies cursor`columns, buffer`cellOffset, buffer.Areas()
      ensures Valid() && buffer.Valid() && Abs() == old(Abs()) && HasRow() && RowAtIterator() == old(RowAtIterator())
      ensures ColumnPut(metas, RowAtIterator(), columnIdx, buffer, converted)
    {
      assert RowAtIterator() in cursor.rows;
      var cell := cursor.ReadColumn(columnIdx);
      if cell.Missing? {
        converted := StrBuffer.Failure;
      } else {
        converted := DatumText.ParseDatum(cell.datum, buffer);
      }
      StaysValid();
    }

    /** GetColumn: puts the text of a column of the row at the iterator. */
    method GetColumn(columnIdx: nat, buffer: AppBuffer.ApplicationDataBuffer)
      returns (result: Result, ghost converted: StrBuffer.Conversion)
      requires Valid() && buffer.Valid()
      modifies if cursor == null then {} else {cursor}, buffer`cellOffset, buffer.Areas()
      ensures Valid() && buffer.Valid() && Abs() == old(Abs()) && HasRow() == old(HasRow())
      ensures HasRow() ==> RowAtIterator() == old(RowAtIterator())
      ensures !HasRow() ==>
        result == (if cursor == null then SqlNoData else SqlError) && buffer.cellOffset == old(buffer.cellOffset)
      ensures HasRow() ==>
        && (result == SqlSuccess <==> converted == StrBuffer.Success)
        && (result == SqlSuccessWithInfo <==> converted == StrBuffer.Truncated)
        && (result == SqlNoData <==> converted == StrBuffer.NoData)
        && (result == SqlError <==> converted == StrBuffer.Failure)
      ensures HasRow() ==> ColumnPut(metas, RowAtIterator(), columnIdx, buffer, converted)
    {
      converted := StrBuffer.Failure;
      if cursor == null {
        result := SqlNoData;
      } else {
        var has := cursor.HasData();
        if !has {
          result := SqlError;
        } else {
          var conversion := ReadInto(columnIdx, buffer);
          converted := conversion;
          result := OfConversion(conversion);
        }
      }
    }
  }
}
