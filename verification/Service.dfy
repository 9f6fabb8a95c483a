/** The rows of a query result, the paged query service, and the sequential
    meaning of one query: which reply each API call gives when pages are simply
    followed by their tokens. The concurrent driver (Prefetch) and the query
    class (DataQuery) are both proved against this reference. */
module Service {

  import opened Common
  import StrBuffer

  /** One value of a result row. `Unset` is a datum in which nothing was set. */
  datatype Datum =
    | Scalar(text: StrBuffer.Text)
    | Array(items: seq<Datum>)
    | RowValue(row: Row)
    | Null
    | Unset

  datatype Row = Row(dataSet: bool, data: seq<Datum>)

  /** What one ExecuteQuery call returns. Token 0 is the empty next token. */
  datatype Outcome = Failure | Page(rows: seq<Row>, token: nat)

  /** The service: `svc[t]` answers the request that carries token `t`; the first
      request carries token 0. */
  type Pages = svc: seq<Outcome> | Acyclic(svc) witness []

  /** Tokens never lead back, so following them ends. */
  ghost predicate Acyclic(svc: seq<Outcome>) {
    forall i | 0 <= i < |svc| && svc[i].Page? && svc[i].token != 0 :: i < svc[i].token
  }

  /** The answer to a request; a token the service does not know fails. */
  function Serve(svc: Pages, token: nat): (o: Outcome)
    ensures o.Page? && o.token != 0 ==> token < o.token && token < |svc|
  {
    if token < |svc| then svc[token] else Failure
  }

  /** The rows still to be handed out of a page. */
  function Rest(rows: seq<Row>, pos: nat): seq<Row> {
    if pos <= |rows| then rows[pos..] else []
  }

  /** How the pages after the first non-empty one end: the last page has no next
      token, a page fails, or a page has no rows. */
  datatype End = Done | Broken | Empty

  datatype Stream = Stream(rows: seq<Row>, end: End)

  ghost function Append(rows: seq<Row>, rest: Stream): Stream {
    rest.(rows := rows + rest.rows)
  }

  /** What the driver still delivers when it follows `token`: it stops at a page without
      rows, whatever lies behind it. 0 means no next page. */
  ghost function Tail(svc: Pages, token: nat): Stream
    decreases if token < |svc| then |svc| - token else 0
  {
    if token == 0 then Stream([], Done)
    else match Serve(svc, token)
      case Failure => Stream([], Broken)
      case Page(rows, next) =>
        if rows == [] then Stream([], Empty)
        else if next == 0 then Stream(rows, Done)
        else Append(rows, Tail(svc, next))
  }

  /** The result of Execute: leading empty pages are skipped while they have a token. */
  datatype Opening = OpenFailed | OpenEmpty | Opened(first: seq<Row>, next: nat)

  ghost function Open(svc: Pages, token: nat): (o: Opening)
    ensures o.Opened? ==> o.first != []
    decreases if token < |svc| then |svc| - token else 0
  {
    match Serve(svc, token)
    case Failure => OpenFailed
    case Page(rows, next) =>
      if rows != [] then Opened(rows, next)
      else if next == 0 then OpenEmpty
      else Open(svc, next)
  }

  /** The rows the driver can hand out, in token order, and how they end. TokenChain
      compares them with all rows the service holds. */
  ghost function Deliverable(svc: Pages): Stream {
    match Open(svc, 0)
    case OpenFailed => Stream([], Broken)
    case OpenEmpty => Stream([], Done)
    case Opened(first, next) => Append(first, Tail(svc, next))
  }

  /** What the application sees, call by call. A `Handed` row carries whether every
      bound column of it could be read. */
  datatype ExecResult = Success | NoRows | Error
  datatype Event =
    | Executed(result: ExecResult)
    | Handed(row: Row, readable: bool)
    | NoData
    | Failed
    | Closed

  /** The replies of a run so far, oldest first. */
  datatype History = Start | Then(before: History, last: Event)

  /** State of the sequential reference. `Hung` is the state after an empty later
      page: the next fetch has no reply. */
  datatype Session = Fresh | Reading(rest: seq<Row>, end: End) | Hung | Ended

  ghost function Opened0(svc: Pages): (Session, ExecResult) {
    match Open(svc, 0)
    case OpenFailed => (Ended, Error)
    case OpenEmpty => (Ended, NoRows)
    case Opened(first, next) =>
      (Reading(Deliverable(svc).rows, Deliverable(svc).end), Success)
  }

  /** The state after a call that gave reply `e`; None when the reference does not
      give that reply in state `q`. */
  ghost function Follow(svc: Pages, q: Session, e: Event): Option<Session> {
    match e
    case Executed(result) =>
      if q == Fresh && result == Opened0(svc).1 then Some(Opened0(svc).0) else None
    case Handed(row, _) =>
      if q.Reading? && q.rest != [] && row == q.rest[0] then Some(Reading(q.rest[1..], q.end)) else None
    case NoData =>
      if q == Fresh || q == Ended || q == Reading([], Done) then Some(q)
      else if q == Reading([], Empty) then Some(Hung)
      else None
    case Failed =>
      if q == Reading([], Broken) then Some(Ended) else None
    case Closed =>
      Some(if q == Fresh then Fresh else Ended)
  }

  /** The reference run on a whole history of replies. */
  ghost function Replay(svc: Pages, log: History): Option<Session> {
    match log
    case Start => Some(Fresh)
    case Then(before, e) =>
      var q := Replay(svc, before);
      if q.None? then None else Follow(svc, q.value, e)
  }

  /** The rows handed out in a history, and the number of those read without error. */
  ghost function HandedRows(log: History): seq<Row> {
    match log
    case Start => []
    case Then(before, e) => HandedRows(before) + (if e.Handed? then [e.row] else [])
  }

  ghost function ReadableCount(log: History): nat {
    match log
    case Start => 0
    case Then(before, e) => ReadableCount(before) + (if e.Handed? && e.readable then 1 else 0)
  }

  ghost predicate AllReadable(log: History) {
    log.Start? || (AllReadable(log.before) && (log.last.Handed? ==> log.last.readable))
  }

  /** Handed-out rows and what the reference still holds make up the deliverable rows. */
  ghost predicate Conserved(svc: Pages, handed: seq<Row>, q: Session) {
    && (q.Fresh? ==> handed == [])
    && (q.Reading? ==> handed + q.rest == Deliverable(svc).rows && q.end == Deliverable(svc).end)
    && (q.Hung? ==> handed == Deliverable(svc).rows && Deliverable(svc).end == Empty)
    && handed <= Deliverable(svc).rows
  }

  lemma FollowConserves(svc: Pages, handed: seq<Row>, q: Session, e: Event)
    requires Conserved(svc, handed, q) && Follow(svc, q, e).Some?
    ensures Conserved(svc, handed + (if e.Handed? then [e.row] else []), Follow(svc, q, e).value)
  {
    match e
    case Handed(row, _) => assert handed + [row] + q.rest[1..] == handed + q.rest;
    case Executed(_) => assert [] + Deliverable(svc).rows == Deliverable(svc).rows;
    case _ => assert handed + [] == handed;
  }

  /** Rows come out in token order without loss, repetition or reordering: what was
      handed out is a prefix of the deliverable rows, and while the query is open the
      rest is exactly what the reference still holds. */
  lemma {:induction false} HandedIsPrefix(svc: Pages, log: History)
    requires Replay(svc, log).Some?
    ensures Conserved(svc, HandedRows(log), Replay(svc, log).value)
  {
    if log.Then? {
      HandedIsPrefix(svc, log.before);
      FollowConserves(svc, HandedRows(log.before), Replay(svc, log.before).value, log.last);
    }
  }

  /** NoData or Failed while reading comes only once every deliverable row was handed
      out, and says how the stream ended. */
  lemma StopMeansAllHanded(svc: Pages, log: History, q: Session, e: Event)
    requires Replay(svc, log) == Some(q) && q.Reading? && Follow(svc, q, e).Some?
    requires e.NoData? || e.Failed?
    ensures HandedRows(log) == Deliverable(svc).rows
    ensures e.Failed? <==> Deliverable(svc).end == Broken
  {
    HandedIsPrefix(svc, log);
    assert HandedRows(log) + [] == HandedRows(log);
  }

  lemma {:induction false} ReadableIsAll(log: History)
    ensures ReadableCount(log) <= |HandedRows(log)|
    ensures ReadableCount(log) == |HandedRows(log)| <==> AllReadable(log)
  {
    if log.Then? {
      ReadableIsAll(log.before);
    }
  }
}
