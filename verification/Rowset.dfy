/** Block fetches: what one fetch of many rows gives, against fetches of one row each. */
module Rowset {

  import opened Common
  import opened Service
  import opened Cursor
  import opened DataQuery
  import AppBuffer
  import DatumText
  import StrBuffer

  datatype RowStatus = RowSuccess | RowSuccessWithInfo | NoRow | RowError

  function StatusOf(r: Result): RowStatus
    requires r != Blocked
  {
    match r
    case SqlNoData => NoRow
    case SqlSuccess => RowSuccess
    case SqlSuccessWithInfo => RowSuccessWithInfo
    case SqlError => RowError
  }

  /** The replies of up to `n` fetches of one row each, stopping where one would never
      return, and the session they leave. */
  datatype Batch = Batch(replies: seq<Event>, after: Session)

  ghost function Fetches(svc: Pages, q: Session, metas: seq<ColumnMeta>, bound: set<nat>, n: nat): (b: Batch)
    ensures |b.replies| <= n && (|b.replies| < n ==> b.after == Hung)
    ensures forall e | e in b.replies :: e.Handed? || e.Failed? || e.NoData?
  {
    if n == 0 then Batch([], q)
    else OneMore(svc, Fetches(svc, q, metas, bound, n - 1), metas, bound)
  }

  ghost function OneMore(svc: Pages, b: Batch, metas: seq<ColumnMeta>, bound: set<nat>): Batch {
    if b.after == Hung then b
    else
      var e := FetchReply(b.after, metas, bound);
      FetchReplyFollows(svc, b.after, metas, bound);
      Batch(b.replies + [e], Follow(svc, b.after, e).value)
  }

  /** The rows a batch hands out. */
  ghost function RowsOf(replies: seq<Event>): seq<Row>
    decreases |replies|
  {
    if replies == [] then []
    else
      var e := replies[|replies| - 1];
      RowsOf(replies[..|replies| - 1]) + (if e.Handed? then [e.row] else [])
  }

  /** The replies read without error, and those that are errors. */
  ghost function Fetched(replies: seq<Event>): nat
    decreases |replies|
  {
    if replies == [] then 0
    else Fetched(replies[..|replies| - 1]) + (if FetchResult(replies[|replies| - 1]) == SqlSuccess then 1 else 0)
  }

  ghost function Errors(replies: seq<Event>): nat
    decreases |replies|
  {
    if replies == [] then 0
    else Errors(replies[..|replies| - 1]) + (if FetchResult(replies[|replies| - 1]) == SqlError then 1 else 0)
  }

  function ResultOf(fetched: nat, errors: nat): Result {
    if fetched > 0 then if errors == 0 then SqlSuccess else SqlSuccessWithInfo
    else if errors == 0 then SqlNoData else SqlError
  }

  ghost function BlockResult(replies: seq<Event>): Result {
    ResultOf(Fetched(replies), Errors(replies))
  }

  /** The bound buffers after a batch whose replies went into elements 0, 1, … in turn. */
  ghost function StoreAfterAll(store: Store, metas: seq<ColumnMeta>, bound: set<nat>, replies: seq<Event>)
    : Store
    decreases |replies|
  {
    if replies == [] then store
    else
      var n := |replies| - 1;
      StoreAfter(StoreAfterAll(store, metas, bound, replies[..n]), metas, bound, n, replies[n])
  }

  lemma {:induction false} StoreKeepsReady(store: Store, metas: seq<ColumnMeta>, bound: set<nat>, replies: seq<Event>, k: nat)
    requires ReadyFor(store, k)
    ensures ReadyFor(StoreAfterAll(store, metas, bound, replies), k)
    decreases |replies|
  {
    if replies != [] {
      var n := |replies| - 1;
      StoreKeepsReady(store, metas, bound, replies[..n], k);
      var e := replies[n];
      if e.Handed? {
        WithRowKeepsReady(StoreAfterAll(store, metas, bound, replies[..n]), bound, e.row, n, ReadUpTo(metas, bound, e.row, 1), k);
      }
    }
  }

  ghost function Extended(log: History, replies: seq<Event>): History
    decreases |replies|
  {
    if replies == [] then log else Then(Extended(log, replies[..|replies| - 1]), replies[|replies| - 1])
  }

  ghost function AfterBatch(svc: Pages, metas: seq<ColumnMeta>, bound: set<nat>, v: View, n: nat): View {
    var b := Fetches(svc, v.session, metas, bound, n);
    View(b.after, Extended(v.log, b.replies), StoreAfterAll(v.store, metas, bound, b.replies))
  }

  // ---- Blocks of any sizes ----

  ghost function Joined(b: Batch, c: Batch): Batch {
    Batch(b.replies + c.replies, c.after)
  }

  lemma JoinedOneMore(svc: Pages, b: Batch, c: Batch, metas: seq<ColumnMeta>, bound: set<nat>)
    ensures OneMore(svc, Joined(b, c), metas, bound) == Joined(b, OneMore(svc, c, metas, bound))
  {
    if c.after != Hung {
      Associate(b.replies, c.replies, [FetchReply(c.after, metas, bound)]);
    }
  }

  /** Fetching n and then m rows is fetching n + m rows. */
  lemma {:induction false} BlocksCompose(svc: Pages, q: Session, metas: seq<ColumnMeta>, bound: set<nat>, n: nat, m: nat)
    requires |Fetches(svc, q, metas, bound, n).replies| == n
    ensures var b := Fetches(svc, q, metas, bound, n);
      Fetches(svc, q, metas, bound, n + m) == Joined(b, Fetches(svc, b.after, metas, bound, m))
    decreases m
  {
    var b := Fetches(svc, q, metas, bound, n);
    if m == 0 {
      assert b.replies + [] == b.replies;
    } else {
      BlocksCompose(svc, q, metas, bound, n, m - 1);
      JoinedOneMore(svc, b, Fetches(svc, b.after, metas, bound, m - 1), metas, bound);
    }
  }

  ghost function Total(sizes: seq<nat>): nat
    decreases |sizes|
  {
    if sizes == [] then 0 else sizes[0] + Total(sizes[1..])
  }

  /** Block after block; a block that does not return ends it. */
  ghost function Blocks(svc: Pages, q: Session, metas: seq<ColumnMeta>, bound: set<nat>, sizes: seq<nat>): Batch
    decreases |sizes|
  {
    if sizes == [] then Batch([], q)
    else
      var b := Fetches(svc, q, metas, bound, sizes[0]);
      if |b.replies| < sizes[0] then b
      else
        Joined(b, Blocks(svc, b.after, metas, bound, sizes[1..]))
  }

  /** Once a batch has stopped short, asking for more changes nothing. */
  lemma {:induction false} ShortStaysShort(svc: Pages, q: Session, metas: seq<ColumnMeta>, bound: set<nat>, n: nat, m: nat)
    requires |Fetches(svc, q, metas, bound, n).replies| < n
    ensures Fetches(svc, q, metas, bound, n + m) == Fetches(svc, q, metas, bound, n)
    decreases m
  {
    if m > 0 {
      ShortStaysShort(svc, q, metas, bound, n, m - 1);
    }
  }

  /** Blocks of any sizes give exactly the replies of one-row fetches. */
  lemma {:induction false} BlocksAreRows(svc: Pages, q: Session, metas: seq<ColumnMeta>, bound: set<nat>, sizes: seq<nat>)
    ensures Blocks(svc, q, metas, bound, sizes) == Fetches(svc, q, metas, bound, Total(sizes))
    decreases |sizes|
  {
    if sizes != [] {
      var b := Fetches(svc, q, metas, bound, sizes[0]);
      if |b.replies| < sizes[0] {
        ShortStaysShort(svc, q, metas, bound, sizes[0], Total(sizes[1..]));
      } else {
        BlocksAreRows(svc, b.after, metas, bound, sizes[1..]);
        BlocksCompose(svc, q, metas, bound, sizes[0], Total(sizes[1..]));
      }
    }
  }

  /** One more fetch, put into the next element, is a batch one longer. */
  lemma BatchStep(svc: Pages, metas: seq<ColumnMeta>, bound: set<nat>, v: View, n: nat, r: Result, w: View)
    requires |Fetches(svc, v.session, metas, bound, n).replies| == n
    requires FetchStep(svc, metas, bound, n, AfterBatch(svc, metas, bound, v, n), r, w)
    ensures w == AfterBatch(svc, metas, bound, v, n + 1)
    ensures var b, c := Fetches(svc, v.session, metas, bound, n), Fetches(svc, v.session, metas, bound, n + 1);
      if r == Blocked then c == b
      else |c.replies| == n + 1 && c.replies[..n] == b.replies && FetchResult(c.replies[n]) == r
  {
    var b, c := Fetches(svc, v.session, metas, bound, n), Fetches(svc, v.session, metas, bound, n + 1);
    if r != Blocked {
      assert c.replies[..n] == b.replies;
    }
  }

  /** A status array after the statuses of a batch were written from its start on. */
  ghost function Marked(s: seq<RowStatus>, replies: seq<Event>): (r: seq<RowStatus>)
    requires |replies| <= |s|
    ensures |r| == |s|
    decreases |replies|
  {
    if replies == [] then s
    else
      var n := |replies| - 1;
      Marked(s, replies[..n])[n := StatusOf(FetchResult(replies[n]))]
  }

  lemma {:induction false} MarkedAt(s: seq<RowStatus>, replies: seq<Event>)
    requires |replies| <= |s|
    ensures forall i | 0 <= i < |s| ::
      Marked(s, replies)[i] == (if i < |replies| then StatusOf(FetchResult(replies[i])) else s[i])
    decreases |replies|
  {
    if replies != [] {
      MarkedAt(s, replies[..|replies| - 1]);
    }
  }

  /** Where the fetching of a block stands: the view, the statuses and the counts. */
  datatype Tally = Tally(view: View, statuses: seq<RowStatus>, fetched: nat, errors: nat)

  /** The tally after n elements, or up to a fetch that does not return; statuses are
      noted as far as the application gave room for them. */
  ghost function TallyAfter(
    svc: Pages, metas: seq<ColumnMeta>, bound: set<nat>, v: View, s: seq<RowStatus>, n: nat): Tally
  {
    var b := Fetches(svc, v.session, metas, bound, n);
    Tally(AfterBatch(svc, metas, bound, v, n), if |b.replies| <= |s| then Marked(s, b.replies) else s,
          Fetched(b.replies), Errors(b.replies))
  }

  /** The fetches so far have all returned. */
  ghost predicate AllReturned(svc: Pages, metas: seq<ColumnMeta>, bound: set<nat>, v: View, n: nat) {
    |Fetches(svc, v.session, metas, bound, n).replies| == n
  }

  ghost function Noted(s: seq<RowStatus>, i: nat, r: Result): seq<RowStatus> {
    if i < |s| && r != Blocked then s[i := StatusOf(r)] else s
  }

  /** The tally after one more fetch with result `r`, which left the view `x`. */
  ghost function Counted(t: Tally, n: nat, r: Result, x: View): Tally {
    Tally(x, Noted(t.statuses, n, r),
      t.fetched + (if r == SqlSuccess then 1 else 0), t.errors + (if r == SqlError then 1 else 0))
  }

  lemma TallyStep(
    svc: Pages, metas: seq<ColumnMeta>, bound: set<nat>, v: View, s: seq<RowStatus>, n: nat, r: Result, x: View)
    requires s == [] || n < |s|
    requires AllReturned(svc, metas, bound, v, n) && r != Blocked
    requires FetchStep(svc, metas, bound, n, TallyAfter(svc, metas, bound, v, s, n).view, r, x)
    ensures AllReturned(svc, metas, bound, v, n + 1) && r != SqlSuccessWithInfo
    ensures TallyAfter(svc, metas, bound, v, s, n + 1) == Counted(TallyAfter(svc, metas, bound, v, s, n), n, r, x)
  {
    BatchStep(svc, metas, bound, v, n, r, x);
  }

  lemma TallyStops(
    svc: Pages, metas: seq<ColumnMeta>, bound: set<nat>, v: View, s: seq<RowStatus>, n: nat, x: View, size: nat)
    requires AllReturned(svc, metas, bound, v, n) && n < size
    requires FetchStep(svc, metas, bound, n, TallyAfter(svc, metas, bound, v, s, n).view, Blocked, x)
    requires s == [] || n < |s|
    ensures !AllReturned(svc, metas, bound, v, size)
    ensures TallyAfter(svc, metas, bound, v, s, size) == Counted(TallyAfter(svc, metas, bound, v, s, n), n, Blocked, x)
  {
    BatchStep(svc, metas, bound, v, n, Blocked, x);
    ShortStaysShort(svc, v.session, metas, bound, n + 1, size - (n + 1));
  }

  /** One pass of the loop over a rowset of `size` elements: the tally `t` is one fetch
      further, or, when the fetch does not return, that of the whole rowset. */
  lemma TallyNext(
    svc: Pages, metas: seq<ColumnMeta>, bound: set<nat>, v: View, s: seq<RowStatus>, n: nat, t: Tally, r: Result, x: View, size: nat)
    requires AllReturned(svc, metas, bound, v, n) && n < size && (s == [] || n < |s|)
    requires t == TallyAfter(svc, metas, bound, v, s, n) && FetchStep(svc, metas, bound, n, t.view, r, x)
    ensures r != SqlSuccessWithInfo
    ensures TallyUpTo(svc, metas, bound, v, s, if r == Blocked then size else n + 1, r == Blocked, Counted(t, n, r, x))
  {
    if r == Blocked {
      TallyStops(svc, metas, bound, v, s, n, x, size);
    } else {
      TallyStep(svc, metas, bound, v, s, n, r, x);
    }
  }

  /** The tally of n fetches, of which the last hangs or not. */
  ghost predicate TallyUpTo(
    svc: Pages, metas: seq<ColumnMeta>, bound: set<nat>, v: View, s: seq<RowStatus>, n: nat, hung: bool, t: Tally)
  {
    (AllReturned(svc, metas, bound, v, n) <==> !hung) && t == TallyAfter(svc, metas, bound, v, s, n)
  }

  /** What a block fetch of n rows comes to: the view and statuses of a batch of one-row
      fetches, their result and count; it does not return, and its count stays 0, exactly
      when one of those fetches would not. */
  datatype Block = Block(view: View, statuses: seq<RowStatus>, result: Result, fetched: nat)

  ghost function BlockFetch(
    svc: Pages, metas: seq<ColumnMeta>, bound: set<nat>, v: View, s: seq<RowStatus>, n: nat): Block
  {
    var t := TallyAfter(svc, metas, bound, v, s, n);
    if AllReturned(svc, metas, bound, v, n) then Block(t.view, t.statuses, ResultOf(t.fetched, t.errors), t.fetched)
    else Block(t.view, t.statuses, Blocked, 0)
  }

  // ---- The shape of a block ----

  /** The reply of fetch number i, counted from 0, on what is left of a stream: its rows
      in order, then one error if a page failed, and no data otherwise. */
  ghost function ReplyAt(rest: seq<Row>, end: End, metas: seq<ColumnMeta>, bound: set<nat>, i: nat): Event {
    if i < |rest| then Handed(rest[i], Readable(metas, bound, rest[i]))
    else if end == Broken && i == |rest| then Failed
    else Event.NoData
  }

  /** The session after n such fetches. */
  ghost function SessionAfter(rest: seq<Row>, end: End, n: nat): Session {
    if n <= |rest| then Reading(rest[n..], end)
    else if end == Done then Reading([], Done)
    else if end == Broken then Ended
    else Hung
  }

  lemma OneFetch(svc: Pages, rest: seq<Row>, end: End, metas: seq<ColumnMeta>, bound: set<nat>, n: nat)
    requires SessionAfter(rest, end, n) != Hung
    ensures var q, e := SessionAfter(rest, end, n), ReplyAt(rest, end, metas, bound, n);
      FetchReply(q, metas, bound) == e && Follow(svc, q, e) == Some(SessionAfter(rest, end, n + 1))
  {
    if n < |rest| {
      assert rest[n..][1..] == rest[n + 1..];
    } else if n == |rest| {
      assert rest[n..] == [];
    }
  }

  ghost predicate RepliesOn(rest: seq<Row>, end: End, metas: seq<ColumnMeta>, bound: set<nat>, replies: seq<Event>) {
    forall i | 0 <= i < |replies| :: replies[i] == ReplyAt(rest, end, metas, bound, i)
  }

  lemma OneMoreReply(rest: seq<Row>, end: End, metas: seq<ColumnMeta>, bound: set<nat>, replies: seq<Event>)
    requires RepliesOn(rest, end, metas, bound, replies)
    ensures RepliesOn(rest, end, metas, bound, replies + [ReplyAt(rest, end, metas, bound, |replies|)])
  {
  }

  /** A block in full: a run of handed-out rows, then only replies without a row; after
      an empty page the reply that follows the rows is the last one. */
  lemma {:induction false} BlockShape(svc: Pages, rest: seq<Row>, end: End, metas: seq<ColumnMeta>, bound: set<nat>, n: nat)
    ensures var b := Fetches(svc, Reading(rest, end), metas, bound, n);
      && |b.replies| == (if end == Empty then Min(n, |rest| + 1) else n)
      && b.after == SessionAfter(rest, end, |b.replies|)
      && RepliesOn(rest, end, metas, bound, b.replies)
  {
    if n == 0 {
      assert rest[0..] == rest;
    } else {
      BlockShape(svc, rest, end, metas, bound, n - 1);
      var b := Fetches(svc, Reading(rest, end), metas, bound, n - 1);
      if b.after != Hung {
        OneFetch(svc, rest, end, metas, bound, |b.replies|);
        OneMoreReply(rest, end, metas, bound, b.replies);
      }
    }
  }

  /** Counts over a block whose first k replies are rows read without error. */
  lemma {:induction false} CountsOfShape(replies: seq<Event>, k: nat)
    requires k <= |replies|
    requires forall i | 0 <= i < k :: replies[i].Handed? && replies[i].readable
    requires forall i | k <= i < |replies| :: replies[i].NoData?
    ensures Fetched(replies) == k && Errors(replies) == 0 && |RowsOf(replies)| == k
    ensures forall i | 0 <= i < k :: RowsOf(replies)[i] == replies[i].row
    decreases |replies|
  {
    if replies != [] {
      var n := |replies| - 1;
      CountsOfShape(replies[..n], if k <= n then k else n);
    }
  }

  /** The replies to n fetches on rows that can all be read, with no failed page after. */
  ghost predicate AllRead(rest: seq<Row>, replies: seq<Event>, n: nat) {
    && |replies| == n
    && (forall i | 0 <= i < Min(n, |rest|) :: replies[i] == Handed(rest[i], true))
    && (forall i | Min(n, |rest|) <= i < n :: replies[i] == Event.NoData)
  }

  lemma ReadableShape(svc: Pages, rest: seq<Row>, metas: seq<ColumnMeta>, bound: set<nat>, n: nat)
    requires forall r | r in rest :: Readable(metas, bound, r)
    ensures AllRead(rest, Fetches(svc, Reading(rest, Done), metas, bound, n).replies, n)
  {
    BlockShape(svc, rest, Done, metas, bound, n);
    forall i: nat | i < |rest| ensures ReplyAt(rest, Done, metas, bound, i) == Handed(rest[i], true) {
      assert rest[i] in rest;
    }
  }

  lemma AllReadCounts(rest: seq<Row>, replies: seq<Event>, n: nat)
    requires AllRead(rest, replies, n)
    ensures var k := Min(n, |rest|);
      && Fetched(replies) == k && Errors(replies) == 0 && RowsOf(replies) == rest[..k]
      && forall i | 0 <= i < n :: StatusOf(FetchResult(replies[i])) == if i < k then RowSuccess else NoRow
  {
    var k := Min(n, |rest|);
    CountsOfShape(replies, k);
    assert RowsOf(replies) == rest[..k];
  }

  /** When the stream ends without failure and every remaining row can be read: the
      fetched count is the smaller of size and rows left, the block delivers exactly
      those rows, its statuses are successes followed by empty slots, and the result is
      no data exactly when the count is zero. */
  lemma FetchedCount(svc: Pages, rest: seq<Row>, metas: seq<ColumnMeta>, bound: set<nat>, n: nat)
    requires forall r | r in rest :: Readable(metas, bound, r)
    ensures var b, k := Fetches(svc, Reading(rest, Done), metas, bound, n), Min(n, |rest|);
      && |b.replies| == n && Fetched(b.replies) == k && RowsOf(b.replies) == rest[..k]
      && (forall i | 0 <= i < n ::
          StatusOf(FetchResult(b.replies[i])) == if i < k then RowSuccess else NoRow)
      && (BlockResult(b.replies) == SqlNoData <==> k == 0)
      && (BlockResult(b.replies) == SqlSuccess <==> k > 0)
  {
    ReadableShape(svc, rest, metas, bound, n);
    AllReadCounts(rest, Fetches(svc, Reading(rest, Done), metas, bound, n).replies, n);
  }

  /** The rows of which every bound column can be read. */
  function ReadableRows(metas: seq<ColumnMeta>, bound: set<nat>, rows: seq<Row>): nat
    decreases |rows|
  {
    if rows == [] then 0
    else
      ReadableRows(metas, bound, rows[..|rows| - 1]) + (if Readable(metas, bound, rows[|rows| - 1]) then 1 else 0)
  }

  lemma {:induction false} RowsOfReplies(
    rest: seq<Row>, end: End, metas: seq<ColumnMeta>, bound: set<nat>, replies: seq<Event>)
    requires RepliesOn(rest, end, metas, bound, replies)
    ensures RowsOf(replies) == rest[..Min(|replies|, |rest|)]
    decreases |replies|
  {
    if replies != [] {
      var n := |replies| - 1;
      RowsOfReplies(rest, end, metas, bound, replies[..n]);
      if n < |rest| {
        assert rest[..n + 1] == rest[..n] + [rest[n]];
      } else {
        assert rest[..|rest|] + [] == rest[..|rest|];
      }
    }
  }

  lemma ReadableOneMore(metas: seq<ColumnMeta>, bound: set<nat>, rest: seq<Row>, n: nat)
    requires n < |rest|
    ensures ReadableRows(metas, bound, rest[..n + 1])
      == ReadableRows(metas, bound, rest[..n]) + (if Readable(metas, bound, rest[n]) then 1 else 0)
  {
    assert rest[..n + 1][..n] == rest[..n];
  }

  lemma ResultAt(rest: seq<Row>, end: End, metas: seq<ColumnMeta>, bound: set<nat>, i: nat)
    ensures FetchResult(ReplyAt(rest, end, metas, bound, i)) ==
      if i < |rest| then if Readable(metas, bound, rest[i]) then SqlSuccess else SqlError
      else if end == Broken && i == |rest| then SqlError else SqlNoData
  {
  }

  lemma {:induction false} FetchedOfReplies(
    rest: seq<Row>, end: End, metas: seq<ColumnMeta>, bound: set<nat>, replies: seq<Event>)
    requires RepliesOn(rest, end, metas, bound, replies)
    ensures Fetched(replies) == ReadableRows(metas, bound, rest[..Min(|replies|, |rest|)])
    decreases |replies|
  {
    if replies != [] {
      var n := |replies| - 1;
      FetchedOfReplies(rest, end, metas, bound, replies[..n]);
      ResultAt(rest, end, metas, bound, n);
      if n < |rest| {
        ReadableOneMore(metas, bound, rest, n);
      }
    }
  }

  lemma {:induction false} ErrorsOfReplies(
    rest: seq<Row>, end: End, metas: seq<ColumnMeta>, bound: set<nat>, replies: seq<Event>)
    requires RepliesOn(rest, end, metas, bound, replies)
    ensures Fetched(replies) + Errors(replies)
      == Min(|replies|, |rest|) + (if end == Broken && |replies| > |rest| then 1 else 0)
    decreases |replies|
  {
    if replies != [] {
      var n := |replies| - 1;
      ErrorsOfReplies(rest, end, metas, bound, replies[..n]);
      ResultAt(rest, end, metas, bound, n);
    }
  }

  /** On any stream a block delivers the first min(n, rows left) rows; fetched are those
      that can be read, errors the others and one more for a failed page it reaches. */
  lemma BlockCounts(svc: Pages, rest: seq<Row>, end: End, metas: seq<ColumnMeta>, bound: set<nat>, n: nat)
    ensures var replies, k := Fetches(svc, Reading(rest, end), metas, bound, n).replies, Min(n, |rest|);
      && RowsOf(replies) == rest[..k] && Fetched(replies) == ReadableRows(metas, bound, rest[..k])
      && Errors(replies) == k - Fetched(replies) + (if end == Broken && n > |rest| then 1 else 0)
  {
    var replies := Fetches(svc, Reading(rest, end), metas, bound, n).replies;
    BlockShape(svc, rest, end, metas, bound, n);
    RowsOfReplies(rest, end, metas, bound, replies);
    FetchedOfReplies(rest, end, metas, bound, replies);
    ErrorsOfReplies(rest, end, metas, bound, replies);
  }

  /** What a block answers, by its size, the rows left and how they end: success when all
      it reaches is rows that can be read, success with info when there is an error beside
      such rows, no data when there is neither, an error when there are errors alone. The
      fetched count is that of the rows that can be read. */
  lemma BlockResultIff(
    svc: Pages, rest: seq<Row>, end: End, metas: seq<ColumnMeta>, bound: set<nat>, v: View, s: seq<RowStatus>, n: nat)
    requires v.session == Reading(rest, end)
    ensures var k := Min(n, |rest|);
      var read := ReadableRows(metas, bound, rest[..k]);
      var errors := k - read + (if end == Broken && n > |rest| then 1 else 0);
      var b := BlockFetch(svc, metas, bound, v, s, n);
      if end == Empty && n > |rest| + 1 then b.result == Blocked && b.fetched == 0
      else
        && b.fetched == read
        && (b.result == SqlSuccess <==> read > 0 && errors == 0)
        && (b.result == SqlSuccessWithInfo <==> read > 0 && errors > 0)
        && (b.result == SqlNoData <==> read == 0 && errors == 0)
        && (b.result == SqlError <==> read == 0 && errors > 0)
  {
    BlockCounts(svc, rest, end, metas, bound, n);
    BlockShape(svc, rest, end, metas, bound, n);
  }

  /** On a session without rows every fetch of a block reports no data. */
  lemma IdleBlock(svc: Pages, metas: seq<ColumnMeta>, bound: set<nat>, v: View, s: seq<RowStatus>, n: nat)
    requires v.session == Fresh || v.session == Ended
    ensures var b := BlockFetch(svc, metas, bound, v, s, n); b.result == SqlNoData && b.fetched == 0
  {
    IdleReplies(svc, v.session, metas, bound, n);
    NoDataCounts(Fetches(svc, v.session, metas, bound, n).replies);
  }

  lemma {:induction false} NoDataCounts(replies: seq<Event>)
    requires forall e | e in replies :: e.NoData?
    ensures Fetched(replies) == 0 && Errors(replies) == 0
    decreases |replies|
  {
    if replies != [] {
      assert replies[|replies| - 1] in replies;
      NoDataCounts(replies[..|replies| - 1]);
    }
  }

  /** The status of slot i: an error for a row that cannot be read and for the failed page,
      a success for a row that can, and no row past these; slots that no fetch returned for
      are as they were. */
  lemma BlockStatusIff(
    svc: Pages, rest: seq<Row>, end: End, metas: seq<ColumnMeta>, bound: set<nat>, v: View, s: seq<RowStatus>, n: nat, i: nat)
    requires v.session == Reading(rest, end) && n <= |s| && i < |s|
    ensures var b := BlockFetch(svc, metas, bound, v, s, n);
      && |b.statuses| == |s|
      && if i >= n || (end == Empty && i > |rest|) then b.statuses[i] == s[i]
        else
          && (b.statuses[i] == RowSuccess <==> i < |rest| && Readable(metas, bound, rest[i]))
          && (b.statuses[i] == RowError <==>
              (i < |rest| && !Readable(metas, bound, rest[i])) || (i == |rest| && end == Broken))
          && (b.statuses[i] == NoRow <==> i >= |rest| && !(i == |rest| && end == Broken))
  {
    var replies := Fetches(svc, v.session, metas, bound, n).replies;
    BlockShape(svc, rest, end, metas, bound, n);
    MarkedAt(s, replies);
    ResultAt(rest, end, metas, bound, i);
    assert i < |replies| ==> replies[i] == ReplyAt(rest, end, metas, bound, i);
  }

  /** A block of n fetches returns unless it asks for two replies past the rows of a
      stream that an empty page ends, or the query already hangs. */
  lemma BlockReturnsIff(svc: Pages, q: Session, metas: seq<ColumnMeta>, bound: set<nat>, n: nat)
    ensures |Fetches(svc, q, metas, bound, n).replies| == n
      <==> n == 0 || (q != Hung && !(q.Reading? && q.end == Empty && n > |q.rest| + 1))
  {
    if q.Reading? {
      BlockShape(svc, q.rest, q.end, metas, bound, n);
    } else if q != Hung {
      IdleReplies(svc, q, metas, bound, n);
    } else if n > 0 {
      HungReplies(svc, metas, bound, n);
    }
  }

  lemma {:induction false} IdleReplies(svc: Pages, q: Session, metas: seq<ColumnMeta>, bound: set<nat>, n: nat)
    requires q == Fresh || q == Ended
    ensures var b := Fetches(svc, q, metas, bound, n);
      |b.replies| == n && b.after == q && forall e | e in b.replies :: e.NoData?
  {
    if n > 0 {
      IdleReplies(svc, q, metas, bound, n - 1);
    }
  }

  lemma {:induction false} HungReplies(svc: Pages, metas: seq<ColumnMeta>, bound: set<nat>, n: nat)
    ensures Fetches(svc, Hung, metas, bound, n) == Batch([], Hung)
  {
    if n > 0 {
      HungReplies(svc, metas, bound, n - 1);
    }
  }

  // ---- What a block leaves in the application's memory ----

  function Cut(area: seq<StrBuffer.byte>, at: nat, length: nat): (r: seq<StrBuffer.byte>)
    ensures at + length <= |area| ==> |r| == length
  {
    if at + length <= |area| then area[at..at + length] else []
  }

  /** The bytes of one element of a text column; empty for one outside its area. */
  function Slot(col: TextColumn, i: nat): seq<StrBuffer.byte> {
    Cut(col.area, col.At(i), col.buflen)
  }

  lemma SlotLength(col: TextColumn, i: nat)
    requires col.HasElement(i)
    ensures col.At(i) + col.buflen <= |col.area| && |Slot(col, i)| == col.buflen
  {
    assert AppBuffer.ElementInside(|col.area|, col.base, col.buflen, col.Size(), i);
  }

  /** An element after a text was put there. */
  function SlotAfter(t: StrBuffer.Target, slot: seq<StrBuffer.byte>, text: StrBuffer.Text): seq<StrBuffer.byte>
    requires StrBuffer.ValidTarget(t) && |slot| == t.buflen
  {
    AppBuffer.Overlay(slot, 0, AppBuffer.RowBytes(t, text))
  }

  lemma CutSame(area: seq<StrBuffer.byte>, at: nat, bytes: seq<StrBuffer.byte>, length: nat)
    requires at + length <= |area| && |bytes| <= length
    ensures Cut(AppBuffer.Overlay(area, at, bytes), at, length) == AppBuffer.Overlay(Cut(area, at, length), 0, bytes)
  {
    AppBuffer.OverlayInside(area, at, bytes, length);
  }

  lemma CutOther(area: seq<StrBuffer.byte>, at: nat, bytes: seq<StrBuffer.byte>, from: nat, length: nat)
    requires at + |bytes| <= |area| && from + length <= |area| && (at + |bytes| <= from || from + length <= at)
    ensures Cut(AppBuffer.Overlay(area, at, bytes), from, length) == Cut(area, from, length)
  {
    AppBuffer.OverlayOutside(area, at, bytes, from, from + length);
  }

  /** Elements with a size do not meet. */
  lemma ElementsApart(col: TextColumn, e: nat, i: nat)
    requires col.kind != AppBuffer.Default && e != i
    ensures col.At(e) + col.buflen <= col.At(i) || col.At(i) + col.buflen <= col.At(e)
  {
    if e < i {
      AppBuffer.Apart(col.base, col.buflen, e, i);
    } else {
      AppBuffer.Apart(col.base, col.buflen, i, e);
    }
  }

  /** An element after a datum was put at element e. */
  function SlotPut(col: TextColumn, e: nat, d: Datum, i: nat): seq<StrBuffer.byte>
    requires col.HasElement(i)
  {
    SlotLength(col, i);
    var text := DatumText.Printed(d);
    if e == i && text.Some? then SlotAfter(col.Target(), Slot(col, i), text.value) else Slot(col, i)
  }

  lemma AreaSlot(col: TextColumn, e: nat, i: nat, bytes: seq<StrBuffer.byte>)
    requires col.HasElement(e) && col.HasElement(i) && col.kind != AppBuffer.Default && |bytes| <= col.buflen
    ensures |Slot(col, i)| == col.buflen
    ensures Cut(AreaAfter(col, e, bytes), col.At(i), col.buflen)
      == if e == i then AppBuffer.Overlay(Slot(col, i), 0, bytes) else Slot(col, i)
  {
    SlotLength(col, e);
    SlotLength(col, i);
    if e == i {
      CutSame(col.area, col.At(i), bytes, col.buflen);
    } else {
      ElementsApart(col, e, i);
      CutOther(col.area, col.At(e), bytes, col.At(i), col.buflen);
    }
  }

  /** A put at one element changes that element only, when elements have a size. */
  lemma PutSlot(col: TextColumn, e: nat, d: Datum, i: nat)
    requires col.HasElement(e) && col.HasElement(i) && col.kind != AppBuffer.Default
    ensures Slot(AfterPut(col, e, d), i) == SlotPut(col, e, d, i)
  {
    PutKeepsShape(col, e, d);
    var text := DatumText.Printed(d);
    if text.Some? {
      AreaSlot(col, e, i, AppBuffer.RowBytes(col.Target(), text.value));
    }
  }

  /** The text a reply puts into column c, if any. */
  ghost function TextPut(metas: seq<ColumnMeta>, bound: set<nat>, e: Event, c: nat): Option<StrBuffer.Text> {
    if e.Handed? && InRow(bound, e.row, ReadUpTo(metas, bound, e.row, 1), c) then DatumText.Printed(e.row.data[c - 1])
    else None
  }

  /** An element after a text, or none, was put there. */
  function SlotWith(t: StrBuffer.Target, slot: seq<StrBuffer.byte>, text: Option<StrBuffer.Text>): seq<StrBuffer.byte>
    requires StrBuffer.ValidTarget(t) && |slot| == t.buflen
  {
    if text.Some? then SlotAfter(t, slot, text.value) else slot
  }

  /** The memory of column c after a batch has the shape it had before. */
  ghost predicate SameShape(store: Store, after: Store, c: nat)
    requires c in store.columns
  {
    && c in after.columns && |after.columns[c].area| == |store.columns[c].area|
    && after.columns[c] == store.columns[c].(area := after.columns[c].area)
  }

  /** The text that the replies put into element i of column c. */
  ghost function TextAt(metas: seq<ColumnMeta>, bound: set<nat>, replies: seq<Event>, c: nat, i: nat)
    : Option<StrBuffer.Text>
  {
    if i < |replies| then TextPut(metas, bound, replies[i], c) else None
  }

  /** Between the two stores, element i of column c has taken a text or none, and the rest
      of the column's description is as it was. */
  ghost predicate Took(store: Store, after: Store, c: nat, i: nat, text: Option<StrBuffer.Text>) {
    && c in store.columns && store.columns[c].HasElement(i)
    && SameShape(store, after, c) && |Slot(store.columns[c], i)| == store.columns[c].buflen
    && Slot(after.columns[c], i) == SlotWith(store.columns[c].Target(), Slot(store.columns[c], i), text)
  }

  /** One reply's effect on element i of column c. */
  lemma ReplySlot(store: Store, metas: seq<ColumnMeta>, bound: set<nat>, n: nat, e: Event, c: nat, i: nat)
    requires c in store.columns && store.columns[c].kind != AppBuffer.Default
    requires store.columns[c].HasElement(n) && store.columns[c].HasElement(i)
    ensures Took(store, StoreAfter(store, metas, bound, n, e), c, i, if i == n then TextPut(metas, bound, e, c) else None)
  {
    SlotLength(store.columns[c], i);
    if e.Handed? {
      RowMemory(store, bound, e.row, n, ReadUpTo(metas, bound, e.row, 1), c);
      if InRow(bound, e.row, ReadUpTo(metas, bound, e.row, 1), c) {
        PutSlot(store.columns[c], n, e.row.data[c - 1], i);
        PutKeepsShape(store.columns[c], n, e.row.data[c - 1]);
      }
    }
  }

  lemma TookOnce(store: Store, between: Store, after: Store, c: nat, i: nat, a: Option<StrBuffer.Text>, b: Option<StrBuffer.Text>)
    requires Took(store, between, c, i, a) && Took(between, after, c, i, b) && (a.None? || b.None?)
    ensures Took(store, after, c, i, if a.Some? then a else b)
  {
  }

  /** After a batch, element i of a sized text column differs from before exactly in the
      text that the i-th reply put there. */
  lemma {:induction false} BatchSlot(
    store: Store, metas: seq<ColumnMeta>, bound: set<nat>, replies: seq<Event>, c: nat, i: nat)
    requires c in store.columns && store.columns[c].kind != AppBuffer.Default
    requires ReadyFor(store, |replies|) && store.columns[c].HasElement(i)
    ensures Took(store, StoreAfterAll(store, metas, bound, replies), c, i, TextAt(metas, bound, replies, c, i))
    decreases |replies|
  {
    SlotLength(store.columns[c], i);
    if replies != [] {
      var n := |replies| - 1;
      var before := StoreAfterAll(store, metas, bound, replies[..n]);
      BatchSlot(store, metas, bound, replies[..n], c, i);
      StoreKeepsReady(store, metas, bound, replies[..n], |replies|);
      ReplySlot(before, metas, bound, n, replies[n], c, i);
      TookOnce(store, before, StoreAfterAll(store, metas, bound, replies), c, i,
        TextAt(metas, bound, replies[..n], c, i), if i == n then TextPut(metas, bound, replies[n], c) else None);
    }
  }

  /** From the pages to the application's memory: after a block fetch, the element of a
      row that was handed out reads back the first part of that row's own text, as much as
      the buffer has room for, if and only if the text is not empty and the buffer takes a
      terminator, or the element read as empty before. */
  lemma BlockReadsBackIff(
    svc: Pages, rest: seq<Row>, end: End, metas: seq<ColumnMeta>, bound: set<nat>, v: View, n: nat, c: nat, i: nat)
    requires v.session == Reading(rest, end) && i < n && i < |rest|
    requires c in v.store.columns && v.store.columns[c].kind != AppBuffer.Default && RoomFor(v.store, n)
    requires TextPut(metas, bound, Handed(rest[i], true), c).Some?
    ensures c in AfterBatch(svc, metas, bound, v, n).store.columns
    ensures var before, after := v.store.columns[c], AfterBatch(svc, metas, bound, v, n).store.columns[c];
      AppBuffer.ReadsBackAt(
        StrBuffer.Target(if before.kind == AppBuffer.WideChar then before.wide else 1, before.buflen, before.ansi),
        before.area, after.area, before.base + before.buflen * i, TextPut(metas, bound, Handed(rest[i], true), c).value)
  {
    BlockTook(svc, rest, end, metas, bound, v, n, c, i);
    var before, after := v.store.columns[c], AfterBatch(svc, metas, bound, v, n).store.columns[c];
    SizedAt(before, i);
    ElementReadsBack(before, after, i, TextPut(metas, bound, Handed(rest[i], true), c).value, before.At(i));
  }

  lemma BlockTook(
    svc: Pages, rest: seq<Row>, end: End, metas: seq<ColumnMeta>, bound: set<nat>, v: View, n: nat, c: nat, i: nat)
    requires v.session == Reading(rest, end) && i < n && i < |rest|
    requires c in v.store.columns && v.store.columns[c].kind != AppBuffer.Default && RoomFor(v.store, n)
    ensures Took(v.store, AfterBatch(svc, metas, bound, v, n).store, c, i, TextPut(metas, bound, Handed(rest[i], true), c))
  {
    var replies, col := Fetches(svc, v.session, metas, bound, n).replies, v.store.columns[c];
    RoomForIsReady(v.store, n);
    BlockShape(svc, rest, end, metas, bound, n);
    assert replies[i] == ReplyAt(rest, end, metas, bound, i) && col.HasElement(i);
    assert TextAt(metas, bound, replies, c, i) == TextPut(metas, bound, Handed(rest[i], true), c);
    ReadyForFewer(v.store, n, |replies|);
    BatchSlot(v.store, metas, bound, replies, c, i);
  }

  /** An element that has taken a text, as bytes of the area. */
  lemma ElementTook(before: TextColumn, after: TextColumn, i: nat, text: StrBuffer.Text)
    requires before.HasElement(i) && after == before.(area := after.area) && |after.area| == |before.area|
    requires |Slot(before, i)| == before.buflen
    requires Slot(after, i) == SlotAfter(before.Target(), Slot(before, i), text)
    ensures AppBuffer.Took(before.area, after.area, before.At(i), before.buflen, AppBuffer.RowBytes(before.Target(), text))
  {
    SlotLength(before, i);
    SlotLength(after, i);
  }

  lemma ElementReadsBack(before: TextColumn, after: TextColumn, i: nat, text: StrBuffer.Text, at: nat)
    requires before.HasElement(i) && after == before.(area := after.area) && |after.area| == |before.area|
    requires at == before.At(i) && |Slot(before, i)| == before.buflen
    requires Slot(after, i) == SlotAfter(before.Target(), Slot(before, i), text)
    ensures AppBuffer.ReadsBackAt(before.Target(), before.area, after.area, at, text)
  {
    ElementTook(before, after, i, text);
    AppBuffer.TookReadsBack(before.Target(), before.area, after.area, at, text);
  }

  lemma SizedAt(col: TextColumn, i: nat)
    requires col.kind != AppBuffer.Default
    ensures col.At(i) == col.base + col.buflen * i
  {
    AppBuffer.PlaceIs(col.base, col.buflen, i);
  }

  lemma ReadyForFewer(store: Store, n: nat, k: nat)
    requires ReadyFor(store, n) && k <= n
    ensures ReadyFor(store, k)
  {
  }
}
