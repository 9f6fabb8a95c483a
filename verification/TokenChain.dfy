/** All rows the service holds for a query: every page of the token chain, whether or
    not the driver ever hands its rows out. The driver stops at the first page without
    rows after one with rows, so rows behind such a page are lost. */
module TokenChain {

  import opened Common
  import opened Service

  /** The answers along the chain of tokens, up to the last page or a failure. */
  ghost function Links(svc: Pages, token: nat): (links: seq<Outcome>)
    ensures links != [] && forall i | 0 <= i < |links| - 1 :: links[i].Page?
    decreases if token < |svc| then |svc| - token else 0
  {
    var o := Serve(svc, token);
    [o] + (if o.Page? && o.token != 0 then Links(svc, o.token) else [])
  }

  function RowsOf(links: seq<Outcome>): seq<Row> {
    if links == [] then [] else (if links[0].Page? then links[0].rows else []) + RowsOf(links[1..])
  }

  /** The rows of all pages, concatenated in token order. */
  ghost function Chain(svc: Pages): seq<Row> {
    RowsOf(Links(svc, 0))
  }

  predicate HasRows(o: Outcome) {
    o.Page? && o.rows != []
  }

  predicate IsEmpty(o: Outcome) {
    o.Page? && o.rows == []
  }

  predicate GapAt(links: seq<Outcome>, i: int, j: int, k: int) {
    0 <= i < j < k < |links| && HasRows(links[i]) && IsEmpty(links[j]) && HasRows(links[k])
  }

  /** A page without rows lies between two pages with rows. */
  ghost predicate Gap(links: seq<Outcome>) {
    exists i, j, k :: GapAt(links, i, j, k)
  }

  // ---- What is deliverable, in terms of the chain ----

  /** The answers from the first page with rows, or the failure, on. */
  function Skip(links: seq<Outcome>): seq<Outcome> {
    if links != [] && IsEmpty(links[0]) then Skip(links[1..]) else links
  }

  /** The rows up to the first page without rows or the failure. */
  function FirstRun(links: seq<Outcome>): seq<Row> {
    if links == [] || !HasRows(links[0]) then [] else links[0].rows + FirstRun(links[1..])
  }

  lemma {:induction false} TailIsRun(svc: Pages, token: nat)
    requires token != 0
    ensures Tail(svc, token).rows == FirstRun(Links(svc, token))
    decreases if token < |svc| then |svc| - token else 0
  {
    var o, links := Serve(svc, token), Links(svc, token);
    if HasRows(o) {
      if o.token != 0 {
        TailIsRun(svc, o.token);
        assert links[1..] == Links(svc, o.token);
      } else {
        assert links[1..] == [];
      }
    }
  }

  ghost function Opens(svc: Pages, token: nat): seq<Row> {
    var o := Open(svc, token);
    if o.Opened? then o.first + Tail(svc, o.next).rows else []
  }

  lemma {:induction false} OpensRun(svc: Pages, token: nat)
    ensures Opens(svc, token) == FirstRun(Skip(Links(svc, token)))
    decreases if token < |svc| then |svc| - token else 0
  {
    var o, links := Serve(svc, token), Links(svc, token);
    if o.Page? && o.token != 0 {
      assert links[1..] == Links(svc, o.token);
      if HasRows(o) {
        TailIsRun(svc, o.token);
      } else {
        OpensRun(svc, o.token);
      }
    } else {
      assert links[1..] == [];
    }
  }

  // ---- Nothing is lost exactly when there is no gap ----

  /** A page with rows behind one without. */
  ghost predicate Resumes(links: seq<Outcome>) {
    exists j, k :: 0 <= j < k < |links| && IsEmpty(links[j]) && HasRows(links[k])
  }

  lemma {:induction false} NoRows(links: seq<Outcome>)
    ensures RowsOf(links) == [] <==> forall k | 0 <= k < |links| :: !HasRows(links[k])
  {
    if links != [] {
      NoRows(links[1..]);
      assert forall k | 0 < k < |links| :: links[k] == links[1..][k - 1];
      if RowsOf(links) != [] && RowsOf(links[1..]) != [] {
        var k :| 0 <= k < |links[1..]| && HasRows(links[1..][k]);
        assert HasRows(links[k + 1]);
      }
    }
  }

  lemma {:induction false} RunCovers(links: seq<Outcome>)
    requires forall i | 0 <= i < |links| - 1 :: links[i].Page?
    ensures FirstRun(links) <= RowsOf(links)
    ensures FirstRun(links) == RowsOf(links) <==> !Resumes(links)
  {
    if links != [] {
      var rest := links[1..];
      assert forall k | 0 < k < |links| :: links[k] == rest[k - 1];
      if HasRows(links[0]) {
        RunCovers(rest);
        ResumesLater(links);
      } else if IsEmpty(links[0]) {
        NoRows(rest);
        if k :| 0 <= k < |rest| && HasRows(rest[k]) {
          assert IsEmpty(links[0]) && HasRows(links[k + 1]);
        }
      } else {
        assert rest == [];
      }
    }
  }

  lemma ResumesLater(links: seq<Outcome>)
    requires links != [] && !IsEmpty(links[0])
    ensures Resumes(links) <==> Resumes(links[1..])
  {
    var rest := links[1..];
    if j, k :| 0 <= j < k < |links| && IsEmpty(links[j]) && HasRows(links[k]) {
      assert IsEmpty(rest[j - 1]) && HasRows(rest[k - 1]);
    }
    if j, k :| 0 <= j < k < |rest| && IsEmpty(rest[j]) && HasRows(rest[k]) {
      assert IsEmpty(links[j + 1]) && HasRows(links[k + 1]);
    }
  }

  lemma GapLater(links: seq<Outcome>)
    requires links != [] && IsEmpty(links[0])
    ensures Gap(links) <==> Gap(links[1..])
  {
    var rest := links[1..];
    if i, j, k :| GapAt(links, i, j, k) {
      assert GapAt(rest, i - 1, j - 1, k - 1);
    }
    if i, j, k :| GapAt(rest, i, j, k) {
      assert GapAt(links, i + 1, j + 1, k + 1);
    }
  }

  /** With rows first, a gap is rows behind a page without. */
  lemma GapIsResumption(links: seq<Outcome>)
    requires links != [] && !IsEmpty(links[0])
    requires forall i | 0 <= i < |links| - 1 :: links[i].Page?
    ensures Gap(links) <==> Resumes(links)
  {
    if i, j, k :| GapAt(links, i, j, k) {
      assert IsEmpty(links[j]) && HasRows(links[k]);
    }
    if j, k :| 0 <= j < k < |links| && IsEmpty(links[j]) && HasRows(links[k]) {
      assert GapAt(links, 0, j, k);
    }
  }

  lemma {:induction false} SkipCovers(links: seq<Outcome>)
    requires forall i | 0 <= i < |links| - 1 :: links[i].Page?
    ensures FirstRun(Skip(links)) <= RowsOf(links)
    ensures FirstRun(Skip(links)) == RowsOf(links) <==> !Gap(links)
  {
    if links != [] && IsEmpty(links[0]) {
      SkipCovers(links[1..]);
      GapLater(links);
    } else {
      RunCovers(links);
      if links != [] {
        GapIsResumption(links);
      }
    }
  }

  /** The deliverable rows are a prefix of the chain, and all of it exactly when no page
      without rows lies between two with rows. */
  lemma DeliverableIsChainIff(svc: Pages)
    ensures Deliverable(svc).rows <= Chain(svc)
    ensures Deliverable(svc).rows == Chain(svc) <==> !Gap(Links(svc, 0))
  {
    OpensRun(svc, 0);
    SkipCovers(Links(svc, 0));
  }

  // ---- Where the deliverable rows end in an empty page ----

  ghost predicate SomeEmpty(links: seq<Outcome>) {
    exists j :: 0 <= j < |links| && IsEmpty(links[j])
  }

  /** A page without rows comes after one with rows. */
  ghost predicate EmptyAfterRows(links: seq<Outcome>) {
    exists i, j :: 0 <= i < j < |links| && HasRows(links[i]) && IsEmpty(links[j])
  }

  lemma SomeEmptyLater(links: seq<Outcome>)
    requires links != []
    ensures SomeEmpty(links) <==> IsEmpty(links[0]) || SomeEmpty(links[1..])
  {
    if j :| 0 < j < |links| && IsEmpty(links[j]) {
      assert IsEmpty(links[1..][j - 1]);
    }
    if j :| 0 <= j < |links[1..]| && IsEmpty(links[1..][j]) {
      assert IsEmpty(links[j + 1]);
    }
  }

  lemma EmptyAfterRowsLater(links: seq<Outcome>)
    requires links != []
    ensures EmptyAfterRows(links) <==> (HasRows(links[0]) && SomeEmpty(links[1..])) || EmptyAfterRows(links[1..])
  {
    var rest := links[1..];
    if i, j :| 0 <= i < j < |links| && HasRows(links[i]) && IsEmpty(links[j]) {
      assert IsEmpty(rest[j - 1]) && (i > 0 ==> HasRows(rest[i - 1]));
    }
    if j :| 0 <= j < |rest| && IsEmpty(rest[j]) {
      assert IsEmpty(links[j + 1]);
    }
    if i, j :| 0 <= i < j < |rest| && HasRows(rest[i]) && IsEmpty(rest[j]) {
      assert HasRows(links[i + 1]) && IsEmpty(links[j + 1]);
    }
  }

  lemma LaterEmptyIsSome(links: seq<Outcome>)
    requires EmptyAfterRows(links)
    ensures SomeEmpty(links)
  {
  }

  lemma LinksLater(svc: Pages, token: nat)
    ensures var o, links := Serve(svc, token), Links(svc, token);
      links[0] == o && links[1..] == if o.Page? && o.token != 0 then Links(svc, o.token) else []
  {
  }

  lemma {:induction false} TailEndsIff(svc: Pages, token: nat)
    requires token != 0
    ensures Tail(svc, token).end == Empty <==> SomeEmpty(Links(svc, token))
    decreases if token < |svc| then |svc| - token else 0
  {
    var o := Serve(svc, token);
    LinksLater(svc, token);
    SomeEmptyLater(Links(svc, token));
    if HasRows(o) && o.token != 0 {
      TailEndsIff(svc, o.token);
    }
  }

  ghost predicate OpensOnEmptyEnd(svc: Pages, token: nat) {
    var o := Open(svc, token);
    o.Opened? && Tail(svc, o.next).end == Empty
  }

  lemma {:induction false} OpensOnEmptyEndIff(svc: Pages, token: nat)
    ensures OpensOnEmptyEnd(svc, token) <==> EmptyAfterRows(Links(svc, token))
    decreases if token < |svc| then |svc| - token else 0
  {
    var o, links := Serve(svc, token), Links(svc, token);
    LinksLater(svc, token);
    EmptyAfterRowsLater(links);
    if o.Page? && o.token != 0 {
      if HasRows(o) {
        TailEndsIff(svc, o.token);
        if EmptyAfterRows(links[1..]) {
          LaterEmptyIsSome(links[1..]);
        }
      } else {
        OpensOnEmptyEndIff(svc, o.token);
      }
    }
  }

  /** The deliverable rows end in an empty page exactly when a page without rows comes
      after one with rows. */
  lemma EndsEmptyIff(svc: Pages)
    ensures Deliverable(svc).end == Empty <==> EmptyAfterRows(Links(svc, 0))
  {
    OpensOnEmptyEndIff(svc, 0);
  }

  ghost predicate EndsInFailure(links: seq<Outcome>) {
    links != [] && links[|links| - 1].Failure?
  }

  lemma FailureLater(links: seq<Outcome>)
    requires links != [] && (links[0].Failure? ==> |links| == 1)
    ensures EndsInFailure(links) <==> links[0].Failure? || EndsInFailure(links[1..])
  {
  }

  lemma {:induction false} TailBreaksIff(svc: Pages, token: nat)
    requires token != 0
    ensures Tail(svc, token).end == Broken <==> EndsInFailure(Links(svc, token)) && !SomeEmpty(Links(svc, token))
    decreases if token < |svc| then |svc| - token else 0
  {
    var o := Serve(svc, token);
    LinksLater(svc, token);
    FailureLater(Links(svc, token));
    SomeEmptyLater(Links(svc, token));
    if HasRows(o) && o.token != 0 {
      TailBreaksIff(svc, o.token);
    }
  }

  /** The query fails to open, or what it delivers ends in a failure. */
  ghost predicate Breaks(svc: Pages, token: nat) {
    var o := Open(svc, token);
    o.OpenFailed? || (o.Opened? && Tail(svc, o.next).end == Broken)
  }

  lemma BreaksAfterRows(svc: Pages, token: nat)
    requires HasRows(Serve(svc, token))
    ensures Breaks(svc, token) <==> EndsInFailure(Links(svc, token)) && !EmptyAfterRows(Links(svc, token))
  {
    var o, links := Serve(svc, token), Links(svc, token);
    LinksLater(svc, token);
    FailureLater(links);
    EmptyAfterRowsLater(links);
    if o.token != 0 {
      TailBreaksIff(svc, o.token);
      if EmptyAfterRows(links[1..]) {
        LaterEmptyIsSome(links[1..]);
      }
    }
  }

  lemma {:induction false} BreaksIff(svc: Pages, token: nat)
    ensures Breaks(svc, token) <==> EndsInFailure(Links(svc, token)) && !EmptyAfterRows(Links(svc, token))
    decreases if token < |svc| then |svc| - token else 0
  {
    var o, links := Serve(svc, token), Links(svc, token);
    if HasRows(o) {
      BreaksAfterRows(svc, token);
    } else {
      LinksLater(svc, token);
      FailureLater(links);
      EmptyAfterRowsLater(links);
      if o.Page? && o.token != 0 {
        BreaksIff(svc, o.token);
      }
    }
  }

  /** The deliverable rows end in a failure exactly when the last answer of the chain is one
      and no page without rows comes after one with rows. */
  lemma EndsBrokenIff(svc: Pages)
    ensures Deliverable(svc).end == Broken <==> EndsInFailure(Links(svc, 0)) && !EmptyAfterRows(Links(svc, 0))
  {
    BreaksIff(svc, 0);
  }

  // ---- How the query opens ----

  /** The pages before answer i are all without rows. */
  predicate EmptyBefore(links: seq<Outcome>, i: nat) {
    i <= |links| && forall j | 0 <= j < i :: IsEmpty(links[j])
  }

  /** The first answer that is not a page without rows is a failure. */
  ghost predicate FailureFirst(links: seq<Outcome>) {
    exists i: nat :: EmptyBefore(links, i) && i < |links| && links[i].Failure?
  }

  /** A page with rows comes before any failure. */
  ghost predicate RowsFirst(links: seq<Outcome>) {
    exists i: nat :: EmptyBefore(links, i) && i < |links| && HasRows(links[i])
  }

  ghost predicate AllEmpty(links: seq<Outcome>) {
    EmptyBefore(links, |links|)
  }

  lemma FirstLater(links: seq<Outcome>)
    requires links != [] && IsEmpty(links[0])
    ensures FailureFirst(links) <==> FailureFirst(links[1..])
    ensures RowsFirst(links) <==> RowsFirst(links[1..])
    ensures AllEmpty(links) <==> AllEmpty(links[1..])
  {
    var rest := links[1..];
    forall i: nat | 0 < i <= |links| ensures EmptyBefore(links, i) <==> EmptyBefore(rest, i - 1) {
      assert forall j | 0 < j < i :: links[j] == rest[j - 1];
    }
    forall i: nat | i <= |rest| ensures EmptyBefore(rest, i) <==> EmptyBefore(links, i + 1) {
      assert (i + 1) - 1 == i;
    }
  }

  lemma FirstNow(links: seq<Outcome>)
    requires links != [] && !IsEmpty(links[0])
    ensures FailureFirst(links) <==> links[0].Failure?
    ensures RowsFirst(links) <==> HasRows(links[0])
    ensures !AllEmpty(links)
  {
    assert EmptyBefore(links, 0);
  }

  lemma {:induction false} OpenTells(svc: Pages, token: nat)
    ensures var o, links := Open(svc, token), Links(svc, token);
      && (o.OpenFailed? <==> FailureFirst(links))
      && (o.Opened? <==> RowsFirst(links))
      && (o.OpenEmpty? <==> AllEmpty(links))
    decreases if token < |svc| then |svc| - token else 0
  {
    var o, links := Serve(svc, token), Links(svc, token);
    LinksLater(svc, token);
    if IsEmpty(o) {
      FirstLater(links);
      if o.token != 0 {
        OpenTells(svc, o.token);
      } else {
        NothingFirst(links[1..]);
      }
    } else {
      FirstNow(links);
    }
  }

  lemma NothingFirst(links: seq<Outcome>)
    requires links == []
    ensures AllEmpty(links) && !FailureFirst(links) && !RowsFirst(links)
  {
  }

  /** In every history the reply to Execute is what the answers along the chain say: an
      error when the first that is not a page without rows is a failure, no rows when there
      is none, and success when it is a page with rows. */
  lemma ExecuteReplyIff(svc: Pages, log: History)
    requires Replay(svc, log).Some? && log.Then? && log.last.Executed?
    ensures var r, links := log.last.result, Links(svc, 0);
      && (r == ExecResult.Error <==> FailureFirst(links))
      && (r == ExecResult.NoRows <==> AllEmpty(links))
      && (r == ExecResult.Success <==> RowsFirst(links))
  {
    OpenTells(svc, 0);
  }

  /** With a gap the query opens and the deliverable rows end in an empty page. */
  lemma GapEndsEmpty(svc: Pages)
    requires Gap(Links(svc, 0))
    ensures Open(svc, 0).Opened? && Deliverable(svc).end == Empty
  {
    var i, j, k :| GapAt(Links(svc, 0), i, j, k);
    EndsEmptyIff(svc);
  }

  // ---- What the application gets ----

  /** In every history the rows handed out are a prefix of the chain. */
  lemma HandedIsChainPrefix(svc: Pages, log: History)
    requires Replay(svc, log).Some?
    ensures HandedRows(log) <= Chain(svc)
  {
    HandedIsPrefix(svc, log);
    DeliverableIsChainIff(svc);
  }

  /** The last reply of the history ended an open cursor without a row. */
  ghost predicate Stopped(svc: Pages, log: History) {
    && log.Then? && Replay(svc, log).Some?
    && Replay(svc, log.before).value.Reading? && (log.last.NoData? || log.last.Failed?)
  }

  lemma StoppedHandedAll(svc: Pages, log: History)
    requires Stopped(svc, log)
    ensures HandedRows(log) == Deliverable(svc).rows
    ensures HandedRows(log) == Chain(svc) <==> !Gap(Links(svc, 0))
    ensures log.last.Failed? <==> EndsInFailure(Links(svc, 0)) && !EmptyAfterRows(Links(svc, 0))
  {
    EndsBrokenIff(svc);
    StopMeansAllHanded(svc, log.before, Replay(svc, log.before).value, log.last);
    DeliverableIsChainIff(svc);
    assert HandedRows(log.before) + [] == HandedRows(log.before);
  }

  /** A history that hands out the first n deliverable rows. */
  lemma {:induction false} SomeHistory(svc: Pages, n: nat) returns (log: History)
    requires Open(svc, 0).Opened? && n <= |Deliverable(svc).rows|
    ensures Replay(svc, log) == Some(Reading(Deliverable(svc).rows[n..], Deliverable(svc).end))
  {
    var all := Deliverable(svc);
    if n == 0 {
      log := Then(Start, Executed(ExecResult.Success));
      assert all.rows[0..] == all.rows;
    } else {
      log := SomeHistory(svc, n - 1);
      assert all.rows[n - 1..][1..] == all.rows[n..];
      log := Then(log, Handed(all.rows[n - 1], true));
    }
  }

  lemma StopReachable(svc: Pages) returns (log: History)
    requires Open(svc, 0).Opened?
    ensures Stopped(svc, log)
  {
    var all := Deliverable(svc);
    log := SomeHistory(svc, |all.rows|);
    assert all.rows[|all.rows|..] == [];
    log := Then(log, if all.end == Broken then Failed else NoData);
  }

  /** A reply without a row means that every row of the service was handed out, in every
      history, if and only if no page without rows lies between two with rows. */
  lemma StopDeliversAllIff(svc: Pages)
    ensures (forall log | Stopped(svc, log) :: HandedRows(log) == Chain(svc)) <==> !Gap(Links(svc, 0))
  {
    forall log | Stopped(svc, log)
      ensures HandedRows(log) == Chain(svc) <==> !Gap(Links(svc, 0))
    {
      StoppedHandedAll(svc, log);
    }
    if Gap(Links(svc, 0)) {
      GapEndsEmpty(svc);
      var log := StopReachable(svc);
      StoppedHandedAll(svc, log);
    }
  }

  /** Three pages, the middle one without rows: the last page is never delivered. */
  lemma EmptyPageLosesRows(a: Row, b: Row) returns (svc: Pages)
    ensures svc == [Page([a], 1), Page([], 2), Page([b], 0)]
    ensures Deliverable(svc) == Stream([a], Empty) && Chain(svc) == [a, b]
  {
    svc := [Page([a], 1), Page([], 2), Page([b], 0)];
    assert Links(svc, 2) == [Page([b], 0)];
    assert Links(svc, 1) == [Page([], 2), Page([b], 0)];
    var links := Links(svc, 0);
    assert links == [Page([a], 1), Page([], 2), Page([b], 0)];
    assert links[1..] == [Page([], 2), Page([b], 0)] && links[1..][1..] == [Page([b], 0)] && links[1..][1..][1..] == [];
    assert RowsOf(links[1..][1..]) == [b];
    assert RowsOf(links[1..]) == [b];
  }
}
