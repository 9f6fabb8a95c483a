/** Reading columns of the current row in parts: the column and cell offset a statement
    keeps between SQLGetData calls, over any run of fetches and reads of text columns. */
module GetData {

  import opened Common
  import opened StrBuffer

  /** The current column and the cell offset. */
  datatype Getter = Getter(col: nat, offset: nat)

  /** The offset a read of `col` starts at. */
  function StartOf(g: Getter, col: nat): nat {
    if col == g.col then g.offset else 0
  }

  /** One SQLGetData call on a text column. */
  function Get(g: Getter, col: nat, t: Target, value: Text): (Getter, Part)
    requires ValidTarget(t)
  {
    var p := ReadPart(t, value, StartOf(g, col));
    (Getter(col, p.offset), p)
  }

  /** A call without a data area, or on a column without a text: only the column and the
      offset it starts from are kept. */
  function Touch(g: Getter, col: nat): Getter {
    Getter(col, StartOf(g, col))
  }

  /** `Fetched` is SQLFetch or SQLFetchScroll; `Replaced` is a row that comes by another
      way, SQLExtendedFetch or a new query, which leave the offset alone. A row maps its
      columns with a text to that text. `Measured` is a call without a data area. */
  datatype Event =
    | Fetched(row: map<nat, Text>)
    | Replaced(row: map<nat, Text>)
    | Got(col: nat, target: Target)
    | Measured(col: nat)

  /** The statement, the texts of the current row, and what the calls since the later of
      the last row change and the last column change have returned. */
  datatype Run = Run(getter: Getter, row: map<nat, Text>, returned: string)

  const START := Run(Getter(0, 0), map[], "")

  function Kept(r: Run, col: nat): string {
    if col == r.getter.col then r.returned else ""
  }

  ghost function After(r: Run, e: Event): Run
    requires e.Got? ==> ValidTarget(e.target)
  {
    match e
    case Fetched(row) => Run(r.getter.(offset := 0), row, "")
    case Replaced(row) => Run(r.getter, row, "")
    case Measured(col) => Run(Touch(r.getter, col), r.row, Kept(r, col))
    case Got(col, t) =>
      if col in r.row then
        var (g, p) := Get(r.getter, col, t, r.row[col]);
        Run(g, r.row, Kept(r, col) + p.copy.stored)
      else Run(Touch(r.getter, col), r.row, Kept(r, col))
  }

  ghost predicate Valid(events: seq<Event>) {
    forall e | e in events :: e.Got? ==> ValidTarget(e.target)
  }

  ghost function AfterAll(events: seq<Event>): Run
    requires Valid(events)
    decreases |events|
  {
    if events == [] then START
    else
      var e := events[|events| - 1];
      assert e in events;
      After(AfterAll(events[..|events| - 1]), e)
  }

  /** The offset is the length of what was returned, and that is the first part of the
      current column. */
  ghost predicate Synchronised(r: Run) {
    && r.getter.offset == |r.returned|
    && (r.getter.col in r.row ==> r.returned <= r.row[r.getter.col])
    && (r.getter.col !in r.row ==> r.returned == "")
  }

  /** A wide buffer with bytes but no room for a character: the call counts the whole
      rest of the text as returned. */
  predicate Swallows(t: Target)
    requires ValidTarget(t)
  {
    t.w > 1 && 0 < t.buflen <= t.w
  }

  /** A read continues where the returned text ends, and keeps doing so exactly when
      nothing was left or the buffer does not swallow. */
  lemma ReadKeepsIff(r: Run, col: nat, t: Target)
    requires Synchronised(r) && ValidTarget(t)
    ensures Synchronised(After(r, Got(col, t)))
      <==> col !in r.row || StartOf(r.getter, col) >= |r.row[col]| || !Swallows(t)
  {
    if col in r.row {
      var value, offset := r.row[col], StartOf(r.getter, col);
      assert Kept(r, col) == value[..offset];
      if offset >= |value| {
        assert Kept(r, col) + "" == Kept(r, col);
      } else if Capacity(t.w, t.buflen) == 0 {
        NoRoomLosesText(t, value, offset);
        assert Kept(r, col) + "" == Kept(r, col);
      } else {
        PartAdvances(t, value, offset);
        var next := Min(offset + Capacity(t.w, t.buflen), |value|);
        assert value[..offset] + value[offset..next] == value[..next];
        HasRoom(t.w, t.buflen);
      }
    }
  }

  /** Every state of a run is synchronised. */
  ghost predicate AlwaysSynchronised(events: seq<Event>)
    requires Valid(events)
    decreases |events|
  {
    Synchronised(AfterAll(events)) && (events != [] ==> AlwaysSynchronised(events[..|events| - 1]))
  }

  /** The event leaves a synchronised run synchronised: no read puts what is left of a
      text into a buffer that swallows it, and no row is replaced at an offset. */
  ghost predicate InStep(r: Run, e: Event)
    requires e.Got? ==> ValidTarget(e.target)
  {
    match e
    case Fetched(_) => true
    case Measured(_) => true
    case Got(col, t) => col !in r.row || StartOf(r.getter, col) >= |r.row[col]| || !Swallows(t)
    case Replaced(_) => r.getter.offset == 0
  }

  ghost predicate AllInStep(events: seq<Event>)
    requires Valid(events)
    decreases |events|
  {
    events == [] ||
    var before, e := events[..|events| - 1], events[|events| - 1];
    assert e in events;
    AllInStep(before) && InStep(AfterAll(before), e)
  }

  lemma StepKeepsIff(r: Run, e: Event)
    requires Synchronised(r) && (e.Got? ==> ValidTarget(e.target))
    ensures Synchronised(After(r, e)) <==> InStep(r, e)
  {
    if e.Got? {
      ReadKeepsIff(r, e.col, e.target);
    }
  }

  /** Over every run whatever: the offset is always what the calls since the last row and
      the last change of column have returned of the current column, if and only if no
      read puts what is left of a text into a buffer that swallows it and no row is
      replaced at an offset. */
  lemma {:induction false} AlwaysSynchronisedIff(events: seq<Event>)
    requires Valid(events)
    ensures AlwaysSynchronised(events) <==> AllInStep(events)
    decreases |events|
  {
    if events != [] {
      var before, e := events[..|events| - 1], events[|events| - 1];
      assert e in events;
      AlwaysSynchronisedIff(before);
      if Synchronised(AfterAll(before)) {
        StepKeepsIff(AfterAll(before), e);
      }
    }
  }

  ghost predicate Regular(events: seq<Event>) {
    Valid(events) && forall e | e in events :: !e.Replaced? && (e.Got? ==> !Swallows(e.target))
  }

  lemma {:induction false} RegularInStep(events: seq<Event>)
    requires Regular(events)
    ensures AllInStep(events)
    decreases |events|
  {
    if events != [] {
      RegularInStep(events[..|events| - 1]);
      assert events[|events| - 1] in events;
    }
  }

  /** In particular over any run of fetches and of reads with buffers that do not swallow. */
  lemma OffsetIsReturned(events: seq<Event>)
    requires Regular(events)
    ensures Synchronised(AfterAll(events))
  {
    RegularInStep(events);
    AlwaysSynchronisedIff(events);
  }

  /** So after a fetch, or on another column, a read starts at the beginning, and any
      other read goes on after the text already returned. */
  lemma NextPartContinues(events: seq<Event>, col: nat, t: Target)
    requires Valid(events) && AllInStep(events) && col in AfterAll(events).row
    requires ValidTarget(t) && Capacity(t.w, t.buflen) > 0
    ensures var r := AfterAll(events);
      var value, p := r.row[col], Get(r.getter, col, t, r.row[col]).1;
      && (Kept(r, col) + p.copy.stored) <= value
      && (p.copy.stored == "" <==> Kept(r, col) == value)
      && (p.result == NoData <==> Kept(r, col) == value)
  {
    AlwaysSynchronisedIff(events);
    var r := AfterAll(events);
    assert Kept(r, col) == r.row[col][..StartOf(r.getter, col)];
    PartContinues(t, r.row[col], StartOf(r.getter, col));
  }

  lemma PartContinues(t: Target, value: Text, offset: nat)
    requires ValidTarget(t) && Capacity(t.w, t.buflen) > 0 && offset <= |value|
    ensures var p := ReadPart(t, value, offset);
      && (value[..offset] + p.copy.stored) <= value
      && (p.copy.stored == "" <==> value[..offset] == value)
      && (p.result == NoData <==> value[..offset] == value)
  {
    if offset < |value| {
      PartAdvances(t, value, offset);
      var next := Min(offset + Capacity(t.w, t.buflen), |value|);
      assert value[..offset] + value[offset..next] == value[..next];
    } else {
      assert value[..offset] + "" == value;
    }
  }

  // ---- A row that replaces the current one ----

  /** The column of the last call, and the current row, read off the events. */
  function LastColumn(events: seq<Event>): nat
    decreases |events|
  {
    if events == [] then 0
    else
      var e := events[|events| - 1];
      if e.Got? || e.Measured? then e.col else LastColumn(events[..|events| - 1])
  }

  function CurrentRow(events: seq<Event>): map<nat, Text>
    decreases |events|
  {
    if events == [] then map[]
    else
      var e := events[|events| - 1];
      if e.Fetched? || e.Replaced? then e.row else CurrentRow(events[..|events| - 1])
  }

  /** A call that counts something of a text as returned: it has room for a character, or
      swallows. */
  predicate CountsUp(t: Target)
    requires ValidTarget(t)
  {
    t.buflen >= 2 * t.w || Swallows(t)
  }

  /** Since the last fetch, and with no other column in between, a call has counted
      something of a non-empty text of the last column as returned. */
  ghost predicate Moved(events: seq<Event>)
    requires Valid(events)
    decreases |events|
  {
    if events == [] then false
    else
      var before, e := events[..|events| - 1], events[|events| - 1];
      assert e in events;
      match e
      case Fetched(_) => false
      case Replaced(_) => Moved(before)
      case Measured(col) => col == LastColumn(before) && Moved(before)
      case Got(col, t) =>
        || (col == LastColumn(before) && Moved(before))
        || (CountsUp(t) && col in CurrentRow(before) && CurrentRow(before)[col] != "")
  }

  lemma ReadMovesIff(r: Run, col: nat, t: Target)
    requires ValidTarget(t)
    ensures After(r, Got(col, t)).getter.offset > 0
      <==> StartOf(r.getter, col) > 0 || (CountsUp(t) && col in r.row && r.row[col] != "")
  {
    if col in r.row {
      var value, offset := r.row[col], StartOf(r.getter, col);
      HasRoom(t.w, t.buflen);
      if offset < |value| {
        if Capacity(t.w, t.buflen) == 0 {
          NoRoomLosesText(t, value, offset);
        } else {
          PartAdvances(t, value, offset);
        }
      }
    }
  }

  /** What the events say about a run is so, for every run. */
  lemma {:induction false} EventsTell(events: seq<Event>)
    requires Valid(events)
    ensures var r := AfterAll(events);
      && r.getter.col == LastColumn(events) && r.row == CurrentRow(events)
      && (r.getter.offset > 0 <==> Moved(events))
    decreases |events|
  {
    if events != [] {
      var before, e := events[..|events| - 1], events[|events| - 1];
      EventsTell(before);
      assert e in events;
      if e.Got? {
        ReadMovesIff(AfterAll(before), e.col, e.target);
      }
    }
  }

  /** After every run, a row that comes without a fetch is read from its beginning if and
      only if the column is not the one of the last call, or no call has counted anything
      of that column as returned since the last fetch. */
  lemma ReplacedRowStartsIff(events: seq<Event>, row: map<nat, Text>, col: nat)
    requires Valid(events)
    ensures Valid(events + [Replaced(row)])
    ensures StartOf(AfterAll(events + [Replaced(row)]).getter, col) == 0
      <==> col != LastColumn(events) || !Moved(events)
  {
    AfterOneMore(events, Replaced(row));
    EventsTell(events);
  }

  lemma AfterOneMore(events: seq<Event>, e: Event)
    requires Valid(events) && (e.Got? ==> ValidTarget(e.target))
    ensures Valid(events + [e]) && AfterAll(events + [e]) == After(AfterAll(events), e)
  {
    assert (events + [e])[..|events|] == events;
  }

  /** A fetched row, a read of one of its columns, and a row that replaces it. */
  lemma ReadThenReplaced(first: map<nat, Text>, col: nat, t: Target, second: map<nat, Text>)
    requires ValidTarget(t) && col in first
    ensures var events := [Fetched(first), Got(col, t), Replaced(second)];
      && Valid(events)
      && AfterAll(events) == Run(Getter(col, ReadPart(t, first[col], 0).offset), second, "")
  {
    var e1 := [Fetched(first)];
    var e2 := e1 + [Got(col, t)];
    AfterOneMore([], Fetched(first));
    AfterOneMore(e1, Got(col, t));
    AfterOneMore(e2, Replaced(second));
    assert [] + [Fetched(first)] == e1 && e2 + [Replaced(second)] == [Fetched(first), Got(col, t), Replaced(second)];
  }

  /** One character of a column is read, the row is replaced, and the same column of the
      new row comes without its first character. */
  lemma ReplacedRowLosesText(col: nat, ansi: bool) returns (events: seq<Event>)
    ensures events == [Fetched(map[col := "ab"]), Got(col, Target(1, 2, ansi)), Replaced(map[col := "cd"])]
    ensures Valid(events) && AfterAll(events).row[col] == "cd"
    ensures var p := Get(AfterAll(events).getter, col, Target(1, 8, ansi), "cd").1;
      p.result == Success && p.copy.stored == "d"
  {
    var ab, cd: Text := "ab", "cd";
    var t := Target(1, 2, ansi);
    events := [Fetched(map[col := ab]), Got(col, t), Replaced(map[col := cd])];
    PartAdvances(t, ab, 0);
    ReadThenReplaced(map[col := ab], col, t, map[col := cd]);
    PartAdvances(Target(1, 8, ansi), cd, 1);
  }

  /** A wide buffer of one character returns nothing of a value, and still the new row
      comes without as many characters as that value had. */
  lemma SwallowedRowLosesText(col: nat, ansi: bool) returns (events: seq<Event>)
    ensures events == [Fetched(map[col := "ab"]), Got(col, Target(2, 2, ansi)), Replaced(map[col := "cdef"])]
    ensures Valid(events) && Get(START.getter, col, Target(2, 2, ansi), "ab").1.copy.stored == ""
    ensures Get(AfterAll(events).getter, col, Target(2, 32, ansi), "cdef").1.copy.stored == "ef"
  {
    var ab, cdef: Text := "ab", "cdef";
    var t := Target(2, 2, ansi);
    events := [Fetched(map[col := ab]), Got(col, t), Replaced(map[col := cdef])];
    NoRoomLosesText(t, ab, 0);
    ReadThenReplaced(map[col := ab], col, t, map[col := cdef]);
    PartAdvances(Target(2, 32, ansi), cdef, 2);
    assert cdef[2..4] == "ef";
  }
}
