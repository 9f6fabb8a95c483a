/** The cursor names of a connection: a set of the names in use kept beside the map
    from statements to their names, and what becomes of the pair when several threads
    use statements of one connection. */
module CursorNames {

  import opened Common
  import Text

  /** The two structures; a statement is known by a number. */
  datatype Index = Index(used: set<string>, byStmt: map<nat, string>)

  const EMPTY := Index({}, map[])

  ghost predicate Injective(m: map<nat, string>) {
    forall a, b | a in m && b in m && m[a] == m[b] :: a == b
  }

  /** The set is the range of the map, and no two statements share a name. */
  ghost predicate Consistent(x: Index) {
    x.used == x.byStmt.Values && Injective(x.byStmt)
  }

  /** Some statement holds the name. */
  ghost predicate CursorNameTaken(x: Index, name: string) {
    exists s | s in x.byStmt :: x.byStmt[s] == name
  }

  /** The name of a statement, empty when it has none. */
  function NameIn(x: Index, stmt: nat): string {
    if stmt in x.byStmt then x.byStmt[stmt] else ""
  }

  /** Some other statement holds the name. */
  ghost predicate HeldElsewhere(x: Index, stmt: nat, name: string) {
    exists other | other in x.byStmt :: other != stmt && x.byStmt[other] == name
  }

  function Added(x: Index, stmt: nat, name: string): Index {
    Index((if stmt in x.byStmt then x.used - {x.byStmt[stmt]} else x.used) + {name}, x.byStmt[stmt := name])
  }

  function Removed(x: Index, stmt: nat): Index {
    if stmt in x.byStmt then Index(x.used - {x.byStmt[stmt]}, x.byStmt - {stmt}) else x
  }

  /** Adding a name keeps the pair consistent exactly when no other statement holds it. */
  lemma AddKeepsIff(x: Index, stmt: nat, name: string)
    requires Consistent(x)
    ensures Consistent(Added(x, stmt, name)) <==> !HeldElsewhere(x, stmt, name)
  {
    var y := Added(x, stmt, name);
    assert y.byStmt[stmt] == name;
    if !HeldElsewhere(x, stmt, name) {
      forall n ensures n in y.used <==> n in y.byStmt.Values {
        if n in y.used && n != name {
          var s :| s in x.byStmt && x.byStmt[s] == n;
          assert y.byStmt[s] == n;
        }
        if n in y.byStmt.Values && n != name {
          var s :| s in y.byStmt && y.byStmt[s] == n;
          assert x.byStmt[s] == n;
        }
      }
    } else {
      var other :| other in x.byStmt && other != stmt && x.byStmt[other] == name;
      assert y.byStmt[other] == name;
    }
  }

  lemma RemoveKeeps(x: Index, stmt: nat)
    requires Consistent(x)
    ensures Consistent(Removed(x, stmt))
  {
    var y := Removed(x, stmt);
    forall n ensures n in y.used <==> n in y.byStmt.Values {
      if n in y.used {
        var s :| s in x.byStmt && x.byStmt[s] == n;
        assert s in y.byStmt;
      }
      if n in y.byStmt.Values {
        var s :| s in y.byStmt && y.byStmt[s] == n;
        assert s in x.byStmt && x.byStmt[s] == n;
      }
    }
  }

  // ---- Setting a name ----

  const SQL_NTS := -3
  const CURSOR_NAME_MAX_LENGTH := 18
  const RESERVED := "SQL_CUR"

  /** The name an argument stands for. `text` is what the argument holds up to the first
      NUL; None is a null pointer. */
  function NameOf(text: Option<string>, nameLen: int): string {
    if text.None? then ""
    else if nameLen == SQL_NTS then text.value
    else if nameLen > 0 then text.value[..if nameLen < |text.value| then nameLen else |text.value|]
    else ""
  }

  function ToUpper(s: string): string {
    seq(|s|, i requires 0 <= i < |s| => if 'a' <= s[i] <= 'z' then (s[i] as int - 32) as char else s[i])
  }

  predicate StartsReserved(name: string) {
    |name| >= |RESERVED| && ToUpper(name[..|RESERVED|]) == RESERVED
  }

  datatype SetResult = Accepted | TooLong | Reserved | Duplicate

  /** The checks of InternalSetCursorName, made on the names in use at that moment. */
  function Verdict(used: set<string>, text: Option<string>, nameLen: int): SetResult {
    if nameLen > CURSOR_NAME_MAX_LENGTH then TooLong
    else if StartsReserved(NameOf(text, nameLen)) then Reserved
    else if NameOf(text, nameLen) in used then Duplicate
    else Accepted
  }

  /** The argument stands for this name: the whole text when its length is given as ending
      with a NUL, otherwise its first characters, as many as the length says or there are. */
  predicate Names(text: Option<string>, nameLen: int, name: string) {
    if text.None? then name == ""
    else
      && name <= text.value
      && |name| == if nameLen == -3 then |text.value| else if nameLen <= 0 then 0 else Min(nameLen, |text.value|)
  }

  /** A name begins with SQL_CUR in any letter case. */
  predicate IsReserved(name: string) {
    |name| >= 7 && Text.SameLetters(name[..7], "SQL_CUR")
  }

  lemma UpperIs(s: string)
    requires |s| == 7
    ensures ToUpper(s) == "SQL_CUR" <==> Text.SameLetters(s, "SQL_CUR")
  {
    var r := "SQL_CUR";
    forall i | 0 <= i < 7
      ensures ToUpper(s)[i] == r[i] <==> s[i] == r[i] || Text.CasePair(s[i], r[i]) || Text.CasePair(r[i], s[i])
    {
    }
    if ToUpper(s) == r {
      assert forall i | 0 <= i < 7 :: ToUpper(s)[i] == r[i];
    }
    if Text.SameLetters(s, r) {
      assert ToUpper(s) == r;
    }
  }

  /** What the checks refuse, in this order: a length over 18, a reserved name, a name in
      use; anything else is accepted. */
  lemma VerdictIff(used: set<string>, text: Option<string>, nameLen: int, name: string)
    requires Names(text, nameLen, name)
    ensures NameOf(text, nameLen) == name
    ensures var r := Verdict(used, text, nameLen);
      && (r == TooLong <==> nameLen > 18)
      && (r == Reserved <==> nameLen <= 18 && IsReserved(name))
      && (r == Duplicate <==> nameLen <= 18 && !IsReserved(name) && name in used)
      && (r == Accepted <==> nameLen <= 18 && !IsReserved(name) && name !in used)
  {
    assert text.Some? ==> name == text.value[..|name|];
    if |name| >= 7 {
      UpperIs(name[..7]);
    }
  }

  /** One connection. */
  class Connection {
    var cursorNames: set<string>
    var cursorNameMap: map<nat, string>

    constructor ()
      ensures State() == EMPTY
    {
      cursorNames, cursorNameMap := {}, map[];
    }

    function State(): Index
      reads this
    {
      Index(cursorNames, cursorNameMap)
    }

    /** The statement's own name, which on a consistent pair is in use and belongs to no
        other statement; IndexIsPlain says which name that is. */
    method GetCursorName(stmt: nat) returns (name: string)
      ensures name == NameIn(State(), stmt)
      ensures Consistent(State()) && stmt in State().byStmt ==>
        CursorNameTaken(State(), name) && !HeldElsewhere(State(), stmt, name)
    {
      if stmt in cursorNameMap {
        return cursorNameMap[stmt];
      }
      name := "";
    }

    /** The fast check; on a consistent pair it is the search of the map. */
    method CursorNameExists(name: string) returns (retval: bool)
      ensures retval <==> name in State().used
      ensures Consistent(State()) ==> (retval <==> CursorNameTaken(State(), name))
    {
      retval := name in cursorNames;
    }

    method AddCursorName(stmt: nat, name: string)
      modifies this
      ensures State() == Added(old(State()), stmt, name)
    {
      if stmt in cursorNameMap {
        cursorNames := cursorNames - {cursorNameMap[stmt]};
      }
      cursorNameMap := cursorNameMap[stmt := name];
      cursorNames := cursorNames + {name};
    }

    method RemoveCursorName(stmt: nat)
      modifies this
      ensures State() == Removed(old(State()), stmt)
    {
      if stmt in cursorNameMap {
        cursorNames := cursorNames - {cursorNameMap[stmt]};
        cursorNameMap := cursorNameMap - {stmt};
      }
    }

    /** Statement::InternalSetCursorName on this connection. */
    method SetCursorName(stmt: nat, text: Option<string>, nameLen: int) returns (result: SetResult)
      modifies this
      ensures result == Verdict(old(cursorNames), text, nameLen)
      ensures State() ==
        if result == Accepted then Added(old(State()), stmt, NameOf(text, nameLen)) else old(State())
      ensures Consistent(old(State())) ==> Consistent(State())
    {
      if nameLen > CURSOR_NAME_MAX_LENGTH {
        return TooLong;
      }
      var cursorName := NameOf(text, nameLen);
      if StartsReserved(cursorName) {
        return Reserved;
      }
      var exists_ := CursorNameExists(cursorName);
      if exists_ {
        return Duplicate;
      }
      if Consistent(State()) {
        AddKeepsIff(State(), stmt, cursorName);
        assert !HeldElsewhere(State(), stmt, cursorName);
      }
      AddCursorName(stmt, cursorName);
      result := Accepted;
    }
  }

  // ---- Sequential runs ----

  datatype Call = SetName(stmt: nat, text: Option<string>, nameLen: int) | Drop(stmt: nat)

  function AfterCall(x: Index, c: Call): Index {
    match c
    case SetName(stmt, text, nameLen) =>
      if Verdict(x.used, text, nameLen) == Accepted then Added(x, stmt, NameOf(text, nameLen)) else x
    case Drop(stmt) => Removed(x, stmt)
  }

  function AfterCalls(calls: seq<Call>): Index
    decreases |calls|
  {
    if calls == [] then EMPTY else AfterCall(AfterCalls(calls[..|calls| - 1]), calls[|calls| - 1])
  }

  /** In every sequential run the set is the range of the map and the map is injective;
      a call is refused as a duplicate exactly when some statement holds its name. */
  lemma {:induction false} SequentialRuns(calls: seq<Call>)
    ensures Consistent(AfterCalls(calls))
    decreases |calls|
  {
    if calls != [] {
      var before, c := AfterCalls(calls[..|calls| - 1]), calls[|calls| - 1];
      SequentialRuns(calls[..|calls| - 1]);
      if c.SetName? {
        AddKeepsIff(before, c.stmt, NameOf(c.text, c.nameLen));
        if Verdict(before.used, c.text, c.nameLen) == Accepted {
          assert !HeldElsewhere(before, c.stmt, NameOf(c.text, c.nameLen));
        }
      } else {
        RemoveKeeps(before, c.stmt);
      }
    }
  }

  /** The names kept in one map and searched there, with no set beside it: a name is set
      when it is short enough, not reserved, and held by no statement. */
  function PlainNames(calls: seq<Call>): map<nat, string>
    decreases |calls|
  {
    if calls == [] then map[]
    else
      var before, c := PlainNames(calls[..|calls| - 1]), calls[|calls| - 1];
      match c
      case Drop(stmt) => before - {stmt}
      case SetName(stmt, text, nameLen) =>
        var name := NameOf(text, nameLen);
        if nameLen > CURSOR_NAME_MAX_LENGTH || StartsReserved(name) || name in before.Values then before
        else before[stmt := name]
  }

  /** After any calls the set and map are the plain map and its range: every statement has
      the name it would have without the set, and the duplicate check refuses the same
      names as a search. */
  lemma {:induction false} IndexIsPlain(calls: seq<Call>)
    ensures AfterCalls(calls) == Index(PlainNames(calls).Values, PlainNames(calls))
    decreases |calls|
  {
    SequentialRuns(calls);
    if calls != [] {
      IndexIsPlain(calls[..|calls| - 1]);
      var before, c := AfterCalls(calls[..|calls| - 1]), calls[|calls| - 1];
      if c.Drop? {
        assert before.byStmt - {c.stmt} == (if c.stmt in before.byStmt then before.byStmt - {c.stmt} else before.byStmt);
      }
    }
  }

  // ---- Several threads ----

  /** Statements used by different threads. The check reads the set without the lock, so
      a name may have passed the check and not been added yet. */
  datatype Threads = Threads(index: Index, passed: map<nat, string>)

  datatype Step = Check(stmt: nat, name: string) | Add(stmt: nat) | Remove(stmt: nat)

  /** A step that some thread may take next. */
  ghost predicate Enabled(t: Threads, s: Step) {
    match s
    case Check(stmt, name) => stmt !in t.passed && name !in t.index.used
    case Add(stmt) => stmt in t.passed
    case Remove(stmt) => stmt !in t.passed
  }

  ghost function Taken(t: Threads, s: Step): Threads
    requires Enabled(t, s)
  {
    match s
    case Check(stmt, name) => t.(passed := t.passed[stmt := name])
    case Add(stmt) => Threads(Added(t.index, stmt, t.passed[stmt]), t.passed - {stmt})
    case Remove(stmt) => t.(index := Removed(t.index, stmt))
  }

  /** The state after an interleaving; None when a step in it could not be taken. */
  ghost function AfterSteps(steps: seq<Step>): Option<Threads>
    decreases |steps|
  {
    if steps == [] then Some(Threads(EMPTY, map[]))
    else
      var t := AfterSteps(steps[..|steps| - 1]);
      var s := steps[|steps| - 1];
      if t.Some? && Enabled(t.value, s) then Some(Taken(t.value, s)) else None
  }

  /** A check and its addition with no step between them are one sequential call. */
  lemma UninterruptedIsOneCall(t: Threads, stmt: nat, text: Option<string>, nameLen: int)
    requires stmt !in t.passed && Verdict(t.index.used, text, nameLen) == Accepted
    ensures var name := NameOf(text, nameLen);
      && Enabled(t, Check(stmt, name))
      && Taken(Taken(t, Check(stmt, name)), Add(stmt)) == Threads(AfterCall(t.index, SetName(stmt, text, nameLen)), t.passed)
  {
    assert t.passed[stmt := NameOf(text, nameLen)] - {stmt} == t.passed;
  }

  /** Every state of an interleaving is consistent. */
  ghost predicate AlwaysConsistent(steps: seq<Step>)
    requires AfterSteps(steps).Some?
    decreases |steps|
  {
    && Consistent(AfterSteps(steps).value.index)
    && (steps != [] ==> AlwaysConsistent(steps[..|steps| - 1]))
  }

  /** Every addition adds a name that no other statement holds at that moment: what the
      check, repeated under the lock, would find. */
  ghost predicate AddsFreeNames(steps: seq<Step>)
    requires AfterSteps(steps).Some?
    decreases |steps|
  {
    steps == [] ||
    var before, s := steps[..|steps| - 1], steps[|steps| - 1];
    var t := AfterSteps(before).value;
    AddsFreeNames(before) && (s.Add? ==> !HeldElsewhere(t.index, s.stmt, t.passed[s.stmt]))
  }

  /** The set is the range of an injective map throughout an interleaving if and only if
      every addition in it adds a name that no other statement holds at that moment. */
  lemma {:induction false} AlwaysConsistentIff(steps: seq<Step>)
    requires AfterSteps(steps).Some?
    ensures AlwaysConsistent(steps) <==> AddsFreeNames(steps)
    decreases |steps|
  {
    if steps != [] {
      var before, s := steps[..|steps| - 1], steps[|steps| - 1];
      AlwaysConsistentIff(before);
      var t := AfterSteps(before).value;
      if Consistent(t.index) {
        if s.Add? {
          AddKeepsIff(t.index, s.stmt, t.passed[s.stmt]);
        } else if s.Remove? {
          RemoveKeeps(t.index, s.stmt);
        }
      }
    }
  }

  /** A check that passes a name another thread is about to add. */
  ghost predicate Races(t: Threads, s: Step) {
    s.Check? && s.name in t.passed.Values
  }

  ghost predicate RaceFree(steps: seq<Step>)
    decreases |steps|
  {
    steps == [] ||
    var t := AfterSteps(steps[..|steps| - 1]);
    RaceFree(steps[..|steps| - 1]) && (t.Some? ==> !Races(t.value, steps[|steps| - 1]))
  }

  /** Names passed but not added are held by no statement and by one thread each. */
  ghost predicate Separate(t: Threads) {
    && Consistent(t.index)
    && Injective(t.passed)
    && t.passed.Values !! t.index.used
  }

  lemma StepKeepsSeparate(t: Threads, s: Step)
    requires Separate(t) && Enabled(t, s) && !Races(t, s)
    ensures Separate(Taken(t, s))
  {
    var u := Taken(t, s);
    match s
    case Check(stmt, name) =>
      assert forall n | n in u.passed.Values :: n == name || n in t.passed.Values;
    case Add(stmt) =>
      var name := t.passed[stmt];
      assert name in t.passed.Values && name !in t.index.used;
      assert !HeldElsewhere(t.index, stmt, name);
      AddKeepsIff(t.index, stmt, name);
      forall n | n in u.passed.Values ensures n in t.passed.Values && n != name {
        var k :| k in u.passed && u.passed[k] == n;
        assert k in t.passed && t.passed[k] == n;
      }
    case Remove(stmt) =>
      RemoveKeeps(t.index, stmt);
  }

  /** A condition on the checks alone that is enough: as long as no check passes a name
      that another thread is about to add, the pair stays consistent. */
  lemma {:induction false} RaceFreeRunsConsistent(steps: seq<Step>)
    requires AfterSteps(steps).Some? && RaceFree(steps)
    ensures Separate(AfterSteps(steps).value)
    decreases |steps|
  {
    if steps != [] {
      RaceFreeRunsConsistent(steps[..|steps| - 1]);
      StepKeepsSeparate(AfterSteps(steps[..|steps| - 1]).value, steps[|steps| - 1]);
    }
  }

  /** In every interleaving, raced or not, each name in the set is held by a statement. */
  lemma {:induction false} UsedNamesAreHeld(steps: seq<Step>)
    requires AfterSteps(steps).Some?
    ensures var x := AfterSteps(steps).value.index; x.used <= x.byStmt.Values
    decreases |steps|
  {
    if steps != [] {
      UsedNamesAreHeld(steps[..|steps| - 1]);
      var t, s := AfterSteps(steps[..|steps| - 1]).value, steps[|steps| - 1];
      var x, y := t.index, AfterSteps(steps).value.index;
      forall n | n in y.used ensures n in y.byStmt.Values {
        if s.Add? && n == t.passed[s.stmt] {
          assert y.byStmt[s.stmt] == n;
        } else {
          assert n in x.used;
          var k :| k in x.byStmt && x.byStmt[k] == n;
          assert k in y.byStmt && y.byStmt[k] == n;
        }
      }
    }
  }

  /** A race goes wrong whenever it completes: from a consistent state, once two threads
      have passed one name and both add it, two statements share it; after one of them
      is dropped the name counts as free while the other still holds it. */
  lemma RaceBreaks(t: Threads, a: nat, b: nat)
    requires Consistent(t.index) && a != b && a in t.passed && b in t.passed && t.passed[a] == t.passed[b]
    ensures var name := t.passed[a];
      var both := Taken(Taken(t, Add(a)), Add(b));
      var dropped := Taken(both, Remove(a));
      && !Injective(both.index.byStmt)
      && name !in dropped.index.used && dropped.index.byStmt[b] == name
  {
    var both := Taken(Taken(t, Add(a)), Add(b));
    assert both.index.byStmt[a] == both.index.byStmt[b];
  }

  /** Such a state is reached from a fresh connection by two checks in a row. */
  lemma RaceReachable(a: nat, b: nat, name: string)
    requires a != b
    ensures var steps := [Check(a, name), Check(b, name), Add(a), Add(b)];
      AfterSteps(steps).Some? && !Consistent(AfterSteps(steps).value.index)
  {
    var s0, s1, s2 := [Check(a, name)], [Check(a, name), Check(b, name)], [Check(a, name), Check(b, name), Add(a)];
    var s3 := [Check(a, name), Check(b, name), Add(a), Add(b)];
    assert s0[..0] == [] && s1[..1] == s0 && s2[..2] == s1 && s3[..3] == s2;
    assert AfterSteps(s0) == Some(Threads(EMPTY, map[a := name]));
    assert AfterSteps(s1) == Some(Threads(EMPTY, map[a := name, b := name]));
    RaceBreaks(AfterSteps(s1).value, a, b);
  }
}
