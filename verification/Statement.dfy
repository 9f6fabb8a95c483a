/** The statement: block fetches into the bound columns, and reading one column of the
    current row in parts. */
module Statement {

  import opened Common
  import opened Service
  import opened Cursor
  import opened DataQuery
  import opened Rowset
  import AppBuffer
  import DatumText
  import StrBuffer
  import GetData

  /** A number the application owns. */
  class Counter {
    var value: nat
  }

  /** What a column is read from: no query, a query without a cursor, no row, a column that
      cannot be read, or the column's value in the row at the iterator. */
  datatype Source = NoQuery | NoCursor | OffPage | Unreadable | Value(datum: Datum)

  /** The outcome of reading a column that has no text. */
  predicate AnswersWithoutText(source: Source, result: Result, before: seq<int>, after: seq<int>, place: nat) {
    match source
    case NoQuery => result == SqlError
    case NoCursor => result == SqlNoData
    case OffPage => result == SqlError
    case Unreadable => result == SqlError
    case Value(d) =>
      && (d.Null? ==> result == SqlSuccess && (place < |before| ==> after == before[place := -1]))
      && (d.RowValue? && !d.row.dataSet ==> result == SqlNoData)
  }

  /** The indicators an application sees, none without an indicator area. */
  function Indicators(buffer: AppBuffer.ApplicationDataBuffer): seq<int>
    reads if buffer.reslen == null then {} else {buffer.reslen}
  {
    if buffer.reslen == null then [] else buffer.reslen[..]
  }

  /** One call that reads a text from character `o` on into a buffer with room for a
      character: success with info while more is to come, success with the last part, and
      no data after it. The area reads back the part, the offset goes on behind it, and the
      indicator is what is still to come, the whole size, or no total. */
  predicate PartRead(
    w: nat, buflen: nat, text: StrBuffer.Text, o: nat, result: Result, offset: nat,
    before: seq<StrBuffer.byte>, after: seq<StrBuffer.byte>)
    requires StrBuffer.CharSize(w) && buflen >= 2 * w
  {
    var room := if w == 1 then buflen - 1 else if w == 2 then buflen / 2 - 1 else buflen / 4 - 1;
    var next := Min(o + room, |text|);
    && (result == SqlSuccessWithInfo <==> o + room < |text|)
    && (result == SqlSuccess <==> o < |text| <= o + room)
    && (result == SqlNoData <==> o >= |text|)
    && (o < |text| ==> offset == next && |after| == |before| && StrBuffer.ReadBack(after, w) == text[o..next])
    && (o >= |text| ==> offset == o && after == before)
  }

  predicate PartIndicated(
    w: nat, buflen: nat, text: StrBuffer.Text, o: nat, before: seq<int>, after: seq<int>, place: nat)
    requires StrBuffer.CharSize(w) && buflen >= 2 * w
  {
    var room := if w == 1 then buflen - 1 else if w == 2 then buflen / 2 - 1 else buflen / 4 - 1;
    place < |before| ==>
      after == before[place :=
        if o + room < |text| then (|text| - o - room) * w else if o < |text| then |text| * w else -4]
  }

  /** The same call into any buffer, as one step of GetData. */
  predicate StepRead(
    t: StrBuffer.Target, text: StrBuffer.Text, o: nat, result: Result, offset: nat,
    before: seq<StrBuffer.byte>, after: seq<StrBuffer.byte>)
    requires StrBuffer.ValidTarget(t)
  {
    var p := StrBuffer.ReadPart(t, text, o);
    && offset == p.offset && result == OfConversion(p.result)
    && |StrBuffer.StoredBytes(t, p.copy)| <= Min(t.buflen, |before|)
    && after == AppBuffer.Overlay(before, 0, StrBuffer.StoredBytes(t, p.copy))
  }

  predicate StepIndicated(t: StrBuffer.Target, text: StrBuffer.Text, o: nat, before: seq<int>, after: seq<int>, place: nat)
    requires StrBuffer.ValidTarget(t)
  {
    place < |before| ==> after == before[place := StrBuffer.ReadPart(t, text, o).indicator]
  }

  /** A call without a data area reports the size of the whole text, in bytes. */
  predicate SizeIndicated(w: nat, text: StrBuffer.Text, before: seq<int>, after: seq<int>, place: nat) {
    place < |before| ==> after == before[place := |text| * w]
  }

  lemma StepIsPart(
    t: StrBuffer.Target, text: StrBuffer.Text, o: nat, result: Result, offset: nat,
    before: seq<StrBuffer.byte>, after: seq<StrBuffer.byte>)
    requires StrBuffer.ValidTarget(t) && t.buflen >= 2 * t.w && StepRead(t, text, o, result, offset, before, after)
    ensures PartRead(t.w, t.buflen, text, o, result, offset, before, after)
  {
    var p := StrBuffer.ReadPart(t, text, o);
    var bytes := StrBuffer.StoredBytes(t, p.copy);
    StrBuffer.PartIs(t, text, o);
    if o < |text| {
      StrBuffer.CopyReadsBack(t, text[o..], before[|bytes|..]);
      assert after == bytes + before[|bytes|..];
    } else {
      AppBuffer.OverlayNothing(before, 0);
    }
  }

  lemma StepIsIndicated(t: StrBuffer.Target, text: StrBuffer.Text, o: nat, before: seq<int>, after: seq<int>, place: nat)
    requires StrBuffer.ValidTarget(t) && t.buflen >= 2 * t.w && StepIndicated(t, text, o, before, after, place)
    ensures PartIndicated(t.w, t.buflen, text, o, before, after, place)
  {
    StrBuffer.PartIs(t, text, o);
  }

  /** The parts read so far are the beginning of the text, and all of it once a call has not
      said that more is to come. */
  predicate ReadSoFar(whole: StrBuffer.Text, text: string, offset: nat, result: Result) {
    text <= whole && offset == |text| && (result != SqlSuccessWithInfo ==> text == whole)
  }

  lemma PartReadOn(
    t: StrBuffer.Target, whole: StrBuffer.Text, text: string, result: Result, offset: nat,
    before: seq<StrBuffer.byte>, after: seq<StrBuffer.byte>)
    requires StrBuffer.ValidTarget(t) && t.buflen >= 2 * t.w && text <= whole
    requires PartRead(t.w, t.buflen, whole, |text|, result, offset, before, after)
    ensures ReadSoFar(whole, if result == SqlNoData then text else text + StrBuffer.ReadBack(after, t.w), offset, result)
    ensures result == SqlSuccessWithInfo ==> StrBuffer.ReadBack(after, t.w) != ""
  {
    if |text| < |whole| {
      assert whole[..|text|] + whole[|text|..offset] == whole[..offset];
      assert offset == |whole| ==> whole[..offset] == whole;
    }
  }

  class Statement {
    var currentQuery: DataQuery?
    const columnBindings: ColumnBindings
    var rowArraySize: nat
    var rowsFetched: Counter?
    var rowStatuses: array?<RowStatus>
    var cellOffset: nat
    var currentColNum: nat

    constructor (columns: set<nat>, texts: map<nat, TextColumn>)
      ensures currentQuery == null && rowsFetched == null && rowStatuses == null
      ensures rowArraySize == 1 && cellOffset == 0 && currentColNum == 0
      ensures fresh(columnBindings) && columnBindings.columns == columns
      ensures columnBindings.store == Store(map[], texts)
    {
      columnBindings := new ColumnBindings(columns, texts);
      currentQuery, rowsFetched, rowStatuses := null, null, null;
      rowArraySize, cellOffset, currentColNum := 1, 0, 0;
    }

    function Objects(): set<object>
      reads this`currentQuery, if currentQuery == null then {} else {currentQuery}
    {
      if currentQuery == null then {} else {currentQuery} + currentQuery.Cursors()
    }

    ghost predicate Valid()
      reads this`currentQuery, if currentQuery == null then {} else {currentQuery}, Objects()
    {
      currentQuery != null ==> currentQuery.Valid()
    }

    /** The statuses the application sees, none without a status array. */
    function Statuses(): seq<RowStatus>
      reads this`rowStatuses, if rowStatuses == null then {} else {rowStatuses}
    {
      if rowStatuses == null then [] else rowStatuses[..]
    }

    /** Notes the result of a fetch that returned, where there is a status array. */
    method SetStatus(i: nat, res: Result)
      requires currentQuery != null && currentQuery.Valid() && (rowStatuses != null ==> i < rowStatuses.Length)
      modifies if rowStatuses == null then {} else {rowStatuses}
      ensures Statuses() == Noted(old(Statuses()), i, res)
      ensures currentQuery.Valid() && currentQuery.Seen(columnBindings) == old(currentQuery.Seen(columnBindings))
    {
      if rowStatuses != null && res != Blocked {
        rowStatuses[i] := StatusOf(res);
      }
    }

    /** Fetches the row of element `i` and notes its status. */
    method FetchAndNote(i: nat) returns (res: Result)
      requires currentQuery != null && currentQuery.Valid() && ReadyFor(columnBindings.store, i + 1)
      requires rowStatuses != null ==> i < rowStatuses.Length
      modifies currentQuery, currentQuery.Cursors(), columnBindings
      modifies if rowStatuses == null then {} else {rowStatuses}
      ensures currentQuery.Valid() && Statuses() == Noted(old(Statuses()), i, res)
      ensures currentQuery.cursor == old(currentQuery.cursor) || currentQuery.cursor == null || fresh(currentQuery.cursor)
      ensures FetchStep(currentQuery.svc, currentQuery.metas, columnBindings.columns, i,
        old(currentQuery.Seen(columnBindings)), res, currentQuery.Seen(columnBindings))
    {
      res := currentQuery.FetchInto(columnBindings, i);
      SetStatus(i, res);
    }

    /** The count and the cell offset start from zero. */
    method StartFetch()
      requires currentQuery != null && currentQuery.Valid()
      modifies this`cellOffset, if rowsFetched == null then {} else {rowsFetched}
      ensures cellOffset == 0 && (rowsFetched != null ==> rowsFetched.value == 0)
      ensures currentQuery.Valid() && Statuses() == old(Statuses())
      ensures currentQuery.Seen(columnBindings) == old(currentQuery.Seen(columnBindings))
    {
      SetFetched(0);
      cellOffset := 0;
    }

    method SetFetched(n: nat)
      requires currentQuery != null && currentQuery.Valid()
      modifies if rowsFetched == null then {} else {rowsFetched}
      ensures rowsFetched != null ==> rowsFetched.value == n
      ensures currentQuery.Valid() && Statuses() == old(Statuses())
      ensures currentQuery.Seen(columnBindings) == old(currentQuery.Seen(columnBindings))
    {
      if rowsFetched != null {
        rowsFetched.value := n;
      }
    }

    ghost function Tallied(fetched: nat, errors: nat): Tally
      requires currentQuery != null
      reads this`currentQuery, this`rowStatuses, currentQuery, currentQuery.Cursors(), columnBindings
      reads if rowStatuses == null then {} else {rowStatuses}
    {
      Tally(currentQuery.Seen(columnBindings), Statuses(), fetched, errors)
    }

    /** One pass of the loop of InternalFetchRow: the row of element `i` is fetched, its
        status noted and counted. `v` and `s` are the view and statuses before the loop. */
    method FetchElement(i: nat, fetchedSoFar: nat, errorsSoFar: nat, ghost v: View, ghost s: seq<RowStatus>)
      returns (hung: bool, fetched: nat, errors: nat)
      requires currentQuery != null && currentQuery.Valid()
      requires i < rowArraySize && (rowStatuses != null ==> rowArraySize <= rowStatuses.Length)
      requires |s| == |Statuses()| && ReadyFor(v.store, rowArraySize)
      requires AllReturned(currentQuery.svc, currentQuery.metas, columnBindings.columns, v, i)
      requires Tallied(fetchedSoFar, errorsSoFar)
        == TallyAfter(currentQuery.svc, currentQuery.metas, columnBindings.columns, v, s, i)
      modifies currentQuery, currentQuery.Cursors(), columnBindings
      modifies if rowStatuses == null then {} else {rowStatuses}
      ensures currentQuery.Valid() && |Statuses()| == |s|
      ensures currentQuery.cursor == old(currentQuery.cursor) || currentQuery.cursor == null || fresh(currentQuery.cursor)
      ensures TallyUpTo(currentQuery.svc, currentQuery.metas, columnBindings.columns, v, s,
        if hung then rowArraySize else i + 1, hung, Tallied(fetched, errors))
    {
      ghost var svc, metas, bound := currentQuery.svc, currentQuery.metas, columnBindings.columns;
      StoreKeepsReady(v.store, metas, bound, Fetches(svc, v.session, metas, bound, i).replies, rowArraySize);
      ghost var t := Tallied(fetchedSoFar, errorsSoFar);
      var res := FetchAndNote(i);
      TallyNext(svc, metas, bound, v, s, i, t, res, currentQuery.Seen(columnBindings), rowArraySize);
      hung, fetched, errors := res == Blocked, fetchedSoFar, errorsSoFar;
      if res == SqlSuccess || res == SqlSuccessWithInfo {
        fetched := fetched + 1;
      } else if res != SqlNoData && res != Blocked {
        errors := errors + 1;
      }
    }

    /** The loop of InternalFetchRow over the elements of the rowset. It stops short only
        in a fetch that never returns. */
    method FetchElements() returns (hung: bool, fetched: nat, errors: nat)
      requires currentQuery != null && currentQuery.Valid() && ReadyFor(columnBindings.store, rowArraySize)
      requires rowStatuses != null ==> rowArraySize <= rowStatuses.Length
      modifies currentQuery, currentQuery.Cursors(), columnBindings
      modifies if rowStatuses == null then {} else {rowStatuses}
      ensures currentQuery.Valid()
      ensures var v, s := old(currentQuery.Seen(columnBindings)), old(Statuses());
        && (AllReturned(currentQuery.svc, currentQuery.metas, columnBindings.columns, v, rowArraySize) <==> !hung)
        && Tallied(fetched, errors)
          == TallyAfter(currentQuery.svc, currentQuery.metas, columnBindings.columns, v, s, rowArraySize)
    {
      hung, fetched, errors := false, 0, 0;
      ghost var v, s := currentQuery.Seen(columnBindings), Statuses();
      var i := 0;
      while i < rowArraySize
        invariant i <= rowArraySize && currentQuery.Valid() && |Statuses()| == |s|
        invariant currentQuery.cursor == old(currentQuery.cursor) || currentQuery.cursor == null || fresh(currentQuery.cursor)
        invariant AllReturned(currentQuery.svc, currentQuery.metas, columnBindings.columns, v, i)
        invariant Tallied(fetched, errors)
          == TallyAfter(currentQuery.svc, currentQuery.metas, columnBindings.columns, v, s, i)
      {
        hung, fetched, errors := FetchElement(i, fetched, errors, v, s);
        if hung {
          return;
        }
        i := i + 1;
      }
    }

    /** What the statement shows after a block fetch. */
    ghost function Shown(result: Result, fetched: nat): Block
      requires currentQuery != null
      reads this`currentQuery, this`rowStatuses, currentQuery, currentQuery.Cursors(), columnBindings
      reads if rowStatuses == null then {} else {rowStatuses}
    {
      Block(currentQuery.Seen(columnBindings), Statuses(), result, fetched)
    }

    /** The loop of InternalFetchRow, the result made of its counts, and the count for the
        application; a fetch that never returns leaves the count as it was. */
    method FetchCounted() returns (result: Result, fetched: nat)
      requires currentQuery != null && currentQuery.Valid() && ReadyFor(columnBindings.store, rowArraySize)
      requires rowStatuses != null ==> rowArraySize <= rowStatuses.Length
      modifies currentQuery, currentQuery.Cursors(), columnBindings
      modifies if rowsFetched == null then {} else {rowsFetched}
      modifies if rowStatuses == null then {} else {rowStatuses}
      ensures currentQuery.Valid()
      ensures rowsFetched != null ==> rowsFetched.value == if result == Blocked then old(rowsFetched.value) else fetched
      ensures Shown(result, fetched) == BlockFetch(currentQuery.svc, currentQuery.metas, columnBindings.columns,
        old(currentQuery.Seen(columnBindings)), old(Statuses()), rowArraySize)
    {
      var hung, errors;
      hung, fetched, errors := FetchElements();
      if hung {
        result, fetched := Blocked, 0;
      } else {
        SetFetched(fetched);
        result := if fetched > 0 then if errors == 0 then SqlSuccess else SqlSuccessWithInfo
          else if errors == 0 then SqlNoData else SqlError;
      }
    }

    /** InternalFetchRow with a query open: a block fetch, whose count goes to the
        application and after which the cell offset starts again from zero. */
    method FetchBlock() returns (result: Result, ghost fetched: nat)
      requires currentQuery != null && currentQuery.Valid() && ReadyFor(columnBindings.store, rowArraySize)
      requires rowStatuses != null ==> rowArraySize <= rowStatuses.Length
      modifies this`cellOffset, currentQuery, currentQuery.Cursors(), columnBindings
      modifies if rowsFetched == null then {} else {rowsFetched}
      modifies if rowStatuses == null then {} else {rowStatuses}
      ensures currentQuery.Valid() && cellOffset == 0
      ensures rowsFetched != null ==> rowsFetched.value == fetched
      ensures Shown(result, fetched) == BlockFetch(currentQuery.svc, currentQuery.metas, columnBindings.columns,
        old(currentQuery.Seen(columnBindings)), old(Statuses()), rowArraySize)
    {
      StartFetch();
      result, fetched := FetchCounted();
    }

    method InternalFetchRow() returns (result: Result, ghost fetched: nat)
      requires Valid() && (rowStatuses != null ==> rowArraySize <= rowStatuses.Length)
      requires RoomFor(columnBindings.store, rowArraySize)
      modifies this`cellOffset, columnBindings
      modifies if currentQuery == null then {} else {currentQuery}
      modifies if currentQuery == null then {} else currentQuery.Cursors()
      modifies if rowsFetched == null then {} else {rowsFetched}
      modifies if rowStatuses == null then {} else {rowStatuses}
      ensures rowsFetched != null ==> rowsFetched.value == fetched
      ensures currentQuery == null ==> result == SqlError && fetched == 0 && cellOffset == old(cellOffset)
      ensures currentQuery != null ==> currentQuery.Valid() && cellOffset == 0
      ensures currentQuery != null ==>
        Shown(result, fetched) == BlockFetch(currentQuery.svc, currentQuery.metas, columnBindings.columns,
          old(currentQuery.Seen(columnBindings)), old(Statuses()), rowArraySize)
    {
      if currentQuery == null {
        if rowsFetched != null {
          rowsFetched.value := 0;
        }
        return SqlError, 0;
      }
      RoomForIsReady(columnBindings.store, rowArraySize);
      result, fetched := FetchBlock();
    }

    ghost function SourceOf(colNum: nat): Source
      reads this`currentQuery, if currentQuery == null then {} else {currentQuery}, Objects()
    {
      if currentQuery == null then NoQuery
      else if currentQuery.cursor == null then NoCursor
      else if !currentQuery.HasRow() then OffPage
      else if !Reads(currentQuery.metas, currentQuery.RowAtIterator(), colNum) then Unreadable
      else Value(currentQuery.RowAtIterator().data[colNum - 1])
    }

    /** The column can be read from the current row and has a text. */
    ghost predicate HasColumnText(colNum: nat)
      reads this`currentQuery, if currentQuery == null then {} else {currentQuery}, Objects()
    {
      SourceOf(colNum).Value? && DatumText.HasText(SourceOf(colNum).datum)
    }

    ghost function ColumnText(colNum: nat): StrBuffer.Text
      requires HasColumnText(colNum)
      reads this`currentQuery, if currentQuery == null then {} else {currentQuery}, Objects()
    {
      DatumText.PrintedFits(SourceOf(colNum).datum);
      DatumText.Printed(SourceOf(colNum).datum).value
    }

    /** InternalGetColumnData into a buffer with one element. */
    method GetColumnData(colNum: nat, buffer: AppBuffer.ApplicationDataBuffer) returns (result: Result)
      requires Valid() && buffer.Valid() && buffer.Start() == 0 && buffer.cellOffset >= 0
      modifies buffer`cellOffset, buffer.Areas()
      modifies if currentQuery == null then {} else currentQuery.Cursors()
      ensures Valid() && buffer.Valid() && buffer.cellOffset >= 0
      ensures SourceOf(colNum) == old(SourceOf(colNum))
      ensures !old(HasColumnText(colNum)) ==>
        && buffer.cellOffset == old(buffer.cellOffset)
        && AnswersWithoutText(old(SourceOf(colNum)), result, old(Indicators(buffer)), Indicators(buffer), old(buffer.IndicatorIndex()))
      ensures old(HasColumnText(colNum)) && buffer.buffer == null ==>
        && result == SqlSuccess && buffer.cellOffset == old(buffer.cellOffset)
        && SizeIndicated(if buffer.kind == AppBuffer.WideChar then buffer.wide else 1, old(ColumnText(colNum)),
            old(Indicators(buffer)), Indicators(buffer), old(buffer.IndicatorIndex()))
      ensures old(HasColumnText(colNum)) && buffer.buffer != null ==>
        && StepRead(buffer.Out(), old(ColumnText(colNum)), old(buffer.cellOffset), result, buffer.cellOffset,
            old(buffer.buffer[..]), buffer.buffer[..])
        && StepIndicated(buffer.Out(), old(ColumnText(colNum)), old(buffer.cellOffset),
            old(Indicators(buffer)), Indicators(buffer), old(buffer.IndicatorIndex()))
    {
      if currentQuery == null {
        result := SqlError;
      } else {
        ghost var converted;
        result, converted := currentQuery.GetColumn(colNum, buffer);
      }
    }

    method SetCellOffset(offset: nat, ghost colNum: nat)
      requires Valid()
      modifies this`cellOffset
      ensures Valid() && cellOffset == offset && SourceOf(colNum) == old(SourceOf(colNum))
    {
      cellOffset := offset;
    }

    method SetColumn(colNum: nat)
      requires Valid()
      modifies this`cellOffset, this`currentColNum
      ensures Valid() && currentColNum == colNum && SourceOf(colNum) == old(SourceOf(colNum))
      ensures cellOffset == (if old(currentColNum) == colNum then old(cellOffset) else 0)
    {
      if colNum != currentColNum {
        currentColNum := colNum;
        cellOffset := 0;
      }
    }

    /** The cell offset a read of a column starts from: 0 on a change of column. */
    method BeginColumn(colNum: nat, dataBuffer: AppBuffer.ApplicationDataBuffer)
      requires Valid() && dataBuffer.Valid() && dataBuffer.Start() == 0
      modifies this`cellOffset, this`currentColNum, dataBuffer`cellOffset
      ensures Valid() && dataBuffer.Valid() && dataBuffer.Start() == 0
      ensures currentColNum == colNum && SourceOf(colNum) == old(SourceOf(colNum))
      ensures Indicators(dataBuffer) == old(Indicators(dataBuffer)) && dataBuffer.IndicatorIndex() == old(dataBuffer.IndicatorIndex())
      ensures dataBuffer.buffer != null ==> dataBuffer.buffer[..] == old(dataBuffer.buffer[..])
      ensures dataBuffer.cellOffset == cellOffset == (if old(currentColNum) == colNum then old(cellOffset) else 0)
    {
      SetColumn(colNum);
      dataBuffer.SetCellOffset(cellOffset);
    }

    /** The offset at which the next read of a column starts. */
    function Offset(colNum: nat): (offset: nat)
      reads this`cellOffset, this`currentColNum
      ensures offset == GetData.StartOf(GetData.Getter(currentColNum, cellOffset), colNum)
    {
      if currentColNum == colNum then cellOffset else 0
    }

    /** The call once the column and the offset it starts from are set. */
    method ReadOn(colNum: nat, dataBuffer: AppBuffer.ApplicationDataBuffer) returns (result: Result)
      requires Valid() && dataBuffer.Valid() && dataBuffer.Start() == 0 && dataBuffer.cellOffset == cellOffset
      modifies this`cellOffset, dataBuffer`cellOffset, dataBuffer.Areas()
      modifies if currentQuery == null then {} else currentQuery.Cursors()
      ensures Valid() && dataBuffer.Valid()
      ensures SourceOf(colNum) == old(SourceOf(colNum))
      ensures !old(HasColumnText(colNum)) ==>
        && cellOffset == old(cellOffset)
        && AnswersWithoutText(old(SourceOf(colNum)), result,
            old(Indicators(dataBuffer)), Indicators(dataBuffer), old(dataBuffer.IndicatorIndex()))
      ensures old(HasColumnText(colNum)) && dataBuffer.buffer == null ==>
        && result == SqlSuccess && cellOffset == old(cellOffset)
        && SizeIndicated(if dataBuffer.kind == AppBuffer.WideChar then dataBuffer.wide else 1, old(ColumnText(colNum)),
            old(Indicators(dataBuffer)), Indicators(dataBuffer), old(dataBuffer.IndicatorIndex()))
      ensures old(HasColumnText(colNum)) && dataBuffer.buffer != null ==>
        && StepRead(dataBuffer.Out(), old(ColumnText(colNum)), old(cellOffset), result, cellOffset,
            old(dataBuffer.buffer[..]), dataBuffer.buffer[..])
        && StepIndicated(dataBuffer.Out(), old(ColumnText(colNum)), old(cellOffset),
            old(Indicators(dataBuffer)), Indicators(dataBuffer), old(dataBuffer.IndicatorIndex()))
    {
      result := GetColumnData(colNum, dataBuffer);
      SetCellOffset(dataBuffer.cellOffset, colNum);
    }

    /** One call of SQLGetData, as a step of GetData. */
    method ReadColumn(colNum: nat, dataBuffer: AppBuffer.ApplicationDataBuffer) returns (result: Result)
      requires Valid() && dataBuffer.Valid() && dataBuffer.Start() == 0
      modifies this`cellOffset, this`currentColNum, dataBuffer`cellOffset, dataBuffer.Areas()
      modifies if currentQuery == null then {} else currentQuery.Cursors()
      ensures Valid() && dataBuffer.Valid() && currentColNum == colNum
      ensures SourceOf(colNum) == old(SourceOf(colNum))
      ensures !old(HasColumnText(colNum)) ==>
        && cellOffset == old(Offset(colNum))
        && AnswersWithoutText(old(SourceOf(colNum)), result,
            old(Indicators(dataBuffer)), Indicators(dataBuffer), old(dataBuffer.IndicatorIndex()))
      ensures old(HasColumnText(colNum)) && dataBuffer.buffer == null ==>
        && result == SqlSuccess && cellOffset == old(Offset(colNum))
        && SizeIndicated(if dataBuffer.kind == AppBuffer.WideChar then dataBuffer.wide else 1, old(ColumnText(colNum)),
            old(Indicators(dataBuffer)), Indicators(dataBuffer), old(dataBuffer.IndicatorIndex()))
      ensures old(HasColumnText(colNum)) && dataBuffer.buffer != null ==>
        && StepRead(dataBuffer.Out(), old(ColumnText(colNum)), old(Offset(colNum)), result, cellOffset,
            old(dataBuffer.buffer[..]), dataBuffer.buffer[..])
        && StepIndicated(dataBuffer.Out(), old(ColumnText(colNum)), old(Offset(colNum)),
            old(Indicators(dataBuffer)), Indicators(dataBuffer), old(dataBuffer.IndicatorIndex()))
    {
      BeginColumn(colNum, dataBuffer);
      result := ReadOn(colNum, dataBuffer);
    }

    /** SQLGetData with the buffer object it builds from its arguments. On a column with a
        text this is one step of GetData, and with room for a character what PartRead says.
        Without a data area the size required is reported, and on a column without a text
        what kind of column it is; the offset stays where the column starts. */
    method SQLGetData(colNum: nat, dataBuffer: AppBuffer.ApplicationDataBuffer) returns (result: Result)
      requires Valid() && dataBuffer.Valid() && dataBuffer.Start() == 0
      modifies this`cellOffset, this`currentColNum, dataBuffer`cellOffset, dataBuffer.Areas()
      modifies if currentQuery == null then {} else currentQuery.Cursors()
      ensures Valid() && dataBuffer.Valid() && currentColNum == colNum
      ensures SourceOf(colNum) == old(SourceOf(colNum))
      ensures !old(HasColumnText(colNum)) ==>
        && cellOffset == old(Offset(colNum))
        && AnswersWithoutText(old(SourceOf(colNum)), result,
            old(Indicators(dataBuffer)), Indicators(dataBuffer), old(dataBuffer.IndicatorIndex()))
      ensures old(HasColumnText(colNum)) && dataBuffer.buffer == null ==>
        && result == SqlSuccess && cellOffset == old(Offset(colNum))
        && SizeIndicated(if dataBuffer.kind == AppBuffer.WideChar then dataBuffer.wide else 1, old(ColumnText(colNum)),
            old(Indicators(dataBuffer)), Indicators(dataBuffer), old(dataBuffer.IndicatorIndex()))
      ensures old(HasColumnText(colNum)) && dataBuffer.buffer != null ==>
        StepRead(dataBuffer.Out(), old(ColumnText(colNum)), old(Offset(colNum)), result, cellOffset,
          old(dataBuffer.buffer[..]), dataBuffer.buffer[..])
      ensures var w := if dataBuffer.kind == AppBuffer.WideChar then dataBuffer.wide else 1;
        old(HasColumnText(colNum)) && dataBuffer.buffer != null && dataBuffer.buflen >= 2 * w ==>
          && PartRead(w, dataBuffer.buflen, old(ColumnText(colNum)), old(Offset(colNum)), result, cellOffset,
              old(dataBuffer.buffer[..]), dataBuffer.buffer[..])
          && PartIndicated(w, dataBuffer.buflen, old(ColumnText(colNum)), old(Offset(colNum)),
              old(Indicators(dataBuffer)), Indicators(dataBuffer), old(dataBuffer.IndicatorIndex()))
    {
      ghost var t, o := dataBuffer.Out(), Offset(colNum);
      ghost var before := if dataBuffer.buffer == null then [] else dataBuffer.buffer[..];
      ghost var indicators, place := Indicators(dataBuffer), dataBuffer.IndicatorIndex();
      result := ReadColumn(colNum, dataBuffer);
      if old(HasColumnText(colNum)) && dataBuffer.buffer != null && t.buflen >= 2 * t.w {
        StepIsPart(t, old(ColumnText(colNum)), o, result, cellOffset, before, dataBuffer.buffer[..]);
        StepIsIndicated(t, old(ColumnText(colNum)), o, indicators, Indicators(dataBuffer), place);
      }
    }

    /** An application reads a column in parts until it is told that there is no more: with
        room for a character in its buffer, the parts make up the whole text. */
    method ReadInParts(colNum: nat, dataBuffer: AppBuffer.ApplicationDataBuffer) returns (text: string)
      requires Valid() && dataBuffer.Valid() && dataBuffer.Start() == 0 && dataBuffer.buffer != null
      requires dataBuffer.buflen >= 2 * dataBuffer.Out().w && HasColumnText(colNum) && Offset(colNum) == 0
      modifies this`cellOffset, this`currentColNum, dataBuffer`cellOffset, dataBuffer.Areas()
      modifies if currentQuery == null then {} else currentQuery.Cursors()
      ensures Valid() && text == old(ColumnText(colNum))
    {
      ghost var whole, source := ColumnText(colNum), SourceOf(colNum);
      text := "";
      var result := SqlSuccessWithInfo;
      while result == SqlSuccessWithInfo
        invariant Valid() && dataBuffer.Valid() && SourceOf(colNum) == source
        invariant ReadSoFar(whole, text, Offset(colNum), result)
        decreases |whole| - |text|, result == SqlSuccessWithInfo
      {
        result, text := ReadNextPart(colNum, dataBuffer, whole, text);
      }
    }

    method ReadNextPart(colNum: nat, dataBuffer: AppBuffer.ApplicationDataBuffer, ghost whole: StrBuffer.Text, text: string)
      returns (result: Result, longer: string)
      requires Valid() && dataBuffer.Valid() && dataBuffer.Start() == 0 && dataBuffer.buffer != null
      requires dataBuffer.buflen >= 2 * dataBuffer.Out().w && HasColumnText(colNum) && ColumnText(colNum) == whole
      requires ReadSoFar(whole, text, Offset(colNum), SqlSuccessWithInfo)
      modifies this`cellOffset, this`currentColNum, dataBuffer`cellOffset, dataBuffer.Areas()
      modifies if currentQuery == null then {} else currentQuery.Cursors()
      ensures Valid() && dataBuffer.Valid() && SourceOf(colNum) == old(SourceOf(colNum))
      ensures ReadSoFar(whole, longer, Offset(colNum), result)
      ensures |longer| >= |text| && (result == SqlSuccessWithInfo ==> |longer| > |text|)
    {
      longer := text;
      ghost var before := dataBuffer.buffer[..];
      result := SQLGetData(colNum, dataBuffer);
      PartReadOn(dataBuffer.Out(), whole, text, result, cellOffset, before, dataBuffer.buffer[..]);
      if result != SqlNoData {
        longer := text + StrBuffer.ReadBack(dataBuffer.buffer[..], dataBuffer.Out().w);
      }
    }
  }
}
