/** The cursor over one page of rows, and the columns an application has bound. */
module Cursor {

  import opened Common
  import opened Service
  import AppBuffer
  import DatumText
  import StrBuffer

  /** What the reading code looks at in a column's description. */
  datatype ColumnMeta = ColumnMeta(typed: bool)

  /** A column of the cursor; columns are created on first use. */
  datatype Column = Column(index: nat, columnMeta: ColumnMeta)

  /** The outcome of looking a column of the current row up. */
  datatype Cell = Missing | Found(datum: Datum)

  /** Column `c`, counted from 1, of a row can be read: it exists, its type is known
      and its datum is set. */
  predicate Reads(metas: seq<ColumnMeta>, row: Row, c: nat) {
    1 <= c <= |metas| && metas[c - 1].typed && c <= |row.data| && !row.data[c - 1].Unset?
  }

  class IoTSiteWiseCursor {
    const rows: seq<Row>
    const metas: seq<ColumnMeta>
    var iterator_: nat
    var curPos: nat
    var columns: seq<Column>

    /** The iterator lags the position by one, and stays at the end once there. */
    predicate Valid()
      reads this
    {
      && iterator_ == (if curPos == 0 then 0 else if curPos <= |rows| then curPos - 1 else |rows|)
      && |columns| <= |metas|
      && forall i | 0 <= i < |columns| :: columns[i] == Column(i, metas[i])
    }

    constructor (rows: seq<Row>, metas: seq<ColumnMeta>)
      ensures Valid() && this.rows == rows && this.metas == metas && curPos == 0
    {
      this.rows, this.metas := rows, metas;
      iterator_, curPos, columns := 0, 0, [];
    }

    /** A row is handled when the position is inside the page. */
    predicate OnRow()
      reads this
    {
      0 < curPos <= |rows|
    }

    method Increment() returns (more: bool)
      requires Valid()
      modifies this`iterator_, this`curPos
      ensures Valid() && curPos == old(curPos) + 1
      ensures more <==> curPos <= |rows|
    {
      if curPos > 0 && iterator_ < |rows| {
        iterator_ := iterator_ + 1;
      }
      curPos := curPos + 1;
      more := curPos <= |rows|;
    }

    /** On a page with rows, whether the iterator is at a row, so that reading it is safe;
        on an empty page true only before the first Increment, when there is none. */
    method HasData() returns (has: bool)
      requires Valid()
      ensures rows != [] ==> (has <==> iterator_ < |rows|)
      ensures rows == [] ==> (has <==> curPos == 0)
    {
      has := curPos <= |rows|;
    }

    /** After success the column and all before it exist, each with its own description. */
    method EnsureColumnDiscovered(columnIdx: nat) returns (found: bool)
      requires Valid()
      modifies this`columns
      ensures Valid()
      ensures found <==> 1 <= columnIdx <= |metas|
      ensures found ==> columnIdx <= |columns|
    {
      if columnIdx > |metas| || columnIdx < 1 {
        return false;
      }
      if |columns| == |metas| {
        return true;
      }
      var index := |columns|;
      while index < columnIdx
        invariant Valid() && |columns| == index
        invariant index <= columnIdx || index == old(|columns|)
      {
        columns := columns + [Column(index, metas[index])];
        index := index + 1;
      }
      found := true;
    }

    /** ReadColumnToBuffer up to the point where the datum is put: the datum of the row
        the iterator is at, read through the description of that same column. */
    method ReadColumn(columnIdx: nat) returns (cell: Cell)
      requires Valid() && iterator_ < |rows| && |rows[iterator_].data| >= |metas|
      modifies this`columns
      ensures Valid()
      ensures cell == if 1 <= columnIdx <= |metas| && metas[columnIdx - 1].typed
        then Found(rows[iterator_].data[columnIdx - 1]) else Missing
    {
      var discovered := EnsureColumnDiscovered(columnIdx);
      if !discovered {
        return Missing;
      }
      var column := columns[columnIdx - 1];
      var datum := rows[iterator_].data[columnIdx - 1];
      cell := if column.columnMeta.typed then Found(datum) else Missing;
    }
  }

  // ---- Bound columns ----

  /** The columns before the first one, from `c` on, that is bound and cannot be read. */
  function ReadUpTo(metas: seq<ColumnMeta>, bound: set<nat>, row: Row, c: nat): (n: nat)
    requires 1 <= c <= |metas| + 1
    ensures c <= n + 1 <= |metas| + 1
    ensures forall k | c <= k <= n && k in bound :: Reads(metas, row, k)
    ensures n < |metas| ==> n + 1 in bound && !Reads(metas, row, n + 1)
    decreases |metas| - c
  {
    if c > |metas| || (c in bound && !Reads(metas, row, c)) then c - 1
    else ReadUpTo(metas, bound, row, c + 1)
  }

  /** Every bound column of the row can be read. */
  predicate Readable(metas: seq<ColumnMeta>, bound: set<nat>, row: Row) {
    ReadUpTo(metas, bound, row, 1) == |metas|
  }

  lemma ReadableMeansAllRead(metas: seq<ColumnMeta>, bound: set<nat>, row: Row)
    ensures Readable(metas, bound, row) <==> forall c | c in bound && 1 <= c <= |metas| :: Reads(metas, row, c)
  {
  }

  // ---- What the bound columns hold ----

  /** A column bound to text: its buffer's type and length, the bind offset, and the bytes
      of its data area. */
  datatype TextColumn = TextColumn(
    kind: AppBuffer.Kind, wide: nat, ansi: bool, buflen: nat, base: nat, area: seq<StrBuffer.byte>)
  {
    function Target(): StrBuffer.Target {
      StrBuffer.Target(if kind == AppBuffer.WideChar then wide else 1, buflen, ansi)
    }

    function Size(): nat {
      AppBuffer.ElementSize(kind, buflen)
    }

    function At(e: nat): nat {
      AppBuffer.Place(base, Size(), e)
    }

    predicate HasElement(e: nat) {
      wide in {2, 4} && AppBuffer.ElementInside(|area|, base, buflen, Size(), e)
    }
  }

  /** The datum last put at each element of each bound column, and the memory of those
      bound to text. */
  datatype Store = Store(cells: map<(nat, nat), Datum>, columns: map<nat, TextColumn>)

  /** The first n elements of every text column lie inside its area. */
  ghost predicate ReadyFor(store: Store, n: nat) {
    forall c, e: nat | c in store.columns && e < n :: store.columns[c].HasElement(e)
  }

  /** The application's promise: the area of every text column has a buffer for each of n
      elements, one after the other, or one at the base for the type without an element
      size. */
  ghost predicate RoomFor(store: Store, n: nat) {
    forall c | c in store.columns ::
      var col := store.columns[c];
      col.wide in {2, 4} && AppBuffer.RowsFit(col.kind, |col.area|, col.base, col.buflen, n)
  }

  lemma RoomForIsReady(store: Store, n: nat)
    requires RoomFor(store, n)
    ensures ReadyFor(store, n)
  {
    forall c, e: nat | c in store.columns && e < n ensures store.columns[c].HasElement(e) {
      var col := store.columns[c];
      AppBuffer.RowsFitIsFits(col.kind, |col.area|, col.base, col.buflen, n);
    }
  }

  /** A column's area after some bytes were written at one element. */
  function AreaAfter(col: TextColumn, e: nat, bytes: seq<StrBuffer.byte>): (r: seq<StrBuffer.byte>)
    requires col.HasElement(e) && |bytes| <= col.buflen
    ensures |r| == |col.area|
  {
    AppBuffer.Overlay(col.area, col.At(e), bytes)
  }

  /** A column's memory after a datum was put at one element. */
  function AfterPut(col: TextColumn, e: nat, d: Datum): TextColumn {
    var text := DatumText.Printed(d);
    if text.Some? && col.HasElement(e) then col.(area := AreaAfter(col, e, AppBuffer.RowBytes(col.Target(), text.value))) else col
  }

  lemma PutKeepsShape(col: TextColumn, e: nat, d: Datum)
    ensures var r := AfterPut(col, e, d); r == col.(area := r.area) && |r.area| == |col.area|
  {
  }

  function PutInto(store: Store, c: nat, e: nat, d: Datum): Store {
    Store(store.cells[(c, e) := d],
          if c in store.columns then store.columns[c := AfterPut(store.columns[c], e, d)] else store.columns)
  }

  lemma PutKeepsReady(store: Store, c: nat, e: nat, d: Datum, n: nat)
    requires ReadyFor(store, n)
    ensures ReadyFor(PutInto(store, c, e, d), n)
  {
    var after := PutInto(store, c, e, d);
    forall b, k: nat | b in after.columns && k < n ensures after.columns[b].HasElement(k) {
      assert store.columns[b].HasElement(k);
      PutKeepsShape(store.columns[b], e, d);
    }
  }

  /** Puts a datum into a column's memory: a buffer object over that memory takes the
      column's text at the element. */
  method PutText(col: TextColumn, e: nat, d: Datum) returns (after: TextColumn)
    requires col.HasElement(e)
    ensures after == AfterPut(col, e, d)
  {
    var area := new StrBuffer.byte[|col.area|](i requires 0 <= i < |col.area| => col.area[i]);
    assert area[..] == col.area;
    var buffer := new AppBuffer.ApplicationDataBuffer(col.kind, col.wide, col.ansi, area, col.buflen, null);
    buffer.byteOffset, buffer.elementOffset := col.base, e;
    AppBuffer.PlaceIs(col.base, col.Size(), e);
    assert buffer.Start() == col.At(e) && buffer.Out() == col.Target();
    DatumText.PrintedFits(d);
    var converted := DatumText.ParseDatum(d, buffer);
    after := col.(area := area[..]);
  }

  /** In a column of the type without an element size every text is put at the base. */
  lemma DefaultPutAtBase(col: TextColumn, e: nat, d: Datum)
    requires col.kind == AppBuffer.Default && col.HasElement(e)
    ensures col.base + col.buflen <= |col.area|
    ensures DatumText.HasText(d) ==>
      AfterPut(col, e, d).area == AppBuffer.Overlay(col.area, col.base, AppBuffer.RowBytes(col.Target(), DatumText.Printed(d).value))
    ensures !DatumText.HasText(d) ==> AfterPut(col, e, d).area == col.area
  {
    DatumText.PrintedFits(d);
    AppBuffer.SamePlace(col.base, e);
  }

  /** The columns an application has bound. */
  class ColumnBindings {
    const columns: set<nat>
    var elementOffset: nat
    var store: Store

    constructor (columns: set<nat>, texts: map<nat, TextColumn>)
      ensures this.columns == columns && elementOffset == 0 && store == Store(map[], texts)
    {
      this.columns := columns;
      elementOffset, store := 0, Store(map[], texts);
    }

    method SetElementOffset(idx: nat)
      modifies this`elementOffset
      ensures elementOffset == idx
    {
      elementOffset := idx;
    }

    method Put(c: nat, d: Datum)
      requires ReadyFor(store, elementOffset + 1)
      modifies this`store
      ensures store == PutInto(old(store), c, elementOffset, d)
    {
      var columns := store.columns;
      if c in columns {
        var after := PutText(columns[c], elementOffset, d);
        columns := columns[c := after];
      }
      store := Store(store.cells[(c, elementOffset) := d], columns);
    }
  }

  /** The store after the bound columns up to `n` of a row were put at one element. */
  ghost function WithRow(store: Store, bound: set<nat>, row: Row, element: nat, n: nat): Store {
    if n == 0 then store
    else
      var before := WithRow(store, bound, row, element, n - 1);
      if n in bound && n <= |row.data| then PutInto(before, n, element, row.data[n - 1]) else before
  }

  lemma {:induction false} WithRowKeepsReady(store: Store, bound: set<nat>, row: Row, element: nat, n: nat, k: nat)
    requires ReadyFor(store, k)
    ensures ReadyFor(WithRow(store, bound, row, element, n), k)
  {
    if n > 0 {
      WithRowKeepsReady(store, bound, row, element, n - 1, k);
      if n in bound && n <= |row.data| {
        PutKeepsReady(WithRow(store, bound, row, element, n - 1), n, element, row.data[n - 1], k);
      }
    }
  }

  /** Column by column: the bound columns hold the row's own data at the element, and
      everything else is as it was. */
  lemma {:induction false} RowCells(store: Store, bound: set<nat>, row: Row, element: nat, n: nat)
    ensures var r, cells := WithRow(store, bound, row, element, n).cells, store.cells;
      forall c: nat, e: nat ::
        && ((c, e) in r <==> (c, e) in cells || (e == element && InRow(bound, row, n, c)))
        && ((c, e) in r ==>
            r[(c, e)] == (if e == element && InRow(bound, row, n, c) then row.data[c - 1] else cells[(c, e)]))
  {
    if n > 0 {
      RowCells(store, bound, row, element, n - 1);
    }
  }

  /** The same for a text column's memory: one put of the row's own datum, or none. */
  lemma {:induction false} RowMemory(store: Store, bound: set<nat>, row: Row, element: nat, n: nat, c: nat)
    requires c in store.columns
    ensures var r := WithRow(store, bound, row, element, n).columns;
      && c in r
      && r[c] == if InRow(bound, row, n, c) then AfterPut(store.columns[c], element, row.data[c - 1]) else store.columns[c]
  {
    if n > 0 {
      RowMemory(store, bound, row, element, n - 1, c);
    }
  }

  predicate InRow(bound: set<nat>, row: Row, n: nat, c: nat) {
    c in bound && 1 <= c <= n && c <= |row.data|
  }
}
