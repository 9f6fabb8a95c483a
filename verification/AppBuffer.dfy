/** Application buffers: where a text value is written for each row of a rowset, and
    what the methods that write it leave in memory. */
module AppBuffer {

  import opened Common
  import opened StrBuffer

  /** `bytes` written over `s` from index `at` on. */
  function Overlay(s: seq<byte>, at: nat, bytes: seq<byte>): (r: seq<byte>)
    requires at + |bytes| <= |s|
    ensures |r| == |s|
  {
    s[..at] + bytes + s[at + |bytes|..]
  }

  lemma OverlayNothing(s: seq<byte>, at: nat)
    requires at <= |s|
    ensures Overlay(s, at, []) == s
  {
  }

  /** What an overlay leaves alone and what it holds. */
  lemma OverlaySlices(s: seq<byte>, at: nat, bytes: seq<byte>, from: nat, to: nat)
    requires at + |bytes| <= |s| && from <= to <= |s|
    ensures to <= at ==> Overlay(s, at, bytes)[from..to] == s[from..to]
    ensures Overlay(s, at, bytes)[at..at + |bytes|] == bytes
  {
  }

  lemma OverlayMore(s: seq<byte>, at: nat, a: seq<byte>, b: seq<byte>)
    requires at + |a| + |b| <= |s|
    ensures Overlay(Overlay(s, at, a), at + |a|, b) == Overlay(s, at, a + b)
  {
  }

  lemma {:induction false} EncodeMore(s: Text, t: Text, w: nat)
    requires CharSize(w)
    ensures Encode(s + t, w) == Encode(s, w) + Encode(t, w)
  {
    if s == [] {
      assert s + t == t;
    } else {
      var st := s + t;
      EncodeMore(s[1..], t, w);
      assert st[1..] == s[1..] + t;
      Associate(CharBytes(s[0] as int, w), Encode(s[1..], w), Encode(t, w));
    }
  }

  lemma EncodeOneMore(s: Text, i: nat, w: nat)
    requires CharSize(w) && i < |s|
    ensures Encode(s[..i + 1], w) == Encode(s[..i], w) + CharBytes(s[i] as int, w)
    ensures |Encode(s[..i + 1], w)| <= |Encode(s, w)|
  {
    var c := s[i..i + 1];
    assert s[..i + 1] == s[..i] + c && c[1..] == [];
    EncodeMore(s[..i], c, w);
    assert Encode(c, w) == CharBytes(c[0] as int, w) + [];
    assert s == s[..i + 1] + s[i + 1..];
    EncodeMore(s[..i + 1], s[i + 1..], w);
  }

  /** Output characters and terminator written one after the other. */
  method WriteText(out: array<byte>, at: nat, s: Text, terminated: bool, w: nat)
    requires CharSize(w) && at + |TextBytes(s, terminated, w)| <= out.Length
    modifies out
    ensures out[..] == Overlay(old(out[..]), at, TextBytes(s, terminated, w))
  {
    var pos := WriteChars(out, at, s, w);
    if terminated {
      OverlayMore(old(out[..]), at, Encode(s, w), CharBytes(0, w));
      WriteBytes(out, pos, CharBytes(0, w));
    } else {
      assert TextBytes(s, terminated, w) == Encode(s, w);
    }
  }

  lemma OverlayOneMore(before: seq<byte>, at: nat, s: Text, i: nat, w: nat)
    requires CharSize(w) && i < |s| && at + |Encode(s, w)| <= |before|
    ensures var pos := at + |Encode(s[..i], w)|;
      && pos + w == at + |Encode(s[..i + 1], w)| <= |before|
      && Overlay(Overlay(before, at, Encode(s[..i], w)), pos, CharBytes(s[i] as int, w))
        == Overlay(before, at, Encode(s[..i + 1], w))
  {
    EncodeOneMore(s, i, w);
    OverlayMore(before, at, Encode(s[..i], w), CharBytes(s[i] as int, w));
  }

  method WriteChars(out: array<byte>, at: nat, s: Text, w: nat) returns (pos: nat)
    requires CharSize(w) && at + |Encode(s, w)| <= out.Length
    modifies out
    ensures pos == at + |Encode(s, w)| && out[..] == Overlay(old(out[..]), at, Encode(s, w))
  {
    ghost var before := out[..];
    pos := at;
    OverlayNothing(before, at);
    for i := 0 to |s|
      invariant pos == at + |Encode(s[..i], w)| <= |before|
      invariant out[..] == Overlay(before, at, Encode(s[..i], w))
    {
      OverlayOneMore(before, at, s, i, w);
      WriteBytes(out, pos, CharBytes(s[i] as int, w));
      pos := pos + w;
    }
    assert s[..|s|] == s;
  }

  method WriteBytes(out: array<byte>, at: nat, bytes: seq<byte>)
    requires at + |bytes| <= out.Length
    modifies out
    ensures out[..] == Overlay(old(out[..]), at, bytes)
  {
    ghost var before := out[..];
    for i := 0 to |bytes|
      invariant out[..] == Overlay(before, at, bytes[..i])
    {
      out[at + i] := bytes[i];
      assert bytes[..i + 1] == bytes[..i] + [bytes[i]];
    }
    assert bytes[..|bytes|] == bytes;
  }

  /** The buffer types that take text; `Default` has no element size. */
  datatype Kind = Char | WideChar | Binary | Default

  function ElementSize(kind: Kind, buflen: nat): nat {
    if kind == Default then 0 else buflen
  }

  /** Size of an SqlLen indicator. */
  const INDICATOR_SIZE := 8

  /** An application buffer bound to a column or passed to SQLGetData: data and
      indicator areas, either of which may be absent. `wide` is sizeof(SQLWCHAR). */
  class ApplicationDataBuffer {
    const kind: Kind
    const wide: nat
    const ansi: bool
    const buffer: array?<byte>
    const buflen: nat
    const reslen: array?<int>
    var byteOffset: nat
    var elementOffset: nat
    var cellOffset: int

    constructor (kind: Kind, wide: nat, ansi: bool, buffer: array?<byte>, buflen: nat, reslen: array?<int>)
      ensures this.kind == kind && this.wide == wide && this.ansi == ansi
      ensures this.buffer == buffer && this.buflen == buflen && this.reslen == reslen
      ensures byteOffset == 0 && elementOffset == 0 && cellOffset == -1
    {
      this.kind, this.wide, this.ansi := kind, wide, ansi;
      this.buffer, this.buflen, this.reslen := buffer, buflen, reslen;
      byteOffset, elementOffset, cellOffset := 0, 0, -1;
    }

    method SetCellOffset(offset: nat)
      modifies this`cellOffset
      ensures cellOffset == offset
    {
      cellOffset := offset;
    }

    function Out(): Target {
      Target(if kind == WideChar then wide else 1, buflen, ansi)
    }

    /** First byte of the current element, as ApplyOffset and GetElementSize give it. */
    function Start(): nat
      reads this`byteOffset, this`elementOffset
    {
      byteOffset + ElementSize(kind, buflen) * elementOffset
    }

    function PlaceOf(i: nat): nat
      reads this`byteOffset
    {
      Place(byteOffset, ElementSize(kind, buflen), i)
    }

    function IndicatorIndex(): nat
      reads this`byteOffset, this`elementOffset
    {
      byteOffset / INDICATOR_SIZE + elementOffset
    }

    /** What the application promises: areas large enough for the current element, and
        an offset that keeps indicators aligned. */
    predicate Valid()
      reads this
    {
      && wide in {2, 4}
      && cellOffset >= -1
      && (buffer != null ==> Start() + buflen <= buffer.Length)
      && (reslen != null ==> byteOffset % INDICATOR_SIZE == 0 && IndicatorIndex() < reslen.Length)
    }

    ghost function Areas(): set<object> {
      (if buffer == null then {} else {buffer as object}) + (if reslen == null then {} else {reslen as object})
    }

    function Offset(): nat
      reads this
    {
      if cellOffset >= 0 then cellOffset else 0
    }

    method SetIndicator(n: int)
      requires Valid()
      modifies if reslen == null then {} else {reslen}
      ensures reslen != null ==> reslen[..] == old(reslen[..])[IndicatorIndex() := n]
    {
      if reslen != null {
        reslen[IndicatorIndex()] := n;
      }
    }

    method StoreText(s: Text) returns (c: Copy)
      requires Valid() && buffer != null
      modifies buffer
      ensures c == CopyOut(Out(), s) && |StoredBytes(Out(), c)| <= buflen
      ensures buffer[..] == Overlay(old(buffer[..]), Start(), StoredBytes(Out(), c))
    {
      var t := Out();
      c := CopyOut(t, s);
      CopyStaysInside(t, s);
      WriteText(buffer, Start(), c.stored, c.terminated, t.w);
    }

    /** The indicator area, if any, changes in one place, to the size of the whole text. */
    twostate predicate SizeReported(value: Text)
      requires old(Valid())
      reads this, Areas()
    {
      reslen != null ==> reslen[..] == old(reslen[..])[old(IndicatorIndex()) := |value| * Out().w]
    }

    /** What putting `value` does: the outcome is that of ReadPart; the data area changes
        only in the stored bytes at the current element and the indicator area only in
        one place. Without a data area the call reports the size required. */
    twostate predicate StringPut(value: Text, result: Conversion)
      requires old(Valid())
      reads this, Areas()
    {
      if buffer == null then
        result == Success && cellOffset == old(cellOffset) && SizeReported(value)
      else
        var p := ReadPart(Out(), value, old(Offset()));
        && result == p.result
        && cellOffset == (if old(cellOffset) >= 0 then p.offset else -1)
        && |StoredBytes(Out(), p.copy)| <= buflen
        && buffer[..] == Overlay(old(buffer[..]), old(Start()), StoredBytes(Out(), p.copy))
        && (reslen != null ==> reslen[..] == old(reslen[..])[old(IndicatorIndex()) := p.indicator])
    }

    /** PutStrToStrBuffer. */
    method PutString(value: Text) returns (result: Conversion)
      requires Valid()
      modifies this`cellOffset, Areas()
      ensures Valid() && StringPut(value, result)
    {
      var w := Out().w;
      var required := |value| * w;
      if buffer == null {
        SetIndicator(required);
        return Success;
      }
      var offset := Offset();
      if offset >= |value| {
        SetIndicator(SQL_NO_TOTAL);
        OverlayNothing(buffer[..], Start());
        return NoData;
      }
      var c := StoreText(value[offset..]);
      var total := offset * w + c.converted * w;
      SetIndicator(if required != total then required - total else required);
      if cellOffset >= 0 {
        cellOffset := cellOffset + c.converted;
      }
      result := if c.truncated then Truncated else Success;
    }
  }

  datatype Write = Write(at: nat, bytes: seq<byte>)

  ghost predicate Inside(length: nat, w: Write) {
    w.at + |w.bytes| <= length
  }

  ghost predicate AllInside(length: nat, writes: seq<Write>) {
    forall w | w in writes :: Inside(length, w)
  }

  /** A data area after the writes, made one after the other. */
  ghost function AfterWrites(area: seq<byte>, writes: seq<Write>): (r: seq<byte>)
    requires AllInside(|area|, writes)
    ensures |r| == |area|
    decreases |writes|
  {
    if writes == [] then area
    else
      var w := writes[|writes| - 1];
      assert w in writes && Inside(|area|, w);
      Overlay(AfterWrites(area, writes[..|writes| - 1]), w.at, w.bytes)
  }

  /** What was written is still there. */
  ghost predicate Holds(area: seq<byte>, w: Write) {
    Inside(|area|, w) && area[w.at..w.at + |w.bytes|] == w.bytes
  }

  lemma OverlayKeeps(area: seq<byte>, w: Write, later: Write)
    requires Holds(area, w) && Inside(|area|, later)
    requires w.at + |w.bytes| <= later.at
      || (w.at == later.at && w.bytes <= later.bytes) || (later.at == w.at && later.bytes == [])
    ensures Holds(Overlay(area, later.at, later.bytes), w)
  {
    OverlaySlices(area, later.at, later.bytes, w.at, w.at + |w.bytes|);
  }

  /** A write that every later write leaves alone or repeats is still there at the end. */
  lemma {:induction false} WriteKept(area: seq<byte>, writes: seq<Write>, j: nat)
    requires AllInside(|area|, writes) && j < |writes|
    requires forall k | j < k < |writes| ::
      || writes[j].at + |writes[j].bytes| <= writes[k].at
      || (writes[j].at == writes[k].at && (writes[j].bytes <= writes[k].bytes || writes[k].bytes == []))
    ensures Holds(AfterWrites(area, writes), writes[j])
    decreases |writes|
  {
    var n := |writes| - 1;
    var w := writes[n];
    assert w in writes && Inside(|area|, w);
    if j < n {
      WriteKept(area, writes[..n], j);
      OverlayKeeps(AfterWrites(area, writes[..n]), writes[j], w);
    } else {
      OverlaySlices(AfterWrites(area, writes[..n]), w.at, w.bytes, 0, 0);
    }
  }

  /** What one row puts into its element of a bound column. */
  function RowBytes(t: Target, value: Text): (r: seq<byte>)
    requires ValidTarget(t)
    ensures |r| <= t.buflen
  {
    CopyStaysInside(t, value);
    StoredBytes(t, ReadPart(t, value, 0).copy)
  }

  /** Where element i is when elements are `size` bytes apart. */
  function Place(base: nat, size: nat, i: nat): nat {
    if i == 0 then base else Place(base, size, i - 1) + size
  }

  lemma {:induction false} PlaceIs(base: nat, size: nat, i: nat)
    ensures Place(base, size, i) == base + size * i
  {
    if i > 0 {
      PlaceIs(base, size, i - 1);
      assert size * i == size * (i - 1) + size;
    }
  }

  lemma {:induction false} Apart(base: nat, size: nat, j: nat, k: nat)
    requires j < k
    ensures Place(base, size, j) + size <= Place(base, size, k)
  {
    if j + 1 < k {
      Apart(base, size, j, k - 1);
    }
  }

  lemma {:induction false} SamePlace(base: nat, i: nat)
    ensures Place(base, 0, i) == base
  {
    if i > 0 {
      SamePlace(base, i - 1);
    }
  }

  function RowWrite(t: Target, base: nat, size: nat, i: nat, value: Text): Write
    requires ValidTarget(t)
  {
    Write(Place(base, size, i), RowBytes(t, value))
  }

  /** The writes of a rowset into a bound column whose elements are `size` bytes apart. */
  ghost function RowWrites(t: Target, base: nat, size: nat, values: seq<Text>): (r: seq<Write>)
    requires ValidTarget(t)
    ensures |r| == |values| && forall i | 0 <= i < |r| :: r[i] == RowWrite(t, base, size, i, values[i])
  {
    seq(|values|, i requires 0 <= i < |values| => RowWrite(t, base, size, i, values[i]))
  }

  /** The elements of `rows` rows lie inside an area of `length` bytes. */
  ghost predicate Fits(length: nat, base: nat, buflen: nat, size: nat, rows: nat) {
    forall i: nat | i < rows :: ElementInside(length, base, buflen, size, i)
  }

  predicate ElementInside(length: nat, base: nat, buflen: nat, size: nat, i: nat) {
    Place(base, size, i) + buflen <= length
  }

  lemma RowsInside(length: nat, t: Target, base: nat, size: nat, values: seq<Text>)
    requires ValidTarget(t) && Fits(length, base, t.buflen, size, |values|)
    ensures AllInside(length, RowWrites(t, base, size, values))
  {
    forall i | 0 <= i < |values| ensures Inside(length, RowWrite(t, base, size, i, values[i])) {
      assert ElementInside(length, base, t.buflen, size, i);
    }
  }

  // ---- Where the elements of a rowset are ----

  /** The elements of `rows` rows lie inside the area: one buffer after the other, and for
      the type without an element size all at the base. */
  predicate RowsFit(kind: Kind, length: nat, base: nat, buflen: nat, rows: nat) {
    rows == 0 || (if kind == Default then base + buflen else base + buflen * rows) <= length
  }

  lemma RowsFitIsFits(kind: Kind, length: nat, base: nat, buflen: nat, rows: nat)
    ensures RowsFit(kind, length, base, buflen, rows) <==> Fits(length, base, buflen, ElementSize(kind, buflen), rows)
  {
    var size := ElementSize(kind, buflen);
    if rows > 0 {
      PlaceIs(base, buflen, rows);
      forall i: nat | i < rows
        ensures Place(base, size, i) <= Place(base, size, rows - 1)
        ensures kind == Default ==> Place(base, size, i) == base
      {
        SamePlace(base, i);
        if i < rows - 1 {
          Apart(base, size, i, rows - 1);
        }
      }
      assert ElementInside(length, base, buflen, size, rows - 1) <==> RowsFit(kind, length, base, buflen, rows);
    }
  }

  ghost function AfterRows(t: Target, base: nat, size: nat, area: seq<byte>, values: seq<Text>): (r: seq<byte>)
    requires ValidTarget(t) && Fits(|area|, base, t.buflen, size, |values|)
    ensures |r| == |area|
  {
    RowsInside(|area|, t, base, size, values);
    AfterWrites(area, RowWrites(t, base, size, values))
  }

  /** A data area after the rows of a rowset were put into a bound column. */
  ghost function AfterRowset(kind: Kind, t: Target, base: nat, area: seq<byte>, values: seq<Text>): (r: seq<byte>)
    requires ValidTarget(t) && RowsFit(kind, |area|, base, t.buflen, |values|)
    ensures |r| == |area|
  {
    RowsFitIsFits(kind, |area|, base, t.buflen, |values|);
    AfterRows(t, base, ElementSize(kind, t.buflen), area, values)
  }

  /** The bytes put for a row are at its own place: i buffers after the base, and for the
      type without an element size at the base. */
  predicate RowHeld(kind: Kind, t: Target, base: nat, after: seq<byte>, i: nat, value: Text)
    requires ValidTarget(t)
  {
    var at := if kind == Default then base else base + t.buflen * i;
    at + |RowBytes(t, value)| <= |after| && after[at..at + |RowBytes(t, value)|] == RowBytes(t, value)
  }

  lemma RowHeldIsHolds(kind: Kind, t: Target, base: nat, after: seq<byte>, i: nat, value: Text)
    requires ValidTarget(t)
    ensures RowHeld(kind, t, base, after, i, value) <==> Holds(after, RowWrite(t, base, ElementSize(kind, t.buflen), i, value))
  {
    PlaceIs(base, t.buflen, i);
    SamePlace(base, i);
  }

  /** After a rowset has been put, every element holds what was put for its own row. */
  ghost predicate RowsKept(kind: Kind, t: Target, base: nat, area: seq<byte>, values: seq<Text>)
    requires ValidTarget(t) && RowsFit(kind, |area|, base, t.buflen, |values|)
  {
    forall i | 0 <= i < |values| :: RowHeld(kind, t, base, AfterRowset(kind, t, base, area, values), i, values[i])
  }

  lemma SizedRowsKept(t: Target, base: nat, area: seq<byte>, values: seq<Text>, j: nat)
    requires ValidTarget(t) && Fits(|area|, base, t.buflen, t.buflen, |values|) && j < |values|
    ensures AllInside(|area|, RowWrites(t, base, t.buflen, values))
    ensures Holds(AfterWrites(area, RowWrites(t, base, t.buflen, values)), RowWrite(t, base, t.buflen, j, values[j]))
  {
    RowsInside(|area|, t, base, t.buflen, values);
    forall k | j < k < |values| {
      Apart(base, t.buflen, j, k);
    }
    WriteKept(area, RowWrites(t, base, t.buflen, values), j);
  }

  lemma NoRoomRowBytes(t: Target, value: Text)
    requires t.w == 1 && Capacity(t.w, t.buflen) == 0
    ensures RowBytes(t, value) == (if value != "" && t.ansi && t.buflen == 1 then [0] else [])
  {
    if value != "" {
      NoRoomLosesText(t, value, 0);
    }
  }

  lemma NoRoomRowsKept(t: Target, base: nat, area: seq<byte>, values: seq<Text>, j: nat)
    requires t.w == 1 && Capacity(t.w, t.buflen) == 0
    requires Fits(|area|, base, t.buflen, 0, |values|) && j < |values|
    ensures AllInside(|area|, RowWrites(t, base, 0, values))
    ensures Holds(AfterWrites(area, RowWrites(t, base, 0, values)), RowWrite(t, base, 0, j, values[j]))
  {
    RowsInside(|area|, t, base, 0, values);
    forall k | j <= k < |values|
      ensures Place(base, 0, k) == base && |RowBytes(t, values[k])| <= 1
      ensures RowBytes(t, values[k]) == [] || RowBytes(t, values[k]) == [0]
    {
      NoRoomRowBytes(t, values[k]);
      SamePlace(base, k);
    }
    WriteKept(area, RowWrites(t, base, 0, values), j);
  }

  /** The last row of a Default column overwrites the first one. */
  lemma DefaultLosesRow(t: Target, base: nat, area: seq<byte>, n: nat) returns (values: seq<Text>)
    requires t.w == 1 && Capacity(t.w, t.buflen) > 0 && n >= 2 && RowsFit(Default, |area|, base, t.buflen, n)
    ensures |values| == n && !RowsKept(Default, t, base, area, values)
  {
    values := seq(n, i => if i < n - 1 then "a" else "b");
    LetterWritten(t, "a");
    LetterWritten(t, "b");
    DefaultKeepsLast(t, base, area, values);
    var after, first, last := AfterRowset(Default, t, base, area, values), RowBytes(t, "a"), RowBytes(t, "b");
    assert after[base] == after[base..base + |last|][0];
    assert first[0] != after[base..base + |first|][0];
    assert !RowHeld(Default, t, base, after, 0, values[0]);
  }

  lemma LetterWritten(t: Target, letter: Text)
    requires t.w == 1 && Capacity(t.w, t.buflen) > 0 && |letter| == 1
    ensures RowBytes(t, letter) != [] && RowBytes(t, letter)[0] == letter[0] as int
  {
    PartAdvances(t, letter, 0);
  }

  lemma AllRowsKept(kind: Kind, t: Target, base: nat, area: seq<byte>, values: seq<Text>)
    requires ValidTarget(t) && (kind != WideChar ==> t.w == 1)
    requires RowsFit(kind, |area|, base, t.buflen, |values|)
    requires kind != Default || Capacity(t.w, t.buflen) == 0
    ensures RowsKept(kind, t, base, area, values)
  {
    RowsFitIsFits(kind, |area|, base, t.buflen, |values|);
    forall j | 0 <= j < |values|
      ensures RowHeld(kind, t, base, AfterRowset(kind, t, base, area, values), j, values[j])
    {
      if kind == Default {
        NoRoomRowsKept(t, base, area, values, j);
      } else {
        SizedRowsKept(t, base, area, values, j);
      }
      RowHeldIsHolds(kind, t, base, AfterRowset(kind, t, base, area, values), j, values[j]);
    }
  }

  /** Rowsets of two or more rows keep every row in a bound column exactly when the
      column's type has an element size or its buffer has no room for a character. */
  lemma RowsKeptIff(kind: Kind, t: Target, base: nat, area: seq<byte>, n: nat)
    requires ValidTarget(t) && n >= 2 && (kind != WideChar ==> t.w == 1)
    requires RowsFit(kind, |area|, base, t.buflen, n)
    ensures (forall values: seq<Text> | |values| == n :: RowsKept(kind, t, base, area, values))
      <==> kind != Default || Capacity(t.w, t.buflen) == 0
  {
    if kind == Default && Capacity(t.w, t.buflen) > 0 {
      var values := DefaultLosesRow(t, base, area, n);
      assert !RowsKept(kind, t, base, area, values);
    } else {
      forall values: seq<Text> | |values| == n ensures RowsKept(kind, t, base, area, values) {
        AllRowsKept(kind, t, base, area, values);
      }
    }
  }

  lemma OverlayInside(s: seq<byte>, at: nat, bytes: seq<byte>, length: nat)
    requires |bytes| <= length && at + length <= |s|
    ensures Overlay(s, at, bytes)[at..at + length] == Overlay(s[at..at + length], 0, bytes)
  {
    var r, slot := Overlay(s, at, bytes), s[at..at + length];
    assert Overlay(slot, 0, bytes) == bytes + slot[|bytes|..];
    assert slot[|bytes|..] == s[at + |bytes|..at + length];
    assert r[at..at + |bytes|] == bytes && r[at + |bytes|..at + length] == s[at + |bytes|..at + length];
    assert r[at..at + length] == r[at..at + |bytes|] + r[at + |bytes|..at + length];
  }

  lemma OverlayOutside(s: seq<byte>, at: nat, bytes: seq<byte>, from: nat, to: nat)
    requires at + |bytes| <= |s| && from <= to <= |s| && (to <= at || at + |bytes| <= from)
    ensures Overlay(s, at, bytes)[from..to] == s[from..to]
  {
  }

  /** Between two areas, the `length` bytes from `at` on have taken `bytes` at their start. */
  predicate Took(before: seq<byte>, after: seq<byte>, at: nat, length: nat, bytes: seq<byte>) {
    && at + length <= |before| == |after| && |bytes| <= length
    && after[at..at + length] == Overlay(before[at..at + length], 0, bytes)
  }

  lemma TookThen(area: seq<byte>, before: seq<byte>, at: nat, length: nat, bytes: seq<byte>, later: nat, more: seq<byte>)
    requires Took(area, before, at, length, bytes) && later + |more| <= |before|
    requires at + length <= later || later + |more| <= at
    ensures Took(area, Overlay(before, later, more), at, length, bytes)
  {
    OverlayOutside(before, later, more, at, at + length);
  }

  lemma TookNow(area: seq<byte>, before: seq<byte>, at: nat, length: nat, bytes: seq<byte>)
    requires |area| == |before| && at + length <= |area| && |bytes| <= length
    requires before[at..at + length] == area[at..at + length]
    ensures Took(area, Overlay(before, at, bytes), at, length, bytes)
  {
    OverlayInside(before, at, bytes, length);
  }

  /** Writes into slots of `size` bytes, one after the other. */
  ghost predicate Spaced(length: nat, writes: seq<Write>, size: nat) {
    && (forall k | 0 <= k < |writes| :: |writes[k].bytes| <= size && writes[k].at + size <= length)
    && forall j, k | 0 <= j < k < |writes| :: writes[j].at + size <= writes[k].at
  }

  lemma SpacedInside(length: nat, writes: seq<Write>, size: nat)
    requires Spaced(length, writes, size)
    ensures AllInside(length, writes)
  {
  }

  lemma AfterLast(area: seq<byte>, writes: seq<Write>)
    requires writes != [] && AllInside(|area|, writes)
    ensures var n := |writes| - 1; var w := writes[n];
      && AllInside(|area|, writes[..n]) && Inside(|area|, w)
      && AfterWrites(area, writes) == Overlay(AfterWrites(area, writes[..n]), w.at, w.bytes)
  {
    assert writes[|writes| - 1] in writes;
  }

  /** Bytes that no slot reaches stay as they were. */
  lemma {:induction false} WritesElsewhere(area: seq<byte>, writes: seq<Write>, size: nat, from: nat, to: nat)
    requires Spaced(|area|, writes, size) && from <= to <= |area|
    requires forall k | 0 <= k < |writes| :: to <= writes[k].at || writes[k].at + size <= from
    ensures AllInside(|area|, writes) && AfterWrites(area, writes)[from..to] == area[from..to]
    decreases |writes|
  {
    SpacedInside(|area|, writes, size);
    if writes != [] {
      var n := |writes| - 1;
      WritesElsewhere(area, writes[..n], size, from, to);
      AfterLast(area, writes);
      OverlayOutside(AfterWrites(area, writes[..n]), writes[n].at, writes[n].bytes, from, to);
    }
  }

  lemma {:induction false} WritesTook(area: seq<byte>, writes: seq<Write>, size: nat, i: nat)
    requires Spaced(|area|, writes, size) && i < |writes|
    ensures AllInside(|area|, writes)
    ensures Took(area, AfterWrites(area, writes), writes[i].at, size, writes[i].bytes)
    decreases |writes|
  {
    SpacedInside(|area|, writes, size);
    var n := |writes| - 1;
    AfterLast(area, writes);
    var before, w := AfterWrites(area, writes[..n]), writes[n];
    if i == n {
      WritesElsewhere(area, writes[..n], size, w.at, w.at + size);
      TookNow(area, before, w.at, size, w.bytes);
    } else {
      WritesTook(area, writes[..n], size, i);
      TookThen(area, before, writes[i].at, size, writes[i].bytes, w.at, w.bytes);
    }
  }

  lemma RowsSpaced(length: nat, t: Target, base: nat, values: seq<Text>)
    requires ValidTarget(t) && Fits(length, base, t.buflen, t.buflen, |values|)
    ensures Spaced(length, RowWrites(t, base, t.buflen, values), t.buflen)
  {
    var writes := RowWrites(t, base, t.buflen, values);
    forall k | 0 <= k < |writes| ensures |writes[k].bytes| <= t.buflen && writes[k].at + t.buflen <= length {
      assert ElementInside(length, base, t.buflen, t.buflen, k);
    }
    forall j, k | 0 <= j < k < |writes| ensures writes[j].at + t.buflen <= writes[k].at {
      Apart(base, t.buflen, j, k);
    }
  }

  /** The buffer that begins i buffers after the base has taken the text of row i. */
  predicate TookAt(t: Target, base: nat, before: seq<byte>, after: seq<byte>, i: nat, value: Text)
    requires ValidTarget(t)
  {
    Took(before, after, base + t.buflen * i, t.buflen, RowBytes(t, value))
  }

  /** Putting a rowset changes each element by the text of its own row: element i is the
      `buflen` bytes that begin i buffers after the base. */
  lemma RowsetTook(kind: Kind, t: Target, base: nat, area: seq<byte>, values: seq<Text>, i: nat)
    requires ValidTarget(t) && kind != Default && RowsFit(kind, |area|, base, t.buflen, |values|) && i < |values|
    ensures TookAt(t, base, area, AfterRowset(kind, t, base, area, values), i, values[i])
  {
    RowsFitIsFits(kind, |area|, base, t.buflen, |values|);
    RowsSpaced(|area|, t, base, values);
    WritesTook(area, RowWrites(t, base, t.buflen, values), t.buflen, i);
    PlaceIs(base, t.buflen, i);
  }

  /** Every element has taken its own row's text: element i is the buffer that begins i
      buffers after the base. */
  ghost predicate EachTook(t: Target, base: nat, before: seq<byte>, after: seq<byte>, values: seq<Text>)
    requires ValidTarget(t)
  {
    forall i | 0 <= i < |values| :: TookAt(t, base, before, after, i, values[i])
  }

  lemma AllTook(kind: Kind, t: Target, base: nat, area: seq<byte>, values: seq<Text>)
    requires ValidTarget(t) && RowsFit(kind, |area|, base, t.buflen, |values|)
    ensures kind != Default ==> EachTook(t, base, area, AfterRowset(kind, t, base, area, values), values)
  {
    if kind != Default {
      forall i | 0 <= i < |values|
        ensures TookAt(t, base, area, AfterRowset(kind, t, base, area, values), i, values[i])
      {
        RowsetTook(kind, t, base, area, values, i);
      }
    }
  }

  lemma RowsBetween(base: nat, buflen: nat, n: nat, k: nat)
    requires k < n
    ensures base <= Place(base, buflen, k) && Place(base, buflen, k) + buflen <= base + buflen * n
  {
    PlaceIs(base, buflen, k);
    PlaceIs(base, buflen, n);
    Apart(base, buflen, k, n);
  }

  /** Before the first element of a rowset and after the last nothing changes. */
  lemma RowsetElsewhere(kind: Kind, t: Target, base: nat, area: seq<byte>, values: seq<Text>, from: nat, to: nat)
    requires ValidTarget(t) && kind != Default && RowsFit(kind, |area|, base, t.buflen, |values|)
    requires from <= to <= |area| && (to <= base || base + t.buflen * |values| <= from)
    ensures AfterRowset(kind, t, base, area, values)[from..to] == area[from..to]
  {
    RowsFitIsFits(kind, |area|, base, t.buflen, |values|);
    RowsSpaced(|area|, t, base, values);
    var writes := RowWrites(t, base, t.buflen, values);
    forall k | 0 <= k < |writes| ensures to <= writes[k].at || writes[k].at + t.buflen <= from {
      RowsBetween(base, t.buflen, |values|, k);
    }
    WritesElsewhere(area, writes, t.buflen, from, to);
  }

  /** The buffer at `at` reads back a value as ReadsBackIff says. */
  predicate ReadsBackAt(t: Target, before: seq<byte>, after: seq<byte>, at: nat, value: Text)
    requires ValidTarget(t)
  {
    && at + t.buflen <= |before| == |after|
    && ReadsBackIff(t, before[at..at + t.buflen], after[at..at + t.buflen], value)
  }

  lemma TookReadsBack(t: Target, before: seq<byte>, after: seq<byte>, at: nat, value: Text)
    requires ValidTarget(t) && Took(before, after, at, t.buflen, RowBytes(t, value))
    ensures ReadsBackAt(t, before, after, at, value)
  {
    RowReadsBackIff(t, value, before[at..at + t.buflen]);
  }

  lemma EachReadsBack(t: Target, base: nat, before: seq<byte>, after: seq<byte>, values: seq<Text>, i: nat)
    requires ValidTarget(t) && EachTook(t, base, before, after, values) && i < |values|
    ensures ReadsBackAt(t, before, after, base + t.buflen * i, values[i])
  {
    TookReadsBack(t, before, after, base + t.buflen * i, values[i]);
  }

  /** For every type with an element size: after a rowset the bytes from i buffers after the
      base up to the next buffer read back the first part of row i's text, if and only if
      the text is not empty and the buffer takes a terminator, or they read as empty before. */
  lemma RowsetKept(kind: Kind, t: Target, base: nat, area: seq<byte>, after: seq<byte>, values: seq<Text>, i: nat)
    requires ValidTarget(t) && kind != Default && RowsFit(kind, |area|, base, t.buflen, |values|) && i < |values|
    requires after == AfterRowset(kind, t, base, area, values)
    ensures ReadsBackAt(t, area, after, base + t.buflen * i, values[i])
  {
    AllTook(kind, t, base, area, values);
    EachReadsBack(t, base, area, after, values, i);
  }

  /** Every row of the type without an element size is put at the base, so the last one is
      there at the end. */
  lemma DefaultKeepsLast(t: Target, base: nat, area: seq<byte>, values: seq<Text>)
    requires ValidTarget(t) && values != [] && base + t.buflen <= |area|
    ensures var after, bytes := AfterRowset(Default, t, base, area, values), RowBytes(t, values[|values| - 1]);
      |bytes| <= t.buflen && after[base..base + |bytes|] == bytes
  {
    var n := |values|;
    RowsFitIsFits(Default, |area|, base, t.buflen, n);
    RowsInside(|area|, t, base, 0, values);
    WriteKept(area, RowWrites(t, base, 0, values), n - 1);
    SamePlace(base, n - 1);
  }

  lemma AfterOneMore(area: seq<byte>, writes: seq<Write>, w: Write)
    requires AllInside(|area|, writes) && Inside(|area|, w)
    ensures AllInside(|area|, writes + [w])
    ensures AfterWrites(area, writes + [w]) == Overlay(AfterWrites(area, writes), w.at, w.bytes)
  {
    assert (writes + [w])[..|writes|] == writes;
  }

  /** The indicator of one row of a bound column. */
  function RowIndicator(t: Target, value: Text): int
    requires ValidTarget(t)
  {
    ReadPart(t, value, 0).indicator
  }

  /** One row put into a bound column: the element offset is set, then the value put. */
  method PutRow(column: ApplicationDataBuffer, i: nat, value: Text)
    requires column.wide in {2, 4} && column.buffer != null && column.cellOffset == -1
    requires column.PlaceOf(i) + column.buflen <= column.buffer.Length
    requires column.reslen != null ==>
      column.byteOffset % INDICATOR_SIZE == 0 && column.byteOffset / INDICATOR_SIZE + i < column.reslen.Length
    modifies column`elementOffset, column`cellOffset, column.Areas()
    ensures column.cellOffset == -1
    ensures
      column.buffer[..] == Overlay(old(column.buffer[..]), column.PlaceOf(i), RowBytes(column.Out(), value))
    ensures column.reslen != null ==>
      column.reslen[..] == old(column.reslen[..])[column.byteOffset / INDICATOR_SIZE + i := RowIndicator(column.Out(), value)]
  {
    PlaceIs(column.byteOffset, ElementSize(column.kind, column.buflen), i);
    column.elementOffset := i;
    var result := column.PutString(value);
  }

  /** What a row's indicator is: the size of its text in bytes when it fits or nothing of it
      is stored, what is left of it when it is cut, and no total for an empty one. */
  lemma RowIndicatorIs(t: Target, value: Text)
    requires ValidTarget(t)
    ensures RowIndicator(t, value) ==
      if value == "" then -4
      else if CharsBeside(t.w, t.buflen) == 0 || |value| <= CharsBeside(t.w, t.buflen) then |value| * t.w
      else (|value| - CharsBeside(t.w, t.buflen)) * t.w
  {
    RoomIs(t.w, t.buflen);
    if CharsBeside(t.w, t.buflen) > 0 {
      PartIs(t, value, 0);
    } else if value != "" {
      NoRoomLosesText(t, value, 0);
    }
  }

  /** An indicator area after the first n rows of a rowset were put, from `first` on. */
  ghost function AfterIndicators(t: Target, values: seq<Text>, before: seq<int>, first: nat, n: nat): (r: seq<int>)
    requires ValidTarget(t) && n <= |values| && first + n <= |before|
    ensures |r| == |before|
  {
    if n == 0 then before
    else AfterIndicators(t, values, before, first, n - 1)[first + n - 1 := RowIndicator(t, values[n - 1])]
  }

  ghost predicate IndicatorAt(t: Target, values: seq<Text>, before: seq<int>, first: nat, n: nat, after: seq<int>, k: nat)
    requires ValidTarget(t) && n <= |values| && k < |before| == |after|
  {
    after[k] == if first <= k < first + n then RowIndicator(t, values[k - first]) else before[k]
  }

  /** Place by place: each row's place holds its own indicator, every other place is as it
      was. */
  lemma {:induction false} IndicatorsAt(t: Target, values: seq<Text>, before: seq<int>, first: nat, n: nat, k: nat)
    requires ValidTarget(t) && n <= |values| && first + n <= |before| && k < |before|
    ensures IndicatorAt(t, values, before, first, n, AfterIndicators(t, values, before, first, n), k)
  {
    if n > 0 {
      IndicatorsAt(t, values, before, first, n - 1, k);
    }
  }

  /** The writes are those of the first rows, and the area is what they make of it. */
  ghost predicate WritesDone(
    t: Target, base: nat, size: nat, values: seq<Text>, writes: seq<Write>, before: seq<byte>, after: seq<byte>)
    requires ValidTarget(t)
  {
    && |writes| <= |values| && (forall k | 0 <= k < |writes| :: writes[k] == RowWrite(t, base, size, k, values[k]))
    && AllInside(|before|, writes) && after == AfterWrites(before, writes)
  }

  lemma WriteStep(
    t: Target, base: nat, size: nat, values: seq<Text>, writes: seq<Write>, before: seq<byte>, after: seq<byte>)
    requires ValidTarget(t) && WritesDone(t, base, size, values, writes, before, after) && |writes| < |values|
    requires Inside(|before|, RowWrite(t, base, size, |writes|, values[|writes|]))
    ensures var w := RowWrite(t, base, size, |writes|, values[|writes|]);
      |after| == |before| && WritesDone(t, base, size, values, writes + [w], before, Overlay(after, w.at, w.bytes))
  {
    AfterOneMore(before, writes, RowWrite(t, base, size, |writes|, values[|writes|]));
  }

  /** The indicators put so far, when there is an indicator area. */
  ghost predicate IndicatorsDone(column: ApplicationDataBuffer, values: seq<Text>, before: seq<int>, n: nat)
    requires ValidTarget(column.Out()) && n <= |values|
    reads column, if column.reslen == null then {} else {column.reslen}
  {
    column.reslen != null ==>
      var first := column.byteOffset / 8;
      first + n <= |before| && column.reslen[..] == AfterIndicators(column.Out(), values, before, first, n)
  }

  /** A bound column with room for the rows of a rowset. */
  ghost predicate Ready(column: ApplicationDataBuffer, rows: nat)
    reads column
  {
    column.cellOffset == -1 && AreasFit(column, column.byteOffset, rows)
  }

  /** The same in terms of the places that the buffer object computes. */
  ghost predicate Prepared(column: ApplicationDataBuffer, rows: nat)
    reads column
  {
    && column.wide in {2, 4} && column.buffer != null && column.cellOffset == -1
    && Fits(column.buffer.Length, column.byteOffset, column.buflen, ElementSize(column.kind, column.buflen), rows)
    && (column.reslen != null ==>
        && column.byteOffset % INDICATOR_SIZE == 0
        && column.byteOffset / INDICATOR_SIZE + rows <= column.reslen.Length)
  }

  ghost predicate AreasFit(column: ApplicationDataBuffer, base: nat, rows: nat) {
    && column.wide in {2, 4} && column.buffer != null
    && RowsFit(column.kind, column.buffer.Length, base, column.buflen, rows)
    && (column.reslen != null ==> base % INDICATOR_SIZE == 0 && base / INDICATOR_SIZE + rows <= column.reslen.Length)
  }

  /** One pass over the rows: row i is put after the rows before it. */
  method PutNextRow(column: ApplicationDataBuffer, values: seq<Text>, i: nat,
    ghost t: Target, ghost base: nat, ghost size: nat,
    ghost writes: seq<Write>, ghost before: seq<byte>, ghost indicators: seq<int>)
    requires Prepared(column, |values|) && i == |writes| < |values| && |before| == column.buffer.Length
    requires t == column.Out() && base == column.byteOffset && size == ElementSize(column.kind, column.buflen)
    requires WritesDone(t, base, size, values, writes, before, column.buffer[..])
    requires IndicatorsDone(column, values, indicators, i)
    modifies column`elementOffset, column`cellOffset, column.Areas()
    ensures Prepared(column, |values|)
    ensures WritesDone(t, base, size, values, writes + [RowWrite(t, base, size, i, values[i])], before, column.buffer[..])
    ensures IndicatorsDone(column, values, indicators, i + 1)
  {
    assert ElementInside(|before|, base, t.buflen, size, i);
    WriteStep(t, base, size, values, writes, before, column.buffer[..]);
    PutRow(column, i, values[i]);
  }

  /** The rows of a rowset put into one bound column: with an element size, each changes
      exactly the buffer at its own place; each row's place in the indicator area, of 8
      bytes, holds its own indicator. */
  method PutRows(column: ApplicationDataBuffer, values: seq<Text>)
    requires Ready(column, |values|)
    modifies column`elementOffset, column`cellOffset, column.Areas()
    ensures Ready(column, |values|)
    ensures column.buffer[..] == AfterRowset(column.kind, column.Out(), column.byteOffset, old(column.buffer[..]), values)
    ensures column.kind != Default ==>
      EachTook(column.Out(), column.byteOffset, old(column.buffer[..]), column.buffer[..], values)
    ensures IndicatorsDone(column, values, if column.reslen == null then [] else old(column.reslen[..]), |values|)
  {
    ghost var before := column.buffer[..];
    ghost var indicators := if column.reslen == null then [] else column.reslen[..];
    ghost var t, base, size := column.Out(), column.byteOffset, ElementSize(column.kind, column.buflen);
    ghost var writes: seq<Write> := [];
    RowsFitIsFits(column.kind, |before|, column.byteOffset, column.buflen, |values|);
    for i := 0 to |values|
      invariant Prepared(column, |values|) && |writes| == i
      invariant WritesDone(t, base, size, values, writes, before, column.buffer[..])
      invariant IndicatorsDone(column, values, indicators, i)
    {
      PutNextRow(column, values, i, t, base, size, writes, before, indicators);
      writes := writes + [RowWrite(t, base, size, i, values[i])];
    }
    assert writes == RowWrites(t, base, size, values);
    RowsFitIsFits(column.kind, |before|, column.byteOffset, column.buflen, |values|);
    AllTook(column.kind, column.Out(), column.byteOffset, before, values);
  }

  /** A row's element reads back as the first part of its value. */
  lemma RowReadsBack(t: Target, value: Text, rest: seq<byte>)
    requires ValidTarget(t) && Capacity(t.w, t.buflen) > 0 && value != ""
    ensures ReadBack(RowBytes(t, value) + rest, t.w) == value[..Min(Capacity(t.w, t.buflen), |value|)]
  {
    PartAdvances(t, value, 0);
    CopyReadsBack(t, value, rest);
    assert value[0..] == value;
  }

  /** A buffer that takes at least a terminator when a text is put. */
  predicate Terminates(t: Target) {
    if t.w > 1 then t.buflen > t.w else t.buflen > 1 || (t.ansi && t.buflen == 1)
  }

  lemma NoRoomRow(t: Target, value: Text, was: seq<byte>)
    requires ValidTarget(t) && Capacity(t.w, t.buflen) == 0 && |was| == t.buflen && value != ""
    ensures RowBytes(t, value) == if Terminates(t) then CharBytes(0, t.w) else []
  {
    NoRoomLosesText(t, value, 0);
    assert value[0..] == value;
    assert CharBytes(0, t.w) == [] + CharBytes(0, t.w);
  }

  /** A row's element, which held `was` before and holds `now`, reads back as the first part
      of its value, as much as the buffer has room for, if and only if the value is not
      empty and the buffer takes a terminator, or the element read as empty before. */
  predicate ReadsBackIff(t: Target, was: seq<byte>, now: seq<byte>, value: Text)
    requires ValidTarget(t)
  {
    var room := CharsBeside(t.w, t.buflen);
    var terminates := if t.w > 1 then t.buflen > t.w else t.buflen > 1 || (t.ansi && t.buflen == 1);
    ReadBack(now, t.w) == value[..Min(room, |value|)] <==> (value != "" && terminates) || ReadBack(was, t.w) == ""
  }

  /** So it is for every row that is put: without a terminator nothing is put, and what the
      element held stays. */
  lemma RowReadsBackIff(t: Target, value: Text, was: seq<byte>)
    requires ValidTarget(t) && |was| == t.buflen
    ensures ReadsBackIff(t, was, Overlay(was, 0, RowBytes(t, value)), value)
  {
    RowReadsFirstPart(t, value, was);
    ReadsFirstPart(t, was, Overlay(was, 0, RowBytes(t, value)), value);
  }

  lemma ReadsFirstPart(t: Target, was: seq<byte>, now: seq<byte>, value: Text)
    requires ValidTarget(t)
    requires ReadBack(now, t.w) == value[..Min(Capacity(t.w, t.buflen), |value|)]
      <==> (value != "" && Terminates(t)) || ReadBack(was, t.w) == ""
    ensures ReadsBackIff(t, was, now, value)
  {
    RoomIs(t.w, t.buflen);
  }

  lemma RowReadsFirstPart(t: Target, value: Text, was: seq<byte>)
    requires ValidTarget(t) && |was| == t.buflen
    ensures ReadBack(Overlay(was, 0, RowBytes(t, value)), t.w) == value[..Min(Capacity(t.w, t.buflen), |value|)]
      <==> (value != "" && Terminates(t)) || ReadBack(was, t.w) == ""
  {
    var bytes := RowBytes(t, value);
    HasRoom(t.w, t.buflen);
    if value == "" {
      OverlayNothing(was, 0);
    } else if Capacity(t.w, t.buflen) > 0 {
      RowReadsBack(t, value, was[|bytes|..]);
      assert Overlay(was, 0, bytes) == bytes + was[|bytes|..];
    } else {
      NoRoomRow(t, value, was);
      if !Terminates(t) {
        OverlayNothing(was, 0);
      }
    }
  }

  /** An element that held a letter still reads as that letter after an empty value. */
  lemma EmptyValueShowsOld(ansi: bool) returns (was: seq<byte>)
    ensures was == ['a' as int, 0]
    ensures ReadBack(Overlay(was, 0, RowBytes(Target(1, 2, ansi), "")), 1) == "a"
  {
    was := ['a' as int, 0];
    OverlayNothing(was, 0);
    assert was[1..][0] == 0 && ReadBack(was[1..], 1) == "";
  }
}
