/** The text of nested values. The column code prints each child of an array or a row
    into a buffer of 1024 bytes of its own and appends what that buffer reads back. */
module DatumText {

  import opened Common
  import opened StrBuffer
  import opened AppBuffer
  import Service
  import Strings = Text

  type Datum = Service.Datum

  /** Size of the buffer a child is printed into. */
  const BUFFER_SIZE := 1024

  const SQL_NULL_DATA := -1

  function Cut(s: Text): Text {
    s[..Min(BUFFER_SIZE - 1, |s|)]
  }

  /** The text put for a value when child texts are cut to what their buffers hold;
      None when nothing is put. */
  function Printed(d: Datum): Option<Text>
    decreases d, 0
  {
    match d
    case Scalar(text) => Some(text)
    case Array(items) => if items == [] then Some("") else Some("[" + Joined(items) + "]")
    case RowValue(row) => if row.dataSet then Some("(" + Joined(row.data) + ")") else None
    case Null => None
    case Unset => None
  }

  function Child(d: Datum): Text
    decreases d, 1
  {
    var p := Printed(d);
    if p.None? then "" else Cut(p.value)
  }

  function Joined(items: seq<Datum>): Text
    decreases items
  {
    if items == [] then ""
    else if |items| == 1 then Child(items[0])
    else Child(items[0]) + "," + Joined(items[1..])
  }

  /** The text of a value with nothing cut. */
  function FullText(d: Datum): Text
    decreases d
  {
    match d
    case Scalar(text) => text
    case Array(items) => if items == [] then "" else "[" + FullJoined(items) + "]"
    case RowValue(row) => if row.dataSet then "(" + FullJoined(row.data) + ")" else ""
    case Null => ""
    case Unset => ""
  }

  function FullJoined(items: seq<Datum>): Text
    decreases items
  {
    if items == [] then ""
    else if |items| == 1 then FullText(items[0])
    else FullText(items[0]) + "," + FullJoined(items[1..])
  }

  /** Whether anything is put for a value. */
  predicate HasText(d: Datum) {
    !d.Null? && !d.Unset? && (d.RowValue? ==> d.row.dataSet)
  }

  /** Every child, at any depth, fits its buffer. */
  ghost predicate ChildrenFit(d: Datum)
    decreases d, 1
  {
    match d
    case Array(items) => AllFit(items)
    case RowValue(row) => row.dataSet ==> AllFit(row.data)
    case _ => true
  }

  ghost predicate AllFit(items: seq<Datum>)
    decreases items
  {
    items == [] || (|FullText(items[0])| < BUFFER_SIZE && ChildrenFit(items[0]) && AllFit(items[1..]))
  }

  lemma {:induction false} JoinedFits(items: seq<Datum>)
    ensures |Joined(items)| <= |FullJoined(items)|
    ensures |Joined(items)| == |FullJoined(items)| <==> AllFit(items)
    ensures AllFit(items) ==> Joined(items) == FullJoined(items)
    decreases items
  {
    if items != [] {
      ChildFits(items[0]);
      JoinedFits(items[1..]);
    }
  }

  lemma {:induction false} ChildFits(d: Datum)
    ensures |Child(d)| <= |FullText(d)|
    ensures |Child(d)| == |FullText(d)| <==> |FullText(d)| < BUFFER_SIZE && ChildrenFit(d)
    ensures |FullText(d)| < BUFFER_SIZE && ChildrenFit(d) ==> Child(d) == FullText(d)
    decreases d, 1
  {
    PrintedFits(d);
  }

  lemma {:induction false} PrintedFits(d: Datum)
    ensures Printed(d).Some? <==> HasText(d)
    ensures !HasText(d) ==> FullText(d) == "" && ChildrenFit(d)
    ensures HasText(d) ==>
      && |Printed(d).value| <= |FullText(d)|
      && (|Printed(d).value| == |FullText(d)| <==> ChildrenFit(d))
      && (ChildrenFit(d) ==> Printed(d).value == FullText(d))
    decreases d, 0
  {
    match d
    case Array(items) => JoinedFits(items);
    case RowValue(row) => JoinedFits(row.data);
    case _ =>
  }

  /** The printer gives the uncut text exactly when no child, at any depth, is longer
      than 1023 characters. */
  lemma PrintedIsFullIff(d: Datum)
    ensures Printed(d) == (if HasText(d) then Some(FullText(d)) else None) <==> ChildrenFit(d)
  {
    PrintedFits(d);
  }

  /** An array of one text of 1024 characters prints without its last character. */
  lemma LongChildIsCut(text: Text)
    requires |text| == 1024
    ensures var d := Service.Array([Service.Scalar(text)]);
      Printed(d) == Some("[" + text[..1023] + "]") && FullText(d) == "[" + text + "]" && Printed(d) != Some(FullText(d))
  {
    var items := [Service.Scalar(text)];
    OneChild(items);
    assert |"[" + text + "]"| != |"[" + text[..1023] + "]"|;
  }

  lemma OneChild(items: seq<Datum>)
    requires |items| == 1
    ensures Joined(items) == Child(items[0]) && FullJoined(items) == FullText(items[0])
  {
  }

  // ---- How children are put together ----

  /** What a child adds to the text around it: the first 1023 characters of its own text, or
      nothing when it has none. */
  predicate ShownAs(d: Datum, text: string) {
    match Printed(d)
    case None => text == ""
    case Some(whole) => text == if |whole| <= 1023 then whole else whole[..1023]
  }

  lemma {:induction false} JoinedIs(items: seq<Datum>, texts: seq<string>)
    requires |texts| == |items| && forall i | 0 <= i < |items| :: ShownAs(items[i], texts[i])
    ensures Joined(items) == Strings.JoinWith(texts, ",")
    decreases |items|
  {
    if |items| > 1 {
      JoinedIs(items[1..], texts[1..]);
    }
  }

  /** An array is its children in brackets with commas between them, and empty without
      children; a row is its columns in parentheses, also without any, and has no text
      without data. */
  lemma NestedText(items: seq<Datum>, texts: seq<string>)
    requires |texts| == |items| && forall i | 0 <= i < |items| :: ShownAs(items[i], texts[i])
    ensures Printed(Service.Array(items)) == Some(if items == [] then "" else "[" + Strings.JoinWith(texts, ",") + "]")
    ensures Printed(Service.RowValue(Service.Row(true, items))) == Some("(" + Strings.JoinWith(texts, ",") + ")")
    ensures Printed(Service.RowValue(Service.Row(false, items))) == None
  {
    JoinedIs(items, texts);
  }

  /** A row of a text and a null. */
  lemma RowOfTwo(text: Text)
    requires |text| < 1024
    ensures Printed(Service.RowValue(Service.Row(true, [Service.Scalar(text), Service.Null]))) == Some("(" + (text + ",") + ")")
  {
    var items, texts: seq<string> := [Service.Scalar(text), Service.Null], [text, ""];
    NestedText(items, texts);
    assert texts[1..] == [""];
    assert Strings.JoinWith(texts, ",") == text + "," + "" == text + ",";
  }

  // ---- Brackets ----

  /** The open brackets after reading `s` with `stack` open; None on a mismatch. */
  function Scan(stack: seq<char>, s: string): Option<seq<char>>
    decreases |s|
  {
    if s == "" then Some(stack)
    else if s[0] == '(' || s[0] == '[' then Scan([s[0]] + stack, s[1..])
    else if s[0] == ')' || s[0] == ']' then
      if stack != [] && stack[0] == (if s[0] == ')' then '(' else '[') then Scan(stack[1..], s[1..]) else None
    else Scan(stack, s[1..])
  }

  predicate Balanced(s: string) {
    Scan([], s) == Some([])
  }

  predicate NoBrackets(s: string) {
    forall i | 0 <= i < |s| :: s[i] != '(' && s[i] != ')' && s[i] != '[' && s[i] != ']'
  }

  /** Scalars without brackets. */
  ghost predicate BracketFree(d: Datum)
    decreases d
  {
    match d
    case Scalar(text) => NoBrackets(text)
    case Array(items) => forall i | 0 <= i < |items| :: BracketFree(items[i])
    case RowValue(row) => forall i | 0 <= i < |row.data| :: BracketFree(row.data[i])
    case _ => true
  }

  lemma {:induction false} ScanAppend(stack: seq<char>, a: string, b: string)
    requires Scan(stack, a).Some?
    ensures Scan(stack, a + b) == Scan(Scan(stack, a).value, b)
    decreases |a|
  {
    if a == "" {
      assert a + b == b;
    } else {
      assert (a + b)[1..] == a[1..] + b;
      var next := if a[0] == '(' || a[0] == '[' then [a[0]] + stack
        else if a[0] == ')' || a[0] == ']' then stack[1..] else stack;
      ScanAppend(next, a[1..], b);
    }
  }

  lemma {:induction false} ScanFree(stack: seq<char>, s: string)
    requires NoBrackets(s)
    ensures Scan(stack, s) == Some(stack)
    decreases |s|
  {
    if s != "" {
      ScanFree(stack, s[1..]);
    }
  }

  /** Reading an uncut text leaves the open brackets as they were. */
  lemma {:induction false} FullTextScans(stack: seq<char>, d: Datum)
    requires BracketFree(d)
    ensures Scan(stack, FullText(d)) == Some(stack)
    decreases d
  {
    match d
    case Scalar(text) => ScanFree(stack, text);
    case Array(items) =>
      if items != [] {
        FullJoinedScans(['['] + stack, items);
        Enclosed(stack, '[', FullJoined(items), ']');
      }
    case RowValue(row) =>
      if row.dataSet {
        FullJoinedScans(['('] + stack, row.data);
        Enclosed(stack, '(', FullJoined(row.data), ')');
      }
    case _ =>
  }

  lemma Enclosed(stack: seq<char>, open: char, s: string, close: char)
    requires (open == '(' && close == ')') || (open == '[' && close == ']')
    requires Scan([open] + stack, s) == Some([open] + stack)
    ensures Scan(stack, [open] + s + [close]) == Some(stack)
  {
    ScanAppend([open] + stack, s, [close]);
    var whole := [open] + s + [close];
    assert whole[1..] == s + [close];
    assert ([open] + stack)[1..] == stack && [close][1..] == "";
  }

  lemma {:induction false} FullJoinedScans(stack: seq<char>, items: seq<Datum>)
    requires forall i | 0 <= i < |items| :: BracketFree(items[i])
    ensures Scan(stack, FullJoined(items)) == Some(stack)
    decreases items
  {
    if items != [] {
      FullTextScans(stack, items[0]);
      if |items| > 1 {
        FullJoinedScans(stack, items[1..]);
        ScanAppend(stack, FullText(items[0]), ",");
        ScanAppend(stack, FullText(items[0]) + ",", FullJoined(items[1..]));
      }
    }
  }

  /** With bracket-free scalars and no child cut, the printed brackets balance. */
  lemma BracketsBalance(d: Datum)
    requires BracketFree(d) && ChildrenFit(d) && HasText(d)
    ensures Balanced(Printed(d).value)
  {
    PrintedFits(d);
    FullTextScans([], d);
  }

  // ---- The printing methods ----

  lemma {:induction false} NothingReadsBack(bytes: seq<byte>)
    requires bytes != [] ==> bytes[0] == 0
    ensures ReadBack(bytes, 1) == ""
  {
  }

  /** What a zeroed child buffer reads back after a text was put into it. */
  lemma ChildReads(t: Target, zeros: seq<byte>, text: Text)
    requires t.w == 1 && t.buflen == BUFFER_SIZE == |zeros| && forall i | 0 <= i < |zeros| :: zeros[i] == 0
    ensures var bytes := StoredBytes(t, ReadPart(t, text, 0).copy);
      |bytes| <= |zeros| && ReadBack(Overlay(zeros, 0, bytes), 1) == Cut(text)
  {
    CopyStaysInside(t, text);
    if text == "" {
      OverlayNothing(zeros, 0);
      NothingReadsBack(zeros);
    } else {
      assert text[0..] == text;
      var bytes := StoredBytes(t, CopyOut(t, text));
      RowReadsBack(t, text, zeros[|bytes|..]);
      assert Overlay(zeros, 0, bytes) == RowBytes(t, text) + zeros[|bytes|..];
    }
  }

  /** Prints one child into a zeroed buffer of its own and reads it back. */
  method PrintChild(d: Datum, wide: nat, ansi: bool) returns (text: Text)
    requires wide in {2, 4}
    ensures text == Child(d)
    decreases d, 1
  {
    var buf := new byte[BUFFER_SIZE](_ => 0);
    var resLen := new int[1];
    var tmpBuf := new ApplicationDataBuffer(Char, wide, ansi, buf, BUFFER_SIZE, resLen);
    ghost var zeros := buf[..];
    var result := ParseDatum(d, tmpBuf);
    if Printed(d).Some? {
      ChildReads(tmpBuf.Out(), zeros, Printed(d).value);
    } else {
      NothingReadsBack(zeros);
    }
    assert ReadBack(buf[..], 1) == Child(d);
    text := ReadBack(buf[..], 1);
  }

  /** Puts the text of a value; a null only sets the indicator, a datum in which nothing
      is set fails, and a row without data reports no data. */
  method ParseDatum(d: Datum, dataBuf: ApplicationDataBuffer) returns (result: Conversion)
    requires dataBuf.Valid()
    modifies dataBuf`cellOffset, dataBuf.Areas()
    ensures dataBuf.Valid()
    ensures HasText(d) ==> dataBuf.StringPut(Printed(d).value, result)
    ensures !HasText(d) ==>
      && result == (if d.Null? then Success else if d.Unset? then Failure else NoData)
      && dataBuf.cellOffset == old(dataBuf.cellOffset)
      && (dataBuf.buffer != null ==> dataBuf.buffer[..] == old(dataBuf.buffer[..]))
    ensures d.Null? && dataBuf.reslen != null ==>
      dataBuf.reslen[..] == old(dataBuf.reslen[..])[dataBuf.IndicatorIndex() := -1]
    ensures !HasText(d) && !d.Null? && dataBuf.reslen != null ==> dataBuf.reslen[..] == old(dataBuf.reslen[..])
    decreases d, 0
  {
    match d
    case Scalar(text) => result := dataBuf.PutString(text);
    case Array(items) => result := ParseArrayType(items, dataBuf);
    case RowValue(row) => result := ParseRowType(row, dataBuf);
    case Null =>
      dataBuf.SetIndicator(SQL_NULL_DATA);
      result := Success;
    case Unset => result := Failure;
  }

  /** Child texts, each with a comma after it. */
  function WithCommas(items: seq<Datum>): Text
    decreases |items|
  {
    if items == [] then ""
    else WithCommas(items[..|items| - 1]) + Child(items[|items| - 1]) + ","
  }

  lemma {:induction false} JoinedOneMore(items: seq<Datum>, d: Datum)
    requires items != []
    ensures Joined(items + [d]) == Joined(items) + "," + Child(d)
    decreases |items|
  {
    var all := items + [d];
    assert all[0] == items[0] && all[1..] == items[1..] + [d];
    if |items| > 1 {
      JoinedOneMore(items[1..], d);
    } else {
      assert all[1..] == [d];
    }
  }

  lemma {:induction false} CommasJoin(items: seq<Datum>)
    requires items != []
    ensures WithCommas(items) == Joined(items) + ","
    decreases |items|
  {
    var front, d := items[..|items| - 1], items[|items| - 1];
    if front == [] {
      assert WithCommas(front) == "" && "" + Child(d) == Child(d);
    } else {
      CommasJoin(front);
      JoinedOneMore(front, d);
      assert front + [d] == items;
      assert WithCommas(items) == WithCommas(front) + Child(d) + ",";
    }
  }

  /** The loop over the children: each is printed and a comma appended. */
  method PrintItems(items: seq<Datum>, wide: nat, ansi: bool) returns (text: Text)
    requires wide in {2, 4}
    ensures text == WithCommas(items)
    decreases items, 0
  {
    text := "";
    for i := 0 to |items|
      invariant text == WithCommas(items[..i])
    {
      var child := PrintChild(items[i], wide, ansi);
      assert items[..i + 1][..i] == items[..i];
      text := text + child + ",";
    }
    assert items[..|items|] == items;
  }

  method ParseArrayType(items: seq<Datum>, dataBuf: ApplicationDataBuffer) returns (result: Conversion)
    requires dataBuf.Valid()
    modifies dataBuf`cellOffset, dataBuf.Areas()
    ensures dataBuf.Valid() && dataBuf.StringPut(Printed(Service.Array(items)).value, result)
    decreases items, 1
  {
    var text: Text := "";
    if items != [] {
      text := PrintItems(items, dataBuf.wide, dataBuf.ansi);
      CommasJoin(items);
      text := "[" + text;
      assert text == ("[" + Joined(items)) + ",";
      text := text[..|text| - 1];
      text := text + "]";
    }
    result := dataBuf.PutString(text);
  }

  method ParseRowType(row: Service.Row, dataBuf: ApplicationDataBuffer) returns (result: Conversion)
    requires dataBuf.Valid()
    modifies dataBuf`cellOffset, dataBuf.Areas()
    ensures dataBuf.Valid()
    ensures row.dataSet ==> dataBuf.StringPut(Printed(Service.RowValue(row)).value, result)
    ensures !row.dataSet ==>
      && result == NoData && dataBuf.cellOffset == old(dataBuf.cellOffset)
      && (dataBuf.buffer != null ==> dataBuf.buffer[..] == old(dataBuf.buffer[..]))
      && (dataBuf.reslen != null ==> dataBuf.reslen[..] == old(dataBuf.reslen[..]))
    decreases row, 1
  {
    if !row.dataSet {
      return NoData;
    }
    var text: Text := PrintItems(row.data, dataBuf.wide, dataBuf.ansi);
    text := "(" + text;
    if row.data != [] {
      CommasJoin(row.data);
      assert text == ("(" + Joined(row.data)) + ",";
      text := text[..|text| - 1];
    }
    text := text + ")";
    assert text == Printed(Service.RowValue(row)).value;
    result := dataBuf.PutString(text);
  }
}
