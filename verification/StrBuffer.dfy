/** Writing a string into an application buffer, whole or in parts, for strings of
    single-byte characters and output characters of 1, 2 or 4 bytes. */
module StrBuffer {

  import opened Common

  type byte = b: nat | b < 256

  /** A character of one byte that is not NUL. */
  type Ascii = c: char | 0 < c as int < 128 witness ' '

  type Text = seq<Ascii>

  predicate CharSize(w: nat) {
    w == 1 || w == 2 || w == 4
  }

  /** `c` as an output character of `w` bytes, least significant first. */
  function CharBytes(code: byte, w: nat): (r: seq<byte>)
    requires CharSize(w)
    ensures |r| == w && r[0] == code && forall k | 1 <= k < w :: r[k] == 0
  {
    if w == 1 then [code] else if w == 2 then [code, 0] else [code, 0, 0, 0]
  }

  function Encode(s: Text, w: nat): (r: seq<byte>)
    requires CharSize(w)
  {
    if s == [] then [] else CharBytes(s[0] as int, w) + Encode(s[1..], w)
  }

  lemma {:induction false} EncodeLength(s: Text, w: nat)
    requires CharSize(w)
    ensures |Encode(s, w)| == w * |s|
  {
    if s != [] {
      EncodeLength(s[1..], w);
    }
  }

  /** The string an application reads back: output characters up to the first NUL. */
  function ReadBack(bytes: seq<byte>, w: nat): string
    requires CharSize(w)
    decreases |bytes|
  {
    if |bytes| < w || bytes[0] == 0 then [] else [bytes[0] as char] + ReadBack(bytes[w..], w)
  }

  lemma {:induction false} ReadBackEncoded(s: Text, w: nat, rest: seq<byte>)
    requires CharSize(w)
    ensures ReadBack(Encode(s, w) + CharBytes(0, w) + rest, w) == s
  {
    if s != [] {
      ReadBackEncoded(s[1..], w, rest);
      var head, tail := CharBytes(s[0] as int, w), Encode(s[1..], w);
      Associate(head, tail, CharBytes(0, w));
      Associate(head, tail + CharBytes(0, w), rest);
      ReadBackOne(s[0], w, tail + CharBytes(0, w) + rest);
    }
  }

  lemma ReadBackOne(c: Ascii, w: nat, rest: seq<byte>)
    requires CharSize(w)
    ensures ReadBack(CharBytes(c as int, w) + rest, w) == [c] + ReadBack(rest, w)
  {
    var bytes := CharBytes(c as int, w) + rest;
    assert bytes[0] == c as int && bytes[w..] == rest;
  }

  /** Characters that fit into `buflen` bytes beside the terminator. */
  function Capacity(w: nat, buflen: nat): nat
    requires CharSize(w)
  {
    if buflen / w >= 1 then buflen / w - 1 else 0
  }

  /** The same number, written out for each character size. */
  function CharsBeside(w: nat, buflen: nat): nat
    requires CharSize(w)
  {
    if buflen < 2 * w then 0 else if w == 1 then buflen - 1 else if w == 2 then buflen / 2 - 1 else buflen / 4 - 1
  }

  lemma RoomIs(w: nat, buflen: nat)
    requires CharSize(w)
    ensures Capacity(w, buflen) == CharsBeside(w, buflen)
  {
  }

  /** Outcome of one bounded copy: the text stored (with its terminator when
      `terminated`), the number of characters reported as converted, and truncation. */
  datatype Copy = Copy(stored: Text, terminated: bool, converted: nat, truncated: bool)

  /** CopyUtf8StringToSqlCharString. `ansi` is the ANSI_STRING_ONLY switch. */
  function CopyToChars(ansi: bool, s: Text, buflen: nat): Copy {
    var k := if buflen > 0 then Min(|s|, buflen - 1) else 0;
    if ansi then
      Copy(s[..k], buflen > 0, k, |s| >= buflen)
    else
      Copy(s[..k], k > 0, k, k < |s|)
  }

  /** CopyUtf8StringToWcharString. Without room for a character and the terminator the
      text goes to a proxy buffer and nothing reaches the application. */
  function CopyToWide(w: nat, s: Text, buflen: nat): Copy
    requires CharSize(w)
  {
    if buflen == 0 then Copy("", false, 0, false)
    else if buflen > w then
      var k := Min(|s|, buflen / w - 1);
      Copy(s[..k], true, k, k < |s|)
    else Copy("", false, |s|, false)
  }

  /** Where one call writes: character size, buffer length, ANSI_STRING_ONLY. */
  datatype Target = Target(w: nat, buflen: nat, ansi: bool)

  predicate ValidTarget(t: Target) {
    CharSize(t.w)
  }

  function CopyOut(t: Target, s: Text): Copy
    requires ValidTarget(t)
  {
    if t.w == 1 then CopyToChars(t.ansi, s, t.buflen) else CopyToWide(t.w, s, t.buflen)
  }

  function TextBytes(s: Text, terminated: bool, w: nat): seq<byte>
    requires CharSize(w)
  {
    Encode(s, w) + (if terminated then CharBytes(0, w) else [])
  }

  function StoredBytes(t: Target, c: Copy): seq<byte>
    requires ValidTarget(t)
  {
    TextBytes(c.stored, c.terminated, t.w)
  }

  /** Every copy stays within the buffer length, terminator included. */
  lemma CopyStaysInside(t: Target, s: Text)
    requires ValidTarget(t)
    ensures |StoredBytes(t, CopyOut(t, s))| <= t.buflen
  {
    var c := CopyOut(t, s);
    EncodeLength(c.stored, t.w);
    if t.w > 1 && t.buflen > t.w {
      assert t.w * (t.buflen / t.w) <= t.buflen;
    }
  }

  /** What was stored reads back as the stored text. */
  lemma CopyReadsBack(t: Target, s: Text, rest: seq<byte>)
    requires ValidTarget(t)
    ensures var c := CopyOut(t, s);
      c.terminated ==> ReadBack(StoredBytes(t, c) + rest, t.w) == c.stored
  {
    var c := CopyOut(t, s);
    ReadBackEncoded(c.stored, t.w, rest);
  }

  datatype Conversion = Success | Truncated | NoData | Failure

  const SQL_NO_TOTAL := -4

  /** One call that reads a value from character `offset` on. */
  datatype Part = Part(result: Conversion, copy: Copy, indicator: int, offset: nat)

  function ReadPart(t: Target, value: Text, offset: nat): Part
    requires ValidTarget(t)
  {
    if offset >= |value| then Part(NoData, Copy("", false, 0, false), SQL_NO_TOTAL, offset)
    else
      var c := CopyOut(t, value[offset..]);
      var required, total := |value| * t.w, offset * t.w + c.converted * t.w;
      Part(if c.truncated then Truncated else Success, c,
           if required != total then required - total else required,
           offset + c.converted)
  }

  /** A call with room for a character returns the next piece of the value; the
      indicator of a truncated call is what is still to come, that of the last call
      the total, both in bytes. */
  lemma PartAdvances(t: Target, value: Text, offset: nat)
    requires ValidTarget(t) && Capacity(t.w, t.buflen) > 0 && offset < |value|
    ensures var p, next := ReadPart(t, value, offset), Min(offset + Capacity(t.w, t.buflen), |value|);
      && p.offset == next > offset && p.copy.stored == value[offset..next] && p.copy.terminated
      && (p.result == if next < |value| then Truncated else Success)
      && p.indicator == (if next < |value| then |value| - next else |value|) * t.w
  {
  }

  /** The outcome of every call with room for a character: what is left is truncated to that
      room, the rest comes with success, and when nothing is left there is no data and no
      total. */
  lemma PartIs(t: Target, value: Text, offset: nat)
    requires ValidTarget(t) && t.buflen >= 2 * t.w
    ensures var p, next := ReadPart(t, value, offset), offset + CharsBeside(t.w, t.buflen);
      && (p.result == Truncated <==> next < |value|)
      && (p.result == Success <==> offset < |value| <= next)
      && (p.result == NoData <==> offset >= |value|)
      && p.offset == (if next < |value| then next else if offset < |value| then |value| else offset)
      && p.indicator == (if next < |value| then (|value| - next) * t.w else if offset < |value| then |value| * t.w else -4)
      && (offset < |value| ==> p.copy.terminated && p.copy.stored == value[offset..p.offset])
      && (offset >= |value| ==> p.copy.stored == "" && !p.copy.terminated)
  {
    RoomIs(t.w, t.buflen);
    if offset < |value| {
      PartAdvances(t, value, offset);
    }
  }

  /** A call without such room stores no text. On a wide buffer of one character or
      less it still reports success, and when that buffer is not empty the whole value
      counts as returned; in every other case the offset stays where it was. */
  lemma NoRoomLosesText(t: Target, value: Text, offset: nat)
    requires ValidTarget(t) && Capacity(t.w, t.buflen) == 0 && offset < |value|
    ensures var p := ReadPart(t, value, offset);
      && p.copy.stored == ""
      && (p.result == if t.w > 1 && t.buflen <= t.w then Success else Truncated)
      && (p.offset == if t.w > 1 && 0 < t.buflen <= t.w then |value| else offset)
  {
  }

  predicate ValidTargets(targets: seq<Target>) {
    forall t | t in targets :: ValidTarget(t)
  }

  /** Text returned by successive calls from the start of a value, and the offset
      they leave behind. */
  ghost function Delivered(targets: seq<Target>, value: Text): (string, nat)
    requires ValidTargets(targets)
    decreases |targets|
  {
    if targets == [] then ("", 0)
    else
      var (text, offset) := Delivered(targets[..|targets| - 1], value);
      var p := ReadPart(targets[|targets| - 1], value, offset);
      (text + p.copy.stored, p.offset)
  }

  /** Outcome of the last of these calls. */
  ghost function LastPart(targets: seq<Target>, value: Text): Part
    requires targets != [] && ValidTargets(targets)
  {
    ReadPart(targets[|targets| - 1], value, Delivered(targets[..|targets| - 1], value).1)
  }

  ghost function Room(targets: seq<Target>): nat
    requires ValidTargets(targets)
    decreases |targets|
  {
    if targets == [] then 0
    else
      var t := targets[|targets| - 1];
      assert t in targets;
      Room(targets[..|targets| - 1]) + Capacity(t.w, t.buflen)
  }

  ghost predicate Roomy(targets: seq<Target>) {
    ValidTargets(targets) && forall t | t in targets :: Capacity(t.w, t.buflen) > 0
  }

  lemma PieceAdded(t: Target, value: Text, n: nat)
    requires ValidTarget(t) && Capacity(t.w, t.buflen) > 0 && n <= |value|
    ensures var p, next := ReadPart(t, value, n), Min(n + Capacity(t.w, t.buflen), |value|);
      value[..n] + p.copy.stored == value[..next] && p.offset == next
  {
    if n < |value| {
      PartAdvances(t, value, n);
    }
  }

  /** Whatever the buffer sizes and character sizes of the calls, as long as each has
      room for one character: the pieces put together are the first part of the value. */
  lemma {:induction false} PiecesMakePrefix(targets: seq<Target>, value: Text)
    requires Roomy(targets)
    ensures var n := Min(Room(targets), |value|); Delivered(targets, value) == (value[..n], n)
    decreases |targets|
  {
    if targets != [] {
      var front, t := targets[..|targets| - 1], targets[|targets| - 1];
      PiecesMakePrefix(front, value);
      PieceAdded(t, value, Min(Room(front), |value|));
    }
  }

  /** Every call but the last reports truncation, the last reports success, later
      calls report no data; the indicator and the bytes so far add up to the total. */
  lemma PartsReport(targets: seq<Target>, value: Text)
    requires Roomy(targets) && targets != []
    ensures var before, now := Room(targets[..|targets| - 1]), Room(targets);
      var p, w := LastPart(targets, value), targets[|targets| - 1].w;
      && (p.result == NoData <==> before >= |value|)
      && (p.result == Truncated <==> now < |value|)
      && (p.result == Truncated ==> now * w + p.indicator == |value| * w)
      && (p.result == Success ==> p.indicator == |value| * w)
      && (p.result == NoData ==> p.indicator == -4)
  {
    var front, t := targets[..|targets| - 1], targets[|targets| - 1];
    PiecesMakePrefix(front, value);
    if Room(front) < |value| {
      PartAdvances(t, value, Room(front));
    }
  }

  /** The same call made n times. */
  function Repeated(t: Target, n: nat): (r: seq<Target>)
    ensures |r| == n && forall u | u in r :: u == t
  {
    if n == 0 then [] else Repeated(t, n - 1) + [t]
  }

  lemma RepeatedOnce(t: Target, n: nat)
    requires n > 0
    ensures Repeated(t, n)[..n - 1] == Repeated(t, n - 1) && Repeated(t, n)[n - 1] == t
  {
  }

  lemma Multiple(n: nat, c: nat)
    requires n > 0
    ensures n * c == (n - 1) * c + c
  {
  }

  lemma {:induction false} RoomRepeated(t: Target, n: nat)
    requires ValidTarget(t)
    ensures Room(Repeated(t, n)) == n * Capacity(t.w, t.buflen)
  {
    if n > 0 {
      RoomRepeated(t, n - 1);
      RepeatedOnce(t, n);
      Multiple(n, Capacity(t.w, t.buflen));
    }
  }

  /** Reading with one buffer takes ceiling(length / capacity) calls, and the next
      one reports no data. */
  lemma CallCount(t: Target, value: Text, n: nat)
    requires ValidTarget(t) && n > 0 && t.buflen >= 2 * t.w
    ensures var c := CharsBeside(t.w, t.buflen);
      LastPart(Repeated(t, n), value).result == NoData <==> n >= (|value| + c - 1) / c + 1
  {
    var c := Capacity(t.w, t.buflen);
    RoomIs(t.w, t.buflen);
    RoomRepeated(t, n - 1);
    RepeatedOnce(t, n);
    PartsReport(Repeated(t, n), value);
    CeilingBound(|value|, c, n - 1);
  }

  lemma CeilingBound(length: nat, c: nat, k: nat)
    requires c > 0
    ensures k * c >= length <==> k >= (length + c - 1) / c
  {
    var q := (length + c - 1) / c;
    assert q * c <= length + c - 1 < q * c + c;
    if k >= q {
      Monotone(q, k, c);
    } else {
      Monotone(k + 1, q, c);
      assert (k + 1) * c == k * c + c;
    }
  }

  lemma Monotone(a: nat, b: nat, c: nat)
    requires a <= b
    ensures a * c <= b * c
  {
  }

  lemma {:induction false} NoRoomDeliversNothing(t: Target, value: Text, n: nat)
    requires ValidTarget(t) && Capacity(t.w, t.buflen) == 0
    ensures Delivered(Repeated(t, n), value).0 == ""
  {
    if n > 0 {
      NoRoomDeliversNothing(t, value, n - 1);
      RepeatedOnce(t, n);
      var offset := Delivered(Repeated(t, n - 1), value).1;
      if offset < |value| {
        NoRoomLosesText(t, value, offset);
      }
    }
  }

  /** Repeated calls with one buffer return the whole of a non-empty value, in some
      number of calls, exactly when the buffer holds a character and a terminator. */
  lemma LosslessIff(t: Target, value: Text)
    requires ValidTarget(t) && value != ""
    ensures (exists n: nat :: Delivered(Repeated(t, n), value).0 == value) <==> t.buflen >= 2 * t.w
  {
    if t.buflen >= 2 * t.w {
      EnoughCalls(t, value);
    } else {
      HasRoom(t.w, t.buflen);
      forall n: nat ensures Delivered(Repeated(t, n), value).0 != value {
        NoRoomDeliversNothing(t, value, n);
      }
    }
  }

  lemma HasRoom(w: nat, buflen: nat)
    requires CharSize(w)
    ensures Capacity(w, buflen) > 0 <==> buflen >= 2 * w
  {
  }

  lemma EnoughCalls(t: Target, value: Text)
    requires ValidTarget(t) && t.buflen >= 2 * t.w
    ensures Delivered(Repeated(t, |value|), value).0 == value
  {
    var n, c := |value|, Capacity(t.w, t.buflen);
    HasRoom(t.w, t.buflen);
    RoomRepeated(t, n);
    PiecesMakePrefix(Repeated(t, n), value);
    AtLeast(n, c);
    assert value[..n] == value;
  }

  lemma AtLeast(n: nat, c: nat)
    requires c > 0
    ensures n * c >= n
  {
  }
}
