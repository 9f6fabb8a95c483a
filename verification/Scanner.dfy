/** The scanner of the connection-string parser: which segments and pairs a string
    has, and the wrapped size_t arithmetic that finds them from the right. */
module Scanner {

  import opened Common
  import opened Text

  /** The parts of `s` between delimiters. */
  function Segments(s: string, d: char): (r: seq<string>)
    ensures r != []
  {
    var i := First(s, d);
    if i == |s| then [s] else [s[..i]] + Segments(s[i + 1..], d)
  }

  function Unbrace(v: string): string {
    if |v| >= 2 && v[0] == '{' && v[|v| - 1] == '}' then v[1..|v| - 1] else v
  }

  /** A segment's pair: split at the first '='; none without '=' or with nothing before it. */
  function PairOf(segment: string): Option<(string, string)> {
    var e := First(segment, '=');
    if 0 < e < |segment| then Some((Trim(segment[..e]), Unbrace(Trim(segment[e + 1..]))))
    else None
  }

  /** The effect `f` of one segment, for all segments from right to left. */
  ghost function FromRight<M>(f: (M, string) -> M, m: M, segments: seq<string>): M
    decreases |segments|
  {
    if segments == [] then m
    else FromRight(f, f(m, segments[|segments| - 1]), segments[..|segments| - 1])
  }

  lemma FirstInPrefix(s: string, d: char, p: nat)
    requires First(s, d) <= p <= |s|
    ensures First(s[..p], d) == First(s, d)
  {
  }

  /** Splitting at the last delimiter splits off the last segment. */
  lemma {:induction false} LastSegment(s: string, d: char, p: nat)
    requires p < |s| && s[p] == d && d !in s[p + 1..]
    ensures Segments(s, d) == Segments(s[..p], d) + [s[p + 1..]]
    decreases |s|
  {
    var i, last := First(s, d), s[p + 1..];
    assert i <= p;
    FirstInPrefix(s, d, p);
    if i == p {
      assert s[..p][..p] == s[..p];
      assert Segments(last, d) == [last];
    } else {
      var t := s[i + 1..];
      assert t[p - i..] == last;
      LastSegment(t, d, p - i - 1);
      assert t[..p - i - 1] == s[..p][i + 1..];
      assert s[..p][..i] == s[..i];
      assert [s[..i]] + (Segments(s[..p][i + 1..], d) + [last]) == ([s[..i]] + Segments(s[..p][i + 1..], d)) + [last];
    }
  }

  lemma FromRightSnoc<M>(f: (M, string) -> M, m: M, segments: seq<string>, last: string)
    ensures FromRight(f, m, segments + [last]) == FromRight(f, f(m, last), segments)
  {
    assert (segments + [last])[..|segments|] == segments;
  }

  lemma NoDelimiter(s: string, d: char)
    requires d !in s
    ensures Segments(s, d) == [] + [s]
  {
    assert First(s, d) == |s|;
  }

  /** Where the last segment begins. */
  function SegmentStart(s: string, d: char): (b: nat)
    requires |s| < NPOS
    ensures b <= |s|
  {
    var p := FindLast(s, d);
    if p == NPOS then 0 else p + 1
  }

  /** The effect of what is left, by its last segment. */
  lemma ScanOne<M>(f: (M, string) -> M, m: M, s: string, d: char)
    requires |s| < NPOS
    ensures var b := SegmentStart(s, d);
      FromRight(f, m, Segments(s, d)) ==
      if b == 0 then f(m, s[b..]) else FromRight(f, f(m, s[b..]), Segments(s[..b - 1], d))
  {
    var b := SegmentStart(s, d);
    if b > 0 {
      LastSegment(s, d, b - 1);
      FromRightSnoc(f, m, Segments(s[..b - 1], d), s[b..]);
    } else {
      NoDelimiter(s, d);
      FromRightSnoc(f, m, [], s);
      assert s[0..] == s;
    }
  }

  lemma ScanNothing<M>(f: (M, string) -> M, m: M, d: char)
    ensures FromRight(f, m, Segments("", d)) == f(m, "")
  {
    NoDelimiter("", d);
    FromRightSnoc(f, m, [], "");
  }

  /** The scanner's size_t sum for the position of '=': find may return npos. */
  function EqualsSum(s: string, begin: nat): nat
    requires begin <= |s|
  {
    (Find(s[begin..], '=') + begin) % SIZE_MODULUS
  }

  /** Without an '=' the sum wraps to just below the segment's start (or is npos at
      the start of the string), so the test `begin < sum` selects exactly the
      segments that have a pair. */
  lemma WrappedSum(s: string, begin: nat)
    requires begin <= |s| && 2 * |s| < NPOS
    ensures var sum, e := EqualsSum(s, begin), First(s[begin..], '=');
      && ('=' !in s[begin..] ==> sum == if begin == 0 then NPOS else begin - 1)
      && ('=' in s[begin..] ==> sum == begin + e && sum < |s|)
      && (begin < (if sum == NPOS then 0 else sum) <==> PairOf(s[begin..]).Some?)
  {
  }

  /** The pair the scanner cuts out of the whole string is the segment's pair. */
  lemma PairSlices(s: string, begin: nat, eq: nat)
    requires begin < eq < |s| && eq == begin + First(s[begin..], '=')
    ensures PairOf(s[begin..]) == Some((Trim(s[begin..eq]), Unbrace(Trim(s[eq + 1..]))))
  {
    assert s[begin..][..eq - begin] == s[begin..eq];
    assert s[begin..][eq - begin + 1..] == s[eq + 1..];
  }

  /** The scanner's way to the pair of the segment that starts at `attrBegin`. */
  method CutPair(connectStr: string, attrBegin: nat) returns (pair: Option<(string, string)>)
    requires attrBegin <= |connectStr| && 2 * |connectStr| < NPOS
    ensures pair == PairOf(connectStr[attrBegin..])
  {
    WrappedSum(connectStr, attrBegin);
    var attrEqPos := (Find(connectStr[attrBegin..], '=') + attrBegin) % SIZE_MODULUS;
    if attrEqPos == NPOS {
      attrEqPos := 0;
    }
    if attrBegin < attrEqPos {
      PairSlices(connectStr, attrBegin, attrEqPos);
      var key := Trim(connectStr[attrBegin..attrEqPos]);
      var value := Trim(connectStr[attrEqPos + 1..]);
      if value != [] && value[0] == '{' && value[|value| - 1] == '}' {
        value := value[1..|value| - 1];
      }
      return Some((key, value));
    }
    return None;
  }

  function StripNul(s: string): string {
    if s != [] && s[|s| - 1] == '\0' then StripNul(s[..|s| - 1]) else s
  }

  // ---- The sequence of pairs ----

  function Reverse<T>(s: seq<T>): seq<T> {
    if s == [] then [] else Reverse(s[1..]) + [s[0]]
  }

  function PairSeq(segment: string): seq<(string, string)> {
    var p := PairOf(segment);
    if p.Some? then [p.value] else []
  }

  /** The pairs of the segments from left to right. */
  function Pairs(segments: seq<string>): seq<(string, string)> {
    if segments == [] then [] else PairSeq(segments[0]) + Pairs(segments[1..])
  }

  /** The pairs of a string from right to left. */
  function PairsFromRight(s: string, d: char): seq<(string, string)> {
    Reverse(Pairs(Segments(s, d)))
  }

  lemma {:induction false} ReverseAppend<T>(s: seq<T>, t: seq<T>)
    ensures Reverse(s + t) == Reverse(t) + Reverse(s)
  {
    if s == [] {
      assert s + t == t && Reverse(t) + [] == Reverse(t);
    } else {
      ReverseAppend(s[1..], t);
      assert (s + t)[1..] == s[1..] + t;
      Associate(Reverse(t), Reverse(s[1..]), [s[0]]);
    }
  }

  lemma {:induction false} PairsAppend(segments: seq<string>, last: string)
    ensures Pairs(segments + [last]) == Pairs(segments) + PairSeq(last)
  {
    if segments == [] {
      assert ([] + [last])[1..] == [] && PairSeq(last) + [] == PairSeq(last) == [] + PairSeq(last);
    } else {
      PairsAppend(segments[1..], last);
      assert (segments + [last])[1..] == segments[1..] + [last];
      Associate(PairSeq(segments[0]), Pairs(segments[1..]), PairSeq(last));
    }
  }

  lemma ReverseLast(segments: seq<string>, last: string)
    ensures Reverse(Pairs(segments + [last])) == PairSeq(last) + Reverse(Pairs(segments))
  {
    PairsAppend(segments, last);
    ReverseAppend(Pairs(segments), PairSeq(last));
    assert |PairSeq(last)| == 1 ==> PairSeq(last)[1..] == [] && Reverse(PairSeq(last)) == [] + [PairSeq(last)[0]];
  }

  /** The last segment's pair comes first, then those of what is left of it. */
  lemma PairsByLast(s: string, d: char)
    requires |s| < NPOS
    ensures var b := SegmentStart(s, d);
      PairsFromRight(s, d) == PairSeq(s[b..]) + (if b == 0 then [] else PairsFromRight(s[..b - 1], d))
  {
    var b := SegmentStart(s, d);
    if b > 0 {
      LastSegment(s, d, b - 1);
      ReverseLast(Segments(s[..b - 1], d), s[b..]);
    } else {
      NoDelimiter(s, d);
      ReverseLast([], s);
      assert s[0..] == s;
    }
  }

  /** Handing on the last segment's pair leaves the same pairs in all. */
  lemma HandOne(handed: seq<(string, string)>, s: string, d: char)
    requires |s| < NPOS
    ensures var b := SegmentStart(s, d);
      handed + PairsFromRight(s, d) == handed + PairSeq(s[b..]) + (if b == 0 then [] else PairsFromRight(s[..b - 1], d))
  {
    PairsByLast(s, d);
    var b := SegmentStart(s, d);
    Associate(handed, PairSeq(s[b..]), if b == 0 then [] else PairsFromRight(s[..b - 1], d));
  }

  lemma NoPairs(handed: seq<(string, string)>, d: char)
    ensures handed + PairsFromRight("", d) == handed
  {
    NoDelimiter("", d);
    ReverseLast([], "");
  }
}
