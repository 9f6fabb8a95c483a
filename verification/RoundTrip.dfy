/** Repeated attributes, and printing a configuration and parsing it back. */
module RoundTrip {

  import opened Common
  import opened Text
  import opened Scanner
  import opened Settings
  import opened ConnectionString

  // ---- Repeated attributes: the leftmost accepted one decides ----

  /** What one segment sets: nothing, or one key to one value. */
  ghost function Effect(dirs: set<string>, segment: string): Option<(Key, Value)> {
    match PairOf(segment)
    case None => None
    case Some((key, text)) =>
      match KeyOf(ToLower(key))
      case None => None
      case Some(k) =>
        match Accepted(dirs, k, text)
        case None => None
        case Some(v) => Some((k, v))
  }

  lemma EffectIsApplied(dirs: set<string>, m: Assignment, segment: string)
    ensures ApplySegment(dirs, m, segment) ==
            match Effect(dirs, segment) case None => m case Some((k, v)) => m[k := v]
  {
  }

  ghost function Leftmost(dirs: set<string>, segments: seq<string>, k: Key): Option<Value> {
    if segments == [] then None
    else
      var e := Effect(dirs, segments[0]);
      if e.Some? && e.value.0 == k then Some(e.value.1) else Leftmost(dirs, segments[1..], k)
  }

  lemma {:induction false} LeftmostSnoc(dirs: set<string>, segments: seq<string>, last: string, k: Key)
    ensures Leftmost(dirs, segments + [last], k) ==
            (var l := Leftmost(dirs, segments, k); if l.Some? then l else Leftmost(dirs, [last], k))
    decreases |segments|
  {
    if segments == [] {
      assert [] + [last] == [last];
    } else {
      assert (segments + [last])[1..] == segments[1..] + [last];
      LeftmostSnoc(dirs, segments[1..], last, k);
    }
  }

  lemma LeftmostOfOne(dirs: set<string>, segment: string, k: Key)
    ensures Leftmost(dirs, [segment], k) ==
            (var e := Effect(dirs, segment); if e.Some? && e.value.0 == k then Some(e.value.1) else None)
  {
    assert Leftmost(dirs, [segment][1..], k) == None;
  }

  ghost function Lookup(m: Assignment, k: Key): Option<Value> {
    if k in m then Some(m[k]) else None
  }

  /** For every key the value after parsing is the leftmost accepted one in the
      string, and the previous value when there is none. */
  lemma {:induction false} LeftmostDecides(dirs: set<string>, m: Assignment, segments: seq<string>, k: Key)
    ensures var l := Leftmost(dirs, segments, k);
            Lookup(ApplyAll(dirs, m, segments), k) == if l.Some? then l else Lookup(m, k)
    decreases |segments|
  {
    if segments != [] {
      var front, last := segments[..|segments| - 1], segments[|segments| - 1];
      assert segments == front + [last];
      EffectIsApplied(dirs, m, last);
      LeftmostDecides(dirs, ApplySegment(dirs, m, last), front, k);
      LeftmostSnoc(dirs, front, last, k);
      LeftmostOfOne(dirs, last, k);
    }
  }

  // ---- Printing and parsing back ----

  /** The values that the setters can store for a key. */
  predicate Fits(k: Key, v: Value) {
    match KindOf(k)
    case TextKind => v.Text?
    case PathKind => v.Text?
    case NumberKind(_) => v.Number? && -0x8000_0000 <= v.n <= INT32_MAX
    case AuthKind => v.AuthValue?
    case LevelKind => v.LevelValue? && v.level != Unknown
  }

  predicate Typed(m: Assignment) {
    forall k | k in m :: Fits(k, m[k])
  }

  /** The values that survive printing and parsing. A text must not be empty, must not
      contain the delimiter, and without a space must be neither padded nor wrapped in
      braces; a number must be one the parser accepts. */
  predicate Survives(dirs: set<string>, k: Key, v: Value) {
    match v
    case Text(s) =>
      && s != "" && ';' !in s
      && (' ' in s || (Trimmed(s) && !(|s| >= 2 && s[0] == '{' && s[|s| - 1] == '}')))
      && (KindOf(k).PathKind? ==> s in dirs)
    case Number(n) => KindOf(k).NumberKind? && n >= KindOf(k).least
    case AuthValue(_) => true
    case LevelValue(_) => true
  }

  /** What the parser makes of one printed value. */
  function Reread(dirs: set<string>, k: Key, v: Value): Option<Value> {
    if Render(v) == "" then None else Accepted(dirs, k, Unbrace(Trim(Quote(Render(v)))))
  }

  lemma TextRereads(s: string)
    ensures Unbrace(Trim(Quote(s))) == s <==>
            ' ' in s || (Trimmed(s) && !(|s| >= 2 && s[0] == '{' && s[|s| - 1] == '}'))
  {
    var q := Quote(s);
    var a, b := TrimPart(q);
    if ' ' in s {
      assert Trimmed(q) && q[1..|q| - 1] == s;
    }
  }

  lemma DigitsReread(n: nat)
    requires n <= INT32_MAX
    ensures var t := NatText(n); AllDigits(t) && ToNat(t) == n && 0 < |t| < STRING_SIZE && Unbrace(Trim(Quote(t))) == t
  {
    assert n < Pow10(10) by {
      assert Pow10(10) == 10_000_000_000;
    }
    NatTextReads(n, 10);
    var t := NatText(n);
    assert IsDigit(t[0]) && IsDigit(t[|t| - 1]);
    TextRereads(t);
  }

  lemma NegativeRejected(n: int, least: nat)
    requires -0x8000_0000 <= n < 0
    ensures NumberFrom(Unbrace(Trim(Quote(IntText(n)))), least) == None
  {
  }

  lemma NumberRereads(n: int, least: nat)
    requires -0x8000_0000 <= n <= INT32_MAX
    ensures IntText(n) != ""
    ensures NumberFrom(Unbrace(Trim(Quote(IntText(n)))), least) == if n >= least then Some(Number(n)) else None
  {
    if n >= 0 {
      DigitsReread(n);
    } else {
      NegativeRejected(n, least);
    }
  }

  lemma {:induction false} LowerStays(s: string)
    requires forall i | 0 <= i < |s| :: LowerChar(s[i]) == s[i]
    ensures ToLower(s) == s
  {
  }

  /** A lower-case word of two or more characters. */
  predicate Word(s: string) {
    && |s| >= 2 && s[0] != '{' && ' ' !in s && Trimmed(s)
    && forall i | 0 <= i < |s| :: LowerChar(s[i]) == s[i]
  }

  lemma WordRereads(s: string)
    requires Word(s)
    ensures ToLower(s) == s && Trim(s) == s && Unbrace(Trim(Quote(s))) == s
  {
    TextRereads(s);
    LowerStays(s);
    var x, y := TrimPart(s);
  }

  lemma AuthTextPlain(a: AuthType)
    ensures Word(AuthText(a))
  {
  }

  lemma AuthRereads(a: AuthType)
    ensures AuthFrom(Unbrace(Trim(Quote(AuthText(a))))) == Some(AuthValue(a))
  {
    AuthTextPlain(a);
    WordRereads(AuthText(a));
  }

  lemma LevelRereads(l: Level)
    ensures LevelFrom(Unbrace(Trim(Quote(LevelText(l))))) == if l == Unknown then None else Some(LevelValue(l))
  {
    var t := LevelText(l);
    TextRereads(t);
    var x, y := TrimPart(t);
  }

  lemma TextSurvives(dirs: set<string>, k: Key, s: string)
    requires Fits(k, Value.Text(s)) && ';' !in s
    ensures Reread(dirs, k, Value.Text(s)) == Some(Value.Text(s)) <==> Survives(dirs, k, Value.Text(s))
  {
    TextRereads(s);
  }

  lemma SurvivesIffReread(dirs: set<string>, k: Key, v: Value)
    requires Fits(k, v)
    requires v.Text? ==> ';' !in v.text
    ensures Reread(dirs, k, v) == Some(v) <==> Survives(dirs, k, v)
  {
    match v
    case Text(s) => TextSurvives(dirs, k, s);
    case Number(n) => NumberRereads(n, KindOf(k).least);
    case AuthValue(a) => AuthRereads(a);
    case LevelValue(l) => LevelRereads(l);
  }

  // ---- The segments of a printed configuration ----

  /** The printed attributes, in order. */
  function Bodies(m: Assignment, keys: seq<Key>): seq<string>
    decreases |keys|
  {
    if keys == [] then []
    else
      var k := keys[|keys| - 1];
      Bodies(m, keys[..|keys| - 1]) + (if Printed(m, k) then [Entry(k, m[k])] else [])
  }

  lemma AppendSegment(s: string, body: string, d: char, front: seq<string>)
    requires d !in body && (s == "" || s[|s| - 1] == d) && Segments(s, d) == front + [""]
    ensures Segments(s + (body + [d]), d) == (front + [body]) + [""]
  {
    BodySegment(s, body, d, front);
    DelimiterAtEnd(s + body, d);
    Associate(s, body, [d]);
  }

  lemma DelimiterAtEnd(t: string, d: char)
    ensures Segments(t + [d], d) == Segments(t, d) + [""]
  {
    var u := t + [d];
    assert u[|t|] == d && u[..|t|] == t && u[|t| + 1..] == "";
    LastSegment(u, d, |t|);
  }

  lemma BodySegment(s: string, body: string, d: char, front: seq<string>)
    requires d !in body && (s == "" || s[|s| - 1] == d) && Segments(s, d) == front + [""]
    ensures Segments(s + body, d) == front + [body]
  {
    var t := s + body;
    if s == "" {
      assert t == body;
      NoDelimiter(body, d);
      NoDelimiter("", d);
      assert front == [];
    } else {
      var q := |s| - 1;
      assert t[q + 1..] == body && t[..q] == s[..q] && s[q + 1..] == "";
      LastSegment(t, d, q);
      LastSegment(s, d, q);
      var before := Segments(s[..q], d);
      assert (before + [""])[..|before|] == (front + [""])[..|front|];
    }
  }

  predicate Letters(s: string) {
    forall i | 0 <= i < |s| :: 'a' <= s[i] <= 'z'
  }

  lemma NameLettersA(i: nat)
    requires i < 4
    ensures Letters(KeyName(KEYS[i])) && KeyName(KEYS[i]) != ""
  {
  }

  lemma NameLettersB(i: nat)
    requires 4 <= i < 8
    ensures Letters(KeyName(KEYS[i])) && KeyName(KEYS[i]) != ""
  {
  }

  lemma NameLettersC(i: nat)
    requires 8 <= i < 12
    ensures Letters(KeyName(KEYS[i])) && KeyName(KEYS[i]) != ""
  {
  }

  lemma NameLettersD(i: nat)
    requires 12 <= i < 16
    ensures Letters(KeyName(KEYS[i])) && KeyName(KEYS[i]) != ""
  {
  }

  lemma NameLettersE(i: nat)
    requires 16 <= i < 21
    ensures Letters(KeyName(KEYS[i])) && KeyName(KEYS[i]) != ""
  {
  }

  lemma NameLettersF(i: nat)
    requires 21 <= i < 27
    ensures Letters(KeyName(KEYS[i])) && KeyName(KEYS[i]) != ""
  {
  }

  lemma NameLetters(k: Key)
    ensures Letters(KeyName(k)) && KeyName(k) != ""
  {
    var i := IndexOf(k);
    if i < 4 {
      NameLettersA(i);
    } else if i < 8 {
      NameLettersB(i);
    } else if i < 12 {
      NameLettersC(i);
    } else if i < 16 {
      NameLettersD(i);
    } else if i < 21 {
      NameLettersE(i);
    } else {
      NameLettersF(i);
    }
  }

  ghost predicate DelimiterFree(m: Assignment) {
    forall k | k in m && m[k].Text? :: ';' !in m[k].text
  }

  lemma {:induction false} DigitsClean(n: nat)
    ensures ';' !in NatText(n)
  {
    if n >= 10 {
      DigitsClean(n / 10);
    }
  }

  lemma IntTextClean(n: int)
    ensures ';' !in IntText(n)
  {
    DigitsClean(if n < 0 then -n else n);
  }

  lemma RenderClean(v: Value)
    requires v.Text? ==> ';' !in v.text
    ensures ';' !in Render(v)
  {
    if v.Number? {
      IntTextClean(v.n);
    }
  }

  lemma QuoteClean(s: string)
    requires ';' !in s
    ensures ';' !in Quote(s)
  {
  }

  lemma EntryClean(k: Key, v: Value)
    requires v.Text? ==> ';' !in v.text
    ensures ';' !in Entry(k, v)
  {
    NameLetters(k);
    RenderClean(v);
    QuoteClean(Render(v));
  }

  /** A string that ends a segment splits into these segments and an empty one. */
  ghost predicate EndsIn(p: string, bodies: seq<string>) {
    Segments(p, ';') == bodies + [""] && (p == "" || p[|p| - 1] == ';')
  }

  lemma EndsInOneMore(p: string, bodies: seq<string>, body: string)
    requires EndsIn(p, bodies) && ';' !in body
    ensures EndsIn(p + (body + [';']), bodies + [body])
  {
    AppendSegment(p, body, ';', bodies);
  }

  lemma {:induction false} PrintSegments(m: Assignment, keys: seq<Key>)
    requires DelimiterFree(m)
    ensures EndsIn(Print(m, keys), Bodies(m, keys))
    decreases |keys|
  {
    if keys == [] {
      NoDelimiter("", ';');
    } else {
      var front, k := keys[..|keys| - 1], keys[|keys| - 1];
      PrintSegments(m, front);
      if Printed(m, k) {
        EntryClean(k, m[k]);
        EndsInOneMore(Print(m, front), Bodies(m, front), Entry(k, m[k]));
      } else {
        assert Bodies(m, front) + [] == Bodies(m, front) && Print(m, front) + "" == Print(m, front);
      }
    }
  }

  lemma FirstIs(s: string, c: char, i: nat)
    requires i < |s| && s[i] == c && forall j | 0 <= j < i :: s[j] != c
    ensures First(s, c) == i
  {
  }

  lemma NamedPair(n: string, text: string)
    requires Letters(n) && n != ""
    ensures PairOf(n + "=" + text) == Some((n, Unbrace(Trim(text))))
  {
    var e := n + "=" + text;
    assert e[..|n|] == n && e[|n| + 1..] == text;
    FirstIs(e, '=', |n|);
    var a, b := TrimPart(n);
  }

  lemma EntryEffect(dirs: set<string>, k: Key, v: Value)
    requires Render(v) != ""
    ensures Effect(dirs, Entry(k, v)) == match Reread(dirs, k, v) case None => None case Some(w) => Some((k, w))
  {
    NameLetters(k);
    NamedPair(KeyName(k), Quote(Render(v)));
    LowerStays(KeyName(k));
    KeyFound(k);
  }

  lemma EntryDecides(dirs: set<string>, l: Key, v: Value, k: Key)
    requires Render(v) != ""
    ensures Leftmost(dirs, [Entry(l, v)], k) == if k == l then Reread(dirs, l, v) else None
  {
    EntryEffect(dirs, l, v);
    LeftmostOfOne(dirs, Entry(l, v), k);
  }

  lemma {:induction false} LeftmostPrinted(dirs: set<string>, m: Assignment, keys: seq<Key>, k: Key)
    requires forall i, j | 0 <= i < j < |keys| :: keys[i] != keys[j]
    ensures Leftmost(dirs, Bodies(m, keys), k) ==
            if k in keys && k in m then Reread(dirs, k, m[k]) else None
    decreases |keys|
  {
    if keys != [] {
      var front, l := keys[..|keys| - 1], keys[|keys| - 1];
      LeftmostPrinted(dirs, m, front, k);
      assert k in keys <==> k in front || k == l;
      if Printed(m, l) {
        EntryDecides(dirs, l, m[l], k);
        LeftmostSnoc(dirs, Bodies(m, front), Entry(l, m[l]), k);
      } else {
        assert Bodies(m, front) + [] == Bodies(m, front);
      }
    }
  }

  lemma KeysDistinct()
    ensures forall i, j | 0 <= i < j < |KEYS| :: KEYS[i] != KEYS[j]
  {
    forall i, j | 0 <= i < j < |KEYS| ensures KEYS[i] != KEYS[j] {
      var at := KeysSorted(i, j);
    }
  }

  /** The settings of a fresh configuration after parsing the printed form of `m`. */
  ghost function Reparsed(dirs: set<string>, m: Assignment): Assignment {
    Meaning(dirs, map[], Print(m, KEYS), ';')
  }

  /** The empty segment at the end of a printed string changes nothing. */
  lemma EmptyEnd(dirs: set<string>, segments: seq<string>, k: Key)
    ensures Leftmost(dirs, segments + [""], k) == Leftmost(dirs, segments, k)
  {
    LeftmostSnoc(dirs, segments, "", k);
    LeftmostOfOne(dirs, "", k);
    assert Effect(dirs, "") == None;
  }

  lemma ReparsedByLeftmost(dirs: set<string>, m: Assignment, keys: seq<Key>, k: Key)
    requires DelimiterFree(m)
    ensures Lookup(Meaning(dirs, map[], Print(m, keys), ';'), k) == Leftmost(dirs, Bodies(m, keys), k)
  {
    PrintSegments(m, keys);
    var p := Print(m, keys);
    assert StripNul(p) == p;
    LeftmostDecides(dirs, map[], Bodies(m, keys) + [""], k);
    EmptyEnd(dirs, Bodies(m, keys), k);
  }

  lemma ReparsedKeyIn(dirs: set<string>, m: Assignment, keys: seq<Key>, k: Key)
    requires DelimiterFree(m) && k in keys && forall i, j | 0 <= i < j < |keys| :: keys[i] != keys[j]
    ensures Lookup(Meaning(dirs, map[], Print(m, keys), ';'), k) == if k in m then Reread(dirs, k, m[k]) else None
  {
    ReparsedByLeftmost(dirs, m, keys, k);
    LeftmostPrinted(dirs, m, keys, k);
  }

  lemma ReparsedKey(dirs: set<string>, m: Assignment, k: Key)
    requires DelimiterFree(m)
    ensures Lookup(Reparsed(dirs, m), k) == if k in m then Reread(dirs, k, m[k]) else None
  {
    KeysDistinct();
    KeysComplete(k);
    ReparsedKeyIn(dirs, m, KEYS, k);
  }

  lemma {:induction false} SegmentsClean(s: string, d: char)
    ensures forall i | 0 <= i < |Segments(s, d)| :: d !in Segments(s, d)[i]
  {
    var i := First(s, d);
    if i < |s| {
      SegmentsClean(s[i + 1..], d);
    }
  }

  lemma UnbraceTrimClean(t: string, d: char)
    requires d !in t
    ensures d !in Unbrace(Trim(t))
  {
    var a, b := TrimPart(t);
  }

  lemma AcceptedIsTheText(dirs: set<string>, k: Key, text: string)
    requires Accepted(dirs, k, text).Some? && Accepted(dirs, k, text).value.Text?
    ensures Accepted(dirs, k, text).value.text == text
  {
  }

  lemma EffectClean(dirs: set<string>, segment: string)
    requires ';' !in segment && Effect(dirs, segment).Some?
    ensures Effect(dirs, segment).value.1.Text? ==> ';' !in Effect(dirs, segment).value.1.text
  {
    var text := PairOf(segment).value.1;
    var (k, v) := Effect(dirs, segment).value;
    if v.Text? {
      UnbraceTrimClean(segment[First(segment, '=') + 1..], ';');
      AcceptedIsTheText(dirs, k, text);
    }
  }

  lemma {:induction false} LeftmostClean(dirs: set<string>, segments: seq<string>, k: Key)
    requires forall i | 0 <= i < |segments| :: ';' !in segments[i]
    ensures var l := Leftmost(dirs, segments, k); l.Some? && l.value.Text? ==> ';' !in l.value.text
    decreases |segments|
  {
    if segments != [] {
      if Effect(dirs, segments[0]).Some? {
        EffectClean(dirs, segments[0]);
      }
      LeftmostClean(dirs, segments[1..], k);
    }
  }

  /** A text with a delimiter never comes back from parsing. */
  lemma ReparsedClean(dirs: set<string>, m: Assignment, k: Key)
    ensures var r := Lookup(Reparsed(dirs, m), k); r.Some? && r.value.Text? ==> ';' !in r.value.text
  {
    var segments := Segments(StripNul(Print(m, KEYS)), ';');
    SegmentsClean(StripNul(Print(m, KEYS)), ';');
    LeftmostClean(dirs, segments, k);
    LeftmostDecides(dirs, map[], segments, k);
  }

  lemma SameIffLookups(m: Assignment, n: Assignment)
    ensures m == n <==> forall k :: Lookup(m, k) == Lookup(n, k)
  {
    if forall k :: Lookup(m, k) == Lookup(n, k) {
      assert forall k :: k in m <==> k in n by {
        forall k ensures k in m <==> k in n {
          assert Lookup(m, k) == Lookup(n, k);
        }
      }
      assert forall k | k in m :: m[k] == n[k] by {
        forall k | k in m ensures m[k] == n[k] {
          assert Lookup(m, k) == Lookup(n, k);
        }
      }
    }
  }

  /** Printing and parsing back gives the same settings if and only if every value
      survives: one bad value anywhere is enough to lose it. */
  lemma RoundTripIff(dirs: set<string>, m: Assignment)
    requires Typed(m)
    ensures Reparsed(dirs, m) == m <==> forall k | k in m :: Survives(dirs, k, m[k])
  {
    SameIffLookups(Reparsed(dirs, m), m);
    if DelimiterFree(m) {
      forall k ensures Lookup(Reparsed(dirs, m), k) == Lookup(m, k) <==> k !in m || Survives(dirs, k, m[k]) {
        ReparsedKey(dirs, m, k);
        if k in m {
          SurvivesIffReread(dirs, k, m[k]);
        }
      }
    } else {
      var k :| k in m && m[k].Text? && ';' in m[k].text;
      ReparsedClean(dirs, m, k);
      assert !Survives(dirs, k, m[k]);
      assert Lookup(Reparsed(dirs, m), k) != Lookup(m, k);
    }
  }

  /** A user name with the delimiter does not come back. */
  lemma DelimiterLosesText(dirs: set<string>) returns (m: Assignment)
    ensures m == map[Uid := Value.Text("a;b")] && Typed(m) && Reparsed(dirs, m) != m
  {
    var text := "a;b";
    assert text[1] == ';';
    m := map[Uid := Value.Text(text)];
    assert !Survives(dirs, Uid, m[Uid]);
    RoundTripIff(dirs, m);
  }

  lemma InnerNulSurvives(dirs: set<string>, k: Key)
    requires KindOf(k).TextKind?
    ensures Survives(dirs, k, Value.Text("a\0b"))
  {
    var s := "a\0b";
    assert s[0] == 'a' && s[2] == 'b' && Trimmed(s);
  }

  lemma SpacedBracesSurvive(dirs: set<string>, k: Key)
    requires KindOf(k).TextKind?
    ensures Survives(dirs, k, Value.Text(" {a} "))
  {
    var s := " {a} ";
    assert s[0] == ' ';
  }

  /** A NUL inside a text, or blanks and braces around one with a space, do come back. */
  lemma OddTextsSurvive(dirs: set<string>) returns (m: Assignment)
    ensures m == map[Uid := Value.Text("a\0b"), Pwd := Value.Text(" {a} ")] && Reparsed(dirs, m) == m
  {
    InnerNulSurvives(dirs, Uid);
    SpacedBracesSurvive(dirs, Pwd);
    m := map[Uid := Value.Text("a\0b"), Pwd := Value.Text(" {a} ")];
    RoundTripIff(dirs, m);
  }
}
