/** What the attributes of a connection string stand for: keys and words in any letter
    case, values with blanks and braces around them, and which texts each key takes. */
module Attributes {

  import opened Common
  import opened Text
  import opened Scanner
  import opened Settings
  import opened ConnectionString
  import opened RoundTrip

  // ---- Letter case ----

  lemma LowerCharSame(c: char, d: char)
    ensures LowerChar(c) == LowerChar(d) <==> c == d || CasePair(c, d) || CasePair(d, c)
  {
  }

  lemma RecasedLower(a: string, b: string)
    requires SameLetters(a, b)
    ensures ToLower(a) == ToLower(b)
  {
    forall i | 0 <= i < |a| ensures ToLower(a)[i] == ToLower(b)[i] {
      LowerCharSame(a[i], b[i]);
    }
  }

  lemma LowerSame(a: string, b: string)
    ensures ToLower(a) == ToLower(b) <==> SameLetters(a, b)
  {
    if SameLetters(a, b) {
      RecasedLower(a, b);
    } else if ToLower(a) == ToLower(b) {
      forall i | 0 <= i < |a| ensures a[i] == b[i] || CasePair(a[i], b[i]) || CasePair(b[i], a[i]) {
        assert ToLower(a)[i] == ToLower(b)[i];
        LowerCharSame(a[i], b[i]);
      }
    }
  }

  /** A word without capitals is the lower-case form of exactly its recased forms. */
  lemma LowerIs(s: string, word: string)
    requires ToLower(word) == word
    ensures ToLower(s) == word <==> SameLetters(s, word)
  {
    LowerSame(s, word);
  }

  /** A key names the setting whose name it is up to letter case, and no other. */
  lemma KeyOfIff(key: string, k: Key)
    ensures KeyOf(ToLower(key)) == Some(k) <==> SameLetters(key, KeyName(k))
  {
    NameLetters(k);
    LowerStays(KeyName(k));
    LowerIs(key, KeyName(k));
    KeyFound(k);
  }

  /** Two segments that are the same but for letter case before the first equals sign. */
  predicate RecasedUpTo(a: string, b: string, e: nat) {
    && e <= |a| == |b| && a[e..] == b[e..]
    && SameLetters(a[..e], b[..e]) && '=' !in a[..e] && (e < |a| ==> a[e] == '=')
  }

  ghost predicate KeyRecased(a: string, b: string) {
    exists e :: RecasedUpTo(a, b, e)
  }

  lemma FirstEquals(a: string, e: nat)
    requires e <= |a| && '=' !in a[..e] && (e < |a| ==> a[e] == '=')
    ensures First(a, '=') == e
  {
    assert forall i | 0 <= i < e :: a[i] == a[..e][i];
  }

  /** The pairs of two such segments: none in either, or keys the same but for letter case
      and equal values. */
  lemma RecasedPair(a: string, b: string)
    requires KeyRecased(a, b)
    ensures var x, y := PairOf(a), PairOf(b);
      x.Some? == y.Some? && (x.Some? ==> SameLetters(x.value.0, y.value.0) && x.value.1 == y.value.1)
  {
    var e: nat :| RecasedUpTo(a, b, e);
    FirstEquals(a, e);
    assert e < |b| ==> b[e] == b[e..][0] == a[e..][0];
    FirstEquals(b, e);
    if 0 < e < |a| {
      assert a[e + 1..] == a[e..][1..] && b[e + 1..] == b[e..][1..];
      TrimRecased(a[..e], b[..e]);
    }
  }

  lemma RecasedSegment(dirs: set<string>, m: Assignment, a: string, b: string)
    requires KeyRecased(a, b)
    ensures ApplySegment(dirs, m, a) == ApplySegment(dirs, m, b)
  {
    RecasedPair(a, b);
    if PairOf(a).Some? {
      RecasedLower(PairOf(a).value.0, PairOf(b).value.0);
    }
  }

  ghost predicate AllRecased(a: seq<string>, b: seq<string>) {
    |a| == |b| && forall i | 0 <= i < |a| :: KeyRecased(a[i], b[i])
  }

  lemma {:induction false} RecasedSegments(dirs: set<string>, m: Assignment, a: seq<string>, b: seq<string>)
    requires AllRecased(a, b)
    ensures ApplyAll(dirs, m, a) == ApplyAll(dirs, m, b)
    decreases |a|
  {
    if a != [] {
      var n := |a| - 1;
      RecasedSegment(dirs, m, a[n], b[n]);
      RecasedSegments(dirs, ApplySegment(dirs, m, a[n]), a[..n], b[..n]);
    }
  }

  /** Two strings whose keys differ in letter case only parse to the same settings. */
  lemma MeaningIgnoresCase(dirs: set<string>, m: Assignment, s: string, t: string, d: char)
    requires AllRecased(Segments(StripNul(s), d), Segments(StripNul(t), d))
    ensures Meaning(dirs, m, s, d) == Meaning(dirs, m, t, d)
  {
    RecasedSegments(dirs, m, Segments(StripNul(s), d), Segments(StripNul(t), d));
  }

  // ---- The texts each key takes ----

  /** A number text: 1 to 31 digits, a value from `least` to 2^32 - 1, kept as the 32-bit
      number with the same low bits. */
  predicate NumberText(text: string, least: nat, v: Value) {
    && 0 < |text| < 32 && (forall i | 0 <= i < |text| :: 48 <= text[i] as int <= 57)
    && least <= ToNat(text) < 0x1_0000_0000
    && v.Number? && -0x8000_0000 <= v.n < 0x8000_0000 && (ToNat(text) - v.n) % 0x1_0000_0000 == 0
  }

  /** The text stands for the value of this key. */
  predicate Denotes(dirs: set<string>, k: Key, text: string, v: Value) {
    match k
    case ReqTimeout => NumberText(text, 1, v)
    case ConnectionTimeout => NumberText(text, 1, v)
    case MaxConnections => NumberText(text, 1, v)
    case MaxRetryCountClient => NumberText(text, 0, v)
    case MaxRowPerPage => NumberText(text, 0, v)
    case Auth => v.AuthValue? && SameLetters(Trim(text), AuthText(v.auth))
    case LogLevel => v.LevelValue? && v.level != Unknown && Trim(text) == LevelText(v.level)
    case LogPath => v == Value.Text(text) && text in dirs
    case _ => v == Value.Text(text)
  }

  lemma {:induction false} RtrimLower(s: string)
    ensures Rtrim(ToLower(s)) == ToLower(Rtrim(s))
  {
    if s != "" && IsSpace(s[|s| - 1]) {
      var front := s[..|s| - 1];
      RtrimLower(front);
      assert ToLower(s)[..|s| - 1] == ToLower(front);
    }
  }

  lemma {:induction false} LtrimLower(s: string)
    ensures Ltrim(ToLower(s)) == ToLower(Ltrim(s))
  {
    if s != "" && IsSpace(s[0]) {
      LtrimLower(s[1..]);
      assert ToLower(s)[1..] == ToLower(s[1..]);
    }
  }

  lemma TrimLower(s: string)
    ensures Trim(ToLower(s)) == ToLower(Trim(s))
  {
    RtrimLower(s);
    LtrimLower(Rtrim(s));
  }

  lemma AuthIff(text: string, a: AuthType)
    ensures AuthFrom(text) == Some(AuthValue(a)) <==> SameLetters(Trim(text), AuthText(a))
  {
    AuthTextPlain(a);
    WordRereads(AuthText(a));
    LowerIs(Trim(text), AuthText(a));
    TrimLower(text);
    AuthWord(text, a);
  }

  lemma AuthWord(text: string, a: AuthType)
    ensures AuthFrom(text) == Some(AuthValue(a)) <==> Trim(ToLower(text)) == AuthText(a)
  {
  }

  lemma LevelIff(text: string, l: Level)
    ensures LevelFrom(text) == Some(LevelValue(l)) <==> l != Unknown && Trim(text) == LevelText(l)
  {
  }

  lemma NumberIff(text: string, least: nat, v: Value)
    ensures NumberFrom(text, least) == Some(v) <==> NumberText(text, least, v)
  {
    if AllDigits(text) && 0 < |text| < 32 && ToNat(text) < 0x1_0000_0000 && v.Number? {
      LowBits(ToNat(text), v.n);
    }
  }

  lemma LowBits(n: nat, m: int)
    requires n < 0x1_0000_0000
    ensures ToInt32(n) == m <==> -0x8000_0000 <= m < 0x8000_0000 && (n - m) % 0x1_0000_0000 == 0
  {
  }

  /** A key takes exactly the texts that stand for a value of its kind, as that value; any
      other text is refused. */
  lemma AcceptedIff(dirs: set<string>, k: Key, text: string, v: Value)
    ensures Accepted(dirs, k, text) == Some(v) <==> Denotes(dirs, k, text, v)
  {
    match k
    case ReqTimeout => NumberIff(text, 1, v);
    case ConnectionTimeout => NumberIff(text, 1, v);
    case MaxConnections => NumberIff(text, 1, v);
    case MaxRetryCountClient => NumberIff(text, 0, v);
    case MaxRowPerPage => NumberIff(text, 0, v);
    case Auth => AcceptedAuth(dirs, text, v);
    case LogLevel => AcceptedLevel(dirs, text, v);
    case _ =>
  }

  lemma AcceptedAuth(dirs: set<string>, text: string, v: Value)
    ensures Accepted(dirs, Auth, text) == Some(v) <==> Denotes(dirs, Auth, text, v)
  {
    if v.AuthValue? {
      AuthIff(text, v.auth);
    }
  }

  lemma AcceptedLevel(dirs: set<string>, text: string, v: Value)
    ensures Accepted(dirs, LogLevel, text) == Some(v) <==> Denotes(dirs, LogLevel, text, v)
  {
    if v.LevelValue? {
      LevelIff(text, v.level);
    }
  }

  /** Whatever its letter case, the name of a setting gives it the value its text stands
      for, and leaves the settings as they are when the text stands for none; a key that is
      no setting's name changes nothing. */
  lemma HandleMeans(dirs: set<string>, m: Assignment, key: string, text: string)
    ensures forall k, v | SameLetters(key, KeyName(k)) && Denotes(dirs, k, text, v) ::
      Handle(dirs, m, key, text) == m[k := v]
    ensures (forall k, v :: !(SameLetters(key, KeyName(k)) && Denotes(dirs, k, text, v))) ==>
      Handle(dirs, m, key, text) == m
  {
    forall k, v | SameLetters(key, KeyName(k)) && Denotes(dirs, k, text, v)
      ensures KeyOf(ToLower(key)) == Some(k) && Accepted(dirs, k, text) == Some(v)
    {
      KeyOfIff(key, k);
      AcceptedIff(dirs, k, text, v);
    }
    var found := KeyOf(ToLower(key));
    if found.Some? && Accepted(dirs, found.value, text).Some? {
      KeyOfIff(key, found.value);
      AcceptedIff(dirs, found.value, text, Accepted(dirs, found.value, text).value);
    }
  }

  /** A timeout of zero is refused. */
  lemma ZeroTimeoutRefused(dirs: set<string>)
    ensures Accepted(dirs, ReqTimeout, "0") == None && Accepted(dirs, ConnectionTimeout, "0") == None
  {
    var text := "0";
    assert text[..0] == "" && ToNat(text) == 0;
  }

  /** A number of 2^31 or more is kept as a negative one. */
  lemma BigNumberIsNegative(dirs: set<string>, text: string, v: Value)
    requires Denotes(dirs, MaxConnections, text, v) && ToNat(text) >= 0x8000_0000
    ensures v.n < 0
  {
  }

  // ---- Segments and pairs as they are written ----

  /** The trailing NULs go, and nothing else. */
  lemma {:induction false} StripNulIff(s: string, t: string)
    ensures StripNul(s) == t <==>
      && t <= s && (forall i | |t| <= i < |s| :: s[i] as int == 0)
      && (t != "" ==> t[|t| - 1] as int != 0)
  {
    if s != "" && s[|s| - 1] == '\0' {
      StripNulIff(s[..|s| - 1], t);
    } else if s != "" && t <= s && |t| < |s| {
      assert s[|s| - 1] as int != 0;
    }
  }

  /** Put together again, the segments are the string. */
  lemma {:induction false} SegmentsJoin(s: string, d: char)
    ensures JoinWith(Segments(s, d), [d]) == s
    decreases |s|
  {
    var i := First(s, d);
    if i < |s| {
      SegmentsJoin(s[i + 1..], d);
      assert Segments(s, d)[1..] == Segments(s[i + 1..], d);
      assert s == s[..i] + [d] + s[i + 1..];
    }
  }

  lemma NoPair(segment: string)
    requires '=' !in segment || segment[0] == '='
    ensures PairOf(segment) == None
  {
    if '=' !in segment {
      assert First(segment, '=') == |segment|;
    }
  }

  lemma SplitAtEquals(key: string, text: string)
    requires key != "" && '=' !in key
    ensures PairOf(key + "=" + text) == Some((Trim(key), Unbrace(Trim(text))))
  {
    var s := key + "=" + text;
    assert s[..|key|] == key && s[|key| + 1..] == text;
    FirstEquals(s, |key|);
  }

  /** A value in braces is what stands between them, blanks included; blanks around the
      braces do not count. */
  lemma BracedValue(key: string, left: string, value: string, right: string)
    requires key != "" && '=' !in key && Blank(left) && Blank(right)
    ensures PairOf(key + "=" + (left + ("{" + value + "}") + right)) == Some((Trim(key), value))
  {
    var braced := "{" + value + "}";
    SplitAtEquals(key, left + braced + right);
    TrimStrips(left + braced + right, left, braced, right);
    assert braced[1..|braced| - 1] == value;
  }

  /** Any other value is itself without the blanks around it. */
  lemma PlainValue(key: string, left: string, value: string, right: string)
    requires key != "" && '=' !in key && Surrounded(left + value + right, left, value, right)
    requires |value| >= 2 ==> value[0] != '{' || value[|value| - 1] != '}'
    ensures PairOf(key + "=" + (left + value + right)) == Some((Trim(key), value))
  {
    SplitAtEquals(key, left + value + right);
    TrimStrips(left + value + right, left, value, right);
  }

  // ---- A string of attributes ----

  /** An attribute as it is written: a key, an equals sign and a text, then the delimiter. */
  datatype Attribute = Attribute(key: string, text: string)

  function Body(a: Attribute): string {
    a.key + "=" + a.text
  }

  function Written(attributes: seq<Attribute>): string
    decreases |attributes|
  {
    if attributes == [] then ""
    else Written(attributes[..|attributes| - 1]) + (Body(attributes[|attributes| - 1]) + [';'])
  }

  function BodiesOf(attributes: seq<Attribute>): (r: seq<string>)
    ensures |r| == |attributes| && forall i | 0 <= i < |r| :: r[i] == Body(attributes[i])
  {
    seq(|attributes|, i requires 0 <= i < |attributes| => Body(attributes[i]))
  }

  predicate Braced(text: string, left: string, value: string, right: string) {
    text == left + ("{" + value + "}") + right && Blank(left) && Blank(right)
  }

  predicate Bare(text: string, left: string, value: string, right: string) {
    Surrounded(text, left, value, right) && (|value| >= 2 ==> value[0] != '{' || value[|value| - 1] != '}')
  }

  /** The text has the value in braces, or bare, with blanks around it or none. */
  ghost predicate Gives(text: string, value: string) {
    exists left, right :: Braced(text, left, value, right) || Bare(text, left, value, right)
  }

  /** The attribute names a setting, in any letter case, and its text gives a value that
      the setting takes as `v`. */
  ghost predicate Sets(dirs: set<string>, a: Attribute, k: Key, v: Value) {
    && SameLetters(a.key, KeyName(k)) && ';' !in a.text
    && exists value :: Gives(a.text, value) && Denotes(dirs, k, value, v)
  }

  lemma LettersArePlain(key: string, name: string)
    requires SameLetters(key, name) && Letters(name) && name != ""
    ensures key != "" && '=' !in key && ';' !in key && Trim(key) == key
  {
    forall i | 0 <= i < |key| ensures 65 <= key[i] as int <= 90 || 97 <= key[i] as int <= 122 {
      assert 'a' <= name[i] <= 'z';
    }
    TrimmedStays(key);
  }

  lemma NameIsPlain(key: string, k: Key)
    requires SameLetters(key, KeyName(k))
    ensures key != "" && '=' !in key && ';' !in key && Trim(key) == key
  {
    NameLetters(k);
    LettersArePlain(key, KeyName(k));
  }

  lemma GivenText(a: Attribute, value: string)
    requires a.key != "" && '=' !in a.key && Gives(a.text, value)
    ensures PairOf(Body(a)) == Some((Trim(a.key), value))
  {
    var left, right :| Braced(a.text, left, value, right) || Bare(a.text, left, value, right);
    if Braced(a.text, left, value, right) {
      BracedValue(a.key, left, value, right);
    } else {
      PlainValue(a.key, left, value, right);
    }
  }

  lemma PairEffect(dirs: set<string>, segment: string, key: string, value: string, k: Key, v: Value)
    requires PairOf(segment) == Some((key, value)) && SameLetters(key, KeyName(k)) && Denotes(dirs, k, value, v)
    ensures Effect(dirs, segment) == Some((k, v))
  {
    KeyOfIff(key, k);
    AcceptedIff(dirs, k, value, v);
  }

  lemma NoDelimiterIn(a: Attribute)
    requires ';' !in a.key && ';' !in a.text
    ensures ';' !in Body(a)
  {
  }

  lemma SetsEffect(dirs: set<string>, a: Attribute, k: Key, v: Value)
    requires Sets(dirs, a, k, v)
    ensures ';' !in Body(a) && Effect(dirs, Body(a)) == Some((k, v))
  {
    NameIsPlain(a.key, k);
    NoDelimiterIn(a);
    var value :| Gives(a.text, value) && Denotes(dirs, k, value, v);
    GivenText(a, value);
    PairEffect(dirs, Body(a), a.key, value, k, v);
  }

  /** The setting and value of each attribute. */
  ghost predicate AllSet(dirs: set<string>, attributes: seq<Attribute>, settings: seq<(Key, Value)>) {
    |attributes| == |settings|
    && forall i | 0 <= i < |attributes| :: Sets(dirs, attributes[i], settings[i].0, settings[i].1)
  }

  lemma BodiesOneMore(attributes: seq<Attribute>)
    requires attributes != []
    ensures var n := |attributes| - 1; BodiesOf(attributes) == BodiesOf(attributes[..n]) + [Body(attributes[n])]
  {
  }

  lemma {:induction false} WrittenSegments(attributes: seq<Attribute>)
    requires forall i | 0 <= i < |attributes| :: ';' !in Body(attributes[i])
    ensures EndsIn(Written(attributes), BodiesOf(attributes))
    decreases |attributes|
  {
    if attributes == [] {
      NoDelimiter("", ';');
    } else {
      var n := |attributes| - 1;
      WrittenSegments(attributes[..n]);
      EndsInOneMore(Written(attributes[..n]), BodiesOf(attributes[..n]), Body(attributes[n]));
      BodiesOneMore(attributes);
    }
  }

  /** The value of the leftmost of the settings for a key. */
  function FirstFor(settings: seq<(Key, Value)>, k: Key): Option<Value> {
    if settings == [] then None
    else if settings[0].0 == k then Some(settings[0].1)
    else FirstFor(settings[1..], k)
  }

  lemma {:induction false} LeftmostIsFirst(dirs: set<string>, segments: seq<string>, settings: seq<(Key, Value)>, k: Key)
    requires |segments| == |settings| && forall i | 0 <= i < |segments| :: Effect(dirs, segments[i]) == Some(settings[i])
    ensures Leftmost(dirs, segments, k) == FirstFor(settings, k)
  {
    if segments != [] {
      LeftmostIsFirst(dirs, segments[1..], settings[1..], k);
    }
  }

  lemma WrittenLeftmost(dirs: set<string>, attributes: seq<Attribute>, settings: seq<(Key, Value)>, k: Key)
    requires AllSet(dirs, attributes, settings)
    ensures EndsIn(Written(attributes), BodiesOf(attributes))
    ensures Leftmost(dirs, BodiesOf(attributes), k) == FirstFor(settings, k)
  {
    forall i | 0 <= i < |attributes|
      ensures ';' !in Body(attributes[i]) && Effect(dirs, Body(attributes[i])) == Some(settings[i])
    {
      SetsEffect(dirs, attributes[i], settings[i].0, settings[i].1);
    }
    WrittenSegments(attributes);
    LeftmostIsFirst(dirs, BodiesOf(attributes), settings, k);
  }

  lemma MeaningOfSegments(dirs: set<string>, m: Assignment, p: string, bodies: seq<string>, k: Key)
    requires EndsIn(p, bodies)
    ensures var l := Leftmost(dirs, bodies, k);
      Lookup(Meaning(dirs, m, p, ';'), k) == if l.Some? then l else Lookup(m, k)
  {
    StripNulIff(p, p);
    LeftmostDecides(dirs, m, bodies + [""], k);
    EmptyEnd(dirs, bodies, k);
  }

  /** Parsing a string of attributes, whatever the letter case of their keys and with values
      bare or in braces: every setting has the value of its leftmost attribute, and without
      one the value it had. */
  lemma AttributesMean(
    dirs: set<string>, m: Assignment, attributes: seq<Attribute>, settings: seq<(Key, Value)>, k: Key)
    requires AllSet(dirs, attributes, settings)
    ensures var f := FirstFor(settings, k);
      Lookup(Meaning(dirs, m, Written(attributes), ';'), k) == if f.Some? then f else Lookup(m, k)
  {
    WrittenLeftmost(dirs, attributes, settings, k);
    MeaningOfSegments(dirs, m, Written(attributes), BodiesOf(attributes), k);
  }

  /** Some of the names as they are documented, with capitals. */
  lemma DocumentedNames()
    ensures SameLetters("DSN", KeyName(Dsn)) && SameLetters("UID", KeyName(Uid)) && SameLetters("PWD", KeyName(Pwd))
    ensures SameLetters("Auth", KeyName(Auth)) && SameLetters("Region", KeyName(Region))
  {
  }

  lemma MoreDocumentedNames()
    ensures SameLetters("Driver", KeyName(Driver)) && SameLetters("RoleARN", KeyName(RoleArn))
    ensures SameLetters("IdPARN", KeyName(IdPArn)) && SameLetters("IdPHost", KeyName(IdPHost))
  {
  }

  /** The words of Auth and the levels as they are documented. */
  lemma DocumentedWords()
    ensures AuthFrom("IAM") == Some(AuthValue(Iam)) && AuthFrom("AAD") == Some(AuthValue(Aad))
    ensures AuthFrom("OKTA") == Some(AuthValue(Okta))
  {
    WordIs("IAM", Iam);
    WordIs("AAD", Aad);
    WordIs("OKTA", Okta);
  }

  lemma ProfileWord()
    ensures AuthFrom("AWS_PROFILE") == Some(AuthValue(AwsProfile))
  {
    WordIs("AWS_PROFILE", AwsProfile);
  }

  lemma WordIs(text: string, a: AuthType)
    requires SameLetters(text, AuthText(a)) && Trimmed(text)
    ensures AuthFrom(text) == Some(AuthValue(a))
  {
    TrimmedStays(text);
    AuthIff(text, a);
  }

  lemma DocumentedLevels()
    ensures LevelFrom("0") == Some(LevelValue(Off)) && LevelFrom("1") == Some(LevelValue(Level.Error))
    ensures LevelFrom("2") == Some(LevelValue(Warning)) && LevelFrom("3") == Some(LevelValue(Info))
    ensures LevelFrom("4") == Some(LevelValue(Debug))
  {
    TrimmedStays("0");
    TrimmedStays("1");
    TrimmedStays("2");
    TrimmedStays("3");
    TrimmedStays("4");
  }
}
