/** The connection-string parser: an in-place right-to-left scanner over the
    attribute list, applying one attribute after the other to a configuration. */
module ConnectionString {

  import opened Common
  import opened Text
  import opened Scanner
  import opened Settings

  /** The effect of one key-value pair. */
  ghost function Handle(dirs: set<string>, m: Assignment, key: string, value: string): Assignment {
    match KeyOf(ToLower(key))
    case None => m
    case Some(k) =>
      match Accepted(dirs, k, value)
      case None => m
      case Some(v) => m[k := v]
  }

  // ---- What a connection string means ----

  ghost function ApplySegment(dirs: set<string>, m: Assignment, segment: string): Assignment {
    match PairOf(segment)
    case None => m
    case Some((key, value)) => Handle(dirs, m, key, value)
  }

  /** Segments take effect from right to left. */
  ghost function ApplyAll(dirs: set<string>, m: Assignment, segments: seq<string>): Assignment
    decreases |segments|
  {
    if segments == [] then m
    else ApplyAll(dirs, ApplySegment(dirs, m, segments[|segments| - 1]), segments[..|segments| - 1])
  }

  ghost function Apply(dirs: set<string>): (Assignment, string) -> Assignment {
    (m: Assignment, segment: string) => ApplySegment(dirs, m, segment)
  }

  lemma {:induction false} AppliedFromRight(dirs: set<string>, m: Assignment, segments: seq<string>)
    ensures ApplyAll(dirs, m, segments) == FromRight(Apply(dirs), m, segments)
    decreases |segments|
  {
    if segments != [] {
      AppliedFromRight(dirs, Apply(dirs)(m, segments[|segments| - 1]), segments[..|segments| - 1]);
    }
  }

  /** What is still to be applied to `m` while `s` is left. */
  ghost function Remaining(dirs: set<string>, m: Assignment, s: string, d: char): Assignment {
    ApplyAll(dirs, m, Segments(s, d))
  }

  /** The settings after parsing `s` on top of `m`. */
  ghost function Meaning(dirs: set<string>, m: Assignment, s: string, d: char): Assignment {
    Remaining(dirs, m, StripNul(s), d)
  }

  lemma ApplyLast(dirs: set<string>, m: Assignment, s: string, d: char)
    requires |s| < NPOS
    ensures var b := SegmentStart(s, d);
      var applied := ApplySegment(dirs, m, s[b..]);
      Remaining(dirs, m, s, d) == if b == 0 then applied else Remaining(dirs, applied, s[..b - 1], d)
  {
    var b := SegmentStart(s, d);
    ScanOne(Apply(dirs), m, s, d);
    AppliedFromRight(dirs, m, Segments(s, d));
    if b > 0 {
      AppliedFromRight(dirs, Apply(dirs)(m, s[b..]), Segments(s[..b - 1], d));
    }
  }

  lemma NothingLeft(dirs: set<string>, m: Assignment, d: char)
    ensures Remaining(dirs, m, "", d) == m
  {
    ScanNothing(Apply(dirs), m, d);
    AppliedFromRight(dirs, m, Segments("", d));
  }

  /** The settings and the pairs handed on. */
  datatype Outcome = Outcome(settings: Assignment, handed: seq<(string, string)>)

  /** Once all of `s` has been scanned: its pairs were handed on from right to left, and
      the settings are those its segments give in that order. */
  ghost function Scanned(dirs: set<string>, o: Outcome, s: string, d: char): Outcome {
    Outcome(Remaining(dirs, o.settings, s, d), o.handed + PairsFromRight(s, d))
  }

  ghost function AfterSegment(dirs: set<string>, o: Outcome, segment: string): Outcome {
    Outcome(ApplySegment(dirs, o.settings, segment), o.handed + PairSeq(segment))
  }

  lemma ScanLast(dirs: set<string>, o: Outcome, s: string, d: char)
    requires |s| < NPOS
    ensures var b := SegmentStart(s, d);
      var next := AfterSegment(dirs, o, s[b..]);
      Scanned(dirs, o, s, d) == if b == 0 then next else Scanned(dirs, next, s[..b - 1], d)
  {
    ApplyLast(dirs, o.settings, s, d);
    HandOne(o.handed, s, d);
    var b := SegmentStart(s, d);
    if b == 0 {
      assert o.handed + PairSeq(s[b..]) + [] == o.handed + PairSeq(s[b..]);
    }
  }

  lemma ScanEnd(dirs: set<string>, o: Outcome, d: char)
    ensures Scanned(dirs, o, "", d) == o
  {
    NothingLeft(dirs, o.settings, d);
    NoPairs(o.handed, d);
  }

  class ConnectionStringParser {
    const cfg: Configuration
    /** The pairs handed to HandleAttributePair so far. */
    ghost var handed: seq<(string, string)>

    constructor (cfg: Configuration)
      ensures this.cfg == cfg && handed == []
    {
      this.cfg, handed := cfg, [];
    }

    method IndexOfName(keys: seq<Key>, name: string) returns (i: nat)
      ensures i <= |keys| && (i < |keys| ==> KeyName(keys[i]) == name)
      ensures forall j | 0 <= j < i :: KeyName(keys[j]) != name
    {
      i := 0;
      while i < |keys| && KeyName(keys[i]) != name
        invariant i <= |keys| && forall j | 0 <= j < i :: KeyName(keys[j]) != name
      {
        i := i + 1;
      }
    }

    method HandleAttributePair(key: string, value: string)
      modifies cfg, this`handed
      ensures cfg.settings == Handle(cfg.dirs, old(cfg.settings), key, value)
      ensures handed == old(handed) + [(key, value)]
    {
      handed := handed + [(key, value)];
      var name := ToLower(key);
      var i := IndexOfName(KEYS, name);
      if i == |KEYS| {
        NoSuchKey(name);
        return;
      }
      KeyFound(KEYS[i]);
      var v := Accepted(cfg.dirs, KEYS[i], value);
      if v.Some? {
        cfg.settings := cfg.settings[KEYS[i] := v.value];
      }
    }

    ghost function State(): Outcome
      reads this, cfg
    {
      Outcome(cfg.settings, handed)
    }

    /** One segment, from `attrBegin` to the end of what is left: its pair, if it has one,
        is handed on. */
    method HandleSegment(connectStr: string, attrBegin: nat)
      requires attrBegin <= |connectStr| && 2 * |connectStr| < NPOS
      modifies cfg, this`handed
      ensures State() == AfterSegment(cfg.dirs, old(State()), connectStr[attrBegin..])
    {
      var pair := CutPair(connectStr, attrBegin);
      if pair.Some? {
        HandleAttributePair(pair.value.0, pair.value.1);
      } else {
        assert handed + [] == handed;
      }
    }

    /** The trailing NULs of a string are erased first. */
    method EraseNuls(str: string) returns (connectStr: string)
      ensures connectStr == StripNul(str) && |connectStr| <= |str|
    {
      connectStr := str;
      while connectStr != [] && connectStr[|connectStr| - 1] == '\0'
        invariant |connectStr| <= |str| && StripNul(connectStr) == StripNul(str)
      {
        connectStr := connectStr[..|connectStr| - 1];
      }
    }

    /** Where the last attribute of what is left begins. */
    method AttrBegin(connectStr: string, delimiter: char) returns (attrBegin: nat)
      requires |connectStr| < NPOS
      ensures attrBegin == SegmentStart(connectStr, delimiter) && attrBegin <= |connectStr|
    {
      attrBegin := FindLast(connectStr, delimiter);
      if attrBegin == NPOS {
        attrBegin := 0;
      } else {
        attrBegin := attrBegin + 1;
      }
    }

    /** The scanner hands on exactly the pairs of the string's segments, in reverse order,
        and applies them in that order. */
    method ParseConnectionString(str: string, delimiter: char)
      requires 2 * |str| < NPOS
      modifies cfg, this`handed
      ensures State() == Scanned(cfg.dirs, old(State()), StripNul(str), delimiter)
    {
      var connectStr := EraseNuls(str);
      ghost var dirs, start := cfg.dirs, State();
      while connectStr != []
        invariant |connectStr| <= |str|
        invariant Scanned(dirs, State(), connectStr, delimiter) == Scanned(dirs, start, StripNul(str), delimiter)
        decreases |connectStr|
      {
        ScanLast(dirs, State(), connectStr, delimiter);
        var attrBegin := AttrBegin(connectStr, delimiter);
        HandleSegment(connectStr, attrBegin);
        if attrBegin == 0 {
          return;
        }
        connectStr := connectStr[..attrBegin - 1];
      }
      ScanEnd(dirs, State(), delimiter);
    }
  }
}
