/** SQL LIKE patterns and their translation to regular expressions. The meaning of a
    regular expression is given for the part of the language without groups, bounds,
    anchors and wider brackets: characters, single bracketed characters and dots, each
    with a quantifier or none, and alternatives. */
module LikePattern {

  import opened Common
  import opened Text

  // ---- Patterns ----

  /** `_` is one character, `%` any run, a backslash makes the next character literal. */
  datatype Token = Lit(c: char) | Escaped(c: char) | One | Many

  /** A pattern that ends in the middle of an escape has no meaning. */
  function Tokens(p: string): Option<seq<Token>>
    decreases |p|
  {
    if p == "" then Some([])
    else if p[0] == '\\' then
      if |p| == 1 then None else Before(Escaped(p[1]), Tokens(p[2..]))
    else Before(if p[0] == '_' then One else if p[0] == '%' then Many else Lit(p[0]), Tokens(p[1..]))
  }

  function Before<T>(x: T, rest: Option<seq<T>>): Option<seq<T>> {
    if rest.None? then None else Some([x] + rest.value)
  }

  ghost predicate Like(tokens: seq<Token>, s: string)
    decreases |tokens|
  {
    if tokens == [] then s == ""
    else match tokens[0]
      case Many => exists k | 0 <= k <= |s| :: Like(tokens[1..], s[k..])
      case One => s != "" && Like(tokens[1..], s[1..])
      case Lit(c) => s != "" && s[0] == c && Like(tokens[1..], s[1..])
      case Escaped(c) => s != "" && s[0] == c && Like(tokens[1..], s[1..])
  }

  // ---- Regular expressions ----

  datatype Atom = Dot | Is(c: char)

  /** No quantifier, `*`, `+` or `?`. */
  datatype Count = Once | Star | Plus | Maybe

  datatype Item = Item(atom: Atom, count: Count)

  /** Characters that mean something outside brackets, besides those of Loose. */
  const OPERATORS := {'(', ')', '{', '}', '[', ']', '^', '$', '\\'}

  /** Characters that need care inside brackets. */
  const BRACKET_OPERATORS := {'\\', '^', ']'}

  predicate IsQuantifier(c: char) {
    c == '*' || c == '+' || c == '?'
  }

  /** Characters by which an expression replaces, repeats, leaves out or separates. */
  predicate Loose(c: char) {
    c == '.' || IsQuantifier(c) || c == '|'
  }

  /** The first atom of an expression and its length. */
  function FirstAtom(r: string): Option<(Atom, nat)>
    requires r != ""
    ensures FirstAtom(r).Some? ==> 0 < FirstAtom(r).value.1 <= |r|
  {
    if r[0] == '.' then Some((Dot, 1))
    else if r[0] == '[' then
      if |r| >= 3 && r[2] == ']' && r[1] !in BRACKET_OPERATORS then Some((Is(r[1]), 3)) else None
    else if Loose(r[0]) || r[0] in OPERATORS then None
    else Some((Is(r[0]), 1))
  }

  /** The quantifier at the start of `r` and its length; a question mark after it only
      asks for the shortest match. */
  function Quantifier(r: string): (q: (Count, nat))
    ensures q.1 <= |r| && q.1 <= 2 && forall i | 0 <= i < q.1 :: IsQuantifier(r[i])
    ensures q.1 == 0 <==> q.0 == Once
  {
    if r == "" || !IsQuantifier(r[0]) then (Once, 0)
    else
      (if r[0] == '*' then Star else if r[0] == '+' then Plus else Maybe,
       if |r| > 1 && r[1] == '?' then 2 else 1)
  }

  /** An item put before the first of some alternatives. */
  function Lead(item: Item, rest: Option<seq<seq<Item>>>): Option<seq<seq<Item>>> {
    if rest.None? || rest.value == [] then None else Some([[item] + rest.value[0]] + rest.value[1..])
  }

  /** The alternatives of an expression; None for one outside this part of the language. */
  function Parse(r: string): (alternatives: Option<seq<seq<Item>>>)
    ensures alternatives.Some? ==> alternatives.value != []
    decreases |r|
  {
    if r == "" then Some([[]])
    else if r[0] == '|' then Before([], Parse(r[1..]))
    else
      var a := FirstAtom(r);
      if a.None? then None
      else
        var (atom, n) := a.value;
        var (count, m) := Quantifier(r[n..]);
        Lead(Item(atom, count), Parse(r[n + m..]))
  }

  /** Characters that the dot does not match: none, or line breaks. */
  type Breaks = b: set<char> | b <= {'\n', '\r'}

  predicate Takes(b: Breaks, a: Atom, c: char) {
    if a.Dot? then c !in b else c == a.c
  }

  /** The whole of `s` matches the items. */
  predicate Matches(b: Breaks, items: seq<Item>, s: string)
    decreases |items|, |s|
  {
    if items == [] then s == ""
    else
      var takes := s != "" && Takes(b, items[0].atom, s[0]);
      match items[0].count
      case Once => takes && Matches(b, items[1..], s[1..])
      case Maybe => Matches(b, items[1..], s) || (takes && Matches(b, items[1..], s[1..]))
      case Star => Matches(b, items[1..], s) || (takes && Matches(b, items, s[1..]))
      case Plus => takes && Matches(b, [Item(items[0].atom, Star)] + items[1..], s[1..])
  }

  predicate MatchesAny(b: Breaks, alternatives: seq<seq<Item>>, s: string) {
    exists a | a in alternatives :: Matches(b, a, s)
  }

  // ---- The translation ----

  predicate Special(c: char) {
    c == '\\' || c == '_' || c == '%'
  }

  /** The text a pattern is translated to, character by character. */
  function Translation(p: string): string
    decreases |p|
  {
    if p == "" then ""
    else if p[0] == '\\' then
      if |p| == 1 then p else "[" + [p[1]] + "]" + Translation(p[2..])
    else if p[0] == '_' then "." + Translation(p[1..])
    else if p[0] == '%' then ".*" + Translation(p[1..])
    else [p[0]] + Translation(p[1..])
  }

  function Regex(p: string): string {
    if Trim(p) == "" then "" else Translation(p)
  }

  lemma {:induction false} PlainRun(p: string, n: nat)
    requires n <= |p| && forall i | 0 <= i < n :: !Special(p[i])
    ensures Translation(p) == p[..n] + Translation(p[n..])
  {
    if n > 0 {
      PlainRun(p[1..], n - 1);
      assert p[1..][n - 1..] == p[n..];
      assert p[..n] == [p[0]] + p[1..][..n - 1];
    }
  }

  /** The literal characters from `start` on are copied, then `str` is appended. */
  method UpdateRegexExpression(index: nat, start: nat, pattern: string, str: string, converted: string)
    returns (next: nat, updated: string)
    requires start <= index <= |pattern|
    ensures next == index + 1 && updated == converted + pattern[start..index] + str
  {
    updated := converted;
    if index - start > 0 {
      updated := updated + pattern[start..index];
    }
    updated := updated + str;
    next := index + 1;
  }

  /** Where the pending part of the pattern starts, and what of it has been read. */
  ghost predicate Pending(p: string, start: nat, index: nat, escape: bool, converted: string) {
    var read := index - (if escape then 1 else 0);
    && start <= read && index <= |p|
    && (forall i | start <= i < read :: !Special(p[i]))
    && (escape ==> p[read] == '\\')
    && Translation(p) == converted + Translation(p[start..])
  }

  lemma SliceRun(p: string, start: nat, read: nat)
    requires start <= read <= |p| && forall i | start <= i < read :: !Special(p[i])
    ensures Translation(p[start..]) == p[start..read] + Translation(p[read..])
  {
    var q := p[start..];
    PlainRun(q, read - start);
    assert q[read - start..] == p[read..] && q[..read - start] == p[start..read];
  }

  /** A wildcard has been translated to `str`. */
  lemma WildcardDone(p: string, start: nat, index: nat, converted: string, str: string)
    requires Pending(p, start, index, false, converted) && index < |p|
    requires (p[index] == '_' && str == ".") || (p[index] == '%' && str == ".*")
    ensures Pending(p, index + 1, index + 1, false, converted + p[start..index] + str)
  {
    SliceRun(p, start, index);
    var rest := p[index..];
    assert rest[1..] == p[index + 1..];
    assert Translation(rest) == str + Translation(rest[1..]);
    Associate(p[start..index], str, Translation(p[index + 1..]));
    Associate(converted, p[start..index] + str, Translation(p[index + 1..]));
    Associate(converted, p[start..index], str);
  }

  /** An escaped character has been translated to a bracket. */
  lemma EscapeDone(p: string, start: nat, index: nat, converted: string, str: string)
    requires Pending(p, start, index, true, converted) && index < |p| && str == "[" + [p[index]] + "]"
    ensures Pending(p, index + 1, index + 1, false, converted + p[start..index - 1] + str)
  {
    SliceRun(p, start, index - 1);
    var rest := p[index - 1..];
    assert rest[2..] == p[index + 1..];
    assert Translation(rest) == str + Translation(rest[2..]);
    Associate(p[start..index - 1], str, Translation(p[index + 1..]));
    Associate(converted, p[start..index - 1] + str, Translation(p[index + 1..]));
    Associate(converted, p[start..index - 1], str);
  }

  /** Literal characters, and a last lone backslash, are copied as they are. */
  lemma {:induction false} Rest(p: string)
    requires forall i | 0 <= i < |p| :: !Special(p[i]) || (i == |p| - 1 && p[i] == '\\')
    ensures Translation(p) == p
  {
    if p != "" {
      Rest(p[1..]);
    }
  }

  lemma Finished(p: string, start: nat, escape: bool, converted: string)
    requires Pending(p, start, |p|, escape, converted)
    ensures Translation(p) == if start < |p| then converted + p[start..] else converted
  {
    var rest := p[start..];
    forall i | 0 <= i < |rest| ensures !Special(rest[i]) || (i == |rest| - 1 && rest[i] == '\\') {
      assert rest[i] == p[start + i];
    }
    Rest(rest);
  }

  /** A literal character, or the first backslash of an escape, only joins the pending part. */
  lemma ReadOn(p: string, start: nat, index: nat, converted: string)
    requires Pending(p, start, index, false, converted) && index < |p|
    ensures p[index] == '\\' ==> Pending(p, start, index + 1, true, converted)
    ensures !Special(p[index]) ==> Pending(p, start, index + 1, false, converted)
  {
  }

  /** One pass of the loop of ConvertPatternToRegex. */
  method ConvertChar(pattern: string, index: nat, start: nat, escapeFound: bool, converted: string)
    returns (newStart: nat, escape: bool, written: string)
    requires index < |pattern| && Pending(pattern, start, index, escapeFound, converted)
    ensures Pending(pattern, newStart, index + 1, escape, written)
  {
    newStart, escape, written := start, false, converted;
    var currChar := pattern[index];
    if currChar == '\\' {
      escape := !escapeFound;
      if escapeFound {
        newStart, written := EndEscape(pattern, index, start, "[\\]", converted);
      } else {
        ReadOn(pattern, start, index, converted);
      }
    } else if escapeFound {
      newStart, written := EndEscape(pattern, index, start, "[" + [currChar] + "]", converted);
    } else if currChar == '_' {
      WildcardDone(pattern, start, index, converted, ".");
      newStart, written := UpdateRegexExpression(index, start, pattern, ".", converted);
    } else if currChar == '%' {
      WildcardDone(pattern, start, index, converted, ".*");
      newStart, written := UpdateRegexExpression(index, start, pattern, ".*", converted);
    } else {
      ReadOn(pattern, start, index, converted);
    }
  }

  /** The character after an escape is written as a bracket. */
  method EndEscape(pattern: string, index: nat, start: nat, str: string, converted: string)
    returns (newStart: nat, written: string)
    requires index < |pattern| && Pending(pattern, start, index, true, converted) && str == "[" + [pattern[index]] + "]"
    ensures Pending(pattern, newStart, index + 1, false, written)
  {
    EscapeDone(pattern, start, index, converted, str);
    newStart, written := UpdateRegexExpression(index - 1, start, pattern, str, converted);
    newStart := newStart + 1;
  }

  method ConvertPatternToRegex(pattern: string) returns (converted: string)
    ensures converted == Regex(pattern)
  {
    converted := "";
    if pattern == "" || Trim(pattern) == "" {
      return;
    }
    var escapeFound, start: nat := false, 0;
    for index := 0 to |pattern|
      invariant Pending(pattern, start, index, escapeFound, converted)
    {
      start, escapeFound, converted := ConvertChar(pattern, index, start, escapeFound, converted);
    }
    Finished(pattern, start, escapeFound, converted);
    if |pattern| - start > 0 {
      converted := converted + pattern[start..];
    }
  }

  // ---- The translation, piece by piece ----

  /** A pattern put together from two, the first not ending in an escape, is translated to
      their translations put together. */
  lemma {:induction false} TranslationJoins(p: string, q: string)
    requires Tokens(p).Some?
    ensures Translation(p + q) == Translation(p) + Translation(q)
    decreases |p|
  {
    if p == "" {
      assert p + q == q;
    } else {
      FirstTokenThenRest(p);
      TranslationJoins(Next(p), q);
      assert (p + q)[1..] == p[1..] + q && (p[0] == '\\' ==> (p + q)[2..] == p[2..] + q);
      TranslationOfFirst(p);
      TranslationOfFirst(p + q);
      Associate(TokenText(FirstToken(p)), Translation(Next(p)), Translation(q));
    }
  }

  /** A character stands for itself, the wildcards are a dot and a starred dot, an escaped
      character, whichever it is, stands in brackets, and a last lone backslash is kept. */
  lemma TranslationOfOne(c: char)
    ensures Translation("\\" + [c]) == "[" + [c] + "]"
    ensures c != '_' && c != '%' ==> Translation([c]) == [c]
    ensures Translation("_") == "." && Translation("%") == ".*"
  {
    var e := "\\" + [c];
    assert e[0] == '\\' && e[1] == c && e[2..] == "" && [c][1..] == "" && Translation("") == "";
  }

  // ---- The translation keeps the meaning ----

  /** The characters that stand for themselves in a pattern do so in the expression. */
  ghost predicate Plain(tokens: seq<Token>) {
    forall t | t in tokens ::
      && (t.Lit? ==> t.c !in OPERATORS && !Loose(t.c))
      && (t.Escaped? ==> t.c !in BRACKET_OPERATORS)
  }

  function ItemOf(t: Token): Item {
    match t
    case One => Item(Dot, Once)
    case Many => Item(Dot, Star)
    case Lit(c) => Item(Is(c), Once)
    case Escaped(c) => Item(Is(c), Once)
  }

  ghost function Items(tokens: seq<Token>): seq<Item> {
    if tokens == [] then [] else [ItemOf(tokens[0])] + Items(tokens[1..])
  }

  /** The part of a pattern after its first token. */
  function Next(p: string): string
    requires p != "" && p != "\\"
  {
    if p[0] == '\\' then p[2..] else p[1..]
  }

  function FirstToken(p: string): Token
    requires p != "" && p != "\\"
  {
    if p[0] == '\\' then Escaped(p[1]) else if p[0] == '_' then One else if p[0] == '%' then Many else Lit(p[0])
  }

  lemma FirstTokenThenRest(p: string)
    requires p != "" && Tokens(p).Some?
    ensures p != "\\" && Tokens(Next(p)).Some?
    ensures Tokens(p).value == [FirstToken(p)] + Tokens(Next(p)).value
    ensures Tokens(p).value[0] == FirstToken(p) && Tokens(p).value[1..] == Tokens(Next(p)).value
  {
  }

  /** The expression begins with a quantifier exactly when the pattern does. */
  lemma QuantifierFirst(p: string)
    ensures (Translation(p) != "" && IsQuantifier(Translation(p)[0])) <==> (p != "" && IsQuantifier(p[0]))
    ensures p != "" && IsQuantifier(p[0]) ==> Translation(p)[0] == p[0] && Translation(p)[1..] == Translation(p[1..])
  {
  }

  /** The atom of the first token, read off the expression. */
  lemma FirstOfTranslation(p: string)
    requires p != "" && Tokens(p).Some? && p[0] != '|'
    requires FirstToken(p).Lit? ==> FirstToken(p).c !in OPERATORS && !IsQuantifier(FirstToken(p).c)
    requires FirstToken(p).Escaped? ==> FirstToken(p).c !in BRACKET_OPERATORS
    ensures p != "\\"
    ensures var r, a := Translation(p), FirstAtom(Translation(p));
      && r[0] != '|' && a.Some?
      && a.value.0 == (if FirstToken(p).One? || FirstToken(p).Many? || p[0] == '.' then Dot else Is(FirstToken(p).c))
      && r[a.value.1..] == (if FirstToken(p).Many? then "*" else "") + Translation(Next(p))
  {
    FirstTokenThenRest(p);
    var t := Translation(Next(p));
    NothingBefore(t);
    if FirstToken(p).Escaped? {
      BracketAtom(p[1], t);
    } else if FirstToken(p).Many? {
      StarredDot(t);
    } else {
      CharAtom(Translation(p)[0], t);
    }
  }

  lemma NothingBefore(t: string)
    ensures "" + t == t
  {
  }

  lemma StarredDot(t: string)
    ensures var r := ".*" + t; r[0] != '|' && FirstAtom(r) == Some((Dot, 1)) && r[1..] == "*" + t
  {
    assert ".*" + t == ['.'] + ("*" + t);
    CharAtom('.', "*" + t);
  }

  lemma BracketAtom(c: char, t: string)
    requires c !in BRACKET_OPERATORS
    ensures var r := "[" + [c] + "]" + t; FirstAtom(r) == Some((Is(c), 3)) && r[3..] == t
  {
  }

  lemma CharAtom(c: char, t: string)
    requires c == '.' || (!Loose(c) && c !in OPERATORS)
    ensures var r := [c] + t; FirstAtom(r) == Some((if c == '.' then Dot else Is(c), 1)) && r[1..] == t
  {
  }

  /** Reading one atom with its quantifier. */
  lemma ParseAtom(r: string, atom: Atom, n: nat)
    requires r != "" && r[0] != '|' && FirstAtom(r) == Some((atom, n))
    ensures var (count, m) := Quantifier(r[n..]); Parse(r) == Lead(Item(atom, count), Parse(r[n..][m..]))
  {
    var m := Quantifier(r[n..]).1;
    assert r[n + m..] == r[n..][m..];
  }

  /** A star, or nothing, before an expression that begins with no quantifier. */
  lemma QuantifierBefore(star: bool, t: string)
    requires t == "" || !IsQuantifier(t[0])
    ensures var u := (if star then "*" else "") + t;
      Quantifier(u).0 == (if star then Star else Once) && u[Quantifier(u).1..] == t
  {
    if star {
      var u := "*" + t;
      assert u[1..] == t && (t != "" ==> u[1] == t[0]);
    } else {
      assert "" + t == t;
    }
  }

  lemma ParsePlain(p: string)
    requires p != "" && Tokens(p).Some?
    requires FirstToken(p).Lit? ==> FirstToken(p).c !in OPERATORS && !Loose(FirstToken(p).c)
    requires FirstToken(p).Escaped? ==> FirstToken(p).c !in BRACKET_OPERATORS
    requires Next(p) == "" || !IsQuantifier(Next(p)[0])
    ensures Parse(Translation(p)) == Lead(ItemOf(FirstToken(p)), Parse(Translation(Next(p))))
  {
    FirstOfTranslation(p);
    QuantifierFirst(Next(p));
    var r, t := Translation(p), Translation(Next(p));
    ParseAtom(r, FirstAtom(r).value.0, FirstAtom(r).value.1);
    QuantifierBefore(FirstToken(p).Many?, t);
  }

  lemma PlainNext(p: string)
    requires p != "" && Tokens(p).Some? && Plain(Tokens(p).value)
    ensures p != "\\" && Tokens(Next(p)).Some? && Plain(Tokens(Next(p)).value)
    ensures FirstToken(p).Lit? ==> FirstToken(p).c !in OPERATORS && !Loose(FirstToken(p).c)
    ensures FirstToken(p).Escaped? ==> FirstToken(p).c !in BRACKET_OPERATORS
    ensures !IsQuantifier(p[0])
  {
    FirstTokenThenRest(p);
    PlainParts(Tokens(p).value);
  }

  lemma PlainParts(tokens: seq<Token>)
    requires tokens != [] && Plain(tokens)
    ensures tokens[0] in tokens && Plain(tokens[1..])
  {
    assert forall t | t in tokens[1..] :: t in tokens;
  }

  lemma LeadOne(item: Item, items: seq<Item>)
    ensures Lead(item, Some([items])) == Some([[item] + items])
  {
    assert [[item] + items] + [items][1..] == [[item] + items];
  }

  /** Read as an expression, the translation of a plain pattern is its list of items. */
  lemma {:induction false} ParseTranslation(p: string)
    requires Tokens(p).Some? && Plain(Tokens(p).value)
    ensures Parse(Translation(p)) == Some([Items(Tokens(p).value)])
    decreases |p|
  {
    if p != "" {
      PlainNext(p);
      var next := Next(p);
      if next != "" {
        PlainNext(next);
      }
      ParseTranslation(next);
      ParsePlain(p);
      LeadOne(ItemOf(FirstToken(p)), Items(Tokens(next).value));
      FirstTokenThenRest(p);
    }
  }

  predicate OneLine(b: Breaks, s: string) {
    forall c | c in s :: c !in b
  }

  /** A pattern and its items agree on texts without line breaks. */
  lemma {:induction false} ItemsMatch(b: Breaks, tokens: seq<Token>, s: string)
    requires OneLine(b, s)
    ensures Matches(b, Items(tokens), s) <==> Like(tokens, s)
    decreases |tokens|, |s|
  {
    if tokens != [] {
      var items := Items(tokens);
      assert items[1..] == Items(tokens[1..]);
      if tokens[0] == Many {
        ManyUnfolds(tokens, s);
        ItemsMatch(b, tokens[1..], s);
        if s != "" {
          ItemsMatch(b, tokens, s[1..]);
        }
      } else if s != "" {
        ItemsMatch(b, tokens[1..], s[1..]);
      }
    }
  }

  /** A run is empty or one character longer than a run. */
  lemma ManyUnfolds(tokens: seq<Token>, s: string)
    requires tokens != [] && tokens[0] == Many
    ensures Like(tokens, s) <==> Like(tokens[1..], s) || (s != "" && Like(tokens, s[1..]))
  {
    assert s[0..] == s;
    if s != "" {
      if k: nat :| k <= |s[1..]| && Like(tokens[1..], s[1..][k..]) {
        assert s[1..][k..] == s[k + 1..];
      }
      if k: nat :| 0 < k <= |s| && Like(tokens[1..], s[k..]) {
        assert s[1..][k - 1..] == s[k..];
      }
    }
  }

  /** The translated expression can be read, and matches the same texts of one line. */
  ghost predicate Preserved(b: Breaks, p: string) {
    && Tokens(p).Some? && Parse(Regex(p)).Some?
    && forall s | OneLine(b, s) :: MatchesAny(b, Parse(Regex(p)).value, s) <==> Like(Tokens(p).value, s)
  }

  lemma MeaningPreserved(b: Breaks, p: string)
    requires p == "" || Trim(p) != ""
    requires Tokens(p).Some? && Plain(Tokens(p).value)
    ensures Preserved(b, p)
  {
    ParseTranslation(p);
    assert Parse(Regex(p)) == Some([Items(Tokens(p).value)]);
    forall s | OneLine(b, s)
      ensures MatchesAny(b, Parse(Regex(p)).value, s) <==> Like(Tokens(p).value, s)
    {
      ItemsMatch(b, Tokens(p).value, s);
      assert MatchesAny(b, [Items(Tokens(p).value)], s) <==> Matches(b, Items(Tokens(p).value), s);
    }
  }

  /** A dot that takes any character: the pattern "a.b" does not match "axb", its
      translation does. */
  lemma DotLosesMeaning(b: Breaks) returns (p: string, s: string)
    ensures p == "a.b" && s == "axb"
    ensures Tokens(p).Some? && !Like(Tokens(p).value, s)
    ensures Parse(Regex(p)).Some? && MatchesAny(b, Parse(Regex(p)).value, s)
  {
    p, s := "a.b", "axb";
    LiteralTokens(p);
    LiteralItems(p);
    assert Trimmed(p);
    var x, y := TrimPart(p);
    DotTakesAny(b, p, s);
    DotIsNotAny(p, s);
  }

  lemma DotIsNotAny(p: string, s: string)
    requires |p| == |s| == 3 && p[1] != s[1]
    ensures !Like(LitsOf(p), s)
  {
    var q, t := p[1..], s[1..];
    assert LitsOf(p)[1..] == LitsOf(q) && q[0] == p[1] && t[0] == s[1];
    assert !Like(LitsOf(q), t);
  }

  function LitsOf(p: string): seq<Token> {
    if p == "" then [] else [Lit(p[0])] + LitsOf(p[1..])
  }

  function LitItem(c: char): Item {
    Item(if c == '.' then Dot else Is(c), Once)
  }

  function LitItems(p: string): seq<Item> {
    if p == "" then [] else [LitItem(p[0])] + LitItems(p[1..])
  }

  /** Literal characters and dots. */
  predicate Literals(p: string) {
    forall i | 0 <= i < |p| :: !Special(p[i]) && p[i] !in OPERATORS && !IsQuantifier(p[i]) && p[i] != '|'
  }

  lemma {:induction false} LiteralTokens(p: string)
    requires Literals(p)
    ensures Tokens(p) == Some(LitsOf(p))
  {
    if p != "" {
      LiteralTokens(p[1..]);
    }
  }

  lemma {:induction false} LiteralItems(p: string)
    requires Literals(p)
    ensures Parse(Translation(p)) == Some([LitItems(p)])
  {
    if p != "" {
      LiteralItems(p[1..]);
      LiteralFirst(p);
      LeadOne(LitItem(p[0]), LitItems(p[1..]));
    }
  }

  /** A literal character before a pattern that does not begin with a quantifier. */
  lemma LiteralFirst(p: string)
    requires Literals(p) && p != ""
    ensures Parse(Translation(p)) == Lead(LitItem(p[0]), Parse(Translation(p[1..])))
  {
    var c, t := p[0], Translation(p[1..]);
    CharAtom(c, t);
    QuantifierFirst(p[1..]);
    ParseAtom([c] + t, LitItem(c).atom, 1);
    assert t[0..] == t;
  }

  lemma DotTakesAny(b: Breaks, p: string, s: string)
    requires |p| == |s| == 3 && p[0] == s[0] && p[2] == s[2] && p[1] == '.' && p[0] != '.' && p[2] != '.' && s[1] !in b
    ensures MatchesAny(b, [LitItems(p)], s)
  {
    var q, r := p[1..], p[1..][1..];
    var t, u := s[1..], s[1..][1..];
    assert q[0] == '.' && r[0] == p[2] && u[0] == s[2] && r[1..] == "" && u[1..] == "";
    assert Matches(b, LitItems(r), u);
    assert LitItems(q)[1..] == LitItems(r) && Matches(b, LitItems(q), t);
    assert LitItems(p)[1..] == LitItems(q) && Matches(b, LitItems(p), s);
    assert LitItems(p) in [LitItems(p)];
  }

  // ---- Exactly when it does ----

  /** No unescaped group, bound, bracket or anchor, no escaped caret or closing bracket,
      and no line break. */
  ghost predicate Neutral(b: Breaks, tokens: seq<Token>) {
    forall t | t in tokens ::
      && (t.Lit? ==> t.c !in OPERATORS && t.c !in b)
      && (t.Escaped? ==> t.c != '^' && t.c != ']' && t.c !in b)
  }

  ghost predicate Unescaped(tokens: seq<Token>) {
    exists t | t in tokens :: t.Lit? && Loose(t.c)
  }

  ghost predicate Translatable(tokens: seq<Token>) {
    !Unescaped(tokens) && Escaped('\\') !in tokens
  }

  /** How many loose characters a text holds, a pattern asks for, and a pattern escapes. */
  function LooseIn(s: string): nat {
    if s == "" then 0 else (if Loose(s[0]) then 1 else 0) + LooseIn(s[1..])
  }

  function Asked(tokens: seq<Token>): nat {
    if tokens == [] then 0
    else (if (tokens[0].Lit? || tokens[0].Escaped?) && Loose(tokens[0].c) then 1 else 0) + Asked(tokens[1..])
  }

  function Protected(tokens: seq<Token>): nat {
    if tokens == [] then 0
    else (if tokens[0].Escaped? && Loose(tokens[0].c) then 1 else 0) + Protected(tokens[1..])
  }

  lemma {:induction false} AskedOrProtected(tokens: seq<Token>)
    ensures Protected(tokens) <= Asked(tokens)
    ensures Unescaped(tokens) ==> Protected(tokens) < Asked(tokens)
  {
    if tokens != [] {
      AskedOrProtected(tokens[1..]);
    }
  }

  lemma {:induction false} SuffixLoose(s: string, k: nat)
    requires k <= |s|
    ensures LooseIn(s[k..]) <= LooseIn(s)
  {
    if k > 0 {
      SuffixLoose(s[1..], k - 1);
      assert s[1..][k - 1..] == s[k..];
    } else {
      assert s[0..] == s;
    }
  }

  /** A text that matches a pattern holds every loose character the pattern asks for. */
  lemma {:induction false} LikeHoldsAsked(tokens: seq<Token>, s: string)
    requires Like(tokens, s)
    ensures LooseIn(s) >= Asked(tokens)
    decreases |tokens|
  {
    if tokens != [] {
      if tokens[0] == Many {
        var k: nat :| k <= |s| && Like(tokens[1..], s[k..]);
        LikeHoldsAsked(tokens[1..], s[k..]);
        SuffixLoose(s, k);
      } else {
        LikeHoldsAsked(tokens[1..], s[1..]);
      }
    }
  }

  /** A shortest text that items match. */
  function Shortest(items: seq<Item>): string {
    if items == [] then ""
    else if items[0].count.Star? || items[0].count.Maybe? then Shortest(items[1..])
    else [if items[0].atom.Dot? then 'x' else items[0].atom.c] + Shortest(items[1..])
  }

  lemma {:induction false} ShortestMatches(b: Breaks, items: seq<Item>)
    ensures Matches(b, items, Shortest(items))
  {
    if items != [] {
      ShortestMatches(b, items[1..]);
      if items[0].count.Once? || items[0].count.Plus? {
        assert Shortest(items)[1..] == Shortest(items[1..]);
      }
      if items[0].count.Plus? {
        assert ([Item(items[0].atom, Star)] + items[1..])[1..] == items[1..];
      }
    }
  }

  /** Tokens dropped as quantifiers are literal, so the rest keeps every escape. */
  ghost predicate KeepsEscapes(rest: seq<Token>, tokens: seq<Token>) {
    forall t | t in tokens && t.Escaped? :: t in rest
  }

  /** Quantifiers in a pattern are literal tokens that stay in the expression. */
  lemma {:induction false} QuantifiersStay(b: Breaks, q: string, m: nat)
    requires Tokens(q).Some? && Neutral(b, Tokens(q).value)
    requires m <= |Translation(q)| && forall i | 0 <= i < m :: IsQuantifier(Translation(q)[i])
    ensures m <= |q| && Tokens(q[m..]).Some? && Neutral(b, Tokens(q[m..]).value)
    ensures Translation(q)[m..] == Translation(q[m..])
    ensures Protected(Tokens(q[m..]).value) == Protected(Tokens(q).value)
    ensures KeepsEscapes(Tokens(q[m..]).value, Tokens(q).value)
    decreases m
  {
    if m == 0 {
      assert q[0..] == q && Translation(q)[0..] == Translation(q);
    } else {
      QuantifierFirst(q);
      FirstTokenThenRest(q);
      assert forall t | t in Tokens(q).value[1..] :: t in Tokens(q).value;
      var r := Translation(q);
      assert forall i | 0 <= i < m - 1 :: r[1..][i] == r[i + 1];
      QuantifiersStay(b, q[1..], m - 1);
      assert q[1..][m - 1..] == q[m..] && r[1..][m - 1..] == r[m..];
    }
  }

  /** The quantifier of a wildcard begins with its own star. */
  lemma StarThen(t: string)
    ensures var m := Quantifier("*" + t).1;
      && 1 <= m <= |t| + 1 && ("*" + t)[m..] == t[m - 1..]
      && forall i | 0 <= i < m - 1 :: IsQuantifier(t[i])
  {
    var q := "*" + t;
    assert forall i | 0 <= i < |t| :: q[i + 1] == t[i];
  }

  /** The quantifier after the first token and what follows it in the pattern. */
  lemma AfterQuantifier(b: Breaks, p: string) returns (rest: string)
    requires p != "" && p != "\\" && Tokens(Next(p)).Some? && Neutral(b, Tokens(Next(p)).value)
    ensures |rest| <= |Next(p)| && Tokens(rest).Some? && Neutral(b, Tokens(rest).value)
    ensures Protected(Tokens(rest).value) == Protected(Tokens(Next(p)).value)
    ensures KeepsEscapes(Tokens(rest).value, Tokens(Next(p)).value)
    ensures var after := (if FirstToken(p).Many? then "*" else "") + Translation(Next(p));
      after[Quantifier(after).1..] == Translation(rest)
  {
    var t := Translation(Next(p));
    assert "" + t == t;
    if FirstToken(p).Many? {
      StarThen(t);
      var k := Quantifier("*" + t).1 - 1;
      QuantifiersStay(b, Next(p), k);
      rest := Next(p)[k..];
    } else {
      QuantifiersStay(b, Next(p), Quantifier(t).1);
      rest := Next(p)[Quantifier(t).1..];
    }
  }

  lemma NeutralNext(b: Breaks, p: string)
    requires p != "" && Tokens(p).Some? && Neutral(b, Tokens(p).value)
    ensures p != "\\" && Tokens(Next(p)).Some? && Neutral(b, Tokens(Next(p)).value)
    ensures Tokens(p).value[1..] == Tokens(Next(p)).value
    ensures FirstToken(p).Lit? ==> FirstToken(p).c !in OPERATORS
    ensures FirstToken(p).Escaped? && FirstToken(p).c in BRACKET_OPERATORS ==> FirstToken(p).c == '\\'
  {
    FirstTokenThenRest(p);
    var tokens := Tokens(p).value;
    assert tokens[0] in tokens && forall t | t in tokens[1..] :: t in tokens;
  }

  /** The translation of an escaped backslash opens a bracket that takes in what follows. */
  lemma BackslashOpensBracket(p: string)
    requires |p| > 1 && p[0] == '\\' && p[1] == '\\'
    ensures Parse(Translation(p)) == None
  {
    var t := Translation(p[2..]);
    assert Translation(p) == "[\\]" + t;
    assert ("[\\]" + t)[0] == '[' && ("[\\]" + t)[1] == '\\';
  }

  /** What the first token of a pattern that can be read contributes. */
  lemma ParseStep(b: Breaks, p: string) returns (item: Item, rest: string)
    requires p != "" && Tokens(p).Some? && Parse(Translation(p)).Some? && p[0] != '|'
    requires Neutral(b, Tokens(p).value)
    ensures |rest| < |p| && Tokens(rest).Some? && Neutral(b, Tokens(rest).value)
    ensures Protected(Tokens(rest).value) == Protected(Tokens(p).value[1..])
    ensures KeepsEscapes(Tokens(rest).value, Tokens(p).value[1..])
    ensures Parse(Translation(p)) == Lead(item, Parse(Translation(rest)))
    ensures item.atom == (if FirstToken(p).One? || FirstToken(p).Many? || p[0] == '.' then Dot else Is(FirstToken(p).c))
    ensures FirstToken(p).Lit? && !item.atom.Dot? ==> !Loose(FirstToken(p).c)
  {
    NeutralNext(b, p);
    QuantifierFirst(p);
    if p[0] == '\\' && p[1] == '\\' {
      BackslashOpensBracket(p);
      assert false;
    }
    FirstOfTranslation(p);
    rest := AfterQuantifier(b, p);
    var r := Translation(p);
    var (atom, n) := FirstAtom(r).value;
    ParseAtom(r, atom, n);
    item := Item(atom, Quantifier(r[n..]).0);
  }

  /** No escape comes after an escaped backslash; its bracket has then nothing to close it. */
  predicate BackslashLast(tokens: seq<Token>) {
    forall i, j | 0 <= i < j < |tokens| && tokens[i] == Escaped('\\') :: !tokens[j].Escaped?
  }

  lemma {:induction false} NoBracket(b: Breaks, p: string)
    requires Tokens(p).Some? && Neutral(b, Tokens(p).value) && forall t | t in Tokens(p).value :: !t.Escaped?
    ensures ']' !in Translation(p)
    decreases |p|
  {
    if p != "" {
      NeutralNext(b, p);
      FirstTokenThenRest(p);
      NoBracket(b, Next(p));
      assert Tokens(p).value[0] in Tokens(p).value;
      TranslationOfFirst(p);
    }
  }

  function TokenText(t: Token): string {
    match t
    case One => "."
    case Many => ".*"
    case Lit(c) => [c]
    case Escaped(c) => "[" + [c] + "]"
  }

  lemma TranslationOfFirst(p: string)
    requires p != "" && p != "\\"
    ensures Translation(p) == TokenText(FirstToken(p)) + Translation(Next(p))
  {
  }

  /** The bracket written for an escaped backslash is never closed when no escape follows:
      the backslash escapes its closing bracket, and there is no other. */
  lemma {:induction false} NeverClosed(b: Breaks, p: string) returns (front: string, rest: string)
    requires Tokens(p).Some? && Neutral(b, Tokens(p).value)
    requires BackslashLast(Tokens(p).value) && Escaped('\\') in Tokens(p).value
    ensures Translation(p) == front + ("[\\]" + rest) && ']' !in rest
    decreases |p|
  {
    NeutralNext(b, p);
    FirstTokenThenRest(p);
    TranslationOfFirst(p);
    var tokens, later := Tokens(p).value, Tokens(Next(p)).value;
    assert forall i | 0 <= i < |later| :: later[i] == tokens[i + 1];
    if FirstToken(p) == Escaped('\\') {
      NoBracket(b, Next(p));
      front, rest := "", Translation(Next(p));
    } else {
      front, rest := NeverClosed(b, Next(p));
      Associate(TokenText(FirstToken(p)), front, "[\\]" + rest);
      front := TokenText(FirstToken(p)) + front;
    }
  }

  /** A pattern with an escaped backslash has a translation that cannot be read as one of
      single brackets. */
  lemma {:induction false} EscapedBackslashUnread(b: Breaks, p: string)
    requires Tokens(p).Some? && Neutral(b, Tokens(p).value) && Escaped('\\') in Tokens(p).value
    ensures Parse(Translation(p)) == None
    decreases |p|
  {
    NeutralNext(b, p);
    FirstTokenThenRest(p);
    if p[0] == '|' {
      EscapedBackslashUnread(b, p[1..]);
      assert Translation(p)[1..] == Translation(p[1..]);
    } else if p[0] == '\\' && p[1] == '\\' {
      BackslashOpensBracket(p);
    } else if Parse(Translation(p)).Some? {
      var item, rest := ParseStep(b, p);
      EscapedBackslashUnread(b, rest);
    }
  }

  /** The loose characters of the shortest match of the first alternative come from
      escapes, and it has no line break when the pattern has none. */
  lemma {:induction false} ShortestHolds(b: Breaks, p: string)
    requires Tokens(p).Some? && Neutral(b, Tokens(p).value) && Parse(Translation(p)).Some?
    ensures LooseIn(Shortest(Parse(Translation(p)).value[0])) <= Protected(Tokens(p).value)
    ensures OneLine(b, Shortest(Parse(Translation(p)).value[0]))
    decreases |p|
  {
    if p != "" && p[0] != '|' {
      FirstTokenThenRest(p);
      var tokens := Tokens(p).value;
      assert tokens[0] in tokens;
      var item, rest := ParseStep(b, p);
      ShortestHolds(b, rest);
      var items, later := Parse(Translation(p)).value[0], Parse(Translation(rest)).value[0];
      assert items == [item] + later && items[1..] == later;
      var s := Shortest(items);
      assert item.count.Once? || item.count.Plus? ==> s[1..] == Shortest(later);
    }
  }

  lemma {:induction false} RtrimKeepsFirst(s: string)
    requires s != "" && !IsSpace(s[0])
    ensures Rtrim(s) != "" && Rtrim(s)[0] == s[0]
  {
    if IsSpace(s[|s| - 1]) {
      RtrimKeepsFirst(s[..|s| - 1]);
    }
  }

  /** Among neutral patterns, with no escape after an escaped backslash, the translation
      keeps the meaning exactly when the pattern does not end inside an escape, is empty or
      not blank, has no dot, star, plus, question mark or bar outside an escape, and escapes
      no backslash. */
  lemma PreservedIff(b: Breaks, p: string)
    requires Tokens(p).Some? ==> Neutral(b, Tokens(p).value) && BackslashLast(Tokens(p).value)
    ensures Preserved(b, p)
      <==> Tokens(p).Some? && (p == "" || Trim(p) != "") && Translatable(Tokens(p).value)
  {
    if Tokens(p).Some? {
      var tokens := Tokens(p).value;
      if p != "" && Trim(p) == "" {
        BlankNotPreserved(b, p);
      } else if Escaped('\\') in tokens {
        EscapedBackslashUnread(b, p);
      } else if !Unescaped(tokens) {
        MeaningPreserved(b, p);
      } else {
        assert Regex(p) == Translation(p);
        if Parse(Translation(p)).Some? {
          var items := Parse(Translation(p)).value[0];
          assert items in Parse(Translation(p)).value;
          ShortestMatches(b, items);
          ShortestHolds(b, p);
          AskedOrProtected(tokens);
          var s := Shortest(items);
          if Like(tokens, s) {
            LikeHoldsAsked(tokens, s);
            assert false;
          }
          assert OneLine(b, s) && Matches(b, items, s);
        }
      }
    }
  }

  lemma BlankNotPreserved(b: Breaks, p: string)
    requires Tokens(p).Some? && p != "" && Trim(p) == ""
    ensures !Preserved(b, p)
  {
    if !IsSpace(p[0]) {
      RtrimKeepsFirst(p);
      assert false;
    }
    FirstTokenThenRest(p);
    assert Parse(Regex(p)) == Some([[]]) && [] in Parse(Regex(p)).value;
    assert OneLine(b, "") && Matches(b, [], "") && !Like(Tokens(p).value, "");
  }

  // ---- Texts of several lines ----

  function BreaksIn(b: Breaks, s: string): nat {
    if s == "" then 0 else (if s[0] in b then 1 else 0) + BreaksIn(b, s[1..])
  }

  function BreaksAsked(b: Breaks, tokens: seq<Token>): nat {
    if tokens == [] then 0
    else (if (tokens[0].Lit? || tokens[0].Escaped?) && tokens[0].c in b then 1 else 0) + BreaksAsked(b, tokens[1..])
  }

  /** The expression never lets a wildcard take a line break. */
  lemma {:induction false} BreaksCounted(b: Breaks, tokens: seq<Token>, s: string)
    requires Matches(b, Items(tokens), s)
    ensures BreaksIn(b, s) == BreaksAsked(b, tokens)
    decreases |tokens|, |s|
  {
    if tokens != [] {
      var items := Items(tokens);
      assert items[1..] == Items(tokens[1..]);
      if tokens[0] == Many {
        if Matches(b, items[1..], s) {
          BreaksCounted(b, tokens[1..], s);
        } else {
          BreaksCounted(b, tokens, s[1..]);
        }
      } else {
        BreaksCounted(b, tokens[1..], s[1..]);
      }
    }
  }

  /** A text in which every wildcard of the pattern stands for the character `c`. */
  function Filled(tokens: seq<Token>, c: char): string {
    if tokens == [] then ""
    else [if tokens[0].Lit? || tokens[0].Escaped? then tokens[0].c else c] + Filled(tokens[1..], c)
  }

  ghost predicate Wild(tokens: seq<Token>) {
    One in tokens || Many in tokens
  }

  lemma {:induction false} FilledIsLike(b: Breaks, tokens: seq<Token>, c: char)
    requires c in b
    ensures Like(tokens, Filled(tokens, c))
    ensures BreaksIn(b, Filled(tokens, c)) >= BreaksAsked(b, tokens)
    ensures Wild(tokens) ==> BreaksIn(b, Filled(tokens, c)) > BreaksAsked(b, tokens)
  {
    if tokens != [] {
      FilledIsLike(b, tokens[1..], c);
      assert Filled(tokens, c)[1..] == Filled(tokens[1..], c);
    }
  }

  lemma {:induction false} TameItemsMatch(b: Breaks, tokens: seq<Token>, s: string)
    requires !Wild(tokens)
    ensures Matches(b, Items(tokens), s) <==> Like(tokens, s)
  {
    if tokens != [] {
      assert Items(tokens)[1..] == Items(tokens[1..]);
      assert tokens[0] in tokens && forall t | t in tokens[1..] :: t in tokens;
      if s != "" {
        TameItemsMatch(b, tokens[1..], s[1..]);
      }
    }
  }

  /** On texts with line breaks too, a plain pattern and its translation agree exactly
      when the pattern has no wildcard or the engine's dot takes line breaks. */
  lemma EveryTextIff(b: Breaks, p: string)
    requires p == "" || Trim(p) != ""
    requires Tokens(p).Some? && Plain(Tokens(p).value)
    ensures Parse(Regex(p)).Some?
    ensures (forall s :: MatchesAny(b, Parse(Regex(p)).value, s) <==> Like(Tokens(p).value, s))
      <==> b == {} || !Wild(Tokens(p).value)
  {
    var tokens := Tokens(p).value;
    ParseTranslation(p);
    var items := Items(tokens);
    assert Parse(Regex(p)) == Some([items]);
    assert forall s :: MatchesAny(b, [items], s) <==> Matches(b, items, s);
    if b == {} {
      forall s ensures Matches(b, items, s) <==> Like(tokens, s) {
        ItemsMatch(b, tokens, s);
      }
    } else if !Wild(tokens) {
      forall s ensures Matches(b, items, s) <==> Like(tokens, s) {
        TameItemsMatch(b, tokens, s);
      }
    } else {
      WildDisagrees(b, tokens);
    }
  }

  lemma WildDisagrees(b: Breaks, tokens: seq<Token>)
    requires b != {} && Wild(tokens)
    ensures exists s :: Like(tokens, s) && !Matches(b, Items(tokens), s)
  {
    var c :| c in b;
    var s := Filled(tokens, c);
    FilledIsLike(b, tokens, c);
    if Matches(b, Items(tokens), s) {
      BreaksCounted(b, tokens, s);
      assert false;
    }
  }
}
