/** Strings as byte sequences: the searches, trimming and number text that the
    connection-string code relies on. */
module Text {

  /** size_t arithmetic wraps at 2^64; npos is its largest value. */
  const SIZE_MODULUS: nat := 0x1_0000_0000_0000_0000
  const NPOS: nat := SIZE_MODULUS - 1

  /** Index of the first `c` in `s`, or |s| when there is none. */
  function First(s: string, c: char): (i: nat)
    ensures i <= |s| && (i < |s| ==> s[i] == c) && forall j | 0 <= j < i :: s[j] != c
  {
    if s == [] || s[0] == c then 0 else 1 + First(s[1..], c)
  }

  /** std::string::find and rfind of a character. */
  function Find(s: string, c: char): (p: nat)
    ensures if c in s then p == First(s, c) && p < |s| else p == NPOS
  {
    var i := First(s, c);
    if i < |s| then i else NPOS
  }

  function FindLast(s: string, c: char): (p: nat)
    requires |s| < NPOS
    ensures p == NPOS <==> c !in s
    ensures p != NPOS ==> p < |s| && s[p] == c && c !in s[p + 1..]
  {
    if s == [] then NPOS
    else if s[|s| - 1] == c then |s| - 1
    else FindLast(s[..|s| - 1], c)
  }

  predicate IsSpace(c: char) {
    c == ' ' || '\t' <= c <= '\r'
  }

  function Ltrim(s: string): string {
    if s != [] && IsSpace(s[0]) then Ltrim(s[1..]) else s
  }

  function Rtrim(s: string): string {
    if s != [] && IsSpace(s[|s| - 1]) then Rtrim(s[..|s| - 1]) else s
  }

  function Trim(s: string): string {
    Ltrim(Rtrim(s))
  }

  /** A blank: the space, or a character with code 9 to 13. */
  predicate BlankCode(code: int) {
    code == 32 || 9 <= code <= 13
  }

  predicate Blank(s: string) {
    forall i | 0 <= i < |s| :: BlankCode(s[i] as int)
  }

  predicate Trimmed(s: string) {
    s != [] ==> !IsSpace(s[0]) && !IsSpace(s[|s| - 1])
  }

  /** Trim returns a contiguous part of its argument that has no blank at either end. */
  lemma {:induction false} LtrimPart(s: string) returns (a: nat)
    ensures a <= |s| && Ltrim(s) == s[a..] && Blank(s[..a])
    ensures s[a..] != [] ==> !IsSpace(s[a])
  {
    if s != [] && IsSpace(s[0]) {
      var b := LtrimPart(s[1..]);
      a := b + 1;
      assert s[1..][b..] == s[a..] && s[..a] == [s[0]] + s[1..][..b];
    } else {
      a := 0;
    }
  }

  lemma {:induction false} RtrimPart(s: string) returns (b: nat)
    ensures b <= |s| && Rtrim(s) == s[..b] && Blank(s[b..])
    ensures b > 0 ==> !IsSpace(s[b - 1])
  {
    if s != [] && IsSpace(s[|s| - 1]) {
      b := RtrimPart(s[..|s| - 1]);
      assert s[..|s| - 1][..b] == s[..b] && s[b..] == s[..|s| - 1][b..] + [s[|s| - 1]];
    } else {
      b := |s|;
    }
  }

  lemma {:induction false} TrimmedStays(s: string)
    requires Trimmed(s)
    ensures Trim(s) == s
  {
    assert Rtrim(s) == s;
    assert Ltrim(s) == s;
  }

  lemma TrimIsPart(s: string) returns (a: nat, b: nat)
    ensures a <= b <= |s| && Trim(s) == s[a..b] && Trimmed(s[a..b])
    ensures Blank(s[..a]) && Blank(s[b..])
  {
    b := RtrimPart(s);
    a := LtrimPart(s[..b]);
    assert s[..b][a..] == s[a..b] && s[..b][..a] == s[..a];
  }

  lemma TrimPart(s: string) returns (a: nat, b: nat)
    ensures a <= b <= |s| && Trim(s) == s[a..b] && Trimmed(Trim(s))
    ensures Trim(s) == s <==> Trimmed(s)
  {
    a, b := TrimIsPart(s);
    if Trimmed(s) {
      TrimmedStays(s);
    }
  }

  lemma {:induction false} RtrimStrips(s: string, b: nat)
    requires b <= |s| && Blank(s[b..]) && (b > 0 ==> !BlankCode(s[b - 1] as int))
    ensures Rtrim(s) == s[..b]
  {
    if b < |s| {
      assert s[b..][|s| - 1 - b] == s[|s| - 1];
      assert s[..|s| - 1][b..] == s[b..][..|s| - 1 - b] && s[..|s| - 1][..b] == s[..b];
      RtrimStrips(s[..|s| - 1], b);
    } else if b > 0 {
      assert s[..b] == s;
    }
  }

  lemma {:induction false} LtrimStrips(s: string, a: nat)
    requires a <= |s| && Blank(s[..a]) && (a < |s| ==> !BlankCode(s[a] as int))
    ensures Ltrim(s) == s[a..]
  {
    if a > 0 {
      assert s[..a][0] == s[0];
      assert s[1..][..a - 1] == s[..a][1..] && s[1..][a - 1..] == s[a..];
      LtrimStrips(s[1..], a - 1);
    } else if s != "" {
      assert s[0..] == s;
    }
  }

  /** A string is a text that neither begins nor ends with a blank, with blanks around it. */
  predicate Surrounded(s: string, left: string, t: string, right: string) {
    s == left + t + right && Blank(left) && Blank(right) && (t != "" ==> !BlankCode(t[0] as int) && !BlankCode(t[|t| - 1] as int))
  }

  lemma TrimStrips(s: string, left: string, t: string, right: string)
    requires Surrounded(s, left, t, right)
    ensures Trim(s) == t
  {
    var b := |left + t|;
    if t == "" {
      RtrimStrips(s, 0);
    } else {
      assert s[b..] == right && s[..b] == left + t;
      RtrimStrips(s, b);
      assert (left + t)[..|left|] == left && (left + t)[|left|..] == t;
      LtrimStrips(left + t, |left|);
    }
  }

  lemma TrimLeaves(s: string) returns (left: string, right: string)
    ensures Surrounded(s, left, Trim(s), right)
  {
    var a, b := TrimIsPart(s);
    left, right := s[..a], s[b..];
    Parts(s, a, b);
  }

  lemma Parts(s: string, a: nat, b: nat)
    requires a <= b <= |s|
    ensures s == s[..a] + s[a..b] + s[b..]
  {
  }

  /** Trim takes off all blanks at both ends, and nothing else. */
  lemma TrimIff(s: string, t: string)
    ensures Trim(s) == t <==> exists left, right :: Surrounded(s, left, t, right)
  {
    var l, r := TrimLeaves(s);
    if left, right :| Surrounded(s, left, t, right) {
      TrimStrips(s, left, t, right);
    }
  }

  // ---- Letter case ----

  /** The same letter in upper and lower case, by its codes. */
  predicate CasePair(upper: char, lower: char) {
    65 <= upper as int <= 90 && lower as int == upper as int + 32
  }

  /** The same string but for the case of its letters. */
  predicate SameLetters(a: string, b: string) {
    |a| == |b| && forall i | 0 <= i < |a| :: a[i] == b[i] || CasePair(a[i], b[i]) || CasePair(b[i], a[i])
  }

  lemma {:induction false} RtrimRecased(a: string, b: string)
    requires SameLetters(a, b)
    ensures SameLetters(Rtrim(a), Rtrim(b))
  {
    if a != "" && IsSpace(a[|a| - 1]) {
      RtrimRecased(a[..|a| - 1], b[..|b| - 1]);
    }
  }

  lemma {:induction false} LtrimRecased(a: string, b: string)
    requires SameLetters(a, b)
    ensures SameLetters(Ltrim(a), Ltrim(b))
  {
    if a != "" && IsSpace(a[0]) {
      LtrimRecased(a[1..], b[1..]);
    }
  }

  lemma TrimRecased(a: string, b: string)
    requires SameLetters(a, b)
    ensures SameLetters(Trim(a), Trim(b))
  {
    RtrimRecased(a, b);
    LtrimRecased(Rtrim(a), Rtrim(b));
  }

  // ---- Texts put together ----

  /** Texts with a separator between each two. */
  function JoinWith(texts: seq<string>, separator: string): string
    decreases |texts|
  {
    if texts == [] then ""
    else if |texts| == 1 then texts[0]
    else texts[0] + separator + JoinWith(texts[1..], separator)
  }

  // ---- Decimal numbers ----

  predicate IsDigit(c: char) {
    '0' <= c <= '9'
  }

  predicate AllDigits(s: string) {
    forall i | 0 <= i < |s| :: IsDigit(s[i])
  }

  function ToNat(s: string): nat
    requires AllDigits(s)
  {
    if s == [] then 0 else 10 * ToNat(s[..|s| - 1]) + (s[|s| - 1] as int - '0' as int)
  }

  function NatText(n: nat): (s: string)
    ensures s != []
  {
    var digit := [(n % 10 + '0' as int) as char];
    if n < 10 then digit else NatText(n / 10) + digit
  }

  function IntText(n: int): string {
    if n < 0 then "-" + NatText(-n) else NatText(n)
  }

  function Pow10(k: nat): nat {
    if k == 0 then 1 else 10 * Pow10(k - 1)
  }

  lemma {:induction false} NatTextReads(n: nat, k: nat)
    requires n < Pow10(k) && k > 0
    ensures AllDigits(NatText(n)) && ToNat(NatText(n)) == n && |NatText(n)| <= k
  {
    if n >= 10 {
      NatTextReads(n / 10, k - 1);
      var front := NatText(n / 10);
      assert NatText(n)[..|NatText(n)| - 1] == front;
    } else {
      assert NatText(n)[..0] == [];
    }
  }
}
