/** Character classes and the handful of Python `str` operations the normaliser is built from.
    Case mapping is ASCII-only; whitespace is Python's full `str.isspace()` set. */
module Text {

  /** Python's `str.isspace()`; it is also the set `\s` matches in a `str` pattern of `re`,
      and the separator set of `str.split()` and `str.strip()` without arguments. */
  predicate IsWhitespace(c: char) {
    '\t' <= c <= '\r' || '\U{1c}' <= c <= ' ' || c == '\U{85}' || c == '\U{a0}' ||
    c == '\U{1680}' || '\U{2000}' <= c <= '\U{200a}' || c == '\U{2028}' || c == '\U{2029}' ||
    c == '\U{202f}' || c == '\U{205f}' || c == '\U{3000}'
  }

  predicate IsDigit(c: char) { '0' <= c <= '9' }
  predicate IsUpper(c: char) { 'A' <= c <= 'Z' }
  predicate IsLower(c: char) { 'a' <= c <= 'z' }
  predicate IsLetter(c: char) { IsUpper(c) || IsLower(c) }

  /** The regex class `[A-Za-z0-9]`. */
  predicate IsAlnum(c: char) { IsLetter(c) || IsDigit(c) }

  predicate AllDigits(s: string) { forall i :: 0 <= i < |s| ==> IsDigit(s[i]) }

  predicate NoUpper(s: string) { forall i :: 0 <= i < |s| ==> !IsUpper(s[i]) }

  /** `str.lower()` on one character, restricted to ASCII. */
  function LowerChar(c: char): char {
    if IsUpper(c) then (c as int + 32) as char else c
  }

  /** `str.lower()`, restricted to ASCII letters. */
  function Lower(s: string): string {
    seq(|s|, i requires 0 <= i < |s| => LowerChar(s[i]))
  }

  /** The characters of `s` that satisfy `keep`, in order: `re.sub('[^…]', '', s)`. */
  function Filter(s: string, keep: char -> bool): (r: string)
    ensures |r| <= |s|
    ensures forall i :: 0 <= i < |r| ==> keep(r[i]) && r[i] in s
  {
    if s == [] then [] else (if keep(s[0]) then [s[0]] else []) + Filter(s[1..], keep)
  }

  /** Concatenation is associative. */
  lemma ConcatAssoc(a: string, b: string, c: string)
    ensures a + (b + c) == a + b + c
  {
    assert forall i :: 0 <= i < |a| + |b| + |c| ==> (a + (b + c))[i] == (a + b + c)[i];
  }

  /** Filtering keeps a string whose every character is kept, and only such a string. */
  lemma {:induction false} FilterIdentity(s: string, keep: char -> bool)
    ensures Filter(s, keep) == s <==> forall i :: 0 <= i < |s| ==> keep(s[i])
  {
    if s != [] {
      FilterIdentity(s[1..], keep);
      if !keep(s[0]) {
        assert |Filter(s, keep)| < |s|;
      } else {
        assert forall i :: 1 <= i < |s| ==> s[i] == s[1..][i - 1];
      }
    }
  }

  /** Every occurrence of `c` replaced by `r`: `str.replace(c, r)`, or `re.sub` of one character. */
  function ReplaceChar(s: string, c: char, r: string): string {
    if s == [] then [] else (if s[0] == c then r else [s[0]]) + ReplaceChar(s[1..], c, r)
  }

  /** A replacement by one character keeps the length, leaves no `c` behind (unless `r` is `c`),
      and introduces no character other than the replacement. */
  lemma {:induction false} ReplaceCharFacts(s: string, c: char, d: char)
    ensures |ReplaceChar(s, c, [d])| == |s|
    ensures forall i :: 0 <= i < |s| ==>
      ReplaceChar(s, c, [d])[i] == if s[i] == c then d else s[i]
  {
    if s != [] {
      ReplaceCharFacts(s[1..], c, d);
    }
  }

  /** Replacing a character that does not occur changes nothing. */
  lemma {:induction false} ReplaceCharAbsent(s: string, c: char, r: string)
    requires forall i :: 0 <= i < |s| ==> s[i] != c
    ensures ReplaceChar(s, c, r) == s
  {
    if s != [] {
      ReplaceCharAbsent(s[1..], c, r);
    }
  }

  /** `str.lstrip()` without arguments. */
  function TrimLeft(s: string): string {
    if s != [] && IsWhitespace(s[0]) then TrimLeft(s[1..]) else s
  }

  /** `str.rstrip()` without arguments. */
  function TrimRight(s: string): string {
    if s != [] && IsWhitespace(s[|s| - 1]) then TrimRight(s[..|s| - 1]) else s
  }

  /** `str.strip()` without arguments. */
  function Strip(s: string): (r: string)
    ensures r != [] ==> !IsWhitespace(r[0]) && !IsWhitespace(r[|r| - 1])
  {
    StripFacts(s);
    TrimRight(TrimLeft(s))
  }

  lemma {:induction false} StripFacts(s: string)
    ensures TrimLeft(s) != [] ==> !IsWhitespace(TrimLeft(s)[0])
    ensures TrimRight(TrimLeft(s)) != [] ==>
      !IsWhitespace(TrimRight(TrimLeft(s))[0]) &&
      !IsWhitespace(TrimRight(TrimLeft(s))[|TrimRight(TrimLeft(s))| - 1])
  {
    TrimLeftFirst(s);
    TrimRightKeepsFirst(TrimLeft(s));
  }

  lemma {:induction false} TrimLeftFirst(s: string)
    ensures TrimLeft(s) != [] ==> !IsWhitespace(TrimLeft(s)[0])
  {
    if s != [] && IsWhitespace(s[0]) {
      TrimLeftFirst(s[1..]);
    }
  }

  /** Trimming on the right keeps a string's first character and leaves no trailing space. */
  lemma {:induction false} TrimRightKeepsFirst(s: string)
    ensures TrimRight(s) != [] ==> TrimRight(s)[0] == s[0]
    ensures TrimRight(s) != [] ==> !IsWhitespace(TrimRight(s)[|TrimRight(s)| - 1])
    ensures |TrimRight(s)| <= |s|
  {
    if s != [] && IsWhitespace(s[|s| - 1]) {
      TrimRightKeepsFirst(s[..|s| - 1]);
    }
  }

  /** Stripping one trailing space from a string without surrounding whitespace gives it back. */
  lemma StripTrailingSpace(s: string)
    requires s != [] ==> !IsWhitespace(s[0]) && !IsWhitespace(s[|s| - 1])
    ensures Strip(s + " ") == s
  {
    if s == [] {
      assert s + " " == " " && " "[1..] == "";
      assert TrimLeft(" ") == "";
    } else {
      var t := s + " ";
      assert t[0] == s[0];
      assert TrimLeft(t) == t;
      assert t[..|t| - 1] == s;
      assert TrimRight(t) == TrimRight(s);
      assert TrimRight(s) == s;
    }
  }

  /** The words of `str.split()`: maximal runs of non-whitespace characters. */
  function Words(s: string): (ws: seq<string>)
    decreases |s|
  {
    var t := TrimLeft(s);
    TrimLeftShorter(s);
    if t == [] then [] else
      var w := FirstWord(t);
      [w] + Words(t[|w|..])
  }

  lemma {:induction false} TrimLeftShorter(s: string)
    ensures |TrimLeft(s)| <= |s|
    ensures TrimLeft(s) != [] ==> !IsWhitespace(TrimLeft(s)[0])
  {
    if s != [] && IsWhitespace(s[0]) {
      TrimLeftShorter(s[1..]);
    }
  }

  /** The longest prefix of `s` without whitespace. */
  function FirstWord(s: string): (w: string)
    ensures |w| <= |s| && w == s[..|w|]
    ensures s != [] && !IsWhitespace(s[0]) ==> w != []
  {
    if s == [] || IsWhitespace(s[0]) then [] else [s[0]] + FirstWord(s[1..])
  }

  /** `sep.join(ws)`. */
  function Join(ws: seq<string>, sep: string): string {
    if ws == [] then [] else if |ws| == 1 then ws[0] else Join(ws[..|ws| - 1], sep) + sep + ws[|ws| - 1]
  }

  /** One decimal digit. */
  function DigitChar(d: nat): char
    requires d < 10
  {
    ('0' as int + d) as char
  }

  /** `str(n)` for a natural number. */
  function NatToString(n: nat): (s: string)
    ensures s != [] && AllDigits(s)
  {
    if n < 10 then [DigitChar(n)] else NatToString(n / 10) + [DigitChar(n % 10)]
  }

  /** Distinct numbers print differently. */
  lemma {:induction false} NatToStringInjective(m: nat, n: nat)
    requires NatToString(m) == NatToString(n)
    ensures m == n
  {
    var s, t := NatToString(m), NatToString(n);
    if m >= 10 && n >= 10 {
      assert s[..|s| - 1] == NatToString(m / 10);
      assert t[..|t| - 1] == NatToString(n / 10);
      NatToStringInjective(m / 10, n / 10);
      assert s[|s| - 1] == t[|t| - 1];
    }
  }

  /** A larger number never prints shorter. */
  lemma {:induction false} NatToStringMonotone(m: nat, n: nat)
    requires m <= n
    ensures |NatToString(m)| <= |NatToString(n)|
  {
    if n >= 10 && m >= 10 {
      NatToStringMonotone(m / 10, n / 10);
    }
  }

  function Pow10(d: nat): (p: nat)
    ensures p >= 1
  {
    if d == 0 then 1 else 10 * Pow10(d - 1)
  }

  /** A number below `10^d` prints in at most `d` digits. */
  lemma {:induction false} NatToStringBelowPow10(n: nat, d: nat)
    requires 1 <= d && n < Pow10(d)
    ensures |NatToString(n)| <= d
  {
    if n >= 10 {
      assert n / 10 < Pow10(d - 1);
      NatToStringBelowPow10(n / 10, d - 1);
    }
  }

  /** Lower-casing distributes over concatenation. */
  lemma LowerAppend(a: string, b: string)
    ensures Lower(a + b) == Lower(a) + Lower(b)
  {
  }

  /** Python's slice `s[0:stop]`: a negative `stop` counts from the end. */
  function PyPrefix(s: string, stop: int): (r: string)
    ensures |r| <= |s| && r == s[..|r|]
    ensures 0 <= stop ==> |r| == if stop < |s| then stop else |s|
  {
    var end := if stop < 0 then (if stop + |s| < 0 then 0 else stop + |s|)
               else if stop > |s| then |s| else stop;
    s[..end]
  }
}
