/** The value transforms of normalize/normalization_functions.py: one function (or method, where
    the source loops) per normalisation kind, each on a single cell value. A cell is
    `Option<string>`, `None` standing for Python's None. */
module NormalizationFunctions {
  import opened Wrappers
  import opened Text

  // ---------------------------------------------------------------------------------------------
  // date_normalization

  /** The input formats tried, in this order (`strptime` directives). */
  const DATE_FORMATS: seq<string> := [
    "%Y-%m-%d %H:%M:%S%Z", "%Y-%m-%d %H:%M:%S", "%m-%d-%y %H:%M:%S", "%m-%d-%y %H:%M:%S%Z",
    "%Y-%m-%d", "%d %m-%Y", "%Y/%b/%d", "%d-%m-%Y", "%d-%b-%Y", "%d/%m/%Y", "%d %b %Y"]

  /** The default output format of `date_normalization`. */
  const DEFAULT_DATE_FORMAT: string := "%d/%m/%Y"

  /** `datetime.strptime(value, format).strftime(target)` as one partial function:
      `None` where `strptime` raises ValueError. */
  type Reformat = (string, string, string) -> Option<string>

  /** The reformatting of `date` by the first of `formats` that parses it. */
  function FirstMatch(date: string, formats: seq<string>, target: string, reformat: Reformat): Option<string>
  {
    if formats == [] then None
    else if reformat(date, formats[0], target).Some? then reformat(date, formats[0], target)
    else FirstMatch(date, formats[1..], target, reformat)
  }

  /** The first-match search finds `v` exactly when some format gives `v` and every earlier
      format fails to parse; it finds nothing exactly when every format fails. */
  lemma {:induction false} FirstMatchIsFirst(date: string, formats: seq<string>, target: string,
                                             reformat: Reformat, v: string)
    ensures FirstMatch(date, formats, target, reformat) == Some(v) <==>
      exists i :: 0 <= i < |formats| && reformat(date, formats[i], target) == Some(v) &&
        forall j :: 0 <= j < i ==> reformat(date, formats[j], target).None?
    ensures FirstMatch(date, formats, target, reformat).None? <==>
      forall i :: 0 <= i < |formats| ==> reformat(date, formats[i], target).None?
  {
    if formats != [] {
      var rest := formats[1..];
      FirstMatchIsFirst(date, rest, target, reformat, v);
      if reformat(date, formats[0], target).None? {
        if FirstMatch(date, formats, target, reformat) == Some(v) {
          var i :| 0 <= i < |rest| && reformat(date, rest[i], target) == Some(v) &&
            forall j :: 0 <= j < i ==> reformat(date, rest[j], target).None?;
          assert formats[i + 1] == rest[i];
          forall j | 0 <= j < i + 1
            ensures reformat(date, formats[j], target).None?
          {
            if j > 0 { assert formats[j] == rest[j - 1]; }
          }
        }
        if exists i :: 0 <= i < |formats| && reformat(date, formats[i], target) == Some(v) &&
             forall j :: 0 <= j < i ==> reformat(date, formats[j], target).None? {
          var i :| 0 <= i < |formats| && reformat(date, formats[i], target) == Some(v) &&
            forall j :: 0 <= j < i ==> reformat(date, formats[j], target).None?;
          assert rest[i - 1] == formats[i];
          forall j | 0 <= j < i - 1
            ensures reformat(date, rest[j], target).None?
          {
            assert rest[j] == formats[j + 1];
          }
        }
        forall i | 0 <= i < |rest|
          ensures rest[i] == formats[i + 1]
        {
        }
      } else {
        if FirstMatch(date, formats, target, reformat) == Some(v) {
          assert reformat(date, formats[0], target) == Some(v);
        }
      }
    }
  }

  /** What `date_normalization` returns: the input unchanged when it is None or empty or when no
      format parses it, otherwise the first format's reformatting. */
  function DateNormalized(dateString: Option<string>, targetFormat: string, reformat: Reformat): Option<string>
  {
    if dateString.None? || dateString.value == "" then dateString
    else match FirstMatch(dateString.value, DATE_FORMATS, targetFormat, reformat)
      case Some(d) => Some(d)
      case None => dateString
  }

  /** `date_normalization`: tries the formats in order and returns at the first that parses. */
  method DateNormalization(dateString: Option<string>, targetFormat: string, reformat: Reformat)
    returns (r: Option<string>)
    ensures dateString.None? || dateString.value == "" ==> r == dateString
    ensures r == DateNormalized(dateString, targetFormat, reformat)
  {
    if dateString.Some? && dateString.value != "" {
      var date := dateString.value;
      var i := 0;
      while i < |DATE_FORMATS|
        invariant 0 <= i <= |DATE_FORMATS|
        invariant FirstMatch(date, DATE_FORMATS, targetFormat, reformat) ==
                  FirstMatch(date, DATE_FORMATS[i..], targetFormat, reformat)
      {
        var transformed := reformat(date, DATE_FORMATS[i], targetFormat);
        if transformed.Some? {
          return transformed;
        }
        assert DATE_FORMATS[i..][1..] == DATE_FORMATS[i + 1..];
        i := i + 1;
      }
    }
    return dateString;
  }

  // ---------------------------------------------------------------------------------------------
  // phone_normalization

  /** Python's `int()` accepts `s`: surrounding whitespace, an optional sign, then ASCII digits
      with single underscores allowed between digits. */
  predicate IsPythonInt(s: string) {
    var t := Strip(s);
    IsDigitGroups(if t != [] && (t[0] == '+' || t[0] == '-') then t[1..] else t)
  }

  predicate IsDigitGroups(d: string) {
    d != [] && IsDigit(d[0]) && IsDigit(d[|d| - 1]) &&
    (forall i :: 0 <= i < |d| ==> IsDigit(d[i]) || d[i] == '_') &&
    (forall i :: 0 <= i < |d| - 1 ==> d[i] == '_' ==> d[i + 1] != '_')
  }

  /** `phone_normalization`: a non-empty value that `int()` accepts is returned as it is; otherwise
      every non-digit is removed, after replacing each `+` by the exit code when the value starts
      with `+` and an exit code is given. None is not guarded and raises. */
  function PhoneNormalization(numberString: Option<string>, exitCodeDigits: string): (r: Result<string>)
    ensures numberString.None? <==> r.Failure?
    ensures numberString.Some? && numberString.value != "" && IsPythonInt(numberString.value) ==>
      r == Success(numberString.value)
    ensures numberString.Some? && !(numberString.value != "" && IsPythonInt(numberString.value)) ==>
      r.Success? && AllDigits(r.value)
    ensures numberString.Some? ==>
      var s := numberString.value;
      !(s != "" && IsPythonInt(s)) && !(s != "" && s[0] == '+' && exitCodeDigits != "") ==>
        r == Success(Filter(s, IsDigit))
  {
    match numberString
    case None => Failure("'NoneType' object has no attribute 'startswith'")
    case Some(s) =>
      if s != "" && IsPythonInt(s) then Success(s)
      else if |s| > 0 && s[0] == '+' && exitCodeDigits != "" then
        Success(Filter(ReplaceChar(s, '+', exitCodeDigits), IsDigit))
      else Success(Filter(s, IsDigit))
  }

  /** Filtering distributes over concatenation. */
  lemma {:induction false} FilterAppend(a: string, b: string, keep: char -> bool)
    ensures Filter(a + b, keep) == Filter(a, keep) + Filter(b, keep)
  {
    if a == [] {
      assert a + b == b;
    } else {
      assert (a + b)[0] == a[0];
      assert (a + b)[1..] == a[1..] + b;
      FilterAppend(a[1..], b, keep);
    }
  }

  /** With the exit-code rule, the leading `+` turns into the exit code's digits. */
  lemma PhoneExitCode(s: string, exitCodeDigits: string)
    requires !(s != "" && IsPythonInt(s))
    requires s != "" && s[0] == '+' && exitCodeDigits != ""
    ensures PhoneNormalization(Some(s), exitCodeDigits) ==
      Success(Filter(exitCodeDigits, IsDigit) + Filter(ReplaceChar(s[1..], '+', exitCodeDigits), IsDigit))
  {
    assert ReplaceChar(s, '+', exitCodeDigits) == exitCodeDigits + ReplaceChar(s[1..], '+', exitCodeDigits);
    FilterAppend(exitCodeDigits, ReplaceChar(s[1..], '+', exitCodeDigits), IsDigit);
  }

  /** Filtering keeps a string of digits whole and drops a single non-digit. */
  lemma FilterDigitPieces(d: string, c: char)
    requires AllDigits(d) && !IsDigit(c)
    ensures Filter(d, IsDigit) == d && Filter([c], IsDigit) == []
  {
    FilterIdentity(d, IsDigit);
  }

  /** Dropping a non-digit separator after a group of digits. */
  lemma DropSeparator(g: string, c: char, rest: string)
    requires AllDigits(g) && !IsDigit(c)
    ensures Filter(g + [c] + rest, IsDigit) == g + Filter(rest, IsDigit)
  {
    FilterDigitPieces(g, c);
    ConcatAssoc(g, [c], rest);
    FilterAppend(g, [c] + rest, IsDigit);
    FilterAppend([c], rest, IsDigit);
    assert [] + Filter(rest, IsDigit) == Filter(rest, IsDigit);
  }

  /** A number that starts with `+`, has no other `+` and that `int()` rejects: its digits, after
      the exit code's digits. */
  lemma PlusNumber(s: string, exitCodeDigits: string)
    requires s != "" && s[0] == '+' && !IsPythonInt(s) && '+' !in s[1..]
    ensures PhoneNormalization(Some(s), exitCodeDigits) ==
      Success(Filter(exitCodeDigits, IsDigit) + Filter(s[1..], IsDigit))
  {
    var tail := s[1..];
    if exitCodeDigits == "" {
      assert s == "+" + tail;
      FilterAppend("+", tail, IsDigit);
    } else {
      ReplaceCharAbsent(tail, '+', exitCodeDigits);
      PhoneExitCode(s, exitCodeDigits);
    }
  }

  /** A `+`, digits, then a character that is neither a digit nor `_`: not an integer. */
  lemma PlusGroupsNotInt(s: string, g1: string, c1: char, rest: string)
    requires s == "+" + (g1 + [c1] + rest)
    requires AllDigits(g1) && !IsDigit(c1) && c1 != '_'
    requires !IsWhitespace(s[|s| - 1])
    ensures !IsPythonInt(s)
  {
    assert TrimLeft(s) == s;
    assert TrimRight(s) == s;
    var d := s[1..];
    assert d == g1 + [c1] + rest;
    assert d[|g1|] == c1;
  }

  /** Digits contain no `+`. */
  lemma DigitsHaveNoPlus(g: string)
    requires AllDigits(g)
    ensures '+' !in g
  {
  }

  /** The shape of the functional tests' phone number: a `+`, then digit groups separated by
      single non-digits; `int()` rejects it, and the digits are what is left. */
  lemma PhoneOfGroups(s: string, g1: string, c1: char, g2: string, c2: char, g3: string, c3: char,
                      g4: string, exitCodeDigits: string)
    requires s == "+" + (g1 + [c1] + (g2 + [c2] + (g3 + [c3] + g4)))
    requires AllDigits(g1) && AllDigits(g2) && AllDigits(g3) && AllDigits(g4) && g4 != []
    requires !IsDigit(c1) && !IsDigit(c2) && !IsDigit(c3) && c1 != '_'
    requires c1 != '+' && c2 != '+' && c3 != '+'
    ensures PhoneNormalization(Some(s), exitCodeDigits) ==
      Success(Filter(exitCodeDigits, IsDigit) + (g1 + (g2 + (g3 + g4))))
  {
    var t2 := g2 + [c2] + (g3 + [c3] + g4);
    var tail := g1 + [c1] + t2;
    assert s[1..] == tail;
    assert s[|s| - 1] == g4[|g4| - 1];
    PlusGroupsNotInt(s, g1, c1, t2);
    GroupsHaveNoPlus(g1, c1, g2, c2, g3, c3, g4);
    PlusNumber(s, exitCodeDigits);
    GroupsDigits(g1, c1, g2, c2, g3, c3, g4);
  }

  lemma GroupsHaveNoPlus(g1: string, c1: char, g2: string, c2: char, g3: string, c3: char, g4: string)
    requires AllDigits(g1) && AllDigits(g2) && AllDigits(g3) && AllDigits(g4)
    requires c1 != '+' && c2 != '+' && c3 != '+'
    ensures '+' !in g1 + [c1] + (g2 + [c2] + (g3 + [c3] + g4))
  {
    DigitsHaveNoPlus(g1);
    DigitsHaveNoPlus(g2);
    DigitsHaveNoPlus(g3);
    DigitsHaveNoPlus(g4);
  }

  lemma GroupsDigits(g1: string, c1: char, g2: string, c2: char, g3: string, c3: char, g4: string)
    requires AllDigits(g1) && AllDigits(g2) && AllDigits(g3) && AllDigits(g4)
    requires !IsDigit(c1) && !IsDigit(c2) && !IsDigit(c3)
    ensures Filter(g1 + [c1] + (g2 + [c2] + (g3 + [c3] + g4)), IsDigit) == g1 + (g2 + (g3 + g4))
  {
    DropSeparator(g1, c1, g2 + [c2] + (g3 + [c3] + g4));
    DropSeparator(g2, c2, g3 + [c3] + g4);
    DropSeparator(g3, c3, g4);
    FilterIdentity(g4, IsDigit);
  }

  /** The examples of the functional tests: "+123-44 5678 999" gives its digits, and with the exit
      code "00" the `+` becomes "00". */
  lemma PhoneExamples(s: string)
    requires s == "+123-44 5678 999"
    ensures PhoneNormalization(Some(s), "") == Success("123445678999")
    ensures PhoneNormalization(Some(s), "00") == Success("00123445678999")
  {
    TestPhoneShape();
    PhoneOfGroups(s, "123", '-', "44", ' ', "5678", ' ', "999", "");
    PhoneOfGroups(s, "123", '-', "44", ' ', "5678", ' ', "999", "00");
    FilterIdentity("00", IsDigit);
    TestPhoneDigits();
  }

  lemma TestPhoneShape()
    ensures "+123-44 5678 999" == "+" + ("123" + ['-'] + ("44" + [' '] + ("5678" + [' '] + "999")))
  {
  }

  lemma TestPhoneDigits()
    ensures Filter("", IsDigit) + ("123" + ("44" + ("5678" + "999"))) == "123445678999"
    ensures "00" + ("123" + ("44" + ("5678" + "999"))) == "00123445678999"
  {
  }

  /** A string of digits has no surrounding whitespace to strip. */
  lemma StripDigits(s: string)
    requires AllDigits(s)
    ensures Strip(s) == s
  {
    if s != [] {
      assert TrimLeft(s) == s;
      assert TrimRight(s) == s;
    }
  }

  /** Normalising a normalised number changes nothing. */
  lemma PhoneIdempotent(numberString: Option<string>, exitCodeDigits: string, r: string)
    requires PhoneNormalization(numberString, exitCodeDigits) == Success(r)
    ensures PhoneNormalization(Some(r), exitCodeDigits) == Success(r)
  {
    var s := numberString.value;
    if !(s != "" && IsPythonInt(s)) && r != "" {
      StripDigits(r);
      assert IsDigitGroups(r);
      assert IsPythonInt(r);
    }
  }

  /** A signed integer keeps its sign: "+30" is returned as it is. */
  lemma PhoneKeepsSignedInt()
    ensures PhoneNormalization(Some("+30"), "00") == Success("+30")
  {
    var t := "+30";
    assert TrimLeft(t) == t;
    assert TrimRight(t) == t;
    assert t[1..] == "30";
    assert IsDigitGroups("30");
  }

  // ---------------------------------------------------------------------------------------------
  // special_character_normalization

  /** `s` without its leading run of characters outside `[A-Za-z0-9]`. */
  function SkipSpecial(s: string): (r: string)
    ensures |r| <= |s| && r == s[|s| - |r|..]
    ensures r != [] ==> IsAlnum(r[0])
    ensures s != [] && !IsAlnum(s[0]) ==> |r| < |s|
  {
    if s != [] && !IsAlnum(s[0]) then SkipSpecial(s[1..]) else s
  }

  /** Skipping special characters skips no alphanumeric. */
  lemma {:induction false} SkipSpecialKeepsAlnums(s: string)
    ensures Filter(SkipSpecial(s), IsAlnum) == Filter(s, IsAlnum)
  {
    if s != [] && !IsAlnum(s[0]) {
      SkipSpecialKeepsAlnums(s[1..]);
    }
  }

  /** `re.sub('[^A-Za-z0-9]+', ' ', s)`: each maximal run of other characters becomes one space. */
  function CollapseSpecial(s: string): string
    decreases |s|
  {
    if s == [] then []
    else if IsAlnum(s[0]) then [s[0]] + CollapseSpecial(s[1..])
    else " " + CollapseSpecial(SkipSpecial(s))
  }

  /** `s` uses only `[A-Za-z0-9 ]` and never has two spaces in a row. */
  predicate IsSpacedAlnum(s: string) {
    (forall i :: 0 <= i < |s| ==> IsAlnum(s[i]) || s[i] == ' ') &&
    (forall i :: 0 <= i < |s| - 1 ==> s[i] == ' ' ==> s[i + 1] != ' ')
  }

  /** Putting an alphanumeric, or a space before a non-space, in front keeps the shape. */
  lemma PrependSpacedAlnum(c: char, rest: string)
    requires IsSpacedAlnum(rest)
    requires IsAlnum(c) || (c == ' ' && (rest == [] || rest[0] != ' '))
    ensures IsSpacedAlnum([c] + rest)
    ensures Filter([c] + rest, IsAlnum) == (if IsAlnum(c) then [c] else []) + Filter(rest, IsAlnum)
  {
    var r := [c] + rest;
    assert r[1..] == rest;
    assert forall i :: 1 <= i < |r| ==> r[i] == rest[i - 1];
  }

  /** The step of `CollapseSpecialFacts` for an alphanumeric head, kept. */
  lemma AlnumBeforeCollapsed(s: string, rest: string)
    requires s != [] && IsAlnum(s[0])
    requires IsSpacedAlnum(rest) && Filter(rest, IsAlnum) == Filter(s[1..], IsAlnum)
    ensures IsSpacedAlnum([s[0]] + rest) && Filter([s[0]] + rest, IsAlnum) == Filter(s, IsAlnum)
  {
    PrependSpacedAlnum(s[0], rest);
  }

  /** The step of `CollapseSpecialFacts` for a special head: its run becomes the space in front of
      the collapsed remainder `rest` of `t`, which starts with an alphanumeric. */
  lemma SpaceBeforeCollapsed(s: string, t: string, rest: string)
    requires t != [] ==> IsAlnum(t[0])
    requires Filter(t, IsAlnum) == Filter(s, IsAlnum)
    requires IsSpacedAlnum(rest) && (rest == [] <==> t == [])
    requires rest != [] ==> (rest[0] == ' ' <==> !IsAlnum(t[0]))
    requires Filter(rest, IsAlnum) == Filter(t, IsAlnum)
    ensures IsSpacedAlnum(" " + rest) && Filter(" " + rest, IsAlnum) == Filter(s, IsAlnum)
  {
    PrependSpacedAlnum(' ', rest);
    assert " " + rest == [' '] + rest;
  }

  /** The collapsed string uses only `[A-Za-z0-9 ]`, never has two spaces in a row, starts with a
      space exactly when `s` starts with a special character, and keeps the alphanumerics in
      order. */
  lemma {:induction false} CollapseSpecialFacts(s: string)
    ensures var r := CollapseSpecial(s);
      IsSpacedAlnum(r) &&
      (r == [] <==> s == []) &&
      (r != [] ==> (r[0] == ' ' <==> !IsAlnum(s[0]))) &&
      Filter(r, IsAlnum) == Filter(s, IsAlnum)
    decreases |s|
  {
    if s == [] {
    } else if IsAlnum(s[0]) {
      CollapseSpecialFacts(s[1..]);
      AlnumBeforeCollapsed(s, CollapseSpecial(s[1..]));
    } else {
      var t := SkipSpecial(s);
      CollapseSpecialFacts(t);
      SkipSpecialKeepsAlnums(s);
      SpaceBeforeCollapsed(s, t, CollapseSpecial(t));
    }
  }

  /** `special_character_normalization`: None and the empty string give the empty string. */
  function SpecialCharacterNormalization(literal: Option<string>): (r: string)
    ensures literal.None? || literal.value == "" ==> r == ""
    ensures IsSpacedAlnum(r)
    ensures literal.Some? ==> Filter(r, IsAlnum) == Filter(literal.value, IsAlnum)
  {
    if literal.None? || literal.value == "" then ""
    else
      CollapseSpecialFacts(literal.value);
      CollapseSpecial(literal.value)
  }

  /** Collapsing leaves a string alone exactly when it already uses only `[A-Za-z0-9 ]` and has
      no two spaces in a row. */
  lemma {:induction false} CollapseSpecialFixpoint(s: string)
    requires IsSpacedAlnum(s)
    ensures CollapseSpecial(s) == s
  {
    if s != [] {
      SpacedAlnumTail(s);
      CollapseSpecialFixpoint(s[1..]);
      if !IsAlnum(s[0]) {
        SkipOneSpecial(s);
      }
      assert s == [s[0]] + s[1..];
    }
  }

  /** The tail of a spaced alphanumeric string is one, and after a space comes no other. */
  lemma SpacedAlnumTail(s: string)
    requires IsSpacedAlnum(s) && s != []
    ensures IsSpacedAlnum(s[1..])
    ensures !IsAlnum(s[0]) ==> s[0] == ' ' && (|s| == 1 || IsAlnum(s[1]))
  {
    var rest := s[1..];
    assert forall i :: 0 <= i < |rest| ==> rest[i] == s[i + 1];
  }

  /** A lone special character is all that is skipped before an alphanumeric. */
  lemma SkipOneSpecial(s: string)
    requires s != [] && !IsAlnum(s[0]) && (|s| == 1 || IsAlnum(s[1]))
    ensures SkipSpecial(s) == s[1..]
  {
  }

  predicate AllAlnum(s: string) { forall i :: 0 <= i < |s| ==> IsAlnum(s[i]) }

  predicate AllSpecial(s: string) { forall i :: 0 <= i < |s| ==> !IsAlnum(s[i]) }

  /** A string of alphanumerics is left as it is. */
  lemma {:induction false} CollapseAlnum(s: string)
    requires AllAlnum(s)
    ensures CollapseSpecial(s) == s
  {
    if s != [] {
      assert AllAlnum(s[1..]);
      CollapseAlnum(s[1..]);
      assert s == [s[0]] + s[1..];
    }
  }

  /** Skipping a run that stops inside `a` does not reach `b`. */
  lemma {:induction false} SkipSpecialAppend(a: string, b: string)
    requires a != [] && IsAlnum(a[|a| - 1])
    ensures SkipSpecial(a) != [] && SkipSpecial(a + b) == SkipSpecial(a) + b
  {
    if !IsAlnum(a[0]) {
      assert (a + b)[1..] == a[1..] + b;
      assert a[1..][|a[1..]| - 1] == a[|a| - 1];
      SkipSpecialAppend(a[1..], b);
    }
  }

  /** A run of special characters is skipped whole up to an alphanumeric or the end. */
  lemma {:induction false} SkipSpecialRun(x: string, b: string)
    requires AllSpecial(x)
    requires b == [] || IsAlnum(b[0])
    ensures SkipSpecial(x + b) == b
  {
    if x == [] {
      assert x + b == b;
    } else {
      assert (x + b)[1..] == x[1..] + b;
      assert AllSpecial(x[1..]);
      SkipSpecialRun(x[1..], b);
    }
  }

  /** Collapsing distributes over a cut right after an alphanumeric. */
  lemma {:induction false} CollapseAppend(a: string, b: string)
    requires a == [] || IsAlnum(a[|a| - 1])
    ensures CollapseSpecial(a + b) == CollapseSpecial(a) + CollapseSpecial(b)
    decreases |a|
  {
    if a == [] {
      assert a + b == b;
    } else if IsAlnum(a[0]) {
      var ab := a + b;
      assert ab[0] == a[0] && ab[1..] == a[1..] + b;
      CollapseAppend(a[1..], b);
      ConcatAssoc([a[0]], CollapseSpecial(a[1..]), CollapseSpecial(b));
    } else {
      var ab := a + b;
      assert ab[0] == a[0];
      SkipSpecialAppend(a, b);
      var t := SkipSpecial(a);
      assert t[|t| - 1] == a[|a| - 1];
      CollapseAppend(t, b);
      ConcatAssoc(" ", CollapseSpecial(t), CollapseSpecial(b));
    }
  }

  /** Every maximal run of special characters becomes exactly one space: a non-empty run `x`
      between an alphanumeric (or the start) and an alphanumeric (or the end). */
  lemma CollapseRun(a: string, x: string, b: string)
    requires a == [] || IsAlnum(a[|a| - 1])
    requires x != [] && AllSpecial(x)
    requires b == [] || IsAlnum(b[0])
    ensures CollapseSpecial(a + x + b) == CollapseSpecial(a) + " " + CollapseSpecial(b)
  {
    ConcatAssoc(a, x, b);
    CollapseAppend(a, x + b);
    CollapseLeadingRun(x, b);
    ConcatAssoc(CollapseSpecial(a), " ", CollapseSpecial(b));
  }

  /** A leading run of special characters becomes one space. */
  lemma CollapseLeadingRun(x: string, b: string)
    requires x != [] && AllSpecial(x)
    requires b == [] || IsAlnum(b[0])
    ensures CollapseSpecial(x + b) == " " + CollapseSpecial(b)
  {
    var xb := x + b;
    assert xb != [] && xb[0] == x[0];
    SkipSpecialRun(x, b);
    assert CollapseSpecial(xb) == " " + CollapseSpecial(SkipSpecial(xb));
  }

  /** A run, then a word, then anything: one space, the word, the rest collapsed. */
  lemma RunThenWord(x: string, w: string, rest: string)
    requires x != [] && AllSpecial(x) && w != [] && AllAlnum(w)
    ensures CollapseSpecial(x + (w + rest)) == " " + (w + CollapseSpecial(rest))
  {
    CollapseLeadingRun(x, w + rest);
    CollapseAppend(w, rest);
    CollapseAlnum(w);
  }

  /** A string made of one run of special characters becomes one space. */
  lemma LoneRun(x: string)
    requires x != [] && AllSpecial(x)
    ensures CollapseSpecial(x) == " "
  {
    CollapseLeadingRun(x, []);
    assert x + [] == x;
  }

  /** Five words, each between runs of special characters. */
  lemma CollapseFiveWords(x0: string, w1: string, x1: string, w2: string, x2: string, w3: string,
                          x3: string, w4: string, x4: string, w5: string, x5: string)
    requires x0 != [] && x1 != [] && x2 != [] && x3 != [] && x4 != [] && x5 != []
    requires AllSpecial(x0) && AllSpecial(x1) && AllSpecial(x2) && AllSpecial(x3) && AllSpecial(x4)
    requires AllSpecial(x5)
    requires w1 != [] && w2 != [] && w3 != [] && w4 != [] && w5 != []
    requires AllAlnum(w1) && AllAlnum(w2) && AllAlnum(w3) && AllAlnum(w4) && AllAlnum(w5)
    ensures CollapseSpecial(x0 + (w1 + (x1 + (w2 + (x2 + (w3 + (x3 + (w4 + (x4 + (w5 + x5)))))))))) ==
      " " + (w1 + (" " + (w2 + (" " + (w3 + (" " + (w4 + (" " + (w5 + " ")))))))))
  {
    LoneRun(x5);
    var t4 := x4 + (w5 + x5);
    RunThenWord(x4, w5, x5);
    var t3 := x3 + (w4 + t4);
    RunThenWord(x3, w4, t4);
    var t2 := x2 + (w3 + t3);
    RunThenWord(x2, w3, t3);
    var t1 := x1 + (w2 + t2);
    RunThenWord(x1, w2, t2);
    RunThenWord(x0, w1, t1);
  }

  lemma TestLiteralShape()
    ensures "-_/@ contain m@any special characTers-" ==
      "-_/@ " + ("contain" + (" " + ("m" + ("@" + ("any" + (" " + ("special" + (" " + ("characTers" + "-")))))))))
  {
  }

  lemma TestResultShape()
    ensures " contain m any special characTers " ==
      " " + ("contain" + (" " + ("m" + (" " + ("any" + (" " + ("special" + (" " + ("characTers" + " ")))))))))
  {
  }

  lemma TestLiteralPieces()
    ensures AllSpecial("-_/@ ") && AllSpecial(" ") && AllSpecial("@") && AllSpecial("-")
    ensures AllAlnum("contain") && AllAlnum("m") && AllAlnum("any") && AllAlnum("special")
    ensures AllAlnum("characTers")
  {
  }

  /** The example of the functional tests. */
  lemma SpecialCharacterExample(s: string)
    requires s == "-_/@ contain m@any special characTers-"
    ensures SpecialCharacterNormalization(Some(s)) == " contain m any special characTers "
  {
    TestLiteralShape();
    TestResultShape();
    TestLiteralPieces();
    CollapseFiveWords("-_/@ ", "contain", " ", "m", "@", "any", " ", "special", " ", "characTers", "-");
  }

  /** `special_character_normalization` is idempotent. */
  lemma SpecialCharacterIdempotent(literal: Option<string>)
    ensures SpecialCharacterNormalization(Some(SpecialCharacterNormalization(literal))) ==
            SpecialCharacterNormalization(literal)
  {
    var r := SpecialCharacterNormalization(literal);
    if r != "" {
      CollapseSpecialFixpoint(r);
    }
  }

  // ---------------------------------------------------------------------------------------------
  // case_normalization

  /** `case_normalization`: None and the empty string give the empty string; otherwise every ASCII
      capital becomes its small letter and every other character stays. */
  function CaseNormalization(literal: Option<string>): (r: string)
    ensures literal.None? ==> r == ""
    ensures literal.Some? ==> |r| == |literal.value|
    ensures NoUpper(r)
    ensures literal.Some? ==> forall i :: 0 <= i < |r| ==>
      if IsUpper(literal.value[i]) then r[i] as int == literal.value[i] as int + 32 else r[i] == literal.value[i]
  {
    if literal.None? || literal.value == "" then "" else Lower(literal.value)
  }

  /** Lower-casing leaves a string alone exactly when it has no capital, so it is idempotent. */
  lemma CaseFixpoint(s: string)
    ensures CaseNormalization(Some(s)) == s <==> NoUpper(s)
    ensures CaseNormalization(Some(CaseNormalization(Some(s)))) == CaseNormalization(Some(s))
  {
    var r := CaseNormalization(Some(s));
    if NoUpper(s) {
      assert forall i :: 0 <= i < |s| ==> r[i] == s[i];
    }
    assert forall i :: 0 <= i < |r| ==> CaseNormalization(Some(r))[i] == r[i];
  }

  // ---------------------------------------------------------------------------------------------
  // alphabetical_normalization

  /** Python's `<` on strings: lexicographic by code point. */
  predicate LexLess(a: string, b: string)
    decreases |a|
  {
    if a == [] then b != []
    else if b == [] then false
    else if a[0] != b[0] then a[0] < b[0]
    else LexLess(a[1..], b[1..])
  }

  lemma {:induction false} LexLessIrreflexive(a: string)
    ensures !LexLess(a, a)
  {
    if a != [] { LexLessIrreflexive(a[1..]); }
  }

  lemma {:induction false} LexLessTransitive(a: string, b: string, c: string)
    requires LexLess(a, b) && LexLess(b, c)
    ensures LexLess(a, c)
    decreases |a|
  {
    if a != [] && b != [] && c != [] && a[0] == b[0] && b[0] == c[0] {
      LexLessTransitive(a[1..], b[1..], c[1..]);
    }
  }

  lemma {:induction false} LexLessTotal(a: string, b: string)
    ensures a == b || LexLess(a, b) || LexLess(b, a)
    decreases |a|
  {
    if a != [] && b != [] && a[0] == b[0] {
      LexLessTotal(a[1..], b[1..]);
      if a[1..] == b[1..] {
        assert a == [a[0]] + a[1..] && b == [b[0]] + b[1..];
      }
    }
  }

  /** "Not less" is transitive, as `sorted` requires of its key order. */
  lemma NotLessTransitive(a: string, b: string, c: string)
    requires !LexLess(b, a) && !LexLess(c, b)
    ensures !LexLess(c, a)
  {
    LexLessTotal(a, b);
    if LexLess(c, a) && LexLess(a, b) {
      LexLessTransitive(c, a, b);
    }
  }

  /** The order of `sorted(parts, key=str.casefold)`; casefolding is ASCII lower-casing here. */
  predicate KeyLess(a: string, b: string) {
    LexLess(Lower(a), Lower(b))
  }

  /** Inserts `x` before the first element whose key is not smaller, so equal keys keep their
      order. */
  function InsertByKey(x: string, ts: seq<string>): (r: seq<string>)
    ensures multiset(r) == multiset(ts) + multiset{x}
  {
    if ts == [] then [x]
    else if KeyLess(ts[0], x) then
      assert ts == [ts[0]] + ts[1..];
      [ts[0]] + InsertByKey(x, ts[1..])
    else [x] + ts
  }

  /** `sorted(parts, key=str.casefold)`: a stable sort by casefolded key. */
  function SortedByCasefold(parts: seq<string>): (r: seq<string>)
    ensures multiset(r) == multiset(parts)
  {
    if parts == [] then []
    else
      assert parts == [parts[0]] + parts[1..];
      InsertByKey(parts[0], SortedByCasefold(parts[1..]))
  }

  predicate IsSortedByKey(ts: seq<string>) {
    forall i, j :: 0 <= i < j < |ts| ==> !KeyLess(ts[j], ts[i])
  }

  lemma {:induction false} InsertKeepsSorted(x: string, ts: seq<string>)
    requires IsSortedByKey(ts)
    ensures IsSortedByKey(InsertByKey(x, ts))
  {
    if ts != [] {
      var r := InsertByKey(x, ts);
      if KeyLess(ts[0], x) {
        var tail := InsertByKey(x, ts[1..]);
        InsertKeepsSorted(x, ts[1..]);
        assert r == [ts[0]] + tail;
        forall j | 0 < j < |r|
          ensures !KeyLess(r[j], ts[0])
        {
          assert r[j] == tail[j - 1];
          assert r[j] in multiset(tail);
          if r[j] == x {
            if KeyLess(x, ts[0]) {
              LexLessTransitive(Lower(x), Lower(ts[0]), Lower(x));
              LexLessIrreflexive(Lower(x));
            }
          } else {
            assert r[j] in multiset(ts[1..]);
            var k :| 0 <= k < |ts[1..]| && ts[1..][k] == r[j];
            assert ts[k + 1] == r[j];
          }
        }
      } else {
        forall j | 0 <= j < |ts|
          ensures !KeyLess(ts[j], x)
        {
          if j > 0 {
            NotLessTransitive(Lower(x), Lower(ts[0]), Lower(ts[j]));
          }
        }
        assert forall j :: 0 < j < |r| ==> r[j] == ts[j - 1];
      }
    }
  }

  /** The sort yields keys in non-decreasing order. */
  lemma {:induction false} SortedIsSorted(parts: seq<string>)
    ensures IsSortedByKey(SortedByCasefold(parts))
  {
    if parts != [] {
      SortedIsSorted(parts[1..]);
      InsertKeepsSorted(parts[0], SortedByCasefold(parts[1..]));
    }
  }

  /** The elements of `ts` whose casefolded key is `k`, in order. */
  function WithKey(ts: seq<string>, k: string): seq<string> {
    if ts == [] then [] else (if Lower(ts[0]) == k then [ts[0]] else []) + WithKey(ts[1..], k)
  }

  /** The elements with key `k` of a list with a given head. */
  lemma WithKeyCons(h: string, ts: seq<string>, k: string)
    ensures WithKey([h] + ts, k) == (if Lower(h) == k then [h] else []) + WithKey(ts, k)
  {
    var r := [h] + ts;
    assert r[0] == h && r[1..] == ts;
  }

  /** Putting a head with another key in front of two lists keeps them related as before. */
  lemma WithKeyPastHead(h: string, x: string, rest: seq<string>, tail: seq<string>, k: string)
    requires Lower(h) != Lower(x)
    requires WithKey(tail, k) == (if Lower(x) == k then [x] else []) + WithKey(rest, k)
    ensures WithKey([h] + tail, k) == (if Lower(x) == k then [x] else []) + WithKey([h] + rest, k)
  {
    WithKeyCons(h, tail, k);
    WithKeyCons(h, rest, k);
  }

  lemma {:induction false} InsertWithKey(x: string, ts: seq<string>, k: string)
    ensures WithKey(InsertByKey(x, ts), k) == (if Lower(x) == k then [x] else []) + WithKey(ts, k)
  {
    if ts == [] {
      WithKeyCons(x, ts, k);
    } else if KeyLess(ts[0], x) {
      InsertWithKey(x, ts[1..], k);
      LexLessIrreflexive(Lower(x));
      WithKeyPastHead(ts[0], x, ts[1..], InsertByKey(x, ts[1..]), k);
      assert ts == [ts[0]] + ts[1..];
    } else {
      WithKeyCons(x, ts, k);
    }
  }

  /** The sort is stable: the elements sharing a key keep their relative order. */
  lemma {:induction false} SortedIsStable(parts: seq<string>, k: string)
    ensures WithKey(SortedByCasefold(parts), k) == WithKey(parts, k)
  {
    if parts != [] {
      SortedIsStable(parts[1..], k);
      InsertWithKey(parts[0], SortedByCasefold(parts[1..]), k);
    }
  }

  /** The string the loop builds: every part followed by one space. */
  function JoinTrailing(parts: seq<string>): string {
    if parts == [] then "" else JoinTrailing(parts[..|parts| - 1]) + parts[|parts| - 1] + " "
  }

  /** What `alphabetical_normalization` returns; `tokenize` is nltk's `word_tokenize`. */
  function AlphabeticallyNormalized(literal: Option<string>, tokenize: string -> seq<string>): string {
    if literal.None? || literal.value == "" then ""
    else Strip(JoinTrailing(SortedByCasefold(tokenize(literal.value))))
  }

  /** `alphabetical_normalization`: sorts the tokens by casefold, appends each with a space,
      then strips the ends. */
  method AlphabeticalNormalization(literal: Option<string>, tokenize: string -> seq<string>)
    returns (r: string)
    ensures literal.None? || literal.value == "" ==> r == ""
    ensures r == AlphabeticallyNormalized(literal, tokenize)
  {
    if literal.None? || literal.value == "" {
      return "";
    }
    var parts := tokenize(literal.value);
    var sortedParts := SortedByCasefold(parts);
    var normalized := "";
    for i := 0 to |sortedParts|
      invariant normalized == JoinTrailing(sortedParts[..i])
    {
      assert sortedParts[..i + 1][..i] == sortedParts[..i];
      normalized := normalized + sortedParts[i] + " ";
    }
    assert sortedParts[..|sortedParts|] == sortedParts;
    r := Strip(normalized);
  }

  /** A token that the tokenizer could produce: non-empty, no whitespace. */
  predicate IsToken(t: string) {
    t != [] && forall i :: 0 <= i < |t| ==> !IsWhitespace(t[i])
  }

  lemma {:induction false} JoinTrailingIsJoin(ts: seq<string>)
    requires forall i :: 0 <= i < |ts| ==> IsToken(ts[i])
    ensures ts != [] ==> JoinTrailing(ts) == Join(ts, " ") + " "
    ensures var j := Join(ts, " "); j != [] ==> !IsWhitespace(j[0]) && !IsWhitespace(j[|j| - 1])
    ensures ts != [] ==> Join(ts, " ") != []
  {
    if |ts| > 1 {
      var init := ts[..|ts| - 1];
      JoinTrailingIsJoin(init);
      assert init[0] == ts[0];
      var last := ts[|ts| - 1];
      assert IsToken(last);
      var j := Join(ts, " ");
      assert j == Join(init, " ") + " " + last;
      assert j[|j| - 1] == last[|last| - 1];
      assert j[0] == Join(init, " ")[0];
    } else if |ts| == 1 {
      assert ts[..0] == [];
      assert IsToken(ts[0]);
    }
  }

  /** When the tokens are words, the result is the casefold-sorted tokens joined by single spaces. */
  lemma AlphabeticalJoinsBySpaces(literal: string, tokenize: string -> seq<string>)
    requires literal != ""
    requires forall i :: 0 <= i < |tokenize(literal)| ==> IsToken(tokenize(literal)[i])
    ensures AlphabeticallyNormalized(Some(literal), tokenize) ==
            Join(SortedByCasefold(tokenize(literal)), " ")
  {
    var ts := tokenize(literal);
    var sorted := SortedByCasefold(ts);
    forall i | 0 <= i < |sorted|
      ensures IsToken(sorted[i])
    {
      assert sorted[i] in multiset(ts);
    }
    JoinTrailingIsJoin(sorted);
    if sorted == [] {
      assert JoinTrailing(sorted) == "";
    } else {
      StripTrailingSpace(Join(sorted, " "));
    }
  }

  /** The casefold order of the tokens of "I am fagi": am < fagi < I. */
  lemma ExampleKeyOrder()
    ensures KeyLess("am", "fagi") && KeyLess("fagi", "I") && KeyLess("am", "I")
    ensures !KeyLess("fagi", "am")
  {
    assert Lower("am") == "am";
    assert Lower("fagi") == "fagi";
    assert Lower("I") == "i";
  }

  /** Inserting into an empty or one-element list. */
  lemma InsertIntoOne(x: string, t: string)
    ensures InsertByKey(x, []) == [x]
    ensures InsertByKey(x, [t]) == if KeyLess(t, x) then [t, x] else [x, t]
  {
    assert [t][1..] == [];
  }

  /** Sorting a list with a given head inserts the head into the sorted tail. */
  lemma SortedCons(x: string, ts: seq<string>)
    ensures SortedByCasefold([x] + ts) == InsertByKey(x, SortedByCasefold(ts))
  {
    var p := [x] + ts;
    assert p[0] == x && p[1..] == ts;
  }

  /** An element whose key is larger than the head's goes past the head. */
  lemma InsertPastHead(x: string, h: string, ts: seq<string>)
    requires KeyLess(h, x)
    ensures InsertByKey(x, [h] + ts) == [h] + InsertByKey(x, ts)
  {
    var p := [h] + ts;
    assert p[0] == h && p[1..] == ts;
  }

  /** Two tokens already in key order stay in that order. */
  lemma SortTwo(a: string, b: string)
    requires !KeyLess(b, a)
    ensures SortedByCasefold([a, b]) == [a, b]
  {
    SortedCons(b, []);
    InsertIntoOne(b, b);
    assert [b] + [] == [b];
    SortedCons(a, [b]);
    InsertIntoOne(a, b);
    assert [a] + [b] == [a, b];
  }

  /** A token with the largest key goes to the end of a two-element list. */
  lemma InsertLast(c: string, a: string, b: string)
    requires KeyLess(a, c) && KeyLess(b, c)
    ensures InsertByKey(c, [a, b]) == [a, b, c]
  {
    InsertPastHead(c, a, [b]);
    InsertIntoOne(c, b);
    assert [a] + [b] == [a, b] && [a] + [b, c] == [a, b, c];
  }

  /** Three tokens whose keys are in the order a < b < c, listed as c, a, b, sort to a, b, c. */
  lemma SortThree(a: string, b: string, c: string)
    requires KeyLess(a, b) && KeyLess(b, c) && KeyLess(a, c) && !KeyLess(b, a)
    ensures SortedByCasefold([c, a, b]) == [a, b, c]
  {
    SortedCons(c, [a, b]);
    SortTwo(a, b);
    InsertLast(c, a, b);
    assert [c] + [a, b] == [c, a, b];
  }

  lemma JoinThree(a: string, b: string, c: string, sep: string)
    ensures Join([a, b, c], sep) == a + sep + b + sep + c
  {
    var abc, ab := [a, b, c], [a, b];
    assert abc[..2] == ab && ab[..1] == [a];
    assert Join([a], sep) == a;
    assert Join(ab, sep) == a + sep + b;
    assert Join(abc, sep) == Join(ab, sep) + sep + c;
  }

  /** Three tokens listed as c, a, b with keys a < b < c come out as "a b c". */
  lemma AlphabeticalOfThree(literal: string, tokenize: string -> seq<string>, a: string, b: string, c: string)
    requires literal != "" && tokenize(literal) == [c, a, b]
    requires IsToken(a) && IsToken(b) && IsToken(c)
    requires KeyLess(a, b) && KeyLess(b, c) && KeyLess(a, c) && !KeyLess(b, a)
    ensures AlphabeticallyNormalized(Some(literal), tokenize) == a + " " + b + " " + c
  {
    SortThree(a, b, c);
    ThreeTokens(tokenize(literal), a, b, c);
    AlphabeticalJoinsBySpaces(literal, tokenize);
    JoinThree(a, b, c, " ");
  }

  lemma ThreeTokens(ts: seq<string>, a: string, b: string, c: string)
    requires ts == [c, a, b] && IsToken(a) && IsToken(b) && IsToken(c)
    ensures forall i :: 0 <= i < |ts| ==> IsToken(ts[i])
  {
    forall i | 0 <= i < |ts|
      ensures IsToken(ts[i])
    {
      if i == 0 {
      } else if i == 1 {
      } else {
      }
    }
  }

  lemma ExampleTokens()
    ensures IsToken("am") && IsToken("fagi") && IsToken("I")
  {
  }

  lemma ExampleSpaced()
    ensures "am" + " " + "fagi" + " " + "I" == "am fagi I"
  {
  }

  /** The example of the functional tests, with nltk's tokens for "I am fagi". */
  lemma AlphabeticalExample(tokenize: string -> seq<string>)
    requires tokenize("I am fagi") == ["I", "am", "fagi"]
    ensures AlphabeticallyNormalized(Some("I am fagi"), tokenize) == "am fagi I"
  {
    ExampleKeyOrder();
    ExampleTokens();
    AlphabeticalOfThree("I am fagi", tokenize, "am", "fagi", "I");
    ExampleSpaced();
  }

  // ---------------------------------------------------------------------------------------------
  // transliteration

  /** The transliteration back ends: `get_available_language_codes()`,
      `translit(text, lang, reversed=True)` and `transliteration_slow(blob, target_lang)`. */
  datatype Transliterator = Transliterator(
    available: seq<string>,
    translit: (string, string) -> string,
    slow: (string, string) -> string)

  /** The `source_langs` argument: one code (a `str`) or a list of codes. */
  datatype SourceLangs = Lang(code: string) | Langs(codes: seq<string>)

  /** The list the loop runs over: a single code is wrapped in a list. */
  function LangList(s: SourceLangs): seq<string> {
    match s
    case Lang(c) => [c]
    case Langs(cs) => cs
  }

  /** The default target of `transliteration`. */
  const DEFAULT_TARGET_LANG: string := "la"

  /** The loop of `transliteration` from the current `text` over the remaining `langs`: an
      available language transliterates `text`; any other one resets `text` to the slow
      transliteration of the original `blob`. */
  function Transliterated(blob: string, text: string, langs: seq<string>, targetLang: string,
                          t: Transliterator): string
    decreases |langs|
  {
    if langs == [] then text
    else
      var next := if langs[0] in t.available then t.translit(text, langs[0]) else t.slow(blob, targetLang);
      Transliterated(blob, next, langs[1..], targetLang, t)
  }

  /** `translit` applied for each of `langs` in order. */
  function TranslitChain(text: string, langs: seq<string>, translit: (string, string) -> string): string
    decreases |langs|
  {
    if langs == [] then text else TranslitChain(translit(text, langs[0]), langs[1..], translit)
  }

  /** When every language is available, the languages' transliterations are chained. */
  lemma {:induction false} TransliteratedAllAvailable(blob: string, text: string, langs: seq<string>,
                                                      targetLang: string, t: Transliterator)
    requires forall i :: 0 <= i < |langs| ==> langs[i] in t.available
    ensures Transliterated(blob, text, langs, targetLang, t) == TranslitChain(text, langs, t.translit)
    decreases |langs|
  {
    if langs != [] {
      assert forall i :: 0 <= i < |langs[1..]| ==> langs[1..][i] == langs[i + 1];
      TransliteratedAllAvailable(blob, t.translit(text, langs[0]), langs[1..], targetLang, t);
    }
  }

  /** An unavailable language discards everything done before it: the result is the slow
      transliteration of the original blob, followed by the languages after the last unavailable
      one. */
  lemma {:induction false} TransliteratedRestarts(blob: string, text: string, langs: seq<string>,
                                                  targetLang: string, t: Transliterator, j: nat)
    requires j < |langs| && langs[j] !in t.available
    requires forall i :: j < i < |langs| ==> langs[i] in t.available
    ensures Transliterated(blob, text, langs, targetLang, t) ==
            TranslitChain(t.slow(blob, targetLang), langs[j + 1..], t.translit)
    decreases j
  {
    var next := if langs[0] in t.available then t.translit(text, langs[0]) else t.slow(blob, targetLang);
    if j == 0 {
      assert forall i :: 0 <= i < |langs[1..]| ==> langs[1..][i] == langs[i + 1];
      TransliteratedAllAvailable(blob, next, langs[1..], targetLang, t);
    } else {
      assert forall i :: j - 1 < i < |langs[1..]| ==> langs[1..][i] == langs[i + 1];
      TransliteratedRestarts(blob, next, langs[1..], targetLang, t, j - 1);
      assert langs[1..][j..] == langs[j + 1..];
    }
  }

  /** `transliteration`: None stays None; otherwise the loop over the source languages. */
  method Transliteration(blob: Option<string>, sourceLangs: SourceLangs, targetLang: string,
                         t: Transliterator) returns (r: Option<string>)
    ensures blob.None? ==> r.None?
    ensures blob.Some? ==> r == Some(Transliterated(blob.value, blob.value, LangList(sourceLangs), targetLang, t))
  {
    if blob.None? {
      return None;
    }
    var text := blob.value;
    var langs := LangList(sourceLangs);
    for i := 0 to |langs|
      invariant Transliterated(blob.value, blob.value, langs, targetLang, t) ==
                Transliterated(blob.value, text, langs[i..], targetLang, t)
    {
      assert langs[i..][1..] == langs[i + 1..];
      if langs[i] in t.available {
        text := t.translit(text, langs[i]);
      } else {
        text := t.slow(blob.value, targetLang);
      }
    }
    r := Some(text);
  }

  // ---------------------------------------------------------------------------------------------
  // value_cleaning

  /** The allow-list of the last substitution of `value_cleaning`, as the pattern is written in
      the source file (its non-ASCII ranges included as they stand). */
  predicate IsAllowed(c: char) {
    ' ' <= c <= '!' || '#' <= c <= '$' || '&' <= c <= ';' || c == '=' || '?' <= c <= 'Z' ||
    c == '_' || 'a' <= c <= 'z' || c == '~' ||
    '\U{a8}' <= c <= '\U{a9}' || c == '\U{e4}' || c == '\U{e9}' || '\U{106}' <= c <= '\U{107}' ||
    '\U{10c}' <= c <= '\U{151}' || c == '\U{17a}' || c == '\U{2260}'
  }

  predicate NotWhitespace(c: char) { !IsWhitespace(c) }

  /** `re.sub('(\r\n|\r|\n)', ' ', s)`. */
  function ReplaceLineBreaks(s: string): string
    decreases |s|
  {
    if s == [] then []
    else if |s| >= 2 && s[0] == '\r' && s[1] == '\n' then " " + ReplaceLineBreaks(s[2..])
    else if s[0] == '\r' || s[0] == '\n' then " " + ReplaceLineBreaks(s[1..])
    else [s[0]] + ReplaceLineBreaks(s[1..])
  }

  /** The line-break rule changes nothing on a string without line breaks. */
  lemma {:induction false} ReplaceLineBreaksAbsent(s: string)
    requires forall i :: 0 <= i < |s| ==> s[i] != '\r' && s[i] != '\n'
    ensures ReplaceLineBreaks(s) == s
  {
    if s != [] {
      ReplaceLineBreaksAbsent(s[1..]);
    }
  }

  /** The input of the line-break rule: whitespace removed, then `"` and `|` replaced. */
  function BeforeLineBreaks(s: string): string {
    ReplaceChar(ReplaceChar(Filter(s, NotWhitespace), '"', "'"), '|', ";")
  }

  /** The six substitutions of `value_cleaning`, in order. */
  function CleanValue(s: string): string {
    Filter(ReplaceChar(ReplaceLineBreaks(BeforeLineBreaks(s)), '\\', "/"), IsAllowed)
  }

  /** What reaches the line-break rule has no whitespace, no `"` and no `|`, and is no longer
      than the input; so the line-break rule can never fire. */
  lemma BeforeLineBreaksFacts(s: string)
    ensures var b := BeforeLineBreaks(s);
      |b| <= |s| &&
      (forall i :: 0 <= i < |b| ==> !IsWhitespace(b[i]) && b[i] != '"' && b[i] != '|') &&
      ReplaceLineBreaks(b) == b
  {
    var f := Filter(s, NotWhitespace);
    ReplaceCharFacts(f, '"', '\'');
    var q := ReplaceChar(f, '"', "'");
    ReplaceCharFacts(q, '|', ';');
    ReplaceLineBreaksAbsent(BeforeLineBreaks(s));
  }

  /** `value_cleaning`: None raises; otherwise the output has no whitespace, no `"`, `|` or `\`,
      only allow-listed characters, and is never longer than the input. Character by character,
      it is the input without whitespace, each `"` turned into `'`, each `|` into `;` and each
      `\` into `/`, then without the characters outside the allow-list; so the ASCII
      alphanumerics all survive, in order. */
  function ValueCleaning(literal: Option<string>): (r: Result<string>)
    ensures literal.None? <==> r.Failure?
    ensures r.Success? ==> |r.value| <= |literal.value|
    ensures r.Success? ==> forall i :: 0 <= i < |r.value| ==>
      IsAllowed(r.value[i]) && !IsWhitespace(r.value[i]) &&
      r.value[i] != '"' && r.value[i] != '|' && r.value[i] != '\\'
    ensures r.Success? ==>
      r.value == Filter(MapUrlChars(Filter(literal.value, NotWhitespace)), IsAllowed)
    ensures r.Success? ==> Filter(r.value, IsAlnum) == Filter(literal.value, IsAlnum)
  {
    match literal
    case None => Failure("expected string or bytes-like object")
    case Some(s) =>
      CleanValueFacts(s);
      CleanValueCharwise(s);
      CleanValueKeepsAlnums(s);
      Success(CleanValue(s))
  }

  /** The three one-character conversions of `value_cleaning`. */
  function UrlChar(c: char): (d: char)
    ensures IsAlnum(d) <==> IsAlnum(c)
    ensures IsAlnum(c) ==> d == c
  {
    if c == '"' then '\'' else if c == '|' then ';' else if c == '\\' then '/' else c
  }

  /** `UrlChar` applied to every character. */
  function MapUrlChars(s: string): (r: string)
    ensures |r| == |s|
  {
    if s == [] then [] else [UrlChar(s[0])] + MapUrlChars(s[1..])
  }

  /** The three replacements in a row act character by character. */
  lemma {:induction false} ReplaceThree(s: string)
    ensures ReplaceChar(ReplaceChar(ReplaceChar(s, '"', "'"), '|', ";"), '\\', "/") == MapUrlChars(s)
  {
    if s != [] {
      ReplaceThree(s[1..]);
    }
  }

  /** `value_cleaning` is the per-character conversion of the input without whitespace, filtered
      by the allow-list. */
  lemma CleanValueCharwise(s: string)
    ensures CleanValue(s) == Filter(MapUrlChars(Filter(s, NotWhitespace)), IsAllowed)
  {
    BeforeLineBreaksFacts(s);
    ReplaceThree(Filter(s, NotWhitespace));
  }

  /** Filtering by a wider predicate first changes nothing. */
  lemma {:induction false} FilterNarrows(s: string, wide: char -> bool, narrow: char -> bool)
    requires forall i :: 0 <= i < |s| ==> narrow(s[i]) ==> wide(s[i])
    ensures Filter(Filter(s, wide), narrow) == Filter(s, narrow)
  {
    if s != [] {
      FilterNarrows(s[1..], wide, narrow);
      FilterAppend(if wide(s[0]) then [s[0]] else [], Filter(s[1..], wide), narrow);
    }
  }

  /** Converting characters keeps the alphanumerics in order. */
  lemma {:induction false} MapUrlCharsKeepsAlnums(s: string)
    ensures Filter(MapUrlChars(s), IsAlnum) == Filter(s, IsAlnum)
  {
    if s != [] {
      MapUrlCharsKeepsAlnums(s[1..]);
    }
  }

  /** Every ASCII alphanumeric is allowed and is not whitespace. */
  lemma AlnumAllowed(c: char)
    requires IsAlnum(c)
    ensures IsAllowed(c) && NotWhitespace(c)
  {
  }

  /** `value_cleaning` keeps the input's ASCII alphanumerics, in order. */
  lemma CleanValueKeepsAlnums(s: string)
    ensures Filter(CleanValue(s), IsAlnum) == Filter(s, IsAlnum)
  {
    CleanValueCharwise(s);
    var w := Filter(s, NotWhitespace);
    var m := MapUrlChars(w);
    forall i | 0 <= i < |m| ensures IsAlnum(m[i]) ==> IsAllowed(m[i]) {
      if IsAlnum(m[i]) { AlnumAllowed(m[i]); }
    }
    FilterNarrows(m, IsAllowed, IsAlnum);
    MapUrlCharsKeepsAlnums(w);
    forall i | 0 <= i < |s| ensures IsAlnum(s[i]) ==> NotWhitespace(s[i]) {
      if IsAlnum(s[i]) { AlnumAllowed(s[i]); }
    }
    FilterNarrows(s, NotWhitespace, IsAlnum);
  }

  lemma CleanValueFacts(s: string)
    ensures var r := CleanValue(s);
      |r| <= |s| &&
      forall i :: 0 <= i < |r| ==> IsAllowed(r[i]) && !IsWhitespace(r[i])
  {
    BeforeLineBreaksFacts(s);
    var b := BeforeLineBreaks(s);
    ReplaceCharFacts(b, '\\', '/');
    FilterKeepsNoWhitespace(ReplaceChar(b, '\\', "/"), IsAllowed);
  }

  /** Filtering a string without whitespace leaves none. */
  lemma FilterKeepsNoWhitespace(s: string, keep: char -> bool)
    requires forall i :: 0 <= i < |s| ==> !IsWhitespace(s[i])
    ensures var r := Filter(s, keep); forall i :: 0 <= i < |r| ==> !IsWhitespace(r[i])
  {
    var r := Filter(s, keep);
    forall i | 0 <= i < |r|
      ensures !IsWhitespace(r[i])
    {
      assert r[i] in s;
    }
  }

  /** Cleaning a cleaned value changes nothing. */
  lemma ValueCleaningIdempotent(s: string)
    ensures CleanValue(CleanValue(s)) == CleanValue(s)
  {
    var r := ValueCleaning(Some(s)).value;
    FilterIdentity(r, NotWhitespace);
    ReplaceCharAbsent(r, '"', "'");
    ReplaceCharAbsent(r, '|', ";");
    assert BeforeLineBreaks(r) == r;
    ReplaceLineBreaksAbsent(r);
    ReplaceCharAbsent(r, '\\', "/");
    FilterIdentity(r, IsAllowed);
  }
}
