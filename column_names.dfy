/** Column-name normalisation: three policy versions turning a table's header into names that
    avoid one another (as raw names) and the reserved system column names of PostgreSQL. */
module ColumnNames {
  import opened Text
  import opened NormalizationFunctions

  const IDENTIFIER_MAX_LENGTH := 63

  const RESERVED_COLUMN_NAMES: seq<string> := ["tableoid", "xmin", "cmin", "xmax", "cmax", "ctid"]

  /** Every reserved column name begins with a lower-case letter. */
  lemma ReservedStartWithLetter()
    ensures forall w :: w in RESERVED_COLUMN_NAMES ==> w != [] && IsLower(w[0])
  {
  }

  // ---------------------------------------------------------------------------------------------
  // avoid_collisions

  /** The numbered suffix `f"_{cnt}"`. */
  function Suffix(k: nat): (s: string)
    ensures |s| >= 2 && s[0] == '_' && AllDigits(s[1..])
  {
    "_" + NatToString(k)
  }

  /** The `k`-th name tried: `name[0:max_length-len(suffix)] + suffix`. */
  function Candidate(name: string, maxLength: int, k: nat): string {
    PyPrefix(name, maxLength - |Suffix(k)|) + Suffix(k)
  }

  /** The loop condition of `avoid_collisions`: the name is taken (exactly) or reserved (in lower
      case). */
  predicate Collides(n: string, existing: seq<string>, reserved: seq<string>) {
    n in existing || Lower(n) in reserved
  }

  /** `k` is the first suffix number whose candidate does not collide. */
  predicate FirstFree(name: string, existing: seq<string>, reserved: seq<string>, maxLength: int, k: nat) {
    1 <= k &&
    !Collides(Candidate(name, maxLength, k), existing, reserved) &&
    CollideBelow(name, existing, reserved, maxLength, k)
  }

  /** What `avoid_collisions(name, existing, reserved, max_length)` returns: the name itself when
      it is free, otherwise the candidate with the first free suffix number. */
  ghost predicate IsAvoidResult(r: string, name: string, existing: seq<string>, reserved: seq<string>,
                          maxLength: int) {
    if !Collides(name, existing, reserved) then r == name
    else exists k :: FirstFree(name, existing, reserved, maxLength, k) && r == Candidate(name, maxLength, k)
  }

  /** At most one suffix number is the first free one. */
  lemma FirstFreeUnique(name: string, existing: seq<string>, reserved: seq<string>, maxLength: int,
                        k1: nat, k2: nat)
    requires FirstFree(name, existing, reserved, maxLength, k1)
    requires FirstFree(name, existing, reserved, maxLength, k2)
    ensures k1 == k2
  {
  }

  /** The result of `avoid_collisions` is determined by its arguments. */
  lemma IsAvoidResultUnique(r1: string, r2: string, name: string, existing: seq<string>,
                            reserved: seq<string>, maxLength: int)
    requires IsAvoidResult(r1, name, existing, reserved, maxLength)
    requires IsAvoidResult(r2, name, existing, reserved, maxLength)
    ensures r1 == r2
  {
    if Collides(name, existing, reserved) {
      var k1: nat :| FirstFree(name, existing, reserved, maxLength, k1) && r1 == Candidate(name, maxLength, k1);
      var k2: nat :| FirstFree(name, existing, reserved, maxLength, k2) && r2 == Candidate(name, maxLength, k2);
      FirstFreeUnique(name, existing, reserved, maxLength, k1, k2);
    }
  }

  /** A suffix's characters are all left alone by lower-casing. */
  lemma SuffixLower(k: nat)
    ensures Lower(Suffix(k)) == Suffix(k)
  {
    var s := Suffix(k);
    assert forall i :: 1 <= i < |s| ==> s[i] == s[1..][i - 1];
  }

  /** Two candidates with suffixes of different lengths differ in lower case: where the shorter
      suffix puts its `_`, the longer one has a digit. */
  lemma CandidatesDifferLongerSuffix(name: string, maxLength: int, j: nat, k: nat)
    requires |Suffix(j)| < |Suffix(k)|
    ensures Lower(Candidate(name, maxLength, j)) != Lower(Candidate(name, maxLength, k))
  {
    var sj, sk := Suffix(j), Suffix(k);
    var pj, pk := PyPrefix(name, maxLength - |sj|), PyPrefix(name, maxLength - |sk|);
    var cj, ck := pj + sj, pk + sk;
    if |cj| == |ck| {
      var p := |pj|;
      var q := p - |pk|;
      assert 1 <= q < |sk|;
      assert cj[p] == sj[0] == '_';
      assert ck[p] == sk[q] == sk[1..][q - 1];
      assert IsDigit(ck[p]);
      assert Lower(cj)[p] != Lower(ck)[p];
    }
  }

  /** Distinct suffix numbers give candidates that differ even in lower case, so the loop never
      tries the same name, or the same reserved word, twice. */
  lemma CandidatesDifferInCase(name: string, maxLength: int, j: nat, k: nat)
    requires j != k
    ensures Lower(Candidate(name, maxLength, j)) != Lower(Candidate(name, maxLength, k))
  {
    var sj, sk := Suffix(j), Suffix(k);
    if |sj| < |sk| {
      CandidatesDifferLongerSuffix(name, maxLength, j, k);
    } else if |sk| < |sj| {
      CandidatesDifferLongerSuffix(name, maxLength, k, j);
    } else {
      var p := PyPrefix(name, maxLength - |sj|);
      var cj, ck := p + sj, p + sk;
      if NatToString(j) == NatToString(k) {
        NatToStringInjective(j, k);
      }
      assert sj[1..] != sk[1..];
      assert sj != sk;
      var i :| 0 <= i < |sj| && sj[i] != sk[i];
      SuffixLower(j);
      SuffixLower(k);
      LowerAppend(p, sj);
      LowerAppend(p, sk);
      assert Lower(cj)[|p| + i] == sj[i];
      assert Lower(ck)[|p| + i] == sk[i];
    }
  }

  function SetOf(s: seq<string>): set<string> {
    set x | x in s
  }

  lemma {:induction false} SetOfCard(s: seq<string>)
    ensures |SetOf(s)| <= |s|
  {
    if s != [] {
      var init := s[..|s| - 1];
      SetOfCard(init);
      assert SetOf(s) == SetOf(init) + {s[|s| - 1]};
      if s[|s| - 1] in SetOf(init) {
        assert SetOf(s) == SetOf(init);
      }
    }
  }

  /** Removing one more element that was present shrinks a difference by one. */
  lemma DiffCard(a: set<string>, s: set<string>, c: string)
    requires c in a && c !in s
    ensures |a - (s + {c})| == |a - s| - 1
  {
    var x := a - (s + {c});
    assert a - s == x + {c};
    assert c !in x;
  }

  lemma DiffSub(a: set<string>, s: set<string>, c: string)
    ensures |a - (s + {c})| <= |a - s|
  {
    if c in a && c !in s {
      DiffCard(a, s, c);
    } else {
      assert a - (s + {c}) == a - s;
    }
  }

  /** Every candidate numbered below `n` collides. */
  predicate CollideBelow(name: string, existing: seq<string>, reserved: seq<string>, maxLength: int, n: int) {
    forall j :: 1 <= j < n ==> Collides(Candidate(name, maxLength, j), existing, reserved)
  }

  lemma CollideBelowExtend(name: string, existing: seq<string>, reserved: seq<string>, maxLength: int, n: nat)
    requires CollideBelow(name, existing, reserved, maxLength, n)
    requires Collides(Candidate(name, maxLength, n), existing, reserved)
    ensures CollideBelow(name, existing, reserved, maxLength, n + 1)
  {
  }

  /** No candidate numbered `from` or more lower-cases to a word in `lows`. */
  ghost predicate LaterCandidatesAvoid(name: string, maxLength: int, lows: set<string>, from: int) {
    forall l, k :: l in lows && from <= k ==> Lower(Candidate(name, maxLength, k)) != l
  }

  /** One rejected candidate: it is new, it uses up an existing name or a reserved word, and the
      candidates after it avoid it in lower case. */
  lemma RejectCandidate(name: string, existing: seq<string>, reserved: seq<string>, maxLength: int,
                        cnt: nat, seen: set<string>, lows: set<string>)
    requires 1 < cnt
    requires Collides(Candidate(name, maxLength, cnt - 1), existing, reserved)
    requires forall c :: c in seen ==> Lower(c) in lows
    requires LaterCandidatesAvoid(name, maxLength, lows, cnt - 1)
    ensures var c := Candidate(name, maxLength, cnt - 1);
      c !in seen &&
      LaterCandidatesAvoid(name, maxLength, lows + {Lower(c)}, cnt) &&
      |SetOf(existing) - (seen + {c})| + |SetOf(reserved) - (lows + {Lower(c)})| + 1 <=
      |SetOf(existing) - seen| + |SetOf(reserved) - lows|
  {
    var c := Candidate(name, maxLength, cnt - 1);
    var E, R := SetOf(existing), SetOf(reserved);
    assert Lower(c) !in lows;
    forall l, k | l in lows + {Lower(c)} && cnt <= k
      ensures Lower(Candidate(name, maxLength, k)) != l
    {
      if l == Lower(c) {
        CandidatesDifferInCase(name, maxLength, k, cnt - 1);
      }
    }
    if c in existing {
      DiffCard(E, seen, c);
      DiffSub(R, lows, Lower(c));
    } else {
      assert c !in E && Lower(c) in R;
      assert E - (seen + {c}) == E - seen;
      DiffCard(R, lows, Lower(c));
    }
  }

  /** The loop invariant of `avoid_collisions` after trying the names numbered below `cnt`
      (the name itself counts as number 0): `seen` holds the rejected candidates and `lows` their
      lower-case forms. */
  ghost predicate AvoidLoopInvariant(name: string, existing: seq<string>, reserved: seq<string>,
                                     maxLength: int, cnt: int, newName: string,
                                     seen: set<string>, lows: set<string>) {
    1 <= cnt &&
    (cnt == 1 ==> newName == name) &&
    (cnt > 1 ==> newName == Candidate(name, maxLength, cnt - 1) && Collides(name, existing, reserved)) &&
    CollideBelow(name, existing, reserved, maxLength, cnt - 1) &&
    (forall c :: c in seen ==> Lower(c) in lows) &&
    LaterCandidatesAvoid(name, maxLength, lows, cnt - 1) &&
    cnt <= |seen| + 2 &&
    |SetOf(existing) - seen| + |SetOf(reserved) - lows| + |seen| <= |SetOf(existing)| + |SetOf(reserved)|
  }

  /** How many more names the loop can reject. */
  ghost function AvoidLoopMeasure(existing: seq<string>, reserved: seq<string>, cnt: int,
                                  seen: set<string>, lows: set<string>): nat {
    |SetOf(existing) - seen| + |SetOf(reserved) - lows| + (if cnt == 1 then 1 else 0)
  }

  /** The invariant holds before the first turn, with nothing rejected yet. */
  lemma AvoidLoopStart(name: string, existing: seq<string>, reserved: seq<string>, maxLength: int)
    ensures AvoidLoopInvariant(name, existing, reserved, maxLength, 1, name, {}, {})
  {
  }

  /** One turn of the loop keeps the invariant and uses up one name or word; `seen'` and `lows'`
      are the bookkeeping after it. */
  lemma AvoidLoopStep(name: string, existing: seq<string>, reserved: seq<string>, maxLength: int,
                      cnt: int, newName: string, seen: set<string>, lows: set<string>)
    returns (seen': set<string>, lows': set<string>)
    requires AvoidLoopInvariant(name, existing, reserved, maxLength, cnt, newName, seen, lows)
    requires Collides(newName, existing, reserved)
    ensures AvoidLoopInvariant(name, existing, reserved, maxLength, cnt + 1, Candidate(name, maxLength, cnt), seen', lows')
    ensures AvoidLoopMeasure(existing, reserved, cnt + 1, seen', lows') < AvoidLoopMeasure(existing, reserved, cnt, seen, lows)
  {
    seen', lows' := seen, lows;
    if cnt > 1 {
      seen', lows' := seen + {newName}, lows + {Lower(newName)};
      RejectCandidate(name, existing, reserved, maxLength, cnt, seen, lows);
      CollideBelowExtend(name, existing, reserved, maxLength, cnt - 1);
    }
  }

  /** `avoid_collisions`. The loop ends because every candidate it rejects uses up a distinct
      existing name or a distinct reserved word, so it stops by suffix `|existing| + |reserved| + 1`. */
  method AvoidCollisions(name: string, existing: seq<string>, reserved: seq<string>, maxLength: int)
    returns (newName: string)
    ensures !Collides(newName, existing, reserved)
    ensures IsAvoidResult(newName, name, existing, reserved, maxLength)
    ensures |name| <= maxLength && |Suffix(|existing| + |reserved| + 1)| <= maxLength ==>
      |newName| <= maxLength
  {
    var cnt := 1;
    newName := name;
    ghost var seen: set<string>, lows: set<string> := {}, {};
    AvoidLoopStart(name, existing, reserved, maxLength);
    while newName in existing || Lower(newName) in reserved
      invariant AvoidLoopInvariant(name, existing, reserved, maxLength, cnt, newName, seen, lows)
      decreases AvoidLoopMeasure(existing, reserved, cnt, seen, lows)
    {
      seen, lows := AvoidLoopStep(name, existing, reserved, maxLength, cnt, newName, seen, lows);
      newName := Candidate(name, maxLength, cnt);
      cnt := cnt + 1;
    }
    AvoidLoopExit(name, existing, reserved, maxLength, cnt, newName, seen, lows);
  }

  /** What holds when the loop of `avoid_collisions` stops after trying suffixes below `cnt`. */
  lemma AvoidLoopExit(name: string, existing: seq<string>, reserved: seq<string>, maxLength: int,
                      cnt: int, newName: string, seen: set<string>, lows: set<string>)
    requires AvoidLoopInvariant(name, existing, reserved, maxLength, cnt, newName, seen, lows)
    requires !Collides(newName, existing, reserved)
    ensures IsAvoidResult(newName, name, existing, reserved, maxLength)
    ensures !Collides(name, existing, reserved) ==> newName == name
    ensures Collides(name, existing, reserved) ==>
      exists k :: 1 <= k <= |existing| + |reserved| + 1 && newName == Candidate(name, maxLength, k)
    ensures |name| <= maxLength && |Suffix(|existing| + |reserved| + 1)| <= maxLength ==>
      |newName| <= maxLength
  {
    if cnt > 1 {
      var k := cnt - 1;
      assert FirstFree(name, existing, reserved, maxLength, k);
      SetOfCard(existing);
      SetOfCard(reserved);
      assert k <= |existing| + |reserved| + 1;
      NatToStringMonotone(k, |existing| + |reserved| + 1);
    }
  }

  // ---------------------------------------------------------------------------------------------
  // reserved_or_unsupported, sanitize_name

  /** The pattern `^[a-zA-Z_]`. */
  predicate StartsWithLetterOrUnderscore(s: string) {
    s != [] && (IsLetter(s[0]) || s[0] == '_')
  }

  /** `reserved_or_unsupported`: a reserved name in any case, or a name starting with a letter or
      an underscore. */
  predicate ReservedOrUnsupported(name: string) {
    Lower(name) in RESERVED_COLUMN_NAMES || StartsWithLetterOrUnderscore(name)
  }

  /** `transliteration(name, get_available_language_codes())`: every available language in turn. */
  function TransliteratedName(name: string, t: Transliterator): string {
    Transliterated(name, name, t.available, DEFAULT_TARGET_LANG, t)
  }

  /** `sanitize_name`: the transliterated name, with a leading `_` when it is reserved or
      unsupported. The result never begins with a letter and is never a reserved word. */
  function SanitizeName(name: string, t: Transliterator): (r: string)
    ensures var n := TransliteratedName(name, t);
      |n| <= |r| && r[|r| - |n|..] == n && (|r| == |n| + 1 <==> ReservedOrUnsupported(n)) &&
      (|r| == |n| + 1 ==> r[0] == '_') && (|r| == |n| ==> r == n) &&
      |r| <= |n| + 1 && (!ReservedOrUnsupported(n) ==> r == n)
    ensures r == [] || !IsLetter(r[0])
    ensures Lower(r) !in RESERVED_COLUMN_NAMES
  {
    var n := TransliteratedName(name, t);
    ReservedStartWithLetter();
    if ReservedOrUnsupported(n) then
      assert Lower("_" + n)[0] == '_';
      "_" + n
    else n
  }

  // ---------------------------------------------------------------------------------------------
  // The name each version proposes before collision avoidance

  /** `re.sub('_{2,}', '_', s)`: every run of underscores becomes one. */
  function CollapseUnderscores(s: string): (r: string)
    ensures |r| <= |s|
    ensures s != [] ==> r != [] && r[0] == s[0]
  {
    if |s| < 2 then s
    else if s[0] == '_' && s[1] == '_' then CollapseUnderscores(s[1..])
    else [s[0]] + CollapseUnderscores(s[1..])
  }

  predicate NoDoubleUnderscore(s: string) {
    forall i :: 0 <= i < |s| - 1 ==> !(s[i] == '_' && s[i + 1] == '_')
  }

  /** Collapsing leaves no two adjacent underscores, and changes exactly the strings that have
      some. */
  lemma {:induction false} CollapseUnderscoresFacts(s: string)
    ensures NoDoubleUnderscore(CollapseUnderscores(s))
    ensures CollapseUnderscores(s) == s <==> NoDoubleUnderscore(s)
  {
    if |s| >= 2 {
      CollapseUnderscoresFacts(s[1..]);
      var r := CollapseUnderscores(s);
      var t := CollapseUnderscores(s[1..]);
      if s[0] == '_' && s[1] == '_' {
        assert |r| < |s|;
      } else {
        assert r == [s[0]] + t;
        assert forall i :: 1 <= i < |r| ==> r[i] == t[i - 1];
        assert r[1] == s[1];
        assert forall i :: 1 <= i < |s| ==> s[i] == s[1..][i - 1];
        if NoDoubleUnderscore(s) {
          assert NoDoubleUnderscore(s[1..]);
        }
        if r == s {
          assert t == s[1..];
        }
      }
    }
  }

  /** `re.sub('[^a-z0-9]', '_', s)`. */
  function UnderscoreOthers(s: string): (r: string)
    ensures |r| == |s|
    ensures forall i :: 0 <= i < |r| ==> IsV1Char(r[i]) && (IsV1Char(s[i]) && s[i] != '_' ==> r[i] == s[i])
    ensures forall i :: 0 <= i < |r| ==> !(IsLower(s[i]) || IsDigit(s[i])) ==> r[i] == '_'
  {
    seq(|s|, i requires 0 <= i < |s| => if IsLower(s[i]) || IsDigit(s[i]) then s[i] else '_')
  }

  /** The characters a version-1 name is made of: `[a-z0-9_]`. */
  predicate IsV1Char(c: char) {
    IsLower(c) || IsDigit(c) || c == '_'
  }

  predicate AllV1Chars(s: string) {
    forall i :: 0 <= i < |s| ==> IsV1Char(s[i])
  }

  lemma {:induction false} CollapseKeepsV1Chars(s: string)
    requires AllV1Chars(s)
    ensures AllV1Chars(CollapseUnderscores(s))
  {
    if |s| >= 2 {
      assert AllV1Chars(s[1..]);
      CollapseKeepsV1Chars(s[1..]);
    }
  }

  const UNTITLED_COLUMN := "untitled_column"

  /** Version 1 before the `column_` prefix: whitespace runs become single spaces, every character
      outside `[a-z0-9]` becomes `_` (upper-case letters included), underscore runs collapse. */
  function Version1Body(c: string): (u: string)
    ensures AllV1Chars(u)
  {
    var u := CollapseUnderscores(UnderscoreOthers(Join(Words(c), " ")));
    CollapseKeepsV1Chars(UnderscoreOthers(Join(Words(c), " ")));
    u
  }

  /** Version 1 before collision avoidance: an empty name becomes `untitled_column`, and a name
      starting with `[a-z_]` after substitution gets the prefix `column_`. */
  function Version1Name(c: string): (r: string)
    ensures AllV1Chars(r)
    ensures r == [] || IsDigit(r[0]) || (|r| > 7 && r[..7] == "column_")
    ensures var u := Version1Body(if c == "" then UNTITLED_COLUMN else c);
      |u| <= |r| && r[|r| - |u|..] == u &&
      (|r| > |u| <==> u != [] && (IsLower(u[0]) || u[0] == '_')) &&
      (|r| > |u| ==> |r| == |u| + 7 && r[..7] == "column_")
  {
    WithColumnPrefix(Version1Body(if c == "" then UNTITLED_COLUMN else c))
  }

  /** The `column_` rule on a substituted name `u`: prefixed exactly when it starts with `[a-z_]`. */
  function WithColumnPrefix(u: string): (r: string)
    requires AllV1Chars(u)
    ensures AllV1Chars(r)
    ensures r == [] || IsDigit(r[0]) || (|r| > 7 && r[..7] == "column_")
    ensures |u| <= |r| && r[|r| - |u|..] == u
    ensures |r| > |u| <==> u != [] && (IsLower(u[0]) || u[0] == '_')
    ensures |r| > |u| ==> |r| == |u| + 7 && r[..7] == "column_"
  {
    if u != [] && (IsLower(u[0]) || u[0] == '_') then
      var r := "column_" + u;
      assert r[..7] == "column_";
      assert forall i :: 7 <= i < |r| ==> r[i] == u[i - 7];
      assert r[|r| - |u|..] == u;
      r
    else u
  }

  /** Version 2 before collision avoidance: sanitized, underscore runs collapsed, cut to 63. */
  function Version2Name(c: string, t: Transliterator): (r: string)
    ensures |r| <= IDENTIFIER_MAX_LENGTH
    ensures r == [] || !IsLetter(r[0])
    ensures NoDoubleUnderscore(r)
    ensures var s := CollapseUnderscores(SanitizeName(c, t));
      r <= s && |r| == (if |s| < IDENTIFIER_MAX_LENGTH then |s| else IDENTIFIER_MAX_LENGTH)
  {
    var n := SanitizeName(c, t);
    var s := CollapseUnderscores(n);
    CollapseUnderscoresFacts(n);
    CutKeepsShape(s, IDENTIFIER_MAX_LENGTH);
    PyPrefix(s, IDENTIFIER_MAX_LENGTH)
  }

  /** Cutting a name to a length keeps its first character and adds no double underscore. */
  lemma CutKeepsShape(s: string, stop: int)
    ensures var p := PyPrefix(s, stop); p != [] ==> p[0] == s[0]
    ensures NoDoubleUnderscore(s) ==> NoDoubleUnderscore(PyPrefix(s, stop))
  {
  }

  /** Version 3 before collision avoidance: sanitized, hyphens turned into underscores, cut to
      63. */
  function Version3Name(c: string, t: Transliterator): (r: string)
    ensures |r| <= IDENTIFIER_MAX_LENGTH
    ensures r == [] || !IsLetter(r[0])
    ensures forall i :: 0 <= i < |r| ==> r[i] != '-'
    ensures var s := ReplaceChar(SanitizeName(c, t), '-', "_");
      r <= s && |r| == (if |s| < IDENTIFIER_MAX_LENGTH then |s| else IDENTIFIER_MAX_LENGTH)
  {
    var n := SanitizeName(c, t);
    ReplaceCharFacts(n, '-', '_');
    PyPrefix(ReplaceChar(n, '-', "_"), IDENTIFIER_MAX_LENGTH)
  }

  /** The names of a header other than `c`, in order: `[name for name in column_names if name != c]`. */
  function Others(names: seq<string>, c: string): (r: seq<string>)
    ensures |r| <= |names|
    ensures forall x :: x in r <==> x in names && x != c
  {
    if names == [] then []
    else (if names[0] != c then [names[0]] else []) + Others(names[1..], c)
  }

  /** The name a known version proposes for `c`, before collision avoidance. */
  function ProposedName(c: string, version: int, t: Transliterator): string
    requires 1 <= version <= 3
  {
    if version == 1 then Version1Name(c)
    else if version == 2 then Version2Name(c, t)
    else Version3Name(c, t)
  }

  /** The words a version avoids besides the other names: none for version 1. */
  function ReservedWords(version: int): seq<string> {
    if version == 1 then [] else RESERVED_COLUMN_NAMES
  }

  /** What `column_name_normalization` puts in place of a header entry `c`. */
  ghost predicate IsNormalizedName(r: string, c: string, names: seq<string>, version: int, t: Transliterator) {
    if 1 <= version <= 3 then
      IsAvoidResult(r, ProposedName(c, version, t), Others(names, c), ReservedWords(version),
                    IDENTIFIER_MAX_LENGTH)
    else r == c
  }

  /** A whole normalised header. */
  ghost predicate IsNormalizedHeader(r: seq<string>, names: seq<string>, version: int, t: Transliterator) {
    |r| == |names| && forall i :: 0 <= i < |names| ==> IsNormalizedName(r[i], names[i], names, version, t)
  }

  /** A candidate built from a `[a-z0-9_]` name is made of `[a-z0-9_]`. */
  lemma CandidateV1Chars(name: string, maxLength: int, k: nat)
    requires AllV1Chars(name)
    ensures AllV1Chars(Candidate(name, maxLength, k))
  {
    var p, s := PyPrefix(name, maxLength - |Suffix(k)|), Suffix(k);
    assert AllV1Chars(p);
    assert AllV1Chars(s) by {
      assert forall i :: 1 <= i < |s| ==> s[i] == s[1..][i - 1];
    }
    var r := p + s;
    assert forall i :: |p| <= i < |r| ==> r[i] == s[i - |p|];
  }

  /** Every version-1 outcome is made of `[a-z0-9_]`. */
  lemma AvoidResultV1Chars(r: string, name: string, existing: seq<string>, reserved: seq<string>,
                           maxLength: int)
    requires AllV1Chars(name) && IsAvoidResult(r, name, existing, reserved, maxLength)
    ensures AllV1Chars(r)
  {
    if Collides(name, existing, reserved) {
      var k: nat :| FirstFree(name, existing, reserved, maxLength, k) && r == Candidate(name, maxLength, k);
      CandidateV1Chars(name, maxLength, k);
    }
  }

  /** The body of the loop of `column_name_normalization`, for one header entry `c`. */
  method NormalizeName(c: string, names: seq<string>, version: int, t: Transliterator)
    returns (columnName: string)
    ensures IsNormalizedName(columnName, c, names, version, t)
    ensures 1 <= version <= 3 ==> !Collides(columnName, Others(names, c), ReservedWords(version))
    ensures version == 1 ==> AllV1Chars(columnName)
    ensures (version == 2 || version == 3) && |names| < Pow10(61) ==> |columnName| <= IDENTIFIER_MAX_LENGTH
  {
    var existing := Others(names, c);
    if 1 <= version <= 3 {
      var proposed := ProposedName(c, version, t);
      columnName := AvoidCollisions(proposed, existing, ReservedWords(version), IDENTIFIER_MAX_LENGTH);
      if version == 1 {
        AvoidResultV1Chars(columnName, proposed, existing, [], IDENTIFIER_MAX_LENGTH);
      } else if |names| < Pow10(61) {
        var bound := |existing| + |RESERVED_COLUMN_NAMES| + 1;
        assert bound < Pow10(62);
        NatToStringBelowPow10(bound, 62);
      }
    } else {
      columnName := c;
    }
  }

  /** What the loop of `column_name_normalization` has established for one output name. */
  ghost predicate NameOutcome(r: string, c: string, names: seq<string>, version: int, t: Transliterator) {
    IsNormalizedName(r, c, names, version, t) &&
    (1 <= version <= 3 ==> !Collides(r, Others(names, c), ReservedWords(version))) &&
    (version == 1 ==> AllV1Chars(r)) &&
    ((version == 2 || version == 3) && |names| < Pow10(61) ==> |r| <= IDENTIFIER_MAX_LENGTH)
  }

  /** A normalised header is a function of the raw header: equal entries get equal names. */
  lemma NormalizedHeaderFunctional(r: seq<string>, names: seq<string>, version: int, t: Transliterator)
    requires IsNormalizedHeader(r, names, version, t)
    ensures forall i, j :: 0 <= i < |names| && 0 <= j < |names| && names[i] == names[j] ==> r[i] == r[j]
  {
    forall i, j | 0 <= i < |names| && 0 <= j < |names| && names[i] == names[j]
      ensures r[i] == r[j]
    {
      if 1 <= version <= 3 {
        IsAvoidResultUnique(r[i], r[j], ProposedName(names[i], version, t), Others(names, names[i]),
                            ReservedWords(version), IDENTIFIER_MAX_LENGTH);
      }
    }
  }

  /** `column_name_normalization`: each entry is normalised against the other raw entries, so
      equal entries stay equal. */
  method ColumnNameNormalization(names: seq<string>, version: int, t: Transliterator)
    returns (r: seq<string>)
    ensures IsNormalizedHeader(r, names, version, t)
    ensures forall i, j :: 0 <= i < |names| && 0 <= j < |names| && names[i] == names[j] ==> r[i] == r[j]
    ensures !(1 <= version <= 3) ==> r == names
    ensures 1 <= version <= 3 ==> forall i :: 0 <= i < |r| ==> !Collides(r[i], Others(names, names[i]), ReservedWords(version))
    ensures version == 1 ==> forall i :: 0 <= i < |r| ==> AllV1Chars(r[i])
    ensures (version == 2 || version == 3) && |names| < Pow10(61) ==>
      forall i :: 0 <= i < |r| ==> |r[i]| <= IDENTIFIER_MAX_LENGTH
  {
    r := [];
    for i := 0 to |names|
      invariant |r| == i
      invariant forall k :: 0 <= k < i ==> NameOutcome(r[k], names[k], names, version, t)
    {
      var columnName := NormalizeName(names[i], names, version, t);
      r := r + [columnName];
    }
    NormalizedHeaderFunctional(r, names, version, t);
  }
}

module ColumnNameExamples {
  import opened Text
  import opened NormalizationFunctions
  import opened ColumnNames

  /** A single word is split into itself. */
  lemma WordsOfWord(s: string)
    requires s != [] && forall i :: 0 <= i < |s| ==> !IsWhitespace(s[i])
    ensures Words(s) == [s]
  {
    assert TrimLeft(s) == s;
    FirstWordOfWord(s);
    assert s[|s|..] == [];
  }

  lemma {:induction false} FirstWordOfWord(s: string)
    requires forall i :: 0 <= i < |s| ==> !IsWhitespace(s[i])
    ensures FirstWord(s) == s
  {
    if s != [] {
      FirstWordOfWord(s[1..]);
    }
  }

  /** A name already made of `[a-z0-9_]` without double underscores or whitespace passes the
      version-1 substitutions unchanged. */
  lemma Version1BodyKeeps(s: string)
    requires s != [] && AllV1Chars(s) && NoDoubleUnderscore(s)
    ensures Version1Body(s) == s
  {
    WordsOfWord(s);
    assert UnderscoreOthers(s) == s;
    CollapseUnderscoresFacts(s);
  }

  lemma UntitledFacts()
    ensures UNTITLED_COLUMN != [] && AllV1Chars(UNTITLED_COLUMN) && NoDoubleUnderscore(UNTITLED_COLUMN)
  {
  }

  lemma Version1OfEmpty()
    ensures Version1Name("") == "column_untitled_column"
  {
    UntitledFacts();
    Version1BodyKeeps(UNTITLED_COLUMN);
    var u := Version1Body(UNTITLED_COLUMN);
    assert u[0] == 'u';
    assert Version1Name("") == "column_" + u;
    ColumnUntitled();
  }

  lemma ColumnUntitled()
    ensures "column_" + UNTITLED_COLUMN == "column_untitled_column"
  {
    var a, b := "column_" + UNTITLED_COLUMN, "column_untitled_column";
    assert |a| == |b|;
    forall i | 0 <= i < |a|
      ensures a[i] == b[i]
    {
    }
  }

  /** A proposed name that collides with nothing is kept. */
  lemma FreeNameKept(r: string, name: string, existing: seq<string>, reserved: seq<string>, maxLength: int)
    requires name !in existing && Lower(name) !in reserved
    requires IsAvoidResult(r, name, existing, reserved, maxLength)
    ensures r == name
  {
  }

  /** An empty header entry becomes `column_untitled_column` under version 1, unless another entry
      already has that name. */
  lemma EmptyNameVersion1(r: string, names: seq<string>, t: Transliterator)
    requires "column_untitled_column" !in names
    requires IsNormalizedName(r, "", names, 1, t)
    ensures r == "column_untitled_column"
  {
    Version1OfEmpty();
    FreeNameKept(r, "column_untitled_column", Others(names, ""), [], IDENTIFIER_MAX_LENGTH);
  }

  lemma Version1OfCapital(c: string)
    requires c == "A" || c == "B"
    ensures Version1Name(c) == "column__"
  {
    WordsOfWord(c);
    assert Join([c], " ") == c;
    assert UnderscoreOthers(c) == "_";
    assert CollapseUnderscores("_") == "_";
  }

  /** Version 1 turns upper-case letters into underscores instead of lower-casing them, and
      compares each entry only with the other raw entries: the header ["A", "B"] becomes two equal
      names. */
  lemma Version1Repeats(r: seq<string>, t: Transliterator)
    requires IsNormalizedHeader(r, ["A", "B"], 1, t)
    ensures r == ["column__", "column__"]
  {
    var names := ["A", "B"];
    assert IsNormalizedName(r[0], names[0], names, 1, t);
    assert IsNormalizedName(r[1], names[1], names, 1, t);
    Version1Entry(r[0], names[0], names, t);
    Version1Entry(r[1], names[1], names, t);
  }

  /** One entry of the header ["A", "B"] under version 1. */
  lemma Version1Entry(x: string, c: string, names: seq<string>, t: Transliterator)
    requires names == ["A", "B"] && c in names
    requires IsNormalizedName(x, c, names, 1, t)
    ensures x == "column__"
  {
    Version1OfCapital(c);
    FreeNameKept(x, "column__", Others(names, c), [], IDENTIFIER_MAX_LENGTH);
  }

  /** Every available language's `translit` leaves `name` as it is (as for a plain ASCII name). */
  predicate TranslitKeeps(t: Transliterator, name: string) {
    forall lang :: lang in t.available ==> t.translit(name, lang) == name
  }

  /** Chaining transliterations that each leave `text` alone leaves it alone. */
  lemma {:induction false} ChainKeeps(text: string, langs: seq<string>, t: Transliterator)
    requires forall i :: 0 <= i < |langs| ==> t.translit(text, langs[i]) == text
    ensures TranslitChain(text, langs, t.translit) == text
    decreases |langs|
  {
    if langs != [] {
      assert forall i :: 0 <= i < |langs[1..]| ==> langs[1..][i] == langs[i + 1];
      ChainKeeps(text, langs[1..], t);
    }
  }

  /** A name that every language's `translit` leaves alone is its own transliteration. */
  lemma KeptName(name: string, t: Transliterator)
    requires TranslitKeeps(t, name)
    ensures TransliteratedName(name, t) == name
  {
    TransliteratedAllAvailable(name, name, t.available, DEFAULT_TARGET_LANG, t);
    ChainKeeps(name, t.available, t);
  }

  lemma SanitizeLetterName(c: string, t: Transliterator)
    requires TranslitKeeps(t, c) && c != [] && IsLetter(c[0])
    ensures SanitizeName(c, t) == "_" + c
  {
    KeptName(c, t);
    assert StartsWithLetterOrUnderscore(c);
  }

  /** Of two adjacent underscores, collapsing keeps the same result when one is dropped. */
  lemma {:induction false} CollapseDropsDouble(x: string, y: string)
    requires x != [] && x[|x| - 1] == '_' && y != [] && y[0] == '_'
    ensures CollapseUnderscores(x + y) == CollapseUnderscores(x + y[1..])
  {
    if |x| == 1 {
      assert x + y[1..] == y;
    } else {
      CollapseDropsDouble(x[1..], y);
      assert (x + y)[1..] == x[1..] + y;
      assert (x + y[1..])[1..] == x[1..] + y[1..];
    }
  }

  lemma CollapseExamples()
    ensures CollapseUnderscores("_a__b") == "_a_b"
    ensures CollapseUnderscores("_a_b") == "_a_b"
  {
    CollapseUnderscoresFacts("_a_b");
    var x, y := "_a_", "_b";
    CollapseDropsDouble(x, y);
    assert x + y == "_a__b" && x + y[1..] == "_a_b";
  }

  lemma UnderscorePrefixed(c: string)
    requires c == "a__b" || c == "a_b"
    ensures "_" + c == if c == "a__b" then "_a__b" else "_a_b"
  {
    var a, b := "_" + c, if c == "a__b" then "_a__b" else "_a_b";
    assert |a| == |b|;
    forall i | 0 <= i < |a|
      ensures a[i] == b[i]
    {
    }
  }

  lemma Version2OfUnderscored(c: string, t: Transliterator)
    requires TranslitKeeps(t, c)
    requires c == "a__b" || c == "a_b"
    ensures Version2Name(c, t) == "_a_b"
  {
    SanitizeLetterName(c, t);
    CollapseExamples();
    var sanitized := SanitizeName(c, t);
    UnderscorePrefixed(c);
    var collapsed := CollapseUnderscores(sanitized);
    assert collapsed == "_a_b";
    assert Version2Name(c, t) == PyPrefix(collapsed, IDENTIFIER_MAX_LENGTH);
  }

  /** Version 2 compares each entry with the other raw entries, not with their normalised forms:
      "a__b" and "a_b" both become "_a_b". */
  lemma Version2Repeats(r: seq<string>, t: Transliterator)
    requires TranslitKeeps(t, "a__b") && TranslitKeeps(t, "a_b")
    requires IsNormalizedHeader(r, ["a__b", "a_b"], 2, t)
    ensures r == ["_a_b", "_a_b"]
  {
    var names := ["a__b", "a_b"];
    assert IsNormalizedName(r[0], names[0], names, 2, t);
    assert IsNormalizedName(r[1], names[1], names, 2, t);
    Version2Entry(r[0], names[0], names, t);
    Version2Entry(r[1], names[1], names, t);
  }

  /** One entry of the header ["a__b", "a_b"] under version 2. */
  lemma Version2Entry(x: string, c: string, names: seq<string>, t: Transliterator)
    requires TranslitKeeps(t, "a__b") && TranslitKeeps(t, "a_b")
    requires names == ["a__b", "a_b"] && c in names
    requires IsNormalizedName(x, c, names, 2, t)
    ensures x == "_a_b"
  {
    Version2OfUnderscored(c, t);
    assert Lower("_a_b") == "_a_b";
    FreeNameKept(x, "_a_b", Others(names, c), RESERVED_COLUMN_NAMES, IDENTIFIER_MAX_LENGTH);
  }
}
