/** SemVer 2.0.0 versions as the release tooling reads, compares and accepts them. */
module SemVer {
  import opened Options
  import opened Text

  // ---- the grammar of the version pattern ----

  predicate IsIdentChar(c: char) {
    IsDigit(c) || 'a' <= c <= 'z' || 'A' <= c <= 'Z' || c == '-'
  }

  predicate AllDigits(s: string) {
    s != [] && forall i :: 0 <= i < |s| ==> IsDigit(s[i])
  }

  /** `0` or a digit string without a leading zero. */
  predicate IsNumeric(s: string) { AllDigits(s) && (s[0] == '0' ==> |s| == 1) }

  predicate IsBuildIdent(s: string) {
    s != [] && forall i :: 0 <= i < |s| ==> IsIdentChar(s[i])
  }

  /** A pre-release identifier: numeric, or alphanumeric with at least one non-digit. */
  predicate IsPreIdent(s: string) {
    IsNumeric(s) || (IsBuildIdent(s) && !AllDigits(s))
  }

  /** Everything the pattern captures; the source keeps all but the build metadata. */
  datatype Version = Version(major: string, minor: string, patch: string, prerelease: seq<string>, build: seq<string>)

  predicate WellFormed(v: Version) {
    && IsNumeric(v.major) && IsNumeric(v.minor) && IsNumeric(v.patch)
    && (forall i :: 0 <= i < |v.prerelease| ==> IsPreIdent(v.prerelease[i]))
    && (forall i :: 0 <= i < |v.build| ==> IsBuildIdent(v.build[i]))
  }

  function Join(parts: seq<string>): string {
    if parts == [] then ""
    else if |parts| == 1 then parts[0]
    else parts[0] + "." + Join(parts[1..])
  }

  function PrintCore(v: Version): string { v.major + "." + v.minor + "." + v.patch }

  /** An optional dotted part behind its mark. */
  function WithPart(head: string, mark: char, parts: seq<string>): string {
    if parts == [] then head else head + [mark] + Join(parts)
  }

  function PrintRelease(v: Version): string { WithPart(PrintCore(v), '-', v.prerelease) }

  /** The text the pattern matches with these captures. */
  function Print(v: Version): string { WithPart(PrintRelease(v), '+', v.build) }

  // ---- parsing ----

  /** Where `c` first occurs, or the length. */
  function Find(s: string, c: char): (n: nat)
    ensures n <= |s| && (n < |s| ==> s[n] == c)
  {
    if s == [] || s[0] == c then 0 else 1 + Find(s[1..], c)
  }

  function Before(s: string, c: char): string { s[..Find(s, c)] }

  /** What follows the first `c`, when there is one. */
  function Rest(s: string, c: char): Option<string> {
    var n := Find(s, c);
    if n < |s| then Some(s[n + 1..]) else None
  }

  function Split(s: string): seq<string>
    decreases |s|
  {
    var n := Find(s, '.');
    if n < |s| then [s[..n]] + Split(s[n + 1..]) else [s]
  }

  function SplitAll(s: Option<string>): seq<string> {
    if s.None? then [] else Split(s.value)
  }

  function Parse(s: string): Option<Version> {
    var release := Before(s, '+');
    var core := Split(Before(release, '-'));
    if |core| != 3 then None
    else
      var v := Version(core[0], core[1], core[2], SplitAll(Rest(release, '-')), SplitAll(Rest(s, '+')));
      if WellFormed(v) then Some(v) else None
  }

  // ---- parsing and printing undo each other ----

  predicate Lacks(s: string, c: char) { forall i :: 0 <= i < |s| ==> s[i] != c }

  lemma {:induction false} FindAfter(a: string, c: char, b: string)
    requires Lacks(a, c)
    ensures Find(a + [c] + b, c) == |a|
    ensures Before(a + [c] + b, c) == a && Rest(a + [c] + b, c) == Some(b)
  {
    if a == [] {
      assert (a + [c] + b)[0] == c;
    } else {
      assert (a + [c] + b)[1..] == a[1..] + [c] + b;
      FindAfter(a[1..], c, b);
    }
    assert (a + [c] + b)[..|a|] == a;
    assert (a + [c] + b)[|a| + 1..] == b;
  }

  lemma {:induction false} FindMissing(a: string, c: char)
    requires Lacks(a, c)
    ensures Find(a, c) == |a| && Before(a, c) == a && Rest(a, c) == None
  {
    if a != [] { FindMissing(a[1..], c); }
  }

  lemma {:induction false} FindIsFirst(s: string, c: char)
    ensures Lacks(Before(s, c), c)
    ensures s == if Rest(s, c).Some? then Before(s, c) + [c] + Rest(s, c).value else Before(s, c)
  {
    FindMeansLacks(s, c);
    hide Find;
    var n := Find(s, c);
    if n < |s| {
      assert s == s[..n] + [s[n]] + s[n + 1..];
    } else {
      assert s[..n] == s;
    }
  }

  lemma {:induction false} FindMeansLacks(s: string, c: char)
    ensures forall i :: 0 <= i < Find(s, c) ==> s[i] != c
    ensures Find(s, c) <= |s| && (Find(s, c) < |s| ==> s[Find(s, c)] == c)
  {
    if s != [] && s[0] != c { FindMeansLacks(s[1..], c); }
  }

  ghost predicate Dotless(parts: seq<string>) {
    forall i :: 0 <= i < |parts| ==> Lacks(parts[i], '.')
  }

  lemma {:induction false} SplitJoin(parts: seq<string>)
    requires parts != [] && Dotless(parts)
    ensures Split(Join(parts)) == parts
  {
    if |parts| == 1 {
      FindMissing(parts[0], '.');
    } else {
      SplitJoin(parts[1..]);
      var s := Join(parts);
      FindAfter(parts[0], '.', Join(parts[1..]));
      assert s == parts[0] + ['.'] + Join(parts[1..]);
      assert s[..|parts[0]|] == parts[0] && s[|parts[0]| + 1..] == Join(parts[1..]);
    }
  }

  lemma {:induction false} JoinCons(p: string, parts: seq<string>)
    requires parts != []
    ensures Join([p] + parts) == p + "." + Join(parts)
  {
    assert ([p] + parts)[1..] == parts;
  }

  lemma {:induction false} JoinSplit(s: string)
    ensures Split(s) != [] && Join(Split(s)) == s
    decreases |s|
  {
    hide Find, Join;
    var n := Find(s, '.');
    if n < |s| {
      var rest := s[n + 1..];
      JoinSplit(rest);
      JoinCons(s[..n], Split(rest));
      CutAtDot(s, n);
    } else {
      JoinOne(s);
    }
  }

  lemma {:induction false} CutAtDot(s: string, n: nat)
    requires n < |s| && s[n] == '.'
    ensures s == s[..n] + "." + s[n + 1..]
  {
  }

  lemma {:induction false} JoinOne(p: string)
    ensures Join([p]) == p
  {
  }

  lemma {:induction false} JoinLacks(parts: seq<string>, c: char)
    requires c != '.' && forall i :: 0 <= i < |parts| ==> Lacks(parts[i], c)
    ensures Lacks(Join(parts), c)
  {
    if |parts| > 1 {
      JoinLacks(parts[1..], c);
    }
  }

  lemma {:induction false} PartOf(s: string, mark: char)
    ensures s == WithPart(Before(s, mark), mark, SplitAll(Rest(s, mark)))
  {
    FindIsFirst(s, mark);
    if Rest(s, mark).Some? { JoinSplit(Rest(s, mark).value); }
  }

  lemma {:induction false} ThreeParts(a: string, b: string, c: string)
    ensures Join([a, b, c]) == a + "." + b + "." + c
  {
    JoinCons(b, [c]);
    JoinCons(a, [b, c]);
    assert [b] + [c] == [b, c] && [a] + [b, c] == [a, b, c];
    assert a + "." + (b + "." + c) == a + "." + b + "." + c;
  }

  lemma {:induction false} CoreOf(s: string)
    requires |Split(s)| == 3
    ensures s == Split(s)[0] + "." + Split(s)[1] + "." + Split(s)[2]
  {
    var core := Split(s);
    JoinSplit(s);
    ThreeParts(core[0], core[1], core[2]);
    assert core == [core[0], core[1], core[2]];
  }

  /** Printing a parsed version gives back the text, build metadata included. */
  lemma {:induction false} ParseThenPrint(s: string)
    requires Parse(s).Some?
    ensures Print(Parse(s).value) == s
    ensures PrintRelease(Parse(s).value) == Before(s, '+')
  {
    var release := Before(s, '+');
    PartOf(s, '+');
    PartOf(release, '-');
    CoreOf(Before(release, '-'));
  }

  lemma {:induction false} ParsedIsWellFormed(s: string)
    requires Parse(s).Some?
    ensures WellFormed(Parse(s).value)
  {
    hide WellFormed;
  }

  lemma {:induction false} WellFormedLacks(v: Version)
    requires WellFormed(v)
    ensures Dotless([v.major, v.minor, v.patch]) && Dotless(v.prerelease) && Dotless(v.build)
    ensures Lacks(PrintCore(v), '-') && Lacks(PrintRelease(v), '+')
  {
    forall i | 0 <= i < |v.prerelease| ensures Lacks(v.prerelease[i], '+') {
    }
    JoinLacks(v.prerelease, '+');
  }

  lemma {:induction false} PartReads(head: string, mark: char, parts: seq<string>)
    requires Lacks(head, mark) && Dotless(parts)
    ensures var s := WithPart(head, mark, parts);
      Before(s, mark) == head && SplitAll(Rest(s, mark)) == parts
  {
    if parts == [] {
      FindMissing(head, mark);
    } else {
      FindAfter(head, mark, Join(parts));
      SplitJoin(parts);
    }
  }

  /** Parsing a printed well-formed version gives it back: no text has two readings. */
  lemma {:induction false} PrintThenParse(v: Version)
    requires WellFormed(v)
    ensures Parse(Print(v)) == Some(v)
  {
    WellFormedLacks(v);
    PartReads(PrintRelease(v), '+', v.build);
    PartReads(PrintCore(v), '-', v.prerelease);
    ThreeParts(v.major, v.minor, v.patch);
    SplitJoin([v.major, v.minor, v.patch]);
  }

  // ---- the accepted texts, character by character ----

  /** `0`, or digits of which the first is not `0`. */
  ghost predicate NumberText(s: string) {
    s == "0" || (s != "" && '1' <= s[0] <= '9' && forall i :: 0 <= i < |s| ==> '0' <= s[i] <= '9')
  }

  /** Digits, letters and hyphens, one or more. */
  ghost predicate IdentifierText(s: string) {
    s != "" && forall i :: 0 <= i < |s| ==>
      '0' <= s[i] <= '9' || 'a' <= s[i] <= 'z' || 'A' <= s[i] <= 'Z' || s[i] == '-'
  }

  ghost predicate HasNonDigit(s: string) { exists i :: 0 <= i < |s| && !('0' <= s[i] <= '9') }

  /** Section 2, 9 and 10 of SemVer 2.0.0: what the parts of a version may be. */
  ghost predicate InGrammar(v: Version) {
    && NumberText(v.major) && NumberText(v.minor) && NumberText(v.patch)
    && (forall i :: 0 <= i < |v.prerelease| ==>
          NumberText(v.prerelease[i]) || (IdentifierText(v.prerelease[i]) && HasNonDigit(v.prerelease[i])))
    && (forall i :: 0 <= i < |v.build| ==> IdentifierText(v.build[i]))
  }

  lemma {:induction false} PartsAre(s: string)
    ensures IsNumeric(s) <==> NumberText(s)
    ensures IsBuildIdent(s) <==> IdentifierText(s)
    ensures IsPreIdent(s) <==> NumberText(s) || (IdentifierText(s) && HasNonDigit(s))
  {
    assert AllDigits(s) <==> s != "" && !HasNonDigit(s);
    assert IsNumeric(s) <==> NumberText(s) by {
      if |s| == 1 && s[0] == '0' { assert s == "0"; }
    }
    hide IsNumeric, NumberText;
  }

  lemma {:induction false} WellFormedIs(v: Version)
    ensures WellFormed(v) <==> InGrammar(v)
  {
    hide IsNumeric, NumberText, IsBuildIdent, IdentifierText, IsPreIdent, HasNonDigit;
    PartsAre(v.major);
    PartsAre(v.minor);
    PartsAre(v.patch);
    forall i | 0 <= i < |v.prerelease|
      ensures IsPreIdent(v.prerelease[i]) <==>
        NumberText(v.prerelease[i]) || (IdentifierText(v.prerelease[i]) && HasNonDigit(v.prerelease[i]))
    {
      PartsAre(v.prerelease[i]);
    }
    forall i | 0 <= i < |v.build| ensures IsBuildIdent(v.build[i]) <==> IdentifierText(v.build[i]) {
      PartsAre(v.build[i]);
    }
  }

  /** The parts joined by dots. */
  function Dotted(parts: seq<string>): string {
    if parts == [] then "" else parts[0] + (if |parts| == 1 then "" else "." + Dotted(parts[1..]))
  }

  lemma {:induction false} JoinIsDotted(parts: seq<string>)
    ensures Join(parts) == Dotted(parts)
  {
    if |parts| > 1 { JoinIsDotted(parts[1..]); }
  }

  /** A version written out: the core, then the pre-release behind a hyphen and the build metadata behind a plus sign,
      each only when there is some. */
  function Written(v: Version): string {
    v.major + "." + v.minor + "." + v.patch
    + (if v.prerelease == [] then "" else "-" + Dotted(v.prerelease))
    + (if v.build == [] then "" else "+" + Dotted(v.build))
  }

  lemma {:induction false} PrintIsWritten(v: Version)
    ensures Print(v) == Written(v)
  {
    JoinIsDotted(v.prerelease);
    JoinIsDotted(v.build);
  }

  /** The pattern accepts exactly the written forms of versions in the grammar. */
  lemma {:induction false} ParsesIff(s: string)
    ensures Parse(s).Some? <==> exists v :: InGrammar(v) && s == Written(v)
  {
    hide Parse, Print, Written, WellFormed, InGrammar;
    if Parse(s).Some? {
      ParseThenPrint(s);
      ParsedIs(s);
      WellFormedIs(Parse(s).value);
      PrintIsWritten(Parse(s).value);
    }
    forall v | InGrammar(v) && s == Written(v) ensures Parse(s).Some? {
      WellFormedIs(v);
      PrintIsWritten(v);
      PrintThenParse(v);
    }
  }

  lemma {:induction false} ParsedIs(s: string)
    requires Parse(s).Some?
    ensures WellFormed(Parse(s).value)
  {
  }
}

/** Precedence: the comparison the release tooling computes, against section 11 of SemVer 2.0.0. */
module Precedence {
  import opened Options
  import opened Text
  import opened SemVer

  // ---- identifiers ----

  /** JavaScript's `a < b` on strings: code unit by code unit. */
  predicate LexLess(a: string, b: string) {
    b != [] && (a == [] || a[0] < b[0] || (a[0] == b[0] && LexLess(a[1..], b[1..])))
  }

  function LexCompare(a: string, b: string): int {
    if LexLess(a, b) then -1 else if LexLess(b, a) then 1 else 0
  }

  /** Numeric identifiers by length and then as text; numeric below alphanumeric. */
  function CompareIdentifier(a: string, b: string): int {
    if AllDigits(a) && AllDigits(b) then
      if |a| != |b| then |a| - |b| else LexCompare(a, b)
    else if AllDigits(a) then -1
    else if AllDigits(b) then 1
    else LexCompare(a, b)
  }

  /** The number a digit string denotes. */
  function Value(s: string): nat
    requires forall i :: 0 <= i < |s| ==> IsDigit(s[i])
  {
    if s == [] then 0
    else
      assert IsDigit(s[0]);
      var d: nat := s[0] as int - '0' as int;
      DigitTimes(0, d, Pow10(|s| - 1));
      d * Pow10(|s| - 1) + Value(s[1..])
  }

  function Pow10(n: nat): nat { if n == 0 then 1 else 10 * Pow10(n - 1) }

  predicate IdentLess(a: string, b: string) {
    if AllDigits(a) && AllDigits(b) then Value(a) < Value(b)
    else AllDigits(a) || (!AllDigits(b) && LexLess(a, b))
  }

  lemma {:induction false} LexTrichotomy(a: string, b: string)
    ensures (LexLess(a, b) || LexLess(b, a)) <==> a != b
    ensures !(LexLess(a, b) && LexLess(b, a))
  {
    if a != [] && b != [] && a[0] == b[0] {
      LexTrichotomy(a[1..], b[1..]);
      assert a == [a[0]] + a[1..] && b == [b[0]] + b[1..];
    }
  }

  lemma {:induction false} LexTransitive(a: string, b: string, c: string)
    requires LexLess(a, b) && LexLess(b, c)
    ensures LexLess(a, c)
  {
    if a != [] && a[0] == b[0] == c[0] {
      LexTransitive(a[1..], b[1..], c[1..]);
    }
  }

  lemma {:induction false} ValueBound(s: string)
    requires forall i :: 0 <= i < |s| ==> IsDigit(s[i])
    ensures Value(s) < Pow10(|s|)
  {
    if s != [] {
      ValueBound(s[1..]);
      DigitTimes(s[0] as int - '0' as int, 9, Pow10(|s| - 1));
    }
  }

  lemma {:induction false} DigitTimes(d: nat, e: nat, p: nat)
    requires d <= e
    ensures d * p <= e * p
  {
  }

  lemma {:induction false} Pow10Grows(m: nat, n: nat)
    requires m <= n
    ensures 1 <= Pow10(m) <= Pow10(n)
  {
    if n > 0 {
      Pow10Grows(if m < n then m else m - 1, n - 1);
    }
  }

  lemma {:induction false} TenTimes(d: int, p: int)
    ensures d * (10 * p) == 10 * (d * p)
  {
  }

  lemma {:induction false} ValueSnoc(s: string, c: char)
    requires IsDigit(c) && forall i :: 0 <= i < |s| ==> IsDigit(s[i])
    ensures Value(s + [c]) == 10 * Value(s) + (c as int - '0' as int)
  {
    var t := s + [c];
    if s == [] {
      assert t[1..] == [] && Value(t) == (c as int - '0' as int) * Pow10(0) + Value([]);
    } else {
      assert t[1..] == s[1..] + [c] && t[0] == s[0];
      ValueSnoc(s[1..], c);
      TenTimes(s[0] as int - '0' as int, Pow10(|s| - 1));
    }
  }

  /** The number is the one that the decimal digits read as. */
  lemma {:induction false} ValueIsDecimal(s: string)
    requires forall i :: 0 <= i < |s| ==> IsDigit(s[i])
    ensures Value(s) == DecimalValue(s)
  {
    if s != [] {
      var before, last := s[..|s| - 1], s[|s| - 1];
      assert s == before + [last];
      ValueIsDecimal(before);
      ValueSnoc(before, last);
    }
  }

  lemma {:induction false} HeadDecides(d: nat, e: nat, p: nat, u: nat, v: nat)
    requires d < e && u < p
    ensures d * p + u < e * p + v
  {
    DigitTimes(d + 1, e, p);
    assert (d + 1) * p == d * p + p;
  }

  /** Digit strings of one length are ordered as their values are. */
  lemma {:induction false} LexIsValue(a: string, b: string)
    requires |a| == |b|
    requires forall i :: 0 <= i < |a| ==> IsDigit(a[i]) && IsDigit(b[i])
    ensures LexLess(a, b) <==> Value(a) < Value(b)
  {
    if a != [] {
      LexIsValue(a[1..], b[1..]);
      ValueBound(a[1..]);
      ValueBound(b[1..]);
      var d, e, p := a[0] as int - '0' as int, b[0] as int - '0' as int, Pow10(|a| - 1);
      var u, v := Value(a[1..]), Value(b[1..]);
      assert Value(a) == d * p + u && Value(b) == e * p + v;
      if d < e { HeadDecides(d, e, p, u, v); } else if e < d { HeadDecides(e, d, p, v, u); }
    }
  }

  lemma {:induction false} LongerIsBigger(a: string, b: string)
    requires IsNumeric(a) && IsNumeric(b) && |a| < |b|
    ensures Value(a) < Value(b)
  {
    ValueBound(a);
    Pow10Grows(|a|, |b| - 1);
    DigitTimes(1, b[0] as int - '0' as int, Pow10(|b| - 1));
  }

  /** Length then text is numeric order, on digit strings of any length without leading zeros. */
  lemma {:induction false} NumericCompareIsValue(a: string, b: string)
    requires IsNumeric(a) && IsNumeric(b)
    ensures CompareIdentifier(a, b) < 0 <==> Value(a) < Value(b)
    ensures CompareIdentifier(a, b) > 0 <==> Value(a) > Value(b)
    ensures Value(a) == Value(b) <==> a == b
  {
    LexTrichotomy(a, b);
    if |a| < |b| {
      LongerIsBigger(a, b);
    } else if |b| < |a| {
      LongerIsBigger(b, a);
    } else {
      LexIsValue(a, b);
      LexIsValue(b, a);
    }
  }

  lemma {:induction false} IdentifierOrder(a: string, b: string)
    requires IsPreIdent(a) && IsPreIdent(b)
    ensures CompareIdentifier(a, b) < 0 <==> IdentLess(a, b)
    ensures CompareIdentifier(a, b) > 0 <==> IdentLess(b, a)
    ensures CompareIdentifier(a, b) == 0 <==> a == b
  {
    LexTrichotomy(a, b);
    if AllDigits(a) && AllDigits(b) {
      NumericCompareIsValue(a, b);
    }
  }

  lemma {:induction false} IdentTransitive(a: string, b: string, c: string)
    requires IdentLess(a, b) && IdentLess(b, c)
    ensures IdentLess(a, c)
  {
    if !AllDigits(a) { LexTransitive(a, b, c); }
  }

  // ---- pre-release lists ----

  function ComparePrerelease(x: seq<string>, y: seq<string>): int {
    if x == [] || y == [] then |x| - |y|
    else
      var c := CompareIdentifier(x[0], y[0]);
      if c != 0 then c else ComparePrerelease(x[1..], y[1..])
  }

  ghost predicate PreIdents(x: seq<string>) {
    forall i :: 0 <= i < |x| ==> IsPreIdent(x[i])
  }

  /** Section 11.4: the first differing identifier decides, else the longer list wins. */
  ghost predicate PrereleaseLess(x: seq<string>, y: seq<string>) {
    || (exists k :: DiffersAt(x, y, k) && IdentLess(x[k], y[k]))
    || (|x| < |y| && x == y[..|x|])
  }

  ghost predicate DiffersAt(x: seq<string>, y: seq<string>, k: int) {
    0 <= k < |x| && k < |y| && x[..k] == y[..k]
  }

  lemma {:induction false} DiffersBehind(x: seq<string>, y: seq<string>, k: nat)
    requires x != [] && y != [] && x[0] == y[0]
    ensures DiffersAt(x, y, k + 1) <==> DiffersAt(x[1..], y[1..], k)
  {
    var u, v := x[1..], y[1..];
    if k < |u| && k < |v| {
      assert x[..k + 1] == [x[0]] + u[..k] && y[..k + 1] == [y[0]] + v[..k];
      assert x[..k + 1][1..] == u[..k] && y[..k + 1][1..] == v[..k];
    }
  }

  lemma {:induction false} PrereleaseTail(x: seq<string>, y: seq<string>)
    requires x != [] && y != [] && x[0] == y[0] && !IdentLess(x[0], x[0])
    ensures PrereleaseLess(x, y) <==> PrereleaseLess(x[1..], y[1..])
  {
    hide IdentLess;
    var u, v := x[1..], y[1..];
    if k :| DiffersAt(x, y, k) && IdentLess(x[k], y[k]) {
      DiffersBehind(x, y, k - 1);
    }
    if k :| DiffersAt(u, v, k) && IdentLess(u[k], v[k]) {
      DiffersBehind(x, y, k);
    }
    assert x == [x[0]] + u && y == [y[0]] + v;
    hide DiffersAt;
    if |x| < |y| {
      assert y[..|x|] == [y[0]] + v[..|u|];
    }
  }

  lemma {:induction false} PrereleaseHead(x: seq<string>, y: seq<string>)
    requires x != [] && y != [] && x[0] != y[0]
    ensures PrereleaseLess(x, y) <==> IdentLess(x[0], y[0])
  {
    if IdentLess(x[0], y[0]) {
      assert DiffersAt(x, y, 0);
    }
  }

  /** The loop over shared fields computes the order of section 11.4. */
  lemma {:induction false} PrereleaseOrder(x: seq<string>, y: seq<string>)
    requires PreIdents(x) && PreIdents(y)
    ensures ComparePrerelease(x, y) < 0 <==> PrereleaseLess(x, y)
    ensures ComparePrerelease(x, y) > 0 <==> PrereleaseLess(y, x)
    ensures ComparePrerelease(x, y) == 0 <==> x == y
  {
    if x == [] || y == [] {
      assert x == [] && y != [] ==> x == y[..0];
      assert y == [] && x != [] ==> y == x[..0];
    } else {
      IdentifierOrder(x[0], y[0]);
      assert PreIdents(x[1..]) && PreIdents(y[1..]);
      hide PrereleaseLess, IdentLess, CompareIdentifier, PreIdents;
      if x[0] == y[0] {
        PrereleaseOrder(x[1..], y[1..]);
        PrereleaseTail(x, y);
        PrereleaseTail(y, x);
        assert x == [x[0]] + x[1..] && y == [y[0]] + y[1..];
      } else {
        PrereleaseHead(x, y);
        PrereleaseHead(y, x);
      }
    }
  }

  lemma {:induction false} PrereleaseTransitive(x: seq<string>, y: seq<string>, z: seq<string>)
    requires PreIdents(x) && PreIdents(y) && PreIdents(z)
    requires ComparePrerelease(x, y) <= 0 && ComparePrerelease(y, z) <= 0
    ensures ComparePrerelease(x, z) <= 0
    ensures ComparePrerelease(x, y) < 0 || ComparePrerelease(y, z) < 0 ==> ComparePrerelease(x, z) < 0
  {
    if x != [] && y != [] && z != [] {
      IdentifierOrder(x[0], y[0]);
      IdentifierOrder(y[0], z[0]);
      IdentifierOrder(x[0], z[0]);
      if x[0] == y[0] == z[0] {
        PrereleaseTransitive(x[1..], y[1..], z[1..]);
      } else if x[0] != y[0] && y[0] != z[0] {
        IdentTransitive(x[0], y[0], z[0]);
      }
    }
  }

  // ---- versions ----

  function Compare(v: Version, w: Version): int {
    var major := CompareIdentifier(v.major, w.major);
    var minor := CompareIdentifier(v.minor, w.minor);
    var patch := CompareIdentifier(v.patch, w.patch);
    if major != 0 then major
    else if minor != 0 then minor
    else if patch != 0 then patch
    else if v.prerelease == [] && w.prerelease == [] then 0
    else if v.prerelease == [] then 1
    else if w.prerelease == [] then -1
    else ComparePrerelease(v.prerelease, w.prerelease)
  }

  /** Null where the source throws: one of the texts is not a version. */
  function CompareTexts(a: string, b: string): Option<int> {
    if Parse(a).None? || Parse(b).None? then None else Some(Compare(Parse(a).value, Parse(b).value))
  }

  method CompareSemver(a: string, b: string) returns (r: Option<int>)
    ensures r == CompareTexts(a, b)
  {
    var parsedA, parsedB := Parse(a), Parse(b);
    if parsedA.None? || parsedB.None? { return None; }
    var pa, pb := parsedA.value, parsedB.value;
    var major := CompareIdentifier(pa.major, pb.major);
    if major != 0 { return Some(major); }
    var minor := CompareIdentifier(pa.minor, pb.minor);
    if minor != 0 { return Some(minor); }
    var patch := CompareIdentifier(pa.patch, pb.patch);
    if patch != 0 { return Some(patch); }
    var x, y := pa.prerelease, pb.prerelease;
    if |x| == 0 && |y| == 0 { return Some(0); }
    if |x| == 0 { return Some(1); }
    if |y| == 0 { return Some(-1); }
    var len := if |x| < |y| then |x| else |y|;
    for i := 0 to len
      invariant ComparePrerelease(x[i..], y[i..]) == ComparePrerelease(x, y)
    {
      var c := CompareIdentifier(x[i], y[i]);
      assert x[i..][1..] == x[i + 1..] && y[i..][1..] == y[i + 1..];
      if c != 0 { return Some(c); }
    }
    return Some(|x| - |y|);
  }

  /** Same core version, as the numbers it denotes. */
  predicate SameCore(v: Version, w: Version)
    requires WellFormed(v) && WellFormed(w)
  {
    Value(v.major) == Value(w.major) && Value(v.minor) == Value(w.minor) && Value(v.patch) == Value(w.patch)
  }

  predicate CoreLess(v: Version, w: Version)
    requires WellFormed(v) && WellFormed(w)
  {
    || Value(v.major) < Value(w.major)
    || (Value(v.major) == Value(w.major) && Value(v.minor) < Value(w.minor))
    || (Value(v.major) == Value(w.major) && Value(v.minor) == Value(w.minor) && Value(v.patch) < Value(w.patch))
  }

  /** Section 11 of SemVer 2.0.0, read off the text. */
  ghost predicate Precedes(v: Version, w: Version)
    requires WellFormed(v) && WellFormed(w)
  {
    || CoreLess(v, w)
    || (SameCore(v, w) && v.prerelease != [] && w.prerelease == [])
    || (SameCore(v, w) && v.prerelease != [] && w.prerelease != [] && PrereleaseLess(v.prerelease, w.prerelease))
  }

  lemma {:induction false} CoreOrder(v: Version, w: Version)
    requires WellFormed(v) && WellFormed(w)
    ensures SameCore(v, w) <==> v.major == w.major && v.minor == w.minor && v.patch == w.patch
    ensures !SameCore(v, w) ==> (Compare(v, w) < 0 <==> CoreLess(v, w)) && (Compare(v, w) > 0 <==> CoreLess(w, v))
    ensures !SameCore(v, w) ==> Compare(v, w) != 0
    ensures SameCore(v, w) ==> !CoreLess(v, w) && !CoreLess(w, v)
  {
    NumericCompareIsValue(v.major, w.major);
    NumericCompareIsValue(v.minor, w.minor);
    NumericCompareIsValue(v.patch, w.patch);
  }

  /** The comparison is section 11's order, and ties exactly on versions equal up to build metadata. */
  lemma {:induction false} CompareIsPrecedence(v: Version, w: Version)
    requires WellFormed(v) && WellFormed(w)
    ensures Compare(v, w) < 0 <==> Precedes(v, w)
    ensures Compare(v, w) > 0 <==> Precedes(w, v)
    ensures Compare(v, w) == 0 <==> v.(build := []) == w.(build := [])
  {
    CoreOrder(v, w);
    CoreOrder(w, v);
    if SameCore(v, w) {
      NumericCompareIsValue(v.major, w.major);
      NumericCompareIsValue(v.minor, w.minor);
      NumericCompareIsValue(v.patch, w.patch);
      PrereleaseOrder(v.prerelease, w.prerelease);
    }
  }

  /** Transitive, strictly so as soon as one step is strict. With the lemma above: a total preorder. */
  lemma {:induction false} CompareTransitive(u: Version, v: Version, w: Version)
    requires WellFormed(u) && WellFormed(v) && WellFormed(w)
    requires Compare(u, v) <= 0 && Compare(v, w) <= 0
    ensures Compare(u, w) <= 0
    ensures Compare(u, v) < 0 || Compare(v, w) < 0 ==> Compare(u, w) < 0
  {
    CoreOrder(u, v);
    CoreOrder(v, w);
    CoreOrder(u, w);
    if SameCore(u, v) && SameCore(v, w) {
      NumericCompareIsValue(u.major, v.major);
      NumericCompareIsValue(u.minor, v.minor);
      NumericCompareIsValue(u.patch, v.patch);
      if u.prerelease != [] && v.prerelease != [] && w.prerelease != [] {
        PrereleaseTransitive(u.prerelease, v.prerelease, w.prerelease);
      }
    }
  }
}

/** What the release commands do with versions. */
module ReleaseVersions {
  import opened Options
  import opened Text
  import opened SemVer
  import opened Precedence

  predicate Contains(s: string, c: char) { !Lacks(s, c) }

  predicate ValidateReleaseVersion(version: string) {
    !Contains(version, '+') && Parse(version).Some?
  }

  predicate IsPrerelease(version: string) { Contains(version, '-') }

  lemma {:induction false} PartHasMark(head: string, mark: char, parts: seq<string>)
    requires Lacks(head, mark)
    ensures Contains(WithPart(head, mark, parts), mark) <==> parts != []
  {
    var s := WithPart(head, mark, parts);
    if parts != [] { assert s[|head|] == mark; }
  }

  lemma {:induction false} PartContains(head: string, mark: char, parts: seq<string>, c: char)
    requires c != mark
    ensures Contains(WithPart(head, mark, parts), c) <==> Contains(head, c) || (parts != [] && Contains(Join(parts), c))
  {
    hide Join;
    var s, tail := WithPart(head, mark, parts), Join(parts);
    if parts != [] {
      assert s == head + [mark] + tail;
      assert forall i :: 0 <= i < |head| ==> s[i] == head[i];
      assert forall i :: 0 <= i < |tail| ==> s[|head| + 1 + i] == tail[i];
    }
  }

  /** The substring test for a pre-release is right on every accepted release version; on a version
      with build metadata it also answers yes to a hyphen there. */
  lemma {:induction false} IsPrereleaseIff(version: string)
    requires Parse(version).Some?
    ensures var v := Parse(version).value;
      && (IsPrerelease(version) <==> v.prerelease != [] || (v.build != [] && Contains(Join(v.build), '-')))
      && (ValidateReleaseVersion(version) ==> v.build == [] && (IsPrerelease(version) <==> v.prerelease != []))
  {
    hide Parse, WellFormed, Lacks;
    var v := Parse(version).value;
    ParseThenPrint(version);
    ParsedIsWellFormed(version);
    WellFormedLacks(v);
    PartHasMark(PrintRelease(v), '+', v.build);
    PartHasMark(PrintCore(v), '-', v.prerelease);
    PartContains(PrintRelease(v), '+', v.build, '-');
  }

  lemma {:induction false} ParsesAs(version: string, v: Version)
    requires WellFormed(v) && Print(v) == version
    ensures Parse(version) == Some(v)
  {
    PrintThenParse(v);
  }

  lemma {:induction false} HyphenInBuild()
    ensures var v := Version("1", "0", "0", [], ["a-b"]);
      WellFormed(v) && Print(v) == "1.0.0+a-b"
  {
    var v := Version("1", "0", "0", [], ["a-b"]);
    assert IsBuildIdent("a-b");
    hide IsBuildIdent, IsPreIdent;
    assert Join(v.build) == "a-b" && PrintCore(v) == "1.0.0";
    assert "1.0.0" + ['+'] + "a-b" == "1.0.0+a-b";
  }

  /** A release with a hyphen in its build metadata alone is taken for a pre-release. */
  lemma {:induction false} BuildHyphenMisleads()
    ensures Parse("1.0.0+a-b") == Some(Version("1", "0", "0", [], ["a-b"]))
    ensures IsPrerelease("1.0.0+a-b") && !ValidateReleaseVersion("1.0.0+a-b")
  {
    HyphenInBuild();
    PrintThenParse(Version("1", "0", "0", [], ["a-b"]));
    hide Parse, Print, WellFormed;
    assert "1.0.0+a-b"[7] == '-' && "1.0.0+a-b"[5] == '+';
  }

  /** A release version with one pre-release identifier. */
  lemma {:induction false} OneIdentifier(major: string, id: string)
    requires IsNumeric(major) && IsPreIdent(id)
    ensures WellFormed(Version(major, "0", "0", [id], []))
    ensures Parse(major + ".0.0-" + id) == Some(Version(major, "0", "0", [id], []))
    ensures ValidateReleaseVersion(major + ".0.0-" + id) && IsPrerelease(major + ".0.0-" + id)
  {
    var v, text := Version(major, "0", "0", [id], []), major + ".0.0-" + id;
    assert WellFormed(v);
    hide IsPreIdent, IsNumeric, Parse, WellFormed;
    assert Join([id]) == id;
    assert PrintCore(v) + ['-'] + id == text;
    ParsesAs(text, v);
    WellFormedLacks(v);
    assert Print(v) == PrintRelease(v) == text;
    IsPrereleaseIff(text);
  }

  // ---- prepare ----

  const NEVER_RELEASED := "0.0.0"

  /** The version gate of `prepare`: everything else it checks is about git and the changelog. */
  predicate PrepareAccepts(current: string, version: string) {
    && ValidateReleaseVersion(version)
    && (current != NEVER_RELEASED ==> CompareTexts(version, current).Some? && CompareTexts(version, current).value > 0)
  }

  ghost predicate Increases(a: string, b: string) {
    CompareTexts(b, a).Some? && CompareTexts(b, a).value > 0
  }

  predicate ZeroCore(version: string)
    requires Parse(version).Some?
  {
    var v := Parse(version).value;
    v.major == "0" && v.minor == "0" && v.patch == "0"
  }

  lemma {:induction false} NeverReleasedParses()
    ensures Parse(NEVER_RELEASED) == Some(Version("0", "0", "0", [], []))
  {
    var v := Version("0", "0", "0", [], []);
    assert Print(v) == NEVER_RELEASED;
    PrintThenParse(v);
  }

  /** Prepare accepts exactly the release versions that come after the current one, and any of them at 0.0.0. */
  lemma {:induction false} PrepareAcceptsIff(current: string, version: string)
    requires Parse(current).Some?
    ensures PrepareAccepts(current, version) <==>
      && '+' !in version && Parse(version).Some?
      && (current == "0.0.0" || Precedes(Parse(current).value, Parse(version).value))
  {
    ParsedIs(current);
    if Parse(version).Some? {
      ParsedIs(version);
      hide Parse, WellFormed, Compare;
      CompareIsPrecedence(Parse(version).value, Parse(current).value);
    }
  }

  /** Past the never-released state each accepted version increases; from that state, exactly when its
      core is not again 0.0.0. */
  lemma {:induction false} AcceptedIncreasesIff(current: string, version: string)
    requires PrepareAccepts(current, version)
    ensures Increases(current, version) <==> current != NEVER_RELEASED || !ZeroCore(version)
  {
    if current == NEVER_RELEASED {
      NeverReleasedParses();
      var v, zero := Parse(version).value, Version("0", "0", "0", [], []);
      CompareIsPrecedence(v, zero);
      CoreOrder(v, zero);
      NumericCompareIsValue(v.major, "0");
      NumericCompareIsValue(v.minor, "0");
      NumericCompareIsValue(v.patch, "0");
    }
  }

  /** Versions prepared one after another, starting from the never-released state. */
  ghost predicate Chain(vs: seq<string>) {
    && vs != [] && vs[0] == NEVER_RELEASED
    && forall i :: 0 <= i < |vs| - 1 ==> PrepareAccepts(vs[i], vs[i + 1])
  }

  lemma {:induction false} ChainParses(vs: seq<string>, i: nat)
    requires Chain(vs) && i < |vs|
    ensures Parse(vs[i]).Some?
  {
    NeverReleasedParses();
    if i > 0 { assert PrepareAccepts(vs[i - 1], vs[i - 1 + 1]); }
  }

  lemma {:induction false} IncreasesTransitive(a: string, b: string, c: string)
    requires Increases(a, b) && Increases(b, c)
    ensures Increases(a, c)
  {
    var u, v, w := Parse(a).value, Parse(b).value, Parse(c).value;
    CompareIsPrecedence(u, v);
    CompareIsPrecedence(v, u);
    CompareIsPrecedence(v, w);
    CompareIsPrecedence(w, v);
    CompareTransitive(u, v, w);
    CompareIsPrecedence(u, w);
    CompareIsPrecedence(w, u);
  }

  lemma {:induction false} IncreasesIrreflexive(a: string)
    ensures !Increases(a, a)
  {
    if Parse(a).Some? { CompareIsPrecedence(Parse(a).value, Parse(a).value); }
  }

  lemma {:induction false} ChainClimbs(vs: seq<string>, i: nat, j: nat)
    requires Chain(vs) && i < j < |vs| && !ZeroCore(vs[1])
    requires Parse(vs[1]).Some?
    ensures Increases(vs[i], vs[j])
    decreases j
  {
    assert PrepareAccepts(vs[j - 1], vs[j - 1 + 1]);
    if j > 1 {
      ChainClimbs(vs, 0, j - 1);
      IncreasesIrreflexive(NEVER_RELEASED);
    }
    AcceptedIncreasesIff(vs[j - 1], vs[j]);
    if i < j - 1 {
      ChainClimbs(vs, i, j - 1);
      IncreasesTransitive(vs[i], vs[j - 1], vs[j]);
    }
  }

  /** A chain of prepared versions is strictly increasing, end to end, exactly when its first release
      does not keep the 0.0.0 core. */
  lemma {:induction false} ChainIncreasesIff(vs: seq<string>)
    requires Chain(vs) && |vs| > 1
    ensures Parse(vs[1]).Some?
    ensures (forall i, j :: 0 <= i < j < |vs| ==> Increases(vs[i], vs[j])) <==> !ZeroCore(vs[1])
  {
    ChainParses(vs, 1);
    assert PrepareAccepts(vs[0], vs[0 + 1]);
    AcceptedIncreasesIff(vs[0], vs[1]);
    if !ZeroCore(vs[1]) {
      forall i, j | 0 <= i < j < |vs| ensures Increases(vs[i], vs[j]) {
        ChainClimbs(vs, i, j);
      }
    }
  }

  lemma {:induction false} PrereleaseIsBelow(v: Version)
    requires WellFormed(v) && v.prerelease != []
    ensures Compare(v.(prerelease := []), v) > 0
  {
    hide Compare, Value, WellFormed;
    assert WellFormed(v.(prerelease := [])) by { StillWellFormed(v); }
    CompareIsPrecedence(v.(prerelease := []), v);
  }

  lemma {:induction false} StillWellFormed(v: Version)
    requires WellFormed(v)
    ensures WellFormed(v.(prerelease := []))
  {
    hide IsNumeric, IsBuildIdent;
  }

  /** Prepared straight after the never-released state, any pre-release of 0.0.0, such as 0.0.0-alpha, is accepted
      and goes backwards. */
  lemma {:induction false} FirstReleaseGoesBackwards(id: string)
    requires IsPreIdent(id)
    ensures Chain([NEVER_RELEASED, "0" + ".0.0-" + id]) && Increases("0" + ".0.0-" + id, NEVER_RELEASED)
  {
    var text := "0" + ".0.0-" + id;
    OneIdentifier("0", id);
    NeverReleasedParses();
    PrereleaseIsBelow(Version("0", "0", "0", [id], []));
    hide Parse, WellFormed, IsPreIdent, Compare, Lacks, ValidateReleaseVersion, IsPrerelease;
    assert CompareTexts(NEVER_RELEASED, text).value > 0;
    hide CompareTexts;
    assert PrepareAccepts(NEVER_RELEASED, text);
  }

  // ---- the npm dist-tag ----

  predicate IsLetter(c: char) { 'a' <= c <= 'z' || 'A' <= c <= 'Z' }

  predicate Alphabetic(s: string) { s != [] && forall i :: 0 <= i < |s| ==> IsLetter(s[i]) }

  function LowerChar(c: char): char {
    if 'A' <= c <= 'Z' then (c as int + 32) as char else c
  }

  function Lower(s: string): string { seq(|s|, i requires 0 <= i < |s| => LowerChar(s[i])) }

  function NpmDistTag(version: string): string
    requires Parse(version).Some?
  {
    var ids := Parse(version).value.prerelease;
    if !IsPrerelease(version) then "latest"
    else if ids != [] && Alphabetic(ids[0]) then Lower(ids[0])
    else "next"
  }

  function RunDistTag(version: string): Option<string> {
    if ValidateReleaseVersion(version) then Some(NpmDistTag(version)) else None
  }

  /** A pre-release is kept off the `latest` tag exactly when its first identifier does not itself
      spell that word, in any case. */
  lemma {:induction false} LatestTagIff(version: string)
    requires ValidateReleaseVersion(version)
    ensures var ids := Parse(version).value.prerelease;
      RunDistTag(version) == Some("latest") <==> ids == [] || Lower(ids[0]) == "latest"
  {
    IsPrereleaseIff(version);
    var ids := Parse(version).value.prerelease;
    if ids != [] && Lower(ids[0]) == "latest" {
      assert |ids[0]| == |Lower(ids[0])| == 6;
      forall i | 0 <= i < |ids[0]| ensures IsLetter(ids[0][i]) {
        assert Lower(ids[0])[i] == LowerChar(ids[0][i]);
        assert IsLetter("latest"[i]);
      }
    }
    assert "next" != "latest" by { assert |"next"| == 4; }
  }

  ghost predicate Letters(s: string) {
    s != "" && forall i :: 0 <= i < |s| ==> 'a' <= s[i] <= 'z' || 'A' <= s[i] <= 'Z'
  }

  /** The tag is the text with every capital letter made small. */
  ghost predicate Lowered(tag: string, s: string) {
    && |tag| == |s|
    && forall i :: 0 <= i < |s| ==>
         if 'A' <= s[i] <= 'Z' then 'a' <= tag[i] <= 'z' && tag[i] as int - 'a' as int == s[i] as int - 'A' as int
         else tag[i] == s[i]
  }

  /** The whole rule: nothing for a text that is not a release version, `latest` for a plain release, for a pre-release
      its first identifier in small letters when it has letters only, and `next` otherwise. */
  lemma {:induction false} DistTagIs(version: string)
    ensures RunDistTag(version).None? <==> '+' in version || Parse(version).None?
    ensures RunDistTag(version).Some? ==>
      var ids, tag := Parse(version).value.prerelease, RunDistTag(version).value;
      if ids == [] then tag == "latest" else if Letters(ids[0]) then Lowered(tag, ids[0]) else tag == "next"
  {
    hide Parse;
    if ValidateReleaseVersion(version) { IsPrereleaseIff(version); }
  }

  lemma {:induction false} LatestIsAWord()
    ensures IsPreIdent("latest") && Lower("latest") == "latest"
  {
    assert "latest"[0] == 'l' && IsBuildIdent("latest");
  }

  /** A pre-release such as 1.0.0-latest is published under `latest`. */
  lemma {:induction false} PrereleaseUnderLatest(major: string)
    requires IsNumeric(major)
    ensures IsPrerelease(major + ".0.0-" + "latest") && RunDistTag(major + ".0.0-" + "latest") == Some("latest")
  {
    hide *;
    LatestIsAWord();
    OneIdentifier(major, "latest");
    LatestTagIff(major + ".0.0-" + "latest");
  }
}
