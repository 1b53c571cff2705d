/** The CHANGELOG as the release tooling reads and rewrites it: a text, its second-level headings and
    the sections under them. Missing headings are `None` where the source throws or returns null. */
module Changelog {
  import opened Options

  // ---- characters ----

  /** What `^` and `$` treat as a line end in a multi-line pattern. */
  predicate IsTerminator(c: char) {
    c == '\n' || c == '\r' || c == '\U{2028}' || c == '\U{2029}'
  }

  /** The whitespace class `\s`. */
  predicate IsSpace(c: char) {
    || IsTerminator(c) || c == '\t' || c == '\U{0b}' || c == '\U{0c}' || c == ' ' || c == '\U{a0}'
    || c == '\U{1680}' || '\U{2000}' <= c <= '\U{200a}' || c == '\U{202f}' || c == '\U{205f}'
    || c == '\U{3000}' || c == '\U{feff}'
  }

  function NormalizeNewlines(t: string): string {
    if |t| >= 2 && t[0] == '\r' && t[1] == '\n' then "\n" + NormalizeNewlines(t[2..])
    else if t == "" then ""
    else [t[0]] + NormalizeNewlines(t[1..])
  }

  function TrimStart(t: string): string {
    if t != "" && IsSpace(t[0]) then TrimStart(t[1..]) else t
  }

  function TrimEnd(t: string): string {
    if t != "" && IsSpace(t[|t| - 1]) then TrimEnd(t[..|t| - 1]) else t
  }

  function Trim(t: string): string { TrimEnd(TrimStart(t)) }

  // ---- headings ----

  datatype Heading = Any | Unreleased | Versioned(version: string)

  const UNRELEASED := "## [Unreleased]"

  function Pattern(h: Heading): string {
    match h
    case Any => "## "
    case Unreleased => UNRELEASED
    case Versioned(v) => "## [" + v + "]"
  }

  predicate StartsAt(t: string, i: nat, p: string) {
    i + |p| <= |t| && t[i..i + |p|] == p
  }

  predicate AtLineStart(t: string, i: nat)
    requires i <= |t|
  {
    i == 0 || IsTerminator(t[i - 1])
  }

  /** `[ \t]*$` from position `j`. */
  predicate BlankToLineEnd(t: string, j: nat)
    requires j <= |t|
    decreases |t| - j
  {
    j == |t| || IsTerminator(t[j]) || ((t[j] == ' ' || t[j] == '\t') && BlankToLineEnd(t, j + 1))
  }

  predicate Matches(h: Heading, t: string, i: nat)
    requires i <= |t|
  {
    && AtLineStart(t, i)
    && StartsAt(t, i, Pattern(h))
    && (h.Unreleased? ==> BlankToLineEnd(t, i + |UNRELEASED|))
  }

  /** The first match at or after `i`, or the length of the text. */
  function FindFrom(h: Heading, t: string, i: nat): (r: nat)
    requires i <= |t|
    ensures i <= r <= |t|
    decreases |t| - i
  {
    if i == |t| || Matches(h, t, i) then i else FindFrom(h, t, i + 1)
  }

  lemma {:induction false} FindFromIsFirst(h: Heading, t: string, i: nat)
    requires i <= |t|
    ensures FindFrom(h, t, i) < |t| ==> Matches(h, t, FindFrom(h, t, i))
    ensures forall j :: i <= j < FindFrom(h, t, i) ==> !Matches(h, t, j)
    decreases |t| - i
  {
    hide Matches;
    if i < |t| && !Matches(h, t, i) { FindFromIsFirst(h, t, i + 1); }
  }

  function Find(h: Heading, t: string): (r: nat)
    ensures r <= |t|
    ensures r < |t| ==> Matches(h, t, r)
    ensures forall j :: 0 <= j < r ==> !Matches(h, t, j)
  {
    FindFromIsFirst(h, t, 0);
    FindFrom(h, t, 0)
  }

  function IndexOfNewline(t: string, i: nat): (r: nat)
    requires i <= |t|
    ensures i <= r <= |t|
    ensures r < |t| ==> t[r] == '\n'
    ensures forall j :: i <= j < r ==> t[j] != '\n'
    decreases |t| - i
  {
    if i == |t| || t[i] == '\n' then i else IndexOfNewline(t, i + 1)
  }

  // ---- sections ----

  /** Where the body under the heading at `i` begins. */
  function BodyStart(t: string, i: nat, headingLength: nat): nat
    requires i + headingLength <= |t|
  {
    var lineEnd := IndexOfNewline(t, i + headingLength);
    if lineEnd == |t| then |t| else lineEnd + 1
  }

  /** A text cut at one heading: what precedes it, its line, the raw body, and the next heading on. */
  datatype Cut = Cut(before: string, line: string, raw: string, after: string)

  function CutAt(t: string, i: nat, headingLength: nat): Cut
    requires i + headingLength <= |t|
  {
    var start := BodyStart(t, i, headingLength);
    var k := Find(Any, t[start..]);
    Cut(t[..i], t[i..start], t[start..][..k], t[start..][k..])
  }

  function SectionCut(h: Heading, t: string): Option<Cut> {
    var i := Find(h, t);
    if i < |t| then Some(CutAt(t, i, |Pattern(h)|)) else None
  }

  function Body(cut: Option<Cut>): Option<string> {
    if cut.None? then None else Some(Trim(cut.value.raw))
  }

  function ExtractUnreleasedBody(changelog: string): Option<string> {
    Body(SectionCut(Unreleased, NormalizeNewlines(changelog)))
  }

  function ExtractVersionSection(changelog: string, version: string): Option<string> {
    Body(SectionCut(Versioned(version), NormalizeNewlines(changelog)))
  }

  function VersionLine(version: string, date: string): string {
    "## [" + version + "] - " + date
  }

  function MoveUnreleasedToVersion(changelog: string, version: string, date: string): Option<string> {
    match SectionCut(Unreleased, NormalizeNewlines(changelog))
    case None => None
    case Some(c) =>
      Some(c.before + (UNRELEASED + "\n\n" + VersionLine(version, date) + "\n\n" + Trim(c.raw) + "\n\n") + c.after)
  }

  // ---- texts made of whole lines ----

  ghost predicate Lacks(t: string, c: char) { forall i :: 0 <= i < |t| ==> t[i] != c }

  /** The only line terminator is the newline. */
  ghost predicate NewlinesOnly(t: string) {
    forall i :: 0 <= i < |t| && IsTerminator(t[i]) ==> t[i] == '\n'
  }

  ghost predicate WholeLines(t: string) { t == "" || t[|t| - 1] == '\n' }

  lemma {:induction false} NormalizeIsIdentity(t: string)
    requires NewlinesOnly(t)
    ensures NormalizeNewlines(t) == t
  {
    if t != "" {
      assert t[0] != '\r';
      NormalizeIsIdentity(t[1..]);
      assert t == [t[0]] + t[1..];
    }
  }

  lemma {:induction false} BlankSplit(p: string, x: string, j: nat)
    requires WholeLines(p) && j < |p|
    ensures BlankToLineEnd(p + x, j) <==> BlankToLineEnd(p, j)
    decreases |p| - j
  {
    if j + 1 < |p| {
      BlankSplit(p, x, j + 1);
    }
  }

  lemma {:induction false} StartsChars(t: string, i: nat, p: string)
    ensures StartsAt(t, i, p) <==> i + |p| <= |t| && forall k :: 0 <= k < |p| ==> t[i + k] == p[k]
  {
    if i + |p| <= |t| {
      var s := t[i..i + |p|];
      assert forall k :: 0 <= k < |p| ==> s[k] == t[i + k];
    }
  }

  /** A one-line pattern that begins inside whole lines ends inside them. */
  lemma {:induction false} StartsInside(p: string, x: string, i: nat, pat: string)
    requires WholeLines(p) && i < |p| && Lacks(pat, '\n')
    ensures StartsAt(p + x, i, pat) <==> StartsAt(p, i, pat)
    ensures StartsAt(p, i, pat) ==> i + |pat| < |p|
  {
    StartsChars(p + x, i, pat);
    StartsChars(p, i, pat);
    assert (p + x)[i + (|p| - 1 - i)] == '\n';
  }

  ghost predicate OneLine(h: Heading) { Lacks(Pattern(h), '\n') }

  lemma {:induction false} MatchesBefore(h: Heading, p: string, x: string, i: nat)
    requires WholeLines(p) && OneLine(h) && i < |p|
    ensures Matches(h, p + x, i) <==> Matches(h, p, i)
  {
    StartsInside(p, x, i, Pattern(h));
    if StartsAt(p, i, Pattern(h)) { BlankSplit(p, x, i + |Pattern(h)|); }
  }

  lemma {:induction false} BlankShift(p: string, x: string, j: nat)
    requires j <= |x|
    ensures BlankToLineEnd(p + x, |p| + j) <==> BlankToLineEnd(x, j)
    decreases |x| - j
  {
    if j < |x| { BlankShift(p, x, j + 1); }
  }

  lemma {:induction false} MatchesBehind(h: Heading, p: string, x: string, i: nat)
    requires WholeLines(p) && i <= |x|
    ensures Matches(h, p + x, |p| + i) <==> Matches(h, x, i)
  {
    var pat := Pattern(h);
    if i + |pat| <= |x| {
      assert (p + x)[|p| + i..|p| + i + |pat|] == x[i..i + |pat|];
      if h.Unreleased? { BlankShift(p, x, i + |pat|); }
    }
  }

  /** Searching whole lines and then the rest is searching the whole text. */
  lemma {:induction false} FindSplit(h: Heading, p: string, x: string)
    requires WholeLines(p) && OneLine(h)
    ensures Find(h, p + x) == if Find(h, p) < |p| then Find(h, p) else |p| + Find(h, x)
  {
    hide Matches, FindFrom;
    var r := if Find(h, p) < |p| then Find(h, p) else |p| + Find(h, x);
    forall j | 0 <= j < r ensures !Matches(h, p + x, j) {
      if j < |p| { MatchesBefore(h, p, x, j); } else { MatchesBehind(h, p, x, j - |p|); }
    }
    if r < |p| {
      MatchesBefore(h, p, x, r);
    } else if r < |p + x| {
      MatchesBehind(h, p, x, r - |p|);
    }
    FirstIs(h, p + x, r);
  }

  lemma {:induction false} FirstIs(h: Heading, t: string, r: nat)
    requires r <= |t| && (r < |t| ==> Matches(h, t, r)) && forall j :: 0 <= j < r ==> !Matches(h, t, j)
    ensures Find(h, t) == r
  {
  }

  // ---- cutting a text at a known line ----

  lemma {:induction false} NewlineIs(t: string, i: nat, r: nat)
    requires i <= r < |t| && t[r] == '\n' && forall j :: i <= j < r ==> t[j] != '\n'
    ensures IndexOfNewline(t, i) == r
  {
  }

  /** A heading line, and behind it whatever comes up to the next heading. */
  lemma {:induction false} CutHere(p: string, l: string, x: string, headingLength: nat)
    requires Lacks(l, '\n') && headingLength <= |l|
    ensures CutAt(p + (l + "\n") + x, |p|, headingLength)
         == Cut(p, l + "\n", x[..Find(Any, x)], x[Find(Any, x)..])
  {
    var t := p + (l + "\n") + x;
    NewlineIs(t, |p| + headingLength, |p| + |l|);
    assert t[|p| + |l| + 1..] == x;
    assert t[..|p|] == p && t[|p|..|p| + |l| + 1] == l + "\n";
  }

  lemma {:induction false} BodyInside(p: string, z: string, i: nat, n: nat)
    requires WholeLines(p) && i + n < |p|
    ensures BodyStart(p + z, i, n) == BodyStart(p, i, n) <= |p|
    ensures WholeLines(p[BodyStart(p, i, n)..])
  {
    var e := IndexOfNewline(p, i + n);
    assert p[|p| - 1] == '\n';
    assert e < |p|;
    NewlineIs(p + z, i + n, e);
  }

  lemma {:induction false} RawInside(q: string, z: string)
    requires WholeLines(q) && Matches(Any, z, 0)
    ensures (q + z)[..Find(Any, q + z)] == q[..Find(Any, q)]
  {
    FindSplit(Any, q, z);
    FirstIs(Any, z, 0);
  }

  /** A section that begins inside whole lines is the same whatever heading follows them. */
  lemma {:induction false} CutBefore(p: string, z: string, h: Heading)
    requires WholeLines(p) && OneLine(h) && Find(h, p) < |p| && Matches(Any, z, 0)
    ensures SectionCut(h, p + z).Some? && SectionCut(h, p).Some?
    ensures SectionCut(h, p + z).value.raw == SectionCut(h, p).value.raw
  {
    hide FindFrom;
    var i, n := Find(h, p), |Pattern(h)|;
    FindSplit(h, p, z);
    StartsInside(p, "", i, Pattern(h));
    BodyInside(p, z, i, n);
    var start := BodyStart(p, i, n);
    assert (p + z)[start..] == p[start..] + z;
    RawInside(p[start..], z);
  }

  lemma {:induction false} BodyStartBehind(p: string, x: string, i: nat, n: nat)
    requires i + n <= |x|
    ensures BodyStart(p + x, |p| + i, n) == |p| + BodyStart(x, i, n) <= |p + x|
  {
    NewlineBehind(p, x, i + n);
    hide IndexOfNewline;
  }

  lemma {:induction false} CutBehind(p: string, x: string, i: nat, n: nat)
    requires i + n <= |x|
    ensures CutAt(p + x, |p| + i, n).raw == CutAt(x, i, n).raw
  {
    BodyStartBehind(p, x, i, n);
    hide FindFrom, BodyStart, IndexOfNewline;
    var start := BodyStart(x, i, n);
    assert (p + x)[|p| + start..] == x[start..];
  }

  lemma {:induction false} NewlineBehind(p: string, x: string, i: nat)
    requires i <= |x|
    ensures IndexOfNewline(p + x, |p| + i) == |p| + IndexOfNewline(x, i)
    decreases |x| - i
  {
    if i < |x| && x[i] != '\n' { NewlineBehind(p, x, i + 1); }
  }

  // ---- what the cut at Unreleased looks like ----

  ghost predicate UnreleasedCut(t: string, c: Cut) {
    && t == c.before + c.line + c.raw + c.after
    && NewlinesOnly(t)
    && WholeLines(c.before) && Find(Unreleased, c.before) == |c.before|
    && StartsAt(c.line, 0, UNRELEASED)
    && (forall i :: 0 <= i < |c.line| - 1 ==> c.line[i] != '\n')
    && (c.raw + c.after != "" ==> WholeLines(c.line))
    && Find(Any, c.raw + c.after) == |c.raw|
    && (c.after != "" ==> WholeLines(c.raw) && Matches(Any, c.after, 0))
  }

  lemma {:induction false} LineStartEndsWhole(t: string, i: nat)
    requires NewlinesOnly(t) && i <= |t| && AtLineStart(t, i)
    ensures WholeLines(t[..i])
  {
  }

  lemma {:induction false} LineOf(t: string, i: nat, n: nat)
    requires i + n <= |t| && forall k :: i <= k < i + n ==> t[k] != '\n'
    ensures var start := BodyStart(t, i, n);
      && i + n <= start <= |t|
      && (forall k :: i <= k < start - 1 ==> t[k] != '\n')
      && (start < |t| ==> start > i && t[start - 1] == '\n')
  {
  }

  lemma {:induction false} RestOf(rest: string)
    requires NewlinesOnly(rest)
    ensures var k := Find(Any, rest);
      k < |rest| ==> WholeLines(rest[..k]) && Matches(Any, rest[k..], 0)
  {
    var k := Find(Any, rest);
    if k < |rest| {
      LineStartEndsWhole(rest, k);
      assert rest == rest[..k] + rest[k..];
      MatchesBehind(Any, rest[..k], rest[k..], 0);
    }
  }

  lemma {:induction false} BeforeUnreleased(t: string)
    requires NewlinesOnly(t)
    ensures var p := t[..Find(Unreleased, t)];
      Find(Unreleased, t) < |t| ==> WholeLines(p) && Find(Unreleased, p) == |p|
  {
    hide BlankToLineEnd, StartsAt;
    var i := Find(Unreleased, t);
    if i < |t| {
      LineStartEndsWhole(t, i);
      hide Matches, WholeLines, NewlinesOnly;
      assert t == t[..i] + t[i..];
      FindSplit(Unreleased, t[..i], t[i..]);
    }
  }

  lemma {:induction false} UnreleasedLine(t: string, i: nat)
    requires i <= |t| && StartsAt(t, i, UNRELEASED)
    ensures var line := t[i..BodyStart(t, i, |UNRELEASED|)];
      && StartsAt(line, 0, UNRELEASED)
      && (forall k :: 0 <= k < |line| - 1 ==> line[k] != '\n')
      && (BodyStart(t, i, |UNRELEASED|) < |t| ==> WholeLines(line))
  {
    StartsChars(t, i, UNRELEASED);
    LineOf(t, i, |UNRELEASED|);
    StartsChars(t[i..BodyStart(t, i, |UNRELEASED|)], 0, UNRELEASED);
  }

  lemma {:induction false} CutPieces(t: string, i: nat, n: nat)
    requires i + n <= |t|
    ensures var c := CutAt(t, i, n);
      && c.before + c.line + c.raw + c.after == t
      && c.raw + c.after == t[BodyStart(t, i, n)..]
  {
    var c, start := CutAt(t, i, n), BodyStart(t, i, n);
    assert c.raw + c.after == t[start..];
    assert c.before + c.line == t[..start];
    assert c.before + c.line + c.raw + c.after == c.before + c.line + (c.raw + c.after);
  }

  lemma {:induction false} CutAtUnreleased(t: string)
    requires NewlinesOnly(t) && SectionCut(Unreleased, t).Some?
    ensures UnreleasedCut(t, SectionCut(Unreleased, t).value)
  {
    var i := Find(Unreleased, t);
    BeforeUnreleased(t);
    UnreleasedLine(t, i);
    CutPieces(t, i, |UNRELEASED|);
    RestOf(t[BodyStart(t, i, |UNRELEASED|)..]);
  }

  // ---- patterns on known lines ----

  /** `## [a]...` opens with `## [b]` only when a is b. */
  lemma {:induction false} BracketsDecide(a: string, b: string, s: string)
    requires Lacks(a, ']') && Lacks(b, ']')
    ensures StartsAt("## [" + a + "]" + s, 0, "## [" + b + "]") <==> a == b
  {
    var t, p := "## [" + a + "]" + s, "## [" + b + "]";
    assert t[4 + |a|] == ']' && p[4 + |b|] == ']';
    StartsChars(t, 0, p);
    if a == b {
      assert t == p + s;
    } else if |a| == |b| {
      var k :| 0 <= k < |a| && a[k] != b[k];
      assert t[4 + k] == a[k] && p[4 + k] == b[k];
    } else if |a| < |b| {
      assert p[4 + |a|] == b[|a|];
    } else {
      assert t[4 + |b|] == a[|b|];
    }
  }

  lemma {:induction false} SearchOneLine(h: Heading, l: string)
    requires forall i :: 0 <= i < |l| ==> !IsTerminator(l[i])
    ensures Find(h, l + "\n") == if Matches(h, l + "\n", 0) then 0 else |l| + 1
  {
    var t := l + "\n";
    forall j | 0 < j < |t| ensures !Matches(h, t, j) {
      assert t[j - 1] == l[j - 1];
    }
    FirstIs(h, t, if Matches(h, t, 0) then 0 else |t|);
  }

  lemma {:induction false} VersionedIsAny(v: string, t: string, i: nat)
    requires i <= |t| && Matches(Versioned(v), t, i)
    ensures Matches(Any, t, i)
  {
    var p := Pattern(Versioned(v));
    assert t[i..i + 3] == t[i..i + |p|][..3] == p[..3] == "## ";
  }

  // ---- trimming ----

  lemma {:induction false} TrimStartSlice(t: string)
    ensures |TrimStart(t)| <= |t| && TrimStart(t) == t[|t| - |TrimStart(t)|..]
    ensures TrimStart(t) != "" ==> !IsSpace(TrimStart(t)[0])
  {
    if t != "" && IsSpace(t[0]) { TrimStartSlice(t[1..]); }
  }

  lemma {:induction false} TrimEndSlice(t: string)
    ensures |TrimEnd(t)| <= |t| && TrimEnd(t) == t[..|TrimEnd(t)|]
    ensures TrimEnd(t) != "" ==> !IsSpace(TrimEnd(t)[|TrimEnd(t)| - 1])
  {
    if t != "" && IsSpace(t[|t| - 1]) { TrimEndSlice(t[..|t| - 1]); }
  }

  ghost predicate Trimmed(b: string) {
    b != "" ==> !IsSpace(b[0]) && !IsSpace(b[|b| - 1])
  }

  lemma {:induction false} TrimIsSlice(t: string) returns (a: nat)
    ensures a + |Trim(t)| <= |t| && t[a..a + |Trim(t)|] == Trim(t) && Trimmed(Trim(t))
  {
    var s := TrimStart(t);
    TrimStartSlice(t);
    TrimEndSlice(s);
    a := |t| - |s|;
    assert t[a..][..|Trim(t)|] == t[a..a + |Trim(t)|];
  }

  lemma {:induction false} TrimPadded(b: string)
    requires Trimmed(b)
    ensures Trim("\n" + b + "\n" + "\n") == b
    ensures Trim("\n") == ""
  {
    var t := "\n" + b + "\n" + "\n";
    assert t[1..] == b + "\n" + "\n";
    assert "\n"[1..] == "" && TrimStart("\n") == "";
    var u, v := b + "\n" + "\n", b + "\n";
    assert t[0] == '\n' && t[1..] == u;
    assert TrimStart(t) == TrimStart(u);
    if b == "" {
      assert u[0] == '\n' && u[1..] == "\n";
      assert TrimStart(u) == TrimStart("\n");
    } else {
      assert u[0] == b[0] && TrimStart(u) == u;
      assert u[..|u| - 1] == v && v[..|v| - 1] == b;
      assert TrimEnd(b) == b;
      assert TrimEnd(v) == TrimEnd(b);
    }
  }

  // ---- the rewritten text ----

  /** A version or heading name that fits inside one pair of brackets on one line. */
  ghost predicate Bracketable(v: string) {
    (forall i :: 0 <= i < |v| ==> !IsTerminator(v[i]) && v[i] != ']') && v != "Unreleased"
  }

  ghost predicate OneLineText(s: string) { forall i :: 0 <= i < |s| ==> !IsTerminator(s[i]) }

  /** What stands behind the fresh Unreleased line: a blank line, the version's line and the moved body. */
  function Behind(versionLine: string, body: string, after: string): string {
    "\n" + (versionLine + "\n" + BodyAndAfter(body, after))
  }

  function BodyAndAfter(body: string, after: string): string {
    "\n" + (body + "\n" + ("\n" + after))
  }

  lemma {:induction false} Layout(c: Cut, version: string, date: string)
    ensures c.before + (UNRELEASED + "\n\n" + VersionLine(version, date) + "\n\n" + Trim(c.raw) + "\n\n") + c.after
         == c.before + (UNRELEASED + "\n") + Behind(VersionLine(version, date), Trim(c.raw), c.after)
  {
    var b, v := Trim(c.raw), VersionLine(version, date);
    assert "\n\n" == "\n" + "\n";
    assert UNRELEASED + "\n\n" + v + "\n\n" + b + "\n\n"
        == UNRELEASED + "\n" + ("\n" + (v + "\n" + ("\n" + (b + "\n" + "\n"))));
    assert ("\n" + (v + "\n" + ("\n" + (b + "\n" + "\n")))) + c.after == Behind(v, b, c.after);
  }

  lemma {:induction false} SliceHeading(r: string, a: nat, b: string, j: nat)
    requires a + |b| <= |r| && r[a..a + |b|] == b && 0 < j < |b|
    ensures Matches(Any, b + "\n", j) ==> Matches(Any, r, a + j)
  {
    assert forall k :: 0 <= k < |b| ==> b[k] == r[a + k];
    StartsInside(b + "\n", "", j, "## ");
    StartsChars(b + "\n", j, "## ");
    StartsChars(r, a + j, "## ");
  }

  /** In the moved body only the very first line can be a heading that was not one before. */
  lemma {:induction false} HeadingsOfBody(raw: string, after: string, b: string)
    requires Find(Any, raw + after) == |raw| && b == Trim(raw) && NewlinesOnly(raw)
    ensures Find(Any, b + "\n") == if StartsAt(b, 0, "## ") then 0 else |b| + 1
    ensures forall j :: 0 < j <= |b| ==> !Matches(Any, b + "\n", j)
  {
    var a := TrimIsSlice(raw);
    var t := b + "\n";
    StartsInside(t, "", 0, "## ");
    StartsChars(b, 0, "## ");
    StartsChars(t, 0, "## ");
    assert (raw + after)[a..a + |b|] == b;
    forall j | 0 < j < |t| ensures !Matches(Any, t, j) {
      if j < |b| { SliceHeading(raw + after, a, b, j); }
    }
    FirstIs(Any, t, if StartsAt(b, 0, "## ") then 0 else |t|);
  }

  lemma {:induction false} BlankLine(h: Heading, x: string)
    requires OneLine(h)
    ensures Find(h, "\n" + x) == 1 + Find(h, x)
  {
    StartsInside("\n", "", 0, Pattern(h));
    assert !Matches(h, "\n", 0) by { assert |Pattern(h)| >= 3; }
    FirstIs(h, "\n", 1);
    FindSplit(h, "\n", x);
  }

  lemma {:induction false} VersionLineIsHeading(version: string, date: string, x: string)
    ensures Matches(Any, VersionLine(version, date) + x, 0)
    ensures Matches(Versioned(version), VersionLine(version, date) + x, 0)
  {
    var t := VersionLine(version, date) + x;
    StartsChars(t, 0, "## ");
    assert t[0..|Pattern(Versioned(version))|] == Pattern(Versioned(version));
  }

  lemma {:induction false} UnreleasedIsHeading(x: string)
    ensures Matches(Unreleased, UNRELEASED + "\n" + x, 0)
    ensures Matches(Any, UNRELEASED + "\n" + x, 0)
  {
    var t := UNRELEASED + "\n" + x;
    assert t[0..|UNRELEASED|] == UNRELEASED;
    assert t[|UNRELEASED|] == '\n';
    StartsChars(t, 0, "## ");
  }

  lemma {:induction false} SectionAt(h: Heading, p: string, l: string, x: string)
    requires WholeLines(p) && OneLine(h) && Find(h, p) == |p|
    requires Lacks(l, '\n') && Matches(h, (l + "\n") + x, 0) && |Pattern(h)| <= |l|
    ensures SectionCut(h, p + (l + "\n") + x)
         == Some(Cut(p, l + "\n", x[..Find(Any, x)], x[Find(Any, x)..]))
  {
    var z := (l + "\n") + x;
    assert p + (l + "\n") + x == p + z;
    FindSplit(h, p, z);
    FirstIs(h, z, 0);
    CutHere(p, l, x, |Pattern(h)|);
  }

  /** After the move the Unreleased section is empty. */
  lemma {:induction false} MovedUnreleasedIsEmpty(t: string, version: string, date: string)
    requires NewlinesOnly(t) && SectionCut(Unreleased, t).Some?
    ensures var c := SectionCut(Unreleased, t).value;
      var moved := c.before + (UNRELEASED + "\n") + Behind(VersionLine(version, date), Trim(c.raw), c.after);
      Body(SectionCut(Unreleased, moved)) == Some("")
  {
    var c := SectionCut(Unreleased, t).value;
    var x := Behind(VersionLine(version, date), Trim(c.raw), c.after);
    CutAtUnreleased(t);
    UnreleasedIsHeading(x);
    SectionAt(Unreleased, c.before, UNRELEASED, x);
    NextIsVersion(version, date, Trim(c.raw), c.after);
    assert x[..1] == "\n";
    TrimPadded("");
  }

  lemma {:induction false} NextIsVersion(version: string, date: string, body: string, after: string)
    ensures Find(Any, Behind(VersionLine(version, date), body, after)) == 1
  {
    var v, x := VersionLine(version, date), BodyAndAfter(body, after);
    BlankLine(Any, v + "\n" + x);
    assert v + "\n" + x == v + ("\n" + x);
    VersionLineIsHeading(version, date, "\n" + x);
    FirstIs(Any, v + "\n" + x, 0);
  }

  lemma {:induction false} SkipLine(h: Heading, l: string, x: string)
    requires OneLine(h) && OneLineText(l) && !Matches(h, l + "\n", 0)
    ensures Find(h, (l + "\n") + x) == |l| + 1 + Find(h, x)
  {
    SearchOneLine(h, l);
    FindSplit(h, l + "\n", x);
  }

  lemma {:induction false} NotThisBracket(a: string, b: string, s: string)
    requires Lacks(a, ']') && Lacks(b, ']') && a != b
    ensures !Matches(Versioned(b), ("## [" + a + "]" + s) + "\n", 0)
  {
    BracketsDecide(a, b, s + "\n");
    assert "## [" + a + "]" + s + "\n" == "## [" + a + "]" + (s + "\n");
  }

  /** How far the moved body and its blank lines reach: up to the next heading, unless the body opens
      with one itself. */
  lemma {:induction false} BodyReaches(c: Cut)
    requires NewlinesOnly(c.raw) && Find(Any, c.raw + c.after) == |c.raw|
    requires c.after != "" ==> Matches(Any, c.after, 0)
    ensures var b := Trim(c.raw);
      Find(Any, BodyAndAfter(b, c.after)) == if StartsAt(b, 0, "## ") then 1 else |b| + 3
  {
    var b := Trim(c.raw);
    HeadingsOfBody(c.raw, c.after, b);
    BlankLine(Any, b + "\n" + ("\n" + c.after));
    FindSplit(Any, b + "\n", "\n" + c.after);
    BlankLine(Any, c.after);
    FirstIs(Any, c.after, 0);
  }

  lemma {:induction false} NewVersionSection(before: string, version: string, date: string, x: string)
    requires Bracketable(version) && OneLineText(date)
    requires WholeLines(before) && Find(Versioned(version), before) == |before|
    ensures var moved := before + (UNRELEASED + "\n") + ("\n" + (VersionLine(version, date) + "\n" + x));
      Body(SectionCut(Versioned(version), moved)) == Some(Trim(x[..Find(Any, x)]))
  {
    var h, v := Versioned(version), VersionLine(version, date);
    NoVersionInFront(h, before);
    VersionLineIsHeading(version, date, "\n" + x);
    assert (v + "\n") + x == v + ("\n" + x);
    Regroup(before + (UNRELEASED + "\n"), "\n", v + "\n", x);
    SectionAt(h, before + (UNRELEASED + "\n") + "\n", v, x);
  }

  lemma {:induction false} Joined(a: string, b: string, c: string)
    ensures a + b + c == a + (b + c)
  {
  }

  lemma {:induction false} Regroup(a: string, b: string, c: string, d: string)
    ensures a + (b + (c + d)) == (a + b) + c + d
  {
  }

  lemma {:induction false} ReachedText(c: Cut)
    requires NewlinesOnly(c.raw) && Find(Any, c.raw + c.after) == |c.raw|
    requires c.after != "" ==> Matches(Any, c.after, 0)
    ensures var b := Trim(c.raw);
      var x := BodyAndAfter(b, c.after);
      Trim(x[..Find(Any, x)]) == if StartsAt(b, 0, "## ") then "" else b
  {
    hide Find, Matches, NewlinesOnly;
    var b := Trim(c.raw);
    var x := BodyAndAfter(b, c.after);
    BodyReaches(c);
    var a := TrimIsSlice(c.raw);
    TrimPadded(b);
    assert x[..1] == "\n";
    assert x == ("\n" + b + "\n" + "\n") + c.after;
    assert x[..|b| + 3] == "\n" + b + "\n" + "\n";
  }

  lemma {:induction false} NoneUpTo(h: Heading, t: string, i: nat)
    requires i <= Find(h, t) && WholeLines(t[..i]) && OneLine(h)
    ensures Find(h, t[..i]) == i
  {
    assert t == t[..i] + t[i..];
    FindSplit(h, t[..i], t[i..]);
  }

  lemma {:induction false} NoVersionBefore(t: string, version: string)
    requires NewlinesOnly(t) && SectionCut(Unreleased, t).Some? && Bracketable(version)
    requires Find(Unreleased, t) <= Find(Versioned(version), t)
    ensures var p := SectionCut(Unreleased, t).value.before; Find(Versioned(version), p) == |p|
  {
    hide FindFrom, Matches, BodyStart, WholeLines;
    BeforeUnreleased(t);
    NoneUpTo(Versioned(version), t, Find(Unreleased, t));
  }

  lemma {:induction false} NoVersionInFront(h: Heading, before: string)
    requires h.Versioned? && Bracketable(h.version) && WholeLines(before) && Find(h, before) == |before|
    ensures var p := before + (UNRELEASED + "\n") + "\n";
      WholeLines(p) && Find(h, p) == |p|
  {
    var u := "## [" + "Unreleased" + "]" + "";
    assert u == UNRELEASED;
    NotThisBracket("Unreleased", h.version, "");
    SkipLine(h, UNRELEASED, "\n" + "");
    BlankLine(h, "");
    assert before + (UNRELEASED + "\n") + "\n" == before + ((UNRELEASED + "\n") + ("\n" + ""));
    FindSplit(h, before, (UNRELEASED + "\n") + ("\n" + ""));
  }

  // ---- the other sections ----

  lemma {:induction false} UnreleasedBrackets()
    ensures UNRELEASED == "## [" + "Unreleased" + "]"
  {
  }

  lemma {:induction false} OldLineIsNoVersion(c: Cut, w: string)
    requires StartsAt(c.line, 0, UNRELEASED) && Bracketable(w)
    ensures !Matches(Versioned(w), c.line + (c.raw + c.after), 0)
  {
    hide BlankToLineEnd;
    var z := c.line + (c.raw + c.after);
    assert z == UNRELEASED + z[|UNRELEASED|..] by { StartsChars(c.line, 0, UNRELEASED); }
    UnreleasedBrackets();
    BracketsDecide("Unreleased", w, z[|UNRELEASED|..]);
  }

  lemma {:induction false} NewlinesSlice(s: string, i: nat, j: nat)
    requires NewlinesOnly(s) && i <= j <= |s|
    ensures NewlinesOnly(s[i..j])
  {
  }

  lemma {:induction false} InsideLine(c: Cut, w: string, j: nat)
    requires 0 < j < |c.line| && c.line[j - 1] != '\n' && NewlinesOnly(c.line)
    ensures !Matches(Versioned(w), c.line + (c.raw + c.after), j)
  {
    hide StartsAt, BlankToLineEnd;
    assert (c.line + (c.raw + c.after))[j - 1] == c.line[j - 1];
  }

  lemma {:induction false} InsideRaw(c: Cut, w: string, j: nat)
    requires |c.line| <= j < |c.line + c.raw| && WholeLines(c.line) && Find(Any, c.raw + c.after) == |c.raw|
    ensures !Matches(Versioned(w), c.line + (c.raw + c.after), j)
  {
    hide Matches, FindFrom;
    MatchesBehind(Any, c.line, c.raw + c.after, j - |c.line|);
    if Matches(Versioned(w), c.line + (c.raw + c.after), j) { VersionedIsAny(w, c.line + (c.raw + c.after), j); }
  }

  lemma {:induction false} NotInOldSection(t: string, c: Cut, w: string, j: nat)
    requires UnreleasedCut(t, c) && Bracketable(w) && j < |c.line + c.raw|
    ensures !Matches(Versioned(w), c.line + (c.raw + c.after), j)
  {
    if j == 0 {
      OldLineIsNoVersion(c, w);
    } else if j < |c.line| {
      NewlinesSlice(t, |c.before|, |c.before + c.line|);
      assert c.line == t[|c.before|..|c.before + c.line|];
      InsideLine(c, w, j);
    } else {
      InsideRaw(c, w, j);
    }
  }

  lemma {:induction false} FirstBehind(h: Heading, p: string, x: string)
    requires forall j :: 0 <= j < |p| ==> !Matches(h, p + x, j)
    requires x == "" || WholeLines(p)
    ensures Find(h, p + x) == |p| + Find(h, x)
  {
    hide Matches, FindFrom;
    var r := |p| + Find(h, x);
    if x == "" {
      assert p + x == p;
    } else {
      forall j | |p| <= j < r ensures !Matches(h, p + x, j) {
        MatchesBehind(h, p, x, j - |p|);
      }
      if r < |p + x| { MatchesBehind(h, p, x, r - |p|); }
    }
    FirstIs(h, p + x, r);
  }

  lemma {:induction false} OldReach(t: string, c: Cut, w: string)
    requires UnreleasedCut(t, c) && Bracketable(w)
    ensures Find(Versioned(w), c.line + (c.raw + c.after)) == |c.line + c.raw| + Find(Versioned(w), c.after)
  {
    var p := c.line + c.raw;
    assert c.line + (c.raw + c.after) == p + c.after;
    forall j | 0 <= j < |p| ensures !Matches(Versioned(w), p + c.after, j) {
      NotInOldSection(t, c, w, j);
    }
    FirstBehind(Versioned(w), p, c.after);
  }

  lemma {:induction false} SkipBody(w: string, raw: string, after: string, b: string, x: string)
    requires Find(Any, raw + after) == |raw| && b == Trim(raw) && NewlinesOnly(raw)
    requires Bracketable(w) && !StartsAt(b, 0, Pattern(Versioned(w)))
    ensures Find(Versioned(w), b + "\n" + x) == |b| + 1 + Find(Versioned(w), x)
  {
    var h, l := Versioned(w), b + "\n";
    HeadingsOfBody(raw, after, b);
    StartsInside(l, "", 0, Pattern(h));
    StartsChars(b, 0, Pattern(h));
    StartsChars(l, 0, Pattern(h));
    forall j | 0 <= j < |l| ensures !Matches(h, l, j) {
      if Matches(h, l, j) { VersionedIsAny(w, l, j); }
    }
    FirstIs(h, l, |l|);
    FindSplit(h, l, x);
  }

  lemma {:induction false} BodyReach(c: Cut, w: string)
    requires Find(Any, c.raw + c.after) == |c.raw| && NewlinesOnly(c.raw)
    requires Bracketable(w) && !StartsAt(Trim(c.raw), 0, Pattern(Versioned(w)))
    ensures Find(Versioned(w), BodyAndAfter(Trim(c.raw), c.after)) == |Trim(c.raw)| + 3 + Find(Versioned(w), c.after)
  {
    var h, b := Versioned(w), Trim(c.raw);
    BlankLine(h, b + "\n" + ("\n" + c.after));
    SkipBody(w, c.raw, c.after, b, "\n" + c.after);
    BlankLine(h, c.after);
  }

  lemma {:induction false} LinesReach(version: string, date: string, w: string, x: string)
    requires Bracketable(version) && OneLineText(date) && Bracketable(w) && w != version
    ensures var v := VersionLine(version, date);
      Find(Versioned(w), (UNRELEASED + "\n") + ("\n" + (v + "\n" + x)))
        == |UNRELEASED| + |v| + 3 + Find(Versioned(w), x)
  {
    hide Find, Matches, BlankToLineEnd, StartsAt;
    var h, v := Versioned(w), VersionLine(version, date);
    assert UNRELEASED == "## [" + "Unreleased" + "]" + "";
    assert v == "## [" + version + "]" + (" - " + date);
    NotThisBracket("Unreleased", w, "");
    NotThisBracket(version, w, " - " + date);
    SkipLine(h, UNRELEASED, "\n" + (v + "\n" + x));
    BlankLine(h, v + "\n" + x);
    SkipLine(h, v, x);
  }

  lemma {:induction false} NewReach(c: Cut, version: string, date: string, w: string)
    requires Find(Any, c.raw + c.after) == |c.raw| && NewlinesOnly(c.raw)
    requires Bracketable(version) && OneLineText(date) && Bracketable(w) && w != version
    requires !StartsAt(Trim(c.raw), 0, Pattern(Versioned(w)))
    ensures var z := (UNRELEASED + "\n") + Behind(VersionLine(version, date), Trim(c.raw), c.after);
      Find(Versioned(w), z) == |z| - |c.after| + Find(Versioned(w), c.after)
  {
    BodyReach(c, w);
    LinesReach(version, date, w, BodyAndAfter(Trim(c.raw), c.after));
  }

  lemma {:induction false} SectionIs(h: Heading, t: string, i: nat)
    requires i == Find(h, t) < |t|
    ensures i + |Pattern(h)| <= |t|
    ensures Body(SectionCut(h, t)) == Some(Trim(CutAt(t, i, |Pattern(h)|).raw))
  {
  }

  lemma {:induction false} SectionIsNot(h: Heading, t: string)
    requires Find(h, t) == |t|
    ensures Body(SectionCut(h, t)) == None
  {
  }

  lemma {:induction false} SectionBehind(h: Heading, p: string, x: string)
    requires Find(h, p + x) == |p| + Find(h, x)
    ensures Body(SectionCut(h, p + x)) == Body(SectionCut(h, x))
  {
    if Find(h, x) == |x| {
      SectionIsNot(h, x);
      SectionIsNot(h, p + x);
    } else {
      SectionShifts(h, p, x, Find(h, x));
    }
  }

  lemma {:induction false} SectionShifts(h: Heading, p: string, x: string, i: nat)
    requires i == Find(h, x) < |x| && Find(h, p + x) == |p| + i
    ensures Body(SectionCut(h, p + x)) == Body(SectionCut(h, x))
  {
    hide *;
    assert i + |Pattern(h)| <= |x| && Body(SectionCut(h, x)) == Some(Trim(CutAt(x, i, |Pattern(h)|).raw)) by {
      SectionIs(h, x, i);
    }
    assert Body(SectionCut(h, p + x)) == Some(Trim(CutAt(p + x, |p| + i, |Pattern(h)|).raw)) by {
      SectionIs(h, p + x, |p| + i);
    }
    CutBehind(p, x, i, |Pattern(h)|);
  }

  lemma {:induction false} SectionBehindBoth(h: Heading, p: string, m: string, n: string, x: string)
    requires Find(h, p + (m + x)) == |p + m| + Find(h, x)
    requires Find(h, p + (n + x)) == |p + n| + Find(h, x)
    ensures Body(SectionCut(h, p + (m + x))) == Body(SectionCut(h, p + (n + x)))
  {
    hide Find, SectionCut, Body;
    assert p + (m + x) == p + m + x && p + (n + x) == p + n + x;
    SectionBehind(h, p + m, x);
    SectionBehind(h, p + n, x);
  }

  lemma {:induction false} SectionInFront(h: Heading, p: string, y: string, z: string)
    requires WholeLines(p) && OneLine(h) && Find(h, p) < |p| && Matches(Any, y, 0) && Matches(Any, z, 0)
    ensures Body(SectionCut(h, p + y)) == Body(SectionCut(h, p + z))
  {
    CutBefore(p, y, h);
    CutBefore(p, z, h);
  }

  lemma {:induction false} EndsWithAfter(v: string, b: string, after: string) returns (n: string)
    ensures (UNRELEASED + "\n") + Behind(v, b, after) == n + after
  {
    var z := (UNRELEASED + "\n") + Behind(v, b, after);
    n := z[..|z| - |after|];
    assert z[|z| - |after|..] == after;
  }

  lemma {:induction false} OldLineIsHeading(t: string, c: Cut)
    requires UnreleasedCut(t, c)
    ensures Matches(Any, c.line + (c.raw + c.after), 0)
  {
    StartsChars(c.line, 0, UNRELEASED);
    StartsChars(c.line + (c.raw + c.after), 0, "## ");
  }

  lemma {:induction false} BehindUnreleased(t: string, c: Cut, version: string, date: string, w: string)
    requires UnreleasedCut(t, c) && NewlinesOnly(c.raw)
    requires Bracketable(version) && OneLineText(date) && Bracketable(w) && w != version
    requires !StartsAt(Trim(c.raw), 0, Pattern(Versioned(w)))
    requires Find(Versioned(w), c.before) == |c.before|
    ensures var z := (UNRELEASED + "\n") + Behind(VersionLine(version, date), Trim(c.raw), c.after);
      Body(SectionCut(Versioned(w), c.before + z))
        == Body(SectionCut(Versioned(w), c.before + (c.line + (c.raw + c.after))))
  {
    hide Find, SectionCut, Body, Behind, VersionLine, Trim, StartsAt, NewlinesOnly;
    var h, m := Versioned(w), c.line + c.raw;
    var n := EndsWithAfter(VersionLine(version, date), Trim(c.raw), c.after);
    NewReach(c, version, date, w);
    OldReach(t, c, w);
    assert c.line + (c.raw + c.after) == m + c.after;
    FindBoth(h, c.before, m, n, c.after);
    SectionBehindBoth(h, c.before, m, n, c.after);
  }

  lemma {:induction false} FindBoth(h: Heading, p: string, m: string, n: string, x: string)
    requires WholeLines(p) && OneLine(h) && Find(h, p) == |p|
    requires Find(h, m + x) == |m| + Find(h, x) && Find(h, n + x) == |n| + Find(h, x)
    ensures Find(h, p + (m + x)) == |p + m| + Find(h, x)
    ensures Find(h, p + (n + x)) == |p + n| + Find(h, x)
  {
    FindSplit(h, p, m + x);
    FindSplit(h, p, n + x);
  }

  lemma {:induction false} RawIsSlice(t: string, c: Cut)
    requires t == c.before + c.line + c.raw + c.after && NewlinesOnly(t)
    ensures NewlinesOnly(c.raw)
  {
    assert forall i :: 0 <= i < |c.raw| ==> c.raw[i] == t[|c.before| + |c.line| + i];
  }

  lemma {:induction false} CutJoins(t: string, c: Cut)
    requires UnreleasedCut(t, c)
    ensures t == c.before + c.line + c.raw + c.after == c.before + (c.line + (c.raw + c.after))
    ensures NewlinesOnly(t)
  {
    hide Find, Matches, NewlinesOnly;
  }

  /** Every other version's section is untouched, provided the moved body does not open with that version's own
      heading or the version has a heading before Unreleased. */
  lemma {:induction false} OtherSectionsUnchanged(t: string, version: string, date: string, w: string)
    requires NewlinesOnly(t) && SectionCut(Unreleased, t).Some?
    requires Bracketable(version) && OneLineText(date) && Bracketable(w) && w != version
    requires var c := SectionCut(Unreleased, t).value;
      !StartsAt(Trim(c.raw), 0, Pattern(Versioned(w))) || Find(Versioned(w), c.before) < |c.before|
    ensures var c := SectionCut(Unreleased, t).value;
      var moved := c.before + (UNRELEASED + "\n") + Behind(VersionLine(version, date), Trim(c.raw), c.after);
      Body(SectionCut(Versioned(w), moved)) == Body(SectionCut(Versioned(w), t))
  {
    hide *;
    var c := SectionCut(Unreleased, t).value;
    CutAtUnreleased(t);
    CutJoins(t, c);
    RawIsSlice(t, c);
    OthersAtCut(t, c, version, date, w);
    var x := Behind(VersionLine(version, date), Trim(c.raw), c.after);
    assert c.before + (UNRELEASED + "\n") + x == c.before + ((UNRELEASED + "\n") + x);
  }

  /** A heading of the version before Unreleased keeps its section, for the new version as for any other. */
  lemma {:induction false} EarlierSectionStays(t: string, c: Cut, version: string, date: string, w: string)
    requires UnreleasedCut(t, c) && Bracketable(w) && Find(Versioned(w), c.before) < |c.before|
    ensures var z := (UNRELEASED + "\n") + Behind(VersionLine(version, date), Trim(c.raw), c.after);
      Body(SectionCut(Versioned(w), c.before + z))
        == Body(SectionCut(Versioned(w), c.before + (c.line + (c.raw + c.after))))
  {
    BeforeIsWhole(t, c);
    hide Find, Matches, SectionCut, Body, Trim, StartsAt, WholeLines, NewlinesOnly, VersionLine;
    var x := Behind(VersionLine(version, date), Trim(c.raw), c.after);
    OldLineIsHeading(t, c);
    UnreleasedIsHeading(x);
    SectionInFront(Versioned(w), c.before, c.line + (c.raw + c.after), (UNRELEASED + "\n") + x);
  }

  lemma {:induction false} OthersAtCut(t: string, c: Cut, version: string, date: string, w: string)
    requires UnreleasedCut(t, c) && NewlinesOnly(c.raw)
    requires Bracketable(version) && OneLineText(date) && Bracketable(w) && w != version
    requires !StartsAt(Trim(c.raw), 0, Pattern(Versioned(w))) || Find(Versioned(w), c.before) < |c.before|
    ensures var z := (UNRELEASED + "\n") + Behind(VersionLine(version, date), Trim(c.raw), c.after);
      Body(SectionCut(Versioned(w), c.before + z))
        == Body(SectionCut(Versioned(w), c.before + (c.line + (c.raw + c.after))))
  {
    hide *;
    if Find(Versioned(w), c.before) < |c.before| {
      EarlierSectionStays(t, c, version, date, w);
    } else {
      BeforeReach(t, c, w);
      BehindUnreleased(t, c, version, date, w);
    }
  }

  lemma {:induction false} BeforeReach(t: string, c: Cut, w: string)
    requires UnreleasedCut(t, c)
    ensures Find(Versioned(w), c.before) <= |c.before|
  {
  }

  lemma {:induction false} BracketableIsOneLine(w: string)
    requires Bracketable(w)
    ensures OneLine(Versioned(w))
  {
  }

  lemma {:induction false} BeforeIsWhole(t: string, c: Cut)
    requires UnreleasedCut(t, c)
    ensures WholeLines(c.before)
  {
    hide Find, Matches, NewlinesOnly;
  }

  lemma {:induction false} OldSectionIsBehind(t: string, c: Cut, w: string)
    requires UnreleasedCut(t, c) && Bracketable(w) && Find(Versioned(w), c.before) == |c.before|
    ensures Body(SectionCut(Versioned(w), t)) == Body(SectionCut(Versioned(w), c.after))
  {
    hide *;
    var h, m := Versioned(w), c.line + c.raw;
    CutJoins(t, c);
    BeforeIsWhole(t, c);
    BracketableIsOneLine(w);
    OldReach(t, c, w);
    FindSplit(h, c.before, c.line + (c.raw + c.after));
    assert c.before + c.line + c.raw + c.after == (c.before + m) + c.after;
    SectionBehind(h, c.before + m, c.after);
  }

  lemma {:induction false} HeadingFirst(w: string, b: string, x: string)
    requires StartsAt(b, 0, Pattern(Versioned(w)))
    ensures Find(Versioned(w), b + x) == 0 && Body(SectionCut(Versioned(w), b + x)).Some?
  {
    var h := Versioned(w);
    assert (b + x)[0..|Pattern(h)|] == b[0..|Pattern(h)|];
    FirstIs(h, b + x, 0);
    SectionIs(h, b + x, 0);
  }

  lemma {:induction false} NewSectionIsBody(before: string, version: string, date: string, b: string, after: string,
                                            w: string)
    requires Bracketable(version) && OneLineText(date) && Bracketable(w) && w != version
    requires WholeLines(before) && Find(Versioned(w), before) == |before|
    ensures var z := (UNRELEASED + "\n") + Behind(VersionLine(version, date), b, after);
      Body(SectionCut(Versioned(w), before + z)) == Body(SectionCut(Versioned(w), b + "\n" + ("\n" + after)))
  {
    hide Find, SectionCut, Body;
    var h, v, y := Versioned(w), VersionLine(version, date), b + "\n" + ("\n" + after);
    var n := (UNRELEASED + "\n") + "\n" + v + "\n" + "\n";
    LinesReach(version, date, w, BodyAndAfter(b, after));
    BlankLine(h, y);
    FindSplit(h, before, (UNRELEASED + "\n") + Behind(v, b, after));
    assert (UNRELEASED + "\n") + Behind(v, b, after) == n + y;
    assert before + (n + y) == (before + n) + y;
    SectionBehind(h, before + n, y);
  }

  /** What happens otherwise: a moved body that opens with a version's own heading, of which there is none before
      Unreleased, becomes that version's section; before the move the section was the one behind Unreleased. A
      version that had no section gains one. */
  lemma {:induction false} OwnHeadingTakesOver(t: string, version: string, date: string, w: string)
    requires NewlinesOnly(t) && SectionCut(Unreleased, t).Some?
    requires Bracketable(version) && OneLineText(date) && Bracketable(w) && w != version
    requires var c := SectionCut(Unreleased, t).value;
      StartsAt(Trim(c.raw), 0, Pattern(Versioned(w))) && Find(Versioned(w), c.before) == |c.before|
    ensures var c := SectionCut(Unreleased, t).value;
      var moved := c.before + (UNRELEASED + "\n") + Behind(VersionLine(version, date), Trim(c.raw), c.after);
      && Body(SectionCut(Versioned(w), t)) == Body(SectionCut(Versioned(w), c.after))
      && Body(SectionCut(Versioned(w), moved)) == Body(SectionCut(Versioned(w), Trim(c.raw) + "\n" + ("\n" + c.after)))
      && Body(SectionCut(Versioned(w), moved)).Some?
  {
    var c := SectionCut(Unreleased, t).value;
    hide *;
    var b, x := Trim(c.raw), Behind(VersionLine(version, date), Trim(c.raw), c.after);
    CutAtUnreleased(t);
    BeforeIsWhole(t, c);
    OldSectionIsBehind(t, c, w);
    NewSectionIsBody(c.before, version, date, b, c.after, w);
    Joined(c.before, UNRELEASED + "\n", x);
    HeadingFirst(w, b, "\n" + ("\n" + c.after));
    Joined(b, "\n", "\n" + c.after);
  }

  // ---- the whole operation ----

  lemma {:induction false} VersionLineIsOneLine(version: string, date: string)
    requires Bracketable(version) && OneLineText(date)
    ensures NewlinesOnly(VersionLine(version, date))
  {
  }

  lemma {:induction false} UnreleasedIsOneLine()
    ensures NewlinesOnly(UNRELEASED + "\n")
  {
  }

  lemma {:induction false} MovedKeepsNewlines(t: string, c: Cut, version: string, date: string)
    requires UnreleasedCut(t, c) && Bracketable(version) && OneLineText(date)
    ensures NewlinesOnly(c.before + (UNRELEASED + "\n") + Behind(VersionLine(version, date), Trim(c.raw), c.after))
  {
    hide *;
    var a := TrimIsSlice(c.raw);
    var b := Trim(c.raw);
    CutJoins(t, c);
    RawIsSlice(t, c);
    assert c.before == t[..|c.before|] && c.after == t[|t| - |c.after|..|t|];
    NewlinesSlice(t, 0, |c.before|);
    NewlinesSlice(t, |t| - |c.after|, |t|);
    NewlinesSlice(c.raw, a, a + |b|);
    UnreleasedIsOneLine();
    VersionLineIsOneLine(version, date);
    BehindKeepsNewlines(VersionLine(version, date), b, c.after);
    NewlinesConcat(c.before, UNRELEASED + "\n");
    NewlinesConcat(c.before + (UNRELEASED + "\n"), Behind(VersionLine(version, date), b, c.after));
  }

  lemma {:induction false} NewlinesConcat(a: string, b: string)
    requires NewlinesOnly(a) && NewlinesOnly(b)
    ensures NewlinesOnly(a + b)
  {
  }

  lemma {:induction false} BehindKeepsNewlines(v: string, b: string, after: string)
    requires NewlinesOnly(v) && NewlinesOnly(b) && NewlinesOnly(after)
    ensures NewlinesOnly(Behind(v, b, after))
  {
    NewlinesConcat("\n", after);
    NewlinesConcat(b + "\n", "\n" + after);
    NewlinesConcat("\n", b + "\n" + ("\n" + after));
    NewlinesConcat(v + "\n", BodyAndAfter(b, after));
    NewlinesConcat("\n", v + "\n" + BodyAndAfter(b, after));
  }

  lemma {:induction false} EarlierHeading(t: string, w: string)
    requires NewlinesOnly(t) && SectionCut(Unreleased, t).Some? && Bracketable(w)
    ensures var p := SectionCut(Unreleased, t).value.before;
      && (Find(Versioned(w), p) < |p| <==> Find(Versioned(w), t) < Find(Unreleased, t))
      && (Find(Versioned(w), p) < |p| || Find(Versioned(w), p) == |p|)
  {
    hide FindFrom, Matches, BodyStart, WholeLines;
    var i := Find(Unreleased, t);
    BeforeUnreleased(t);
    assert t == t[..i] + t[i..];
    FindSplit(Versioned(w), t[..i], t[i..]);
  }

  /** Unless the version has a heading before Unreleased, the moved body is its section exactly when the body does not
      open with a heading: one that was indented before the move is flush left after it. An earlier section of the
      version stays the one that is read, as it was. */
  lemma {:induction false} MovedBodyIsVersionSection(t: string, version: string, date: string)
    requires NewlinesOnly(t) && SectionCut(Unreleased, t).Some?
    requires Bracketable(version) && OneLineText(date)
    ensures var c := SectionCut(Unreleased, t).value;
      var moved := c.before + (UNRELEASED + "\n") + Behind(VersionLine(version, date), Trim(c.raw), c.after);
      Body(SectionCut(Versioned(version), moved))
        == if Find(Versioned(version), t) < Find(Unreleased, t) then Body(SectionCut(Versioned(version), t))
           else Some(if StartsAt(Trim(c.raw), 0, "## ") then "" else Trim(c.raw))
  {
    hide *;
    var c := SectionCut(Unreleased, t).value;
    CutAtUnreleased(t);
    CutJoins(t, c);
    if Find(Versioned(version), t) < Find(Unreleased, t) {
      EarlierHeading(t, version);
      EarlierSectionStays(t, c, version, date, version);
      Joined(c.before, UNRELEASED + "\n", Behind(VersionLine(version, date), Trim(c.raw), c.after));
    } else {
      BodyIsSection(t, version, date);
    }
  }

  lemma {:induction false} BodyIsSection(t: string, version: string, date: string)
    requires NewlinesOnly(t) && SectionCut(Unreleased, t).Some?
    requires Bracketable(version) && OneLineText(date)
    requires Find(Unreleased, t) <= Find(Versioned(version), t)
    ensures var c := SectionCut(Unreleased, t).value;
      var moved := c.before + (UNRELEASED + "\n") + Behind(VersionLine(version, date), Trim(c.raw), c.after);
      Body(SectionCut(Versioned(version), moved)) == Some(if StartsAt(Trim(c.raw), 0, "## ") then "" else Trim(c.raw))
  {
    hide Find, Matches, NewlinesOnly, SectionCut, Body, Trim, StartsAt, VersionLine, CutAt, Pattern, Bracketable;
    var c := SectionCut(Unreleased, t).value;
    CutAtUnreleased(t);
    CutJoins(t, c);
    RawIsSlice(t, c);
    NoVersionBefore(t, version);
    NewVersionSection(c.before, version, date, BodyAndAfter(Trim(c.raw), c.after));
    ReachedText(c);
  }

  /** Moving Unreleased under a new version leaves an empty Unreleased section and every other
      version's section as it was, unless the body opens with that version's heading and no heading of it
      comes earlier. Without an earlier heading of its own, the new version's section is the old Unreleased
      body exactly when that body does not open with a heading, and reads as empty otherwise; with one, that
      earlier section is what is read, as before. */
  lemma {:induction false} MoveIsFaithful(changelog: string, version: string, date: string, w: string)
    requires NewlinesOnly(NormalizeNewlines(changelog)) && ExtractUnreleasedBody(changelog).Some?
    requires Bracketable(version) && OneLineText(date) && Bracketable(w) && w != version
    ensures var body := ExtractUnreleasedBody(changelog).value;
      var t := NormalizeNewlines(changelog);
      var moved := MoveUnreleasedToVersion(changelog, version, date);
      && moved.Some?
      && ExtractUnreleasedBody(moved.value) == Some("")
      && ExtractVersionSection(moved.value, version)
           == (if Find(Versioned(version), t) < Find(Unreleased, t) then ExtractVersionSection(changelog, version)
               else Some(if StartsAt(body, 0, "## ") then "" else body))
      && (if !StartsAt(body, 0, Pattern(Versioned(w))) || Find(Versioned(w), t) < Find(Unreleased, t)
          then ExtractVersionSection(moved.value, w) == ExtractVersionSection(changelog, w)
          else ExtractVersionSection(moved.value, w).Some?)
  {
    var t := NormalizeNewlines(changelog);
    var c := SectionCut(Unreleased, t).value;
    CutAtUnreleased(t);
    Layout(c, version, date);
    MovedKeepsNewlines(t, c, version, date);
    NormalizeIsIdentity(MoveUnreleasedToVersion(changelog, version, date).value);
    MovedUnreleasedIsEmpty(t, version, date);
    MovedBodyIsVersionSection(t, version, date);
    EarlierHeading(t, w);
    if !StartsAt(Trim(c.raw), 0, Pattern(Versioned(w))) || Find(Versioned(w), c.before) < |c.before| {
      OtherSectionsUnchanged(t, version, date, w);
    } else {
      OwnHeadingTakesOver(t, version, date, w);
    }
  }

  const INDENTED_HEADING := " ## x"

  lemma {:induction false} IndentedBody()
    ensures Find(Any, INDENTED_HEADING + "\n") == |INDENTED_HEADING + "\n"|
    ensures Trim(INDENTED_HEADING + "\n") == "## x"
  {
    var x := INDENTED_HEADING + "\n";
    assert !Matches(Any, x, 0) by { assert x[0] == ' ' && "## "[0] == '#'; StartsChars(x, 0, "## "); }
    SearchOneLine(Any, INDENTED_HEADING);
    assert x[1..] == "## x\n" && TrimStart("## x\n") == "## x\n" && TrimStart(x) == TrimStart(x[1..]);
    assert "## x\n"[..4] == "## x" && TrimEnd("## x") == "## x";
  }

  lemma {:induction false} IndentedChangelog()
    ensures var t := UNRELEASED + "\n" + (INDENTED_HEADING + "\n");
      && NewlinesOnly(t) && NormalizeNewlines(t) == t && Find(Unreleased, t) == 0
      && ExtractUnreleasedBody(t) == Some("## x")
  {
    hide Find, Matches, Trim, NormalizeNewlines, CutAt;
    var x := INDENTED_HEADING + "\n";
    var t := UNRELEASED + "\n" + x;
    NormalizeIsIdentity(t);
    UnreleasedIsHeading(x);
    IndentedBody();
    FirstIs(Unreleased, t, 0);
    UnreleasedAtStart(x);
    assert x[..|x|] == x;
  }

  lemma {:induction false} UnreleasedAtStart(x: string)
    ensures SectionCut(Unreleased, UNRELEASED + "\n" + x)
         == Some(Cut("", UNRELEASED + "\n", x[..Find(Any, x)], x[Find(Any, x)..]))
  {
    hide Find, Matches, SectionCut;
    UnreleasedIsHeading(x);
    FirstIs(Unreleased, "", 0);
    assert "" + (UNRELEASED + "\n") + x == UNRELEASED + "\n" + x;
    SectionAt(Unreleased, "", UNRELEASED, x);
  }

  /** An Unreleased section that holds nothing but an indented heading is lost by the move, under every version: the
      body is there before, and the new version's section reads as empty. */
  lemma {:induction false} IndentedHeadingIsLost(version: string, date: string)
    requires Bracketable(version) && OneLineText(date)
    ensures var t := UNRELEASED + "\n" + (INDENTED_HEADING + "\n");
      var moved := MoveUnreleasedToVersion(t, version, date);
      && ExtractUnreleasedBody(t) == Some("## x")
      && moved.Some? && ExtractVersionSection(moved.value, version) == Some("")
  {
    var other := if version == "a" then "b" else "a";
    assert Bracketable(other);
    IndentedChangelog();
    hide *;
    MoveIsFaithful(UNRELEASED + "\n" + (INDENTED_HEADING + "\n"), version, date, other);
    OpensWithHeading();
  }

  lemma {:induction false} OpensWithHeading()
    ensures StartsAt("## x", 0, "## ")
  {
  }

  // ---- lines, headings and sections, character by character ----

  ghost predicate EndsLine(c: char) { c in {'\n', '\r', '\U{2028}', '\U{2029}'} }

  /** ECMAScript's white space and line terminators. */
  ghost predicate IsWhitespace(c: char) {
    c in {'\t', '\n', '\U{0b}', '\U{0c}', '\r', ' ', '\U{a0}', '\U{1680}', '\U{2000}', '\U{2001}', '\U{2002}',
          '\U{2003}', '\U{2004}', '\U{2005}', '\U{2006}', '\U{2007}', '\U{2008}', '\U{2009}', '\U{200a}', '\U{2028}',
          '\U{2029}', '\U{202f}', '\U{205f}', '\U{3000}', '\U{feff}'}
  }

  lemma {:induction false} SpacesAre(c: char)
    ensures IsTerminator(c) <==> EndsLine(c)
    ensures IsSpace(c) <==> IsWhitespace(c)
  {
    var n := c as int;
    assert '\U{2000}' <= c <= '\U{200a}' ==>
      n == 0x2000 || n == 0x2001 || n == 0x2002 || n == 0x2003 || n == 0x2004 || n == 0x2005 || n == 0x2006
      || n == 0x2007 || n == 0x2008 || n == 0x2009 || n == 0x200a;
  }

  /** Trimming cuts white space off both ends, all of it and nothing else. */
  lemma {:induction false} TrimExactly(t: string) returns (a: nat, e: nat)
    ensures a <= e <= |t| && Trim(t) == t[a..e]
    ensures forall i :: 0 <= i < |t| && (i < a || e <= i) ==> IsWhitespace(t[i])
    ensures a < e ==> !IsWhitespace(t[a]) && !IsWhitespace(t[e - 1])
  {
    hide TrimStart, TrimEnd, IsSpace, IsWhitespace;
    var s := TrimStart(t);
    TrimStartCuts(t);
    TrimEndCuts(s);
    a := |t| - |s|;
    e := a + |Trim(t)|;
    assert t[a..][..|Trim(t)|] == t[a..e];
    forall i | 0 <= i < |t| ensures IsSpace(t[i]) <==> IsWhitespace(t[i]) { SpacesAre(t[i]); }
    forall i | e <= i < |t| ensures IsSpace(t[i]) { assert t[i] == s[i - a]; }
  }

  lemma {:induction false} TrimStartCuts(t: string)
    ensures |TrimStart(t)| <= |t| && TrimStart(t) == t[|t| - |TrimStart(t)|..]
    ensures forall i :: 0 <= i < |t| - |TrimStart(t)| ==> IsSpace(t[i])
    ensures TrimStart(t) != "" ==> !IsSpace(TrimStart(t)[0])
  {
    hide IsSpace;
    if t != "" && IsSpace(t[0]) { TrimStartCuts(t[1..]); }
  }

  lemma {:induction false} TrimEndCuts(t: string)
    ensures |TrimEnd(t)| <= |t| && TrimEnd(t) == t[..|TrimEnd(t)|]
    ensures forall i :: |TrimEnd(t)| <= i < |t| ==> IsSpace(t[i])
    ensures TrimEnd(t) != "" ==> !IsSpace(TrimEnd(t)[|TrimEnd(t)| - 1])
  {
    hide IsSpace;
    if t != "" && IsSpace(t[|t| - 1]) { TrimEndCuts(t[..|t| - 1]); }
  }

  ghost predicate NoPair(t: string) { forall i :: 0 <= i < |t| - 1 ==> !(t[i] == '\r' && t[i + 1] == '\n') }

  /** Every carriage return right before a newline goes, one after the other, and no other character changes. */
  lemma {:induction false} NormalizeDropsPairs(a: string, b: string)
    requires NoPair(a)
    ensures NormalizeNewlines(a + "\r\n" + b) == a + "\n" + NormalizeNewlines(b)
  {
    var t := a + "\r\n" + b;
    if a == "" {
      assert t[2..] == b && t[0] == '\r' && t[1] == '\n';
    } else {
      var rest := a[1..] + "\r\n" + b;
      NormalizeDropsPairs(a[1..], b);
      assert t[1..] == rest && t[0] == a[0] && !(t[0] == '\r' && t[1] == '\n');
      assert NormalizeNewlines(t) == [a[0]] + NormalizeNewlines(rest);
      hide NormalizeNewlines;
      assert [a[0]] + (a[1..] + "\n" + NormalizeNewlines(b)) == a + "\n" + NormalizeNewlines(b);
    }
  }

  lemma {:induction false} NormalizeKeepsOthers(t: string)
    requires NoPair(t)
    ensures NormalizeNewlines(t) == t
  {
    if t != "" {
      NormalizeKeepsOthers(t[1..]);
      assert [t[0]] + t[1..] == t;
    }
  }

  function WithCrlf(t: string): string {
    if t == "" then "" else (if t[0] == '\n' then "\r\n" else [t[0]]) + WithCrlf(t[1..])
  }

  lemma {:induction false} NormalizeUndoesCrlf(t: string)
    requires Lacks(t, '\r')
    ensures NormalizeNewlines(WithCrlf(t)) == t
  {
    if t != "" {
      NormalizeUndoesCrlf(t[1..]);
      var rest, all := WithCrlf(t[1..]), WithCrlf(t);
      if t[0] == '\n' {
        assert all[2..] == rest;
      } else {
        assert all[1..] == rest && all[0] == t[0];
      }
      assert [t[0]] + t[1..] == t;
    }
  }

  /** A changelog reads, and is rewritten, the same with either kind of line end. */
  lemma {:induction false} CrlfReadsTheSame(t: string, version: string, date: string)
    requires Lacks(t, '\r')
    ensures ExtractUnreleasedBody(WithCrlf(t)) == ExtractUnreleasedBody(t)
    ensures ExtractVersionSection(WithCrlf(t), version) == ExtractVersionSection(t, version)
    ensures MoveUnreleasedToVersion(WithCrlf(t), version, date) == MoveUnreleasedToVersion(t, version, date)
  {
    NormalizeUndoesCrlf(t);
    NormalizeKeepsOthers(t);
  }

  /** A heading line begins at `i`: behind a line end or at the start, with its marks and, for Unreleased, with nothing
      but blanks and tabs behind them. */
  ghost predicate HeadingAt(h: Heading, t: string, i: nat) {
    && i < |t| && (i == 0 || EndsLine(t[i - 1]))
    && match h
       case Any => "## " <= t[i..]
       case Versioned(v) => "## [" + v + "]" <= t[i..]
       case Unreleased => "## [Unreleased]" <= t[i..] && BlankFrom(t, i + 15)
  }

  ghost predicate BlankFrom(t: string, i: nat) {
    exists e :: i <= e <= |t| && (e == |t| || EndsLine(t[e])) && AllBlank(t, i, e)
  }

  ghost predicate AllBlank(t: string, i: nat, e: nat)
    requires i <= e <= |t|
  {
    forall k :: i <= k < e ==> t[k] == ' ' || t[k] == '\t'
  }

  lemma {:induction false} BlankIs(t: string, i: nat)
    requires i <= |t|
    ensures BlankToLineEnd(t, i) <==> BlankFrom(t, i)
    decreases |t| - i
  {
    hide EndsLine, IsTerminator;
    if i < |t| {
      SpacesAre(t[i]);
      BlankIs(t, i + 1);
      BlankStep(t, i);
    } else {
      assert AllBlank(t, i, i);
    }
  }

  lemma {:induction false} BlankStep(t: string, i: nat)
    requires i < |t|
    ensures BlankFrom(t, i) <==> EndsLine(t[i]) || ((t[i] == ' ' || t[i] == '\t') && BlankFrom(t, i + 1))
  {
    hide EndsLine;
    if BlankFrom(t, i) {
      var e :| i <= e <= |t| && (e == |t| || EndsLine(t[e])) && AllBlank(t, i, e);
      if e > i { assert AllBlank(t, i + 1, e); }
    }
    if EndsLine(t[i]) { assert AllBlank(t, i, i); }
    if (t[i] == ' ' || t[i] == '\t') && BlankFrom(t, i + 1) {
      var e :| i + 1 <= e <= |t| && (e == |t| || EndsLine(t[e])) && AllBlank(t, i + 1, e);
      assert AllBlank(t, i, e);
    }
  }

  lemma {:induction false} MatchesIs(h: Heading, t: string, i: nat)
    requires i < |t|
    ensures Matches(h, t, i) <==> HeadingAt(h, t, i)
  {
    if i > 0 { SpacesAre(t[i - 1]); }
    StartsIs(t, i, Pattern(h));
    if h.Unreleased? && i + 15 <= |t| { BlankIs(t, i + 15); }
  }

  lemma {:induction false} StartsIs(t: string, i: nat, p: string)
    requires i <= |t|
    ensures StartsAt(t, i, p) <==> p <= t[i..]
  {
    if i + |p| <= |t| { assert t[i..][..|p|] == t[i..i + |p|]; }
  }

  ghost predicate FirstHeadingAt(h: Heading, t: string, i: nat) {
    HeadingAt(h, t, i) && forall j :: 0 <= j < i ==> !HeadingAt(h, t, j)
  }

  /** The text in its pieces: the heading's line, `marks` characters long or more, ends with the first newline behind
      the marks, or with the text. */
  ghost predicate InPieces(t: string, c: Cut, marks: nat) {
    && t == c.before + c.line + (c.raw + c.after) && marks <= |c.line|
    && (c.raw + c.after != "" ==> c.line != "" && c.line[|c.line| - 1] == '\n')
    && forall k :: marks <= k < |c.line| - 1 ==> c.line[k] != '\n'
  }

  /** The raw body ends where the next heading of the second level begins, or with the text. */
  ghost predicate UpToNextHeading(c: Cut) {
    && (forall i :: 0 <= i < |c.raw| ==> !HeadingAt(Any, c.raw + c.after, i))
    && (c.after != "" ==> HeadingAt(Any, c.raw + c.after, |c.raw|))
  }

  /** The cut at the first heading `h`: what precedes it, its line, its raw body, and the rest. */
  ghost predicate CutsAt(h: Heading, t: string, c: Cut) {
    && FirstHeadingAt(h, t, |c.before|) && UpToNextHeading(c)
    && InPieces(t, c, match h case Any => 3 case Unreleased => 15 case Versioned(v) => |v| + 5)
  }

  /** Cutting finds those pieces, and fails exactly when there is no such heading. */
  lemma {:induction false} SectionCutIs(h: Heading, t: string)
    ensures SectionCut(h, t).None? <==> forall i :: 0 <= i < |t| ==> !HeadingAt(h, t, i)
    ensures SectionCut(h, t).Some? ==> CutsAt(h, t, SectionCut(h, t).value)
  {
    hide Matches, HeadingAt, FindFrom, CutAt, CutsAt;
    forall i | 0 <= i < |t| ensures Matches(h, t, i) <==> HeadingAt(h, t, i) { MatchesIs(h, t, i); }
    var i := Find(h, t);
    if i < |t| { CutIs(h, t, i); }
  }

  lemma {:induction false} CutIs(h: Heading, t: string, i: nat)
    requires i == Find(h, t) < |t|
    ensures i + |Pattern(h)| <= |t| && CutsAt(h, t, CutAt(t, i, |Pattern(h)|))
  {
    FirstHeading(h, t, i);
    LineIs(t, i, |Pattern(h)|);
    NextIs(t, i, |Pattern(h)|);
    hide FirstHeadingAt, InPieces, UpToNextHeading, CutAt, Find;
  }

  lemma {:induction false} FirstHeading(h: Heading, t: string, i: nat)
    requires i == Find(h, t) < |t|
    ensures i + |Pattern(h)| <= |t| && FirstHeadingAt(h, t, i)
  {
    assert i + |Pattern(h)| <= |t|;
    hide Matches, HeadingAt, FindFrom;
    forall j | 0 <= j <= i ensures Matches(h, t, j) <==> HeadingAt(h, t, j) { MatchesIs(h, t, j); }
  }

  lemma {:induction false} LineIs(t: string, i: nat, n: nat)
    requires i + n <= |t|
    ensures |CutAt(t, i, n).before| == i && InPieces(t, CutAt(t, i, n), n)
  {
    var c, start := CutAt(t, i, n), BodyStart(t, i, n);
    hide Find, FindFrom;
    var rest := t[start..];
    assert rest == c.raw + c.after;
    assert t == t[..i] + t[i..start] + rest;
    assert start <= |t| && (rest != "" ==> start > i + n && t[start - 1] == '\n');
    forall k | n <= k < |c.line| - 1 ensures c.line[k] != '\n' { assert c.line[k] == t[i + k]; }
  }

  lemma {:induction false} NextIs(t: string, i: nat, n: nat)
    requires i + n <= |t|
    ensures UpToNextHeading(CutAt(t, i, n))
  {
    var c, rest := CutAt(t, i, n), t[BodyStart(t, i, n)..];
    hide Matches, HeadingAt, FindFrom, BodyStart;
    assert rest == c.raw + c.after && |c.raw| == Find(Any, rest);
    forall j | 0 <= j < |rest| ensures Matches(Any, rest, j) <==> HeadingAt(Any, rest, j) { MatchesIs(Any, rest, j); }
  }

  /** What the release tooling reads and writes, in those pieces. */
  lemma {:induction false} ReadsAndWrites(changelog: string, version: string, date: string)
    ensures var t := NormalizeNewlines(changelog);
      var c, d := SectionCut(Unreleased, t), SectionCut(Versioned(version), t);
      && ExtractUnreleasedBody(changelog) == (if c.None? then None else Some(Trim(c.value.raw)))
      && ExtractVersionSection(changelog, version) == (if d.None? then None else Some(Trim(d.value.raw)))
      && MoveUnreleasedToVersion(changelog, version, date)
           == if c.None? then None
              else Some(c.value.before + "## [Unreleased]\n\n## [" + version + "] - " + date + "\n\n"
                        + Trim(c.value.raw) + "\n\n" + c.value.after)
  {
    var t := NormalizeNewlines(changelog);
    var c := SectionCut(Unreleased, t);
    hide SectionCut, NormalizeNewlines, Trim;
    if c.Some? { Written(c.value, Trim(c.value.raw), version, date); }
  }

  lemma {:induction false} Written(c: Cut, body: string, version: string, date: string)
    ensures c.before + (UNRELEASED + "\n\n" + VersionLine(version, date) + "\n\n" + body + "\n\n") + c.after
         == c.before + "## [Unreleased]\n\n## [" + version + "] - " + date + "\n\n" + body + "\n\n" + c.after
  {
    assert UNRELEASED + "\n\n" + "## [" == "## [Unreleased]\n\n## [";
  }
}
