/** The filtered cursor read of `sapwood events`, and a follower that feeds each `nextSinceId` back. */
module EventsCommand {
  import opened Rows
  import opened Events
  import opened Options

  datatype KindFilter = AnyKind | Only(kinds: set<string>) | Except(kinds: set<string>)

  datatype Filter = Filter(kind: KindFilter, issue: Option<int>)

  /** The number SQLite's json_extract reads: JSON booleans come back as 1 and 0. */
  function SqlNumber(v: Value): Option<int> {
    match v
    case Num(n) => Some(n)
    case Bool(b) => Some(if b then 1 else 0)
    case _ => None
  }

  predicate Matches(f: Filter, e: Event) {
    && (match f.kind
        case AnyKind => true
        case Only(ks) => Kind(e) in ks
        case Except(ks) => Kind(e) !in ks)
    && (f.issue.Some? ==> SqlNumber(Issue(e)) == f.issue)
  }

  function Select(f: Filter, s: seq<Event>): seq<Event> {
    if s == [] then []
    else (if Matches(f, s[0]) then [s[0]] else []) + Select(f, s[1..])
  }

  datatype Read = Read(rows: seq<Event>, tailId: int)

  /** One transaction: the first `limit` matching rows past the cursor, and the ledger's head. */
  function EventsPageFiltered(ledger: seq<Event>, afterId: int, f: Filter, limit: nat): Read {
    Read(Take(Select(f, After(ledger, afterId)), limit), TailId(ledger))
  }

  /** One transaction: the newest `n` matching rows, oldest first, and the ledger's head. */
  function EventsTailFiltered(ledger: seq<Event>, f: Filter, n: nat): Read {
    var all := Select(f, ledger);
    Read(if n <= |all| then all[|all| - n..] else all, TailId(ledger))
  }

  datatype Output = Output(rows: seq<Event>, nextSinceId: int)

  function Max(a: int, b: int): int { if a < b then b else a }

  function TailRead(ledger: seq<Event>, f: Filter, n: nat): Output {
    var read := EventsTailFiltered(ledger, f, n);
    Output(read.rows, read.tailId)
  }

  function SinceRead(ledger: seq<Event>, sinceId: int, f: Filter, limit: nat): Output {
    var read := EventsPageFiltered(ledger, sinceId, f, limit);
    Output(read.rows, if read.rows == [] then Max(sinceId, read.tailId) else TailId(read.rows))
  }

  // ---- filters and cursors commute ----

  lemma {:induction false} SelectMember(f: Filter, s: seq<Event>, x: Event)
    ensures x in Select(f, s) <==> x in s && Matches(f, x)
  {
    if s == [] {
    } else {
      SelectMember(f, s[1..], x);
      assert s == [s[0]] + s[1..];
    }
  }

  lemma {:induction false} SelectAppend(f: Filter, s: seq<Event>, t: seq<Event>)
    ensures Select(f, s + t) == Select(f, s) + Select(f, t)
  {
    if s == [] {
      assert s + t == t;
    } else {
      assert (s + t)[1..] == s[1..] + t;
      SelectAppend(f, s[1..], t);
    }
  }

  lemma {:induction false} SelectPastCursor(f: Filter, s: seq<Event>, cursor: int)
    ensures Select(f, After(s, cursor)) == After(Select(f, s), cursor)
  {
    if s == [] {
    } else {
      SelectPastCursor(f, s[1..], cursor);
      SelectAppend(f, if s[0].id > cursor then [s[0]] else [], After(s[1..], cursor));
      AfterAppend(if Matches(f, s[0]) then [s[0]] else [], Select(f, s[1..]), cursor);
    }
  }

  lemma {:induction false} SelectAscends(f: Filter, s: seq<Event>)
    requires Ascending(s)
    ensures Ascending(Select(f, s))
  {
    if s == [] {
    } else {
      SelectAscends(f, s[1..]);
      forall i | 0 <= i < |Select(f, s[1..])| ensures s[0].id < Select(f, s[1..])[i].id {
        SelectMember(f, s[1..], Select(f, s[1..])[i]);
      }
    }
  }

  // ---- what one call hands out ----

  /** What a caller asked for: an event of a listed kind, or of none of the excluded ones, and of the issue, which
      `true` and `false` in a payload name as 1 and 0. */
  ghost predicate Wanted(f: Filter, e: Event) {
    && (f.kind.Only? ==> e.item.kind in f.kind.kinds)
    && (f.kind.Except? ==> e.item.kind !in f.kind.kinds)
    && (f.issue.Some? ==>
          var issue := Get(e.item.payload, "issue");
          || issue == Num(f.issue.value)
          || (issue == Bool(true) && f.issue.value == 1)
          || (issue == Bool(false) && f.issue.value == 0))
  }

  lemma {:induction false} MatchesIsWanted(f: Filter, e: Event)
    ensures Matches(f, e) <==> Wanted(f, e)
  {
  }

  /** The newest `n` matching rows in id order, and the ledger's head: a match that is left out is older than every
      row, and then there are `n` of them. */
  ghost predicate NewestMatches(ledger: seq<Event>, f: Filter, n: nat, out: Output) {
    && Ascending(out.rows) && |out.rows| <= n && out.nextSinceId == TailId(ledger)
    && (forall x :: x in out.rows ==> x in ledger && Wanted(f, x))
    && forall x :: x in ledger && Wanted(f, x) && x !in out.rows ==> |out.rows| == n && OlderThanAll(x, out.rows)
  }

  ghost predicate OlderThanAll(x: Event, rows: seq<Event>) { forall r :: r in rows ==> x.id < r.id }

  /** The first `limit` matching rows past the cursor in id order, and a cursor that skips none: it never moves back,
      every match up to it is in the rows, and a match left out lies past it, with `limit` rows before. It is the last
      row's id, or, without rows, the head of the ledger or the cursor, whichever is further on. */
  ghost predicate FirstMatchesPast(ledger: seq<Event>, sinceId: int, f: Filter, limit: nat, out: Output) {
    && Ascending(out.rows) && |out.rows| <= limit && out.nextSinceId >= sinceId
    && (forall x :: x in out.rows ==> x in ledger && Wanted(f, x) && sinceId < x.id <= out.nextSinceId)
    && (if out.rows != [] then out.nextSinceId == out.rows[|out.rows| - 1].id
        else out.nextSinceId >= TailId(ledger) && out.nextSinceId in {sinceId, TailId(ledger)})
    && forall x :: x in ledger && Wanted(f, x) && x.id > sinceId && x !in out.rows ==>
         |out.rows| == limit && x.id > out.nextSinceId
  }

  lemma {:induction false} LeftOutBefore(all: seq<Event>, cut: nat, x: Event)
    requires Ascending(all) && cut <= |all| && x in all && x !in all[cut..|all|]
    ensures cut > 0 && OlderThanAll(x, all[cut..|all|])
  {
    var k :| 0 <= k < |all| && all[k] == x;
    var rows := all[cut..|all|];
    forall m | cut <= m < |all| ensures all[m] in rows { assert rows[m - cut] == all[m]; }
    forall r | r in rows ensures x.id < r.id {
      var j :| 0 <= j < |rows| && rows[j] == r;
      assert all[cut + j] == r;
    }
  }

  lemma {:induction false} LeftOutBehind(all: seq<Event>, n: nat, x: Event)
    requires Ascending(all) && n <= |all| && x in all && x !in all[0..n]
    ensures n < |all| && (n > 0 ==> x.id > all[n - 1].id)
  {
    var k :| 0 <= k < |all| && all[k] == x;
    var front := all[0..n];
    forall m | 0 <= m < n ensures all[m] in front { assert front[m] == all[m]; }
  }

  lemma {:induction false} TailRows(ledger: seq<Event>, f: Filter, n: nat)
    ensures var all, out := Select(f, ledger), TailRead(ledger, f, n);
      && |out.rows| <= n && |out.rows| <= |all| && out.rows == all[|all| - |out.rows|..|all|]
      && (|out.rows| < |all| ==> |out.rows| == n) && out.nextSinceId == TailId(ledger)
  {
    hide Select;
  }

  lemma {:induction false} TailReadIs(ledger: seq<Event>, f: Filter, n: nat)
    requires Ascending(ledger)
    ensures NewestMatches(ledger, f, n, TailRead(ledger, f, n))
  {
    hide Select, Matches, Wanted, Ascending, OlderThanAll, TailRead;
    var all, rows := Select(f, ledger), TailRead(ledger, f, n).rows;
    TailRows(ledger, f, n);
    SelectAscends(f, ledger);
    SliceAscends(all, |all| - |rows|, |all|);
    forall x | x in rows ensures x in ledger && Wanted(f, x) {
      SelectMember(f, ledger, x);
      MatchesIsWanted(f, x);
    }
    forall x | x in ledger && Wanted(f, x) && x !in rows ensures |rows| == n && OlderThanAll(x, rows) {
      SelectMember(f, ledger, x);
      MatchesIsWanted(f, x);
      LeftOutBefore(all, |all| - |rows|, x);
    }
  }

  lemma {:induction false} SliceAscends(all: seq<Event>, i: nat, j: nat)
    requires Ascending(all) && i <= j <= |all|
    ensures Ascending(all[i..j])
  {
  }

  lemma {:induction false} PastMember(ledger: seq<Event>, sinceId: int, f: Filter, x: Event)
    ensures x in Select(f, After(ledger, sinceId)) <==> x in ledger && Matches(f, x) && x.id > sinceId
  {
    SelectMember(f, After(ledger, sinceId), x);
    CursorMember(ledger, sinceId, x);
  }

  lemma {:induction false} SinceRows(ledger: seq<Event>, sinceId: int, f: Filter, limit: nat)
    requires limit >= 1
    ensures var past, out := Select(f, After(ledger, sinceId)), SinceRead(ledger, sinceId, f, limit);
      && |out.rows| <= limit && |out.rows| <= |past| && out.rows == past[0..|out.rows|]
      && (|out.rows| < |past| ==> |out.rows| == limit)
      && out.nextSinceId == if out.rows == [] then Max(sinceId, TailId(ledger)) else out.rows[|out.rows| - 1].id
  {
    hide Select, After;
  }

  lemma {:induction false} SinceReadIs(ledger: seq<Event>, sinceId: int, f: Filter, limit: nat)
    requires Ascending(ledger) && limit >= 1
    ensures FirstMatchesPast(ledger, sinceId, f, limit, SinceRead(ledger, sinceId, f, limit))
  {
    hide Select, Matches, Wanted, Ascending, After, SinceRead;
    var past, rows := Select(f, After(ledger, sinceId)), SinceRead(ledger, sinceId, f, limit).rows;
    SinceRows(ledger, sinceId, f, limit);
    CursorHalves(ledger, sinceId);
    SelectAscends(f, After(ledger, sinceId));
    SliceAscends(past, 0, |rows|);
    forall x | x in rows ensures x in ledger && Wanted(f, x) && sinceId < x.id <= rows[|rows| - 1].id {
      PastMember(ledger, sinceId, f, x);
      MatchesIsWanted(f, x);
      LastIsGreatest(rows, x);
    }
    assert rows != [] ==> rows[|rows| - 1] in rows;
    forall x | x in ledger && Wanted(f, x) && x.id > sinceId && x !in rows
      ensures |rows| == limit && x.id > rows[|rows| - 1].id
    {
      PastMember(ledger, sinceId, f, x);
      MatchesIsWanted(f, x);
      LeftOutBehind(past, |rows|, x);
    }
  }

  lemma {:induction false} LastIsGreatest(rows: seq<Event>, x: Event)
    requires Ascending(rows) && x in rows
    ensures x.id <= rows[|rows| - 1].id
  {
  }

  method RunEvents(ledger: seq<Event>, sinceId: int, f: Filter, limit: nat, tail: Option<nat>) returns (out: Output)
    ensures out == if tail.Some? then TailRead(ledger, f, tail.value) else SinceRead(ledger, sinceId, f, limit)
    ensures Ascending(ledger) && tail.Some? ==> NewestMatches(ledger, f, tail.value, out)
    ensures Ascending(ledger) && tail.None? && limit >= 1 ==> FirstMatchesPast(ledger, sinceId, f, limit, out)
  {
    var rows: seq<Event>;
    var nextSinceId: int;
    if tail.Some? {
      var read := EventsTailFiltered(ledger, f, tail.value);
      rows := read.rows;
      nextSinceId := read.tailId;
    } else {
      var read := EventsPageFiltered(ledger, sinceId, f, limit);
      rows := read.rows;
      nextSinceId := if |rows| > 0 then rows[|rows| - 1].id else Max(sinceId, read.tailId);
    }
    out := Output(rows, nextSinceId);
    hide NewestMatches, FirstMatchesPast, Ascending;
    if Ascending(ledger) && tail.Some? { TailReadIs(ledger, f, tail.value); }
    if Ascending(ledger) && tail.None? && limit >= 1 { SinceReadIs(ledger, sinceId, f, limit); }
  }

  // ---- a follower over a growing ledger ----

  datatype Follower = Follower(ledger: seq<Event>, cursor: int, received: seq<Event>)

  ghost predicate Append(w: Follower, w': Follower) {
    exists e :: Committed(w, w', e)
  }

  ghost predicate Committed(w: Follower, w': Follower, e: Event) {
    e.id > TailId(w.ledger) && e.id >= 1 && w' == w.(ledger := w.ledger + [e])
  }

  /** One `--since-id` call at the follower's cursor. */
  ghost predicate Poll(f: Filter, w: Follower, w': Follower) {
    exists limit: nat :: PollOf(f, limit, w, w')
  }

  ghost predicate PollOf(f: Filter, limit: nat, w: Follower, w': Follower) {
    limit >= 1
    && var out := SinceRead(w.ledger, w.cursor, f, limit);
       w' == Follower(w.ledger, out.nextSinceId, w.received + out.rows)
  }

  ghost predicate Run(f: Filter, start: int, ws: seq<Follower>) {
    && ws != [] && Ascending(ws[0].ledger) && (forall i :: 0 <= i < |ws[0].ledger| ==> ws[0].ledger[i].id >= 1)
    && ws[0].cursor == start && ws[0].received == []
    && forall i :: 0 <= i < |ws| - 1 ==> Append(ws[i], ws[i + 1]) || Poll(f, ws[i], ws[i + 1])
  }

  /** Received so far: the matching rows in `(start, cursor]`. */
  ghost predicate Complete(f: Filter, start: int, w: Follower) {
    && Ascending(w.ledger)
    && (w.cursor == start || start < w.cursor <= TailId(w.ledger))
    && w.received == After(UpTo(Select(f, w.ledger), w.cursor), start)
  }

  lemma {:induction false} AppendKeepsComplete(f: Filter, start: int, w: Follower, w': Follower, e: Event)
    requires Complete(f, start, w) && Committed(w, w', e)
    ensures Complete(f, start, w')
  {
    SelectAppend(f, w.ledger, [e]);
    var m, more := Select(f, w.ledger), Select(f, [e]);
    assert [e][1..] == [];
    assert Select(f, [e]) == if Matches(f, e) then [e] else [];
    AfterAppend(m, more, w.cursor);
    AfterAppend(UpTo(m, w.cursor), UpTo(more, w.cursor), start);
    assert After(UpTo(more, w.cursor), start) == [];
  }

  lemma {:induction false} NothingPastIsAll(s: seq<Event>, cursor: int)
    requires Ascending(s) && After(s, cursor) == []
    ensures UpTo(s, cursor) == s
  {
    CursorSplits(s, cursor);
  }

  lemma {:induction false} EmptyPollKeepsComplete(f: Filter, start: int, w: Follower, cursor: int)
    requires Complete(f, start, w) && After(Select(f, w.ledger), w.cursor) == []
    requires cursor == Max(w.cursor, TailId(w.ledger))
    ensures Complete(f, start, w.(cursor := cursor))
  {
    var m := Select(f, w.ledger);
    SelectAscends(f, w.ledger);
    NothingPastIsAll(m, w.cursor);
    AfterAfter(m, w.cursor, cursor);
    NothingPastIsAll(m, cursor);
  }

  /** What one non-empty page does to the cursor and to what is left past it. */
  lemma {:induction false} PageAdvances(f: Filter, w: Follower, n: nat)
    requires Ascending(w.ledger) && 0 < n <= |After(Select(f, w.ledger), w.cursor)|
    ensures var m := Select(f, w.ledger);
      var rows := After(m, w.cursor)[..n];
      && w.cursor < TailId(rows) <= TailId(w.ledger)
      && (forall i :: 0 <= i < n ==> rows[i].id > w.cursor)
      && UpTo(m, TailId(rows)) == UpTo(m, w.cursor) + rows
      && After(m, TailId(rows)) == After(m, w.cursor)[n..]
  {
    var m := Select(f, w.ledger);
    var past := After(m, w.cursor);
    SelectAscends(f, w.ledger);
    AbsorbPage(m, w.cursor, n);
    forall i | 0 <= i < n ensures past[i].id > w.cursor {
      CursorMember(m, w.cursor, past[i]);
    }
    CursorMember(m, w.cursor, past[n - 1]);
    SelectMember(f, w.ledger, past[n - 1]);
    TailIsLast(w.ledger, past[n - 1]);
  }

  lemma {:induction false} FullPollKeepsComplete(f: Filter, start: int, w: Follower, n: nat)
    requires Complete(f, start, w) && 0 < n <= |After(Select(f, w.ledger), w.cursor)|
    ensures var rows := After(Select(f, w.ledger), w.cursor)[..n];
      Complete(f, start, Follower(w.ledger, TailId(rows), w.received + rows))
  {
    var rows := After(Select(f, w.ledger), w.cursor)[..n];
    PageAdvances(f, w, n);
    AfterAppend(UpTo(Select(f, w.ledger), w.cursor), rows, start);
    AllPast(rows, start);
  }

  lemma {:induction false} PollKeepsComplete(f: Filter, start: int, limit: nat, w: Follower, w': Follower)
    requires Complete(f, start, w) && PollOf(f, limit, w, w')
    ensures Complete(f, start, w')
  {
    SelectPastCursor(f, w.ledger, w.cursor);
    var past := After(Select(f, w.ledger), w.cursor);
    if past == [] {
      EmptyPollKeepsComplete(f, start, w, w'.cursor);
    } else {
      FullPollKeepsComplete(f, start, w, |Take(past, limit)|);
    }
  }

  lemma {:induction false} RunIsComplete(f: Filter, start: int, ws: seq<Follower>, i: nat)
    requires Run(f, start, ws) && i < |ws|
    ensures Complete(f, start, ws[i])
  {
    if i == 0 {
      var m := UpTo(Select(f, ws[0].ledger), start);
      forall k | 0 <= k < |m| ensures m[k].id <= start {
        CursorMember(Select(f, ws[0].ledger), start, m[k]);
      }
      NonePast(m, start);
    } else {
      RunIsComplete(f, start, ws, i - 1);
      var w, w' := ws[i - 1], ws[i - 1 + 1];
      if e :| Committed(w, w', e) {
        AppendKeepsComplete(f, start, w, w', e);
      } else {
        var limit: nat :| PollOf(f, limit, w, w');
        PollKeepsComplete(f, start, limit, w, w');
      }
    }
  }

  /** In every run, over any interleaving of appends and polls, the follower holds each matching event
      past its start and at or below its cursor exactly once and in id order; none is ever skipped,
      not even across empty pages that jump the cursor to the snapshot's head. */
  lemma {:induction false} FollowerReceivesExactly(f: Filter, start: int, ws: seq<Follower>, i: nat, x: Event)
    requires Run(f, start, ws) && i < |ws|
    ensures Ascending(ws[i].received)
    ensures x in ws[i].received <==> x in ws[i].ledger && Wanted(f, x) && start < x.id <= ws[i].cursor
  {
    RunIsComplete(f, start, ws, i);
    var m := Select(f, ws[i].ledger);
    SelectAscends(f, ws[i].ledger);
    CursorHalves(m, ws[i].cursor);
    CursorHalves(UpTo(m, ws[i].cursor), start);
    CursorMember(UpTo(m, ws[i].cursor), start, x);
    CursorMember(m, ws[i].cursor, x);
    SelectMember(f, ws[i].ledger, x);
    MatchesIsWanted(f, x);
  }

  lemma {:induction false} LedgerOnlyGrows(f: Filter, start: int, ws: seq<Follower>, i: nat)
    requires Run(f, start, ws) && i < |ws|
    ensures IsPrefix(ws[0].ledger, ws[i].ledger)
    ensures forall k :: 0 <= k < |ws[i].ledger| ==> ws[i].ledger[k].id >= 1
  {
    if i > 0 {
      LedgerOnlyGrows(f, start, ws, i - 1);
      assert Append(ws[i - 1], ws[i - 1 + 1]) || Poll(f, ws[i - 1], ws[i - 1 + 1]);
    }
  }

  /** `--tail 0` hands out the cursor from which a follower receives exactly the matching events
      committed after that snapshot. */
  lemma {:induction false} TailZeroStartsNow(f: Filter, ws: seq<Follower>, i: nat, x: Event)
    requires ws != [] && Run(f, TailRead(ws[0].ledger, f, 0).nextSinceId, ws) && i < |ws|
    ensures TailRead(ws[0].ledger, f, 0).rows == []
    ensures x in ws[i].received
      <==> x in ws[i].ledger && x !in ws[0].ledger && Wanted(f, x) && x.id <= ws[i].cursor
  {
    var before := ws[0].ledger;
    var now := ws[i].ledger;
    FollowerReceivesExactly(f, TailId(before), ws, i, x);
    RunIsComplete(f, TailId(before), ws, i);
    LedgerOnlyGrows(f, TailId(before), ws, i);
    if x in before { TailIsLast(before, x); }
    if x in now && x !in before {
      var k :| 0 <= k < |now| && now[k] == x;
      assert before == now[..|before|];
      assert k < |before| ==> before[k] == x;
    }
  }

  function Drain(f: Filter, w: Follower, limit: nat, n: nat): Follower
    decreases n
  {
    if n == 0 then w
    else
      var out := SinceRead(w.ledger, w.cursor, f, limit);
      Drain(f, Follower(w.ledger, out.nextSinceId, w.received + out.rows), limit, n - 1)
  }

  /** One call shortens what is left by a page. */
  lemma {:induction false} CallShortens(f: Filter, w: Follower, limit: nat)
    requires Ascending(w.ledger) && limit >= 1
    ensures var left := |After(Select(f, w.ledger), w.cursor)|;
      |After(Select(f, w.ledger), SinceRead(w.ledger, w.cursor, f, limit).nextSinceId)|
        == left - (if limit <= left then limit else left)
  {
    var m, out := Select(f, w.ledger), SinceRead(w.ledger, w.cursor, f, limit);
    var past := After(m, w.cursor);
    SelectPastCursor(f, w.ledger, w.cursor);
    if past == [] {
      AfterAfter(m, w.cursor, out.nextSinceId);
    } else {
      PageAdvances(f, w, |Take(past, limit)|);
    }
  }

  /** With no writer, n calls have delivered every matching row exactly when n * limit covers them. */
  lemma {:induction false} DrainedIff(f: Filter, w: Follower, limit: nat, n: nat)
    requires Ascending(w.ledger) && limit >= 1
    ensures After(Select(f, w.ledger), Drain(f, w, limit, n).cursor) == []
        <==> |After(Select(f, w.ledger), w.cursor)| <= n * limit
    decreases n
  {
    hide Ascending, After, Select, SinceRead;
    if n > 0 {
      var out := SinceRead(w.ledger, w.cursor, f, limit);
      CallShortens(f, w, limit);
      DrainedIff(f, Follower(w.ledger, out.nextSinceId, w.received + out.rows), limit, n - 1);
      PageArithmetic(|After(Select(f, w.ledger), w.cursor)|, limit, n);
    }
  }
}
