/** The paging protocol between the server's append-only feeds and the browser that accumulates
    them, and the operator probe that reads the same ledger in one go. */
module Feed {
  import opened Rows
  import opened Events
  import opened Copy
  import opened Entities

  // ---- the server's half ----

  const DEFAULT_PAGE_LIMIT := 500
  const MAX_PAGE_LIMIT := 1000

  /** A query parameter as it reads: absent or empty, not an integer, or an integer. */
  datatype QueryText = Absent | NotInteger | Integer(n: int)

  datatype IntParam = UseDefault | Refused | Given(n: int)

  function ReadIntParam(q: QueryText, min: int): IntParam {
    match q
    case Absent => UseDefault
    case NotInteger => Refused
    case Integer(n) => if n < min then Refused else Given(n)
  }

  datatype Reply<T> = BadRequest | Page(rows: seq<Row<T>>, lastId: int)

  function EventsPage<T>(ledger: seq<Row<T>>, afterId: int, limit: nat): seq<Row<T>> {
    Take(After(ledger, afterId), limit)
  }

  function PagedReply<T>(ledger: seq<Row<T>>, after: QueryText, limit: QueryText): Reply<T> {
    var a, l := ReadIntParam(after, 0), ReadIntParam(limit, 1);
    if a.Refused? || l.Refused? then BadRequest
    else
      var from := if a.Given? then a.n else 0;
      var asked := if l.Given? then l.n else DEFAULT_PAGE_LIMIT;
      var rows := EventsPage(ledger, from, if asked < MAX_PAGE_LIMIT then asked else MAX_PAGE_LIMIT);
      Page(rows, if rows == [] then from else TailId(rows))
  }

  // ---- the client's half ----

  /** JavaScript's `s.slice(-n)`, for every integer `n`. */
  function SliceFromEnd<T>(s: seq<T>, n: int): seq<T> {
    if n == 0 then s
    else if n > 0 then (if n <= |s| then s[|s| - n..] else s)
    else if -n <= |s| then s[-n..] else []
  }

  predicate InWindow<T>(window: seq<Row<T>>, id: int) {
    exists i :: 0 <= i < |window| && window[i].id == id
  }

  function Fresh<T>(window: seq<Row<T>>, page: seq<Row<T>>): seq<Row<T>> {
    if page == [] then []
    else (if InWindow(window, page[0].id) then [] else [page[0]]) + Fresh(window, page[1..])
  }

  datatype EventHistory = EventHistory(after: int, events: seq<Event>, titles: EntityTitles, open: OpenAttention)

  const EMPTY_EVENT_HISTORY := EventHistory(0, [], map[], map[])

  function Max(a: int, b: int): int { if a < b then b else a }

  function AccumulateEventsPage(reg: Registry, h: EventHistory, page: seq<Event>, lastId: int,
                                maxHistory: int): EventHistory {
    var unseen := Fresh(h.events, page);
    var after := Max(h.after, lastId);
    if unseen == [] then h.(after := after)
    else EventHistory(after, SliceFromEnd(h.events + unseen, maxHistory),
                      TitlesAfter(unseen, h.titles), OpenAfter(reg, unseen, h.open))
  }

  datatype SpendHistory<T> = SpendHistory(after: int, rows: seq<Row<T>>)

  function AccumulateSpendPage<T>(h: SpendHistory<T>, page: seq<Row<T>>, lastId: int,
                                  maxHistory: int): SpendHistory<T> {
    var unseen := Fresh(h.rows, page);
    var after := Max(h.after, lastId);
    if unseen == [] then h.(after := after)
    else SpendHistory(after, SliceFromEnd(h.rows + unseen, maxHistory))
  }

  // ---- windows ----

  /** A positive cap keeps that many rows from the end, or all; a cap of 0 keeps all, and a negative one drops rows from
      the front. */
  lemma {:induction false} SliceFromEndIs<T>(s: seq<T>, n: int)
    ensures var kept := SliceFromEnd(s, n);
      && |kept| <= |s| && kept == s[|s| - |kept|..]
      && |kept| == (if n == 0 || n > |s| then |s| else if n > 0 then n else if -n <= |s| then |s| + n else 0)
  {
  }

  lemma {:induction false} SliceExtends<T>(s: seq<T>, t: seq<T>, n: int)
    requires n >= 0
    ensures SliceFromEnd(SliceFromEnd(s, n) + t, n) == SliceFromEnd(s + t, n)
  {
  }

  /** Rows still in the window are dropped and the rest kept: what is unseen is what lies past the
      cursor, provided everything at or below it is still held. */
  lemma {:induction false} FreshIsPast<T>(window: seq<Row<T>>, page: seq<Row<T>>, cursor: int)
    requires forall i :: 0 <= i < |window| ==> window[i].id <= cursor
    requires forall i :: 0 <= i < |page| && page[i].id <= cursor ==> InWindow(window, page[i].id)
    ensures Fresh(window, page) == After(page, cursor)
  {
    if page == [] {
    } else {
      assert forall i :: 0 <= i < |page[1..]| ==> page[1..][i] == page[i + 1];
      FreshIsPast(window, page[1..], cursor);
    }
  }

  lemma {:induction false} NothingFresh<T>(window: seq<Row<T>>, page: seq<Row<T>>)
    ensures Fresh(window, page) == [] <==> forall i :: 0 <= i < |page| ==> InWindow(window, page[i].id)
    ensures forall i :: 0 <= i < |Fresh(window, page)| ==> !InWindow(window, Fresh(window, page)[i].id)
  {
    if page == [] {
    } else {
      NothingFresh(window, page[1..]);
      assert page == [page[0]] + page[1..];
    }
  }

  lemma {:induction false} PieceOrder<T>(ledger: seq<Row<T>>, cursor: int, n: nat)
    requires Ascending(ledger) && 0 < n <= |After(ledger, cursor)|
    ensures var past := After(ledger, cursor);
      && Below(UpTo(ledger, cursor), past[..n])
      && (forall j :: 0 <= j < n ==> past[j].id <= past[n - 1].id)
      && cursor < past[n - 1].id <= TailId(ledger)
  {
    var past := After(ledger, cursor);
    CursorOrder(ledger, cursor);
    CursorHalves(ledger, cursor);
    CursorMember(ledger, cursor, past[n - 1]);
    TailIsLast(ledger, past[n - 1]);
  }

  lemma {:induction false} SliceBound<T>(s: seq<Row<T>>, n: int, bound: int)
    requires forall i :: 0 <= i < |s| ==> s[i].id <= bound
    ensures forall i :: 0 <= i < |SliceFromEnd(s, n)| ==> SliceFromEnd(s, n)[i].id <= bound
  {
  }

  lemma {:induction false} LastOfSplit<T>(page: seq<Row<T>>, cursor: int)
    requires Ascending(page) && After(page, cursor) != []
    ensures TailId(page) == TailId(After(page, cursor))
  {
    CursorSplits(page, cursor);
  }

  lemma {:induction false} NothingPastMeansBehind<T>(page: seq<Row<T>>, cursor: int)
    requires After(page, cursor) == []
    ensures page != [] ==> TailId(page) <= cursor
  {
    if page != [] { CursorMember(page, cursor, page[|page| - 1]); }
  }

  /** What of a page of `ledger` lies past a cursor is the start of what of the ledger does. */
  lemma {:induction false} PrefixPast<T>(ledger: seq<Row<T>>, asked: int, page: seq<Row<T>>, cursor: int)
    requires Ascending(ledger) && IsPrefix(page, After(ledger, asked)) && asked <= cursor
    ensures Ascending(page)
    ensures IsPrefix(After(page, cursor), After(ledger, cursor))
  {
    var past := After(ledger, asked);
    CursorHalves(ledger, asked);
    assert past == page + past[|page|..];
    AfterAppend(page, past[|page|..], cursor);
    AfterAfter(ledger, asked, cursor);
  }

  // ---- folding a page again ----

  /** The part of an event history that the spend history has too. */
  function Shown(h: EventHistory): SpendHistory<Entry> { SpendHistory(h.after, h.events) }

  /** Appending unseen rows changes the window, whatever the cap cuts off. */
  lemma {:induction false} FreshChangesWindow<T>(window: seq<Row<T>>, page: seq<Row<T>>, maxHistory: nat)
    requires Fresh(window, page) != []
    ensures SliceFromEnd(window + Fresh(window, page), maxHistory) != window
  {
    NothingFresh(window, page);
    var unseen := Fresh(window, page);
    var grown := SliceFromEnd(window + unseen, maxHistory);
    assert grown[|grown| - 1] == unseen[|unseen| - 1];
    assert window != [] ==> InWindow(window, window[|window| - 1].id);
  }

  /** Re-delivering a page leaves the history untouched exactly when every row of it is still in the
      display window and its cursor is not ahead. De-duplication reaches no further than the window. */
  lemma {:induction false} RedeliveryIsNoOpIff(reg: Registry, h: EventHistory, page: seq<Event>, lastId: int,
                                               maxHistory: nat)
    ensures AccumulateEventsPage(reg, h, page, lastId, maxHistory) == h
        <==> lastId <= h.after && forall i :: 0 <= i < |page| ==> InWindow(h.events, page[i].id)
  {
    NothingFresh(h.events, page);
    if Fresh(h.events, page) != [] { FreshChangesWindow(h.events, page, maxHistory); }
  }

  lemma {:induction false} SpendRedeliveryIsNoOpIff<T>(h: SpendHistory<T>, page: seq<Row<T>>, lastId: int,
                                                       maxHistory: nat)
    ensures AccumulateSpendPage(h, page, lastId, maxHistory) == h
        <==> lastId <= h.after && forall i :: 0 <= i < |page| ==> InWindow(h.rows, page[i].id)
  {
    NothingFresh(h.rows, page);
    if Fresh(h.rows, page) != [] { FreshChangesWindow(h.rows, page, maxHistory); }
  }

  /** A page of one event that the window does not hold. */
  lemma {:induction false} OneEventPage(reg: Registry, h: EventHistory, e: Event, maxHistory: int)
    requires !InWindow(h.events, e.id)
    ensures var next := AccumulateEventsPage(reg, h, [e], e.id, maxHistory);
      next.events == SliceFromEnd(h.events + [e], maxHistory) && next.open == Step(reg, h.open, e)
  {
    hide Step, FoldTitles;
    assert [e][1..] == [] && Fresh(h.events, [e]) == [e];
    assert SortById([e]) == [e];
    assert Fold(reg, [e], h.open) == Fold(reg, [], Step(reg, h.open, e));
  }

  /** What the exported function does with a stale page, which its caller never passes: an opening event that the
      window no longer holds takes its key again, whatever came later, under every display cap. */
  lemma {:induction false} StaleRowReopens(reg: Registry, h: EventHistory, e: Event, key: string, maxHistory: int)
    requires !InWindow(h.events, e.id) && OpensOn(reg, h.open, e, key)
    ensures var next := AccumulateEventsPage(reg, h, [e], e.id, maxHistory);
      key in next.open && next.open[key] == e
  {
    hide AccumulateEventsPage;
    OneEventPage(reg, h, e, maxHistory);
    StepAtKey(reg, h.open, e, key);
  }

  /** So a closed emergency stop comes back from such a page, here under a display cap of one. */
  lemma {:induction false} AgedOutRedeliveryReopens(reg: Registry, stop: Event, boot: Event)
    requires "emergency-stop" in reg.attention
    requires stop.item == Entry("", "emergency-stop", Fields(map[]))
    requires boot.item == Entry("", "run-started", Fields(map[]))
    requires 0 < stop.id < boot.id
    ensures var h1 := AccumulateEventsPage(reg, EMPTY_EVENT_HISTORY, [stop], stop.id, 1);
      var h2 := AccumulateEventsPage(reg, h1, [boot], boot.id, 1);
      var h3 := AccumulateEventsPage(reg, h2, [stop], stop.id, 1);
      h2.open == map[] && h3.open == map["emergency-stop" := stop]
  {
    var h1 := AccumulateEventsPage(reg, EMPTY_EVENT_HISTORY, [stop], stop.id, 1);
    OneEventPage(reg, EMPTY_EVENT_HISTORY, stop, 1);
    var h2 := AccumulateEventsPage(reg, h1, [boot], boot.id, 1);
    assert h1.events == [stop];
    OneEventPage(reg, h1, boot, 1);
    assert h2.events == [boot];
    OneEventPage(reg, h2, stop, 1);
    hide AccumulateEventsPage;
    assert h1.open == map["emergency-stop" := stop];
    assert h2.open == map[];
  }
}

/** The protocol that both ledgers share: one ledger, one client and the answers under way. */
module Paging {
  import opened Rows
  import opened Feed

  /** A reply together with the cursor it was asked for. */
  datatype Answer<T> = Answer(asked: int, rows: seq<Row<T>>, lastId: int)

  datatype World<T, H> = World(ledger: seq<Row<T>>, client: H, answers: seq<Answer<T>>)

  ghost predicate LedgerOk<T>(ledger: seq<Row<T>>) {
    Ascending(ledger) && forall i :: 0 <= i < |ledger| ==> ledger[i].id >= 1
  }

  ghost predicate Append<T, H>(w: World<T, H>, x: World<T, H>, row: Row<T>) {
    row.id > TailId(w.ledger) && row.id >= 1 && x == w.(ledger := w.ledger + [row])
  }

  /** The server answers a request made at `cursor`. */
  ghost predicate Ask<T, H>(w: World<T, H>, x: World<T, H>, cursor: int, limit: QueryText) {
    var reply := PagedReply(w.ledger, Integer(cursor), limit);
    reply.Page? && x == w.(answers := w.answers + [Answer(cursor, reply.rows, reply.lastId)])
  }

  /** An answer the client may fold: it starts no later than the cursor, and what it repeats is still
      in the window. Both a current answer and a re-delivered recent one qualify. */
  ghost predicate Deliverable<T>(h: SpendHistory<T>, a: Answer<T>) {
    && a.asked <= h.after
    && forall i :: 0 <= i < |a.rows| && a.rows[i].id <= h.after ==> InWindow(h.rows, a.rows[i].id)
  }

  /** An answer is a run of ledger rows from just past the cursor it was asked for, and leads to its last row. */
  ghost predicate Truthful<T>(ledger: seq<Row<T>>, a: Answer<T>) {
    && 0 <= a.asked <= TailId(ledger)
    && IsPrefix(a.rows, After(ledger, a.asked))
    && a.lastId == if a.rows == [] then a.asked else TailId(a.rows)
  }

  /** What holds of the ledger and of every answer under way. */
  ghost predicate ServerInv<T>(ledger: seq<Row<T>>, answers: seq<Answer<T>>) {
    && LedgerOk(ledger)
    && forall a :: a in answers ==> Truthful(ledger, a) && |a.rows| <= MAX_PAGE_LIMIT
  }

  /** The window holds the last `maxHistory` ledger rows at or below the cursor, with no gap and no repeat. */
  ghost predicate Windowed<T>(ledger: seq<Row<T>>, h: SpendHistory<T>, maxHistory: nat) {
    0 <= h.after <= TailId(ledger) && h.rows == SliceFromEnd(UpTo(ledger, h.after), maxHistory)
  }

  // ---- what the server answers ----

  /** The size of the pages a limit stands for: 500 when it is absent, and never more than 1000. */
  function PageSize(limit: QueryText): int {
    match limit
    case Absent => 500
    case NotInteger => 0
    case Integer(n) => if n <= 1000 then n else 1000
  }

  /** A malformed query is refused. Any other is answered with the rows just past its cursor, as many as it asks for,
      as a page holds, or as are left, and with a cursor that leads to the last of them. */
  lemma {:induction false} ReplyIs<T>(ledger: seq<Row<T>>, after: QueryText, limit: QueryText)
    requires Ascending(ledger)
    ensures var reply := PagedReply(ledger, after, limit);
      var cursor := if after.Integer? then after.n else 0;
      var refused := after.NotInteger? || limit.NotInteger? || (after.Integer? && after.n < 0)
                     || (limit.Integer? && limit.n < 1);
      && (reply.BadRequest? <==> refused)
      && (!refused ==>
            && reply.rows <= After(ledger, cursor)
            && |reply.rows| == (if PageSize(limit) <= |After(ledger, cursor)| then PageSize(limit)
                                else |After(ledger, cursor)|)
            && reply.lastId == if reply.rows == [] then cursor else reply.rows[|reply.rows| - 1].id)
  {
  }

  /** The rows past a cursor are the end of the ledger, from the first row with a greater id on. */
  lemma {:induction false} AfterIs<T>(ledger: seq<Row<T>>, cursor: int)
    requires Ascending(ledger)
    ensures |After(ledger, cursor)| <= |ledger|
    ensures var from := |ledger| - |After(ledger, cursor)|;
      && After(ledger, cursor) == ledger[from..]
      && (forall i :: 0 <= i < |ledger| ==> (i < from <==> ledger[i].id <= cursor))
  {
    CursorSplits(ledger, cursor);
    var before, past := UpTo(ledger, cursor), After(ledger, cursor);
    forall i | 0 <= i < |ledger| ensures i < |before| <==> ledger[i].id <= cursor {
      if i < |before| {
        assert ledger[i] == before[i];
        CursorMember(ledger, cursor, before[i]);
      } else {
        assert ledger[i] == past[i - |before|];
        CursorMember(ledger, cursor, past[i - |before|]);
      }
    }
  }

  // ---- what a step of the server keeps ----

  lemma {:induction false} AppendKeepsPast<T>(ledger: seq<Row<T>>, row: Row<T>, cursor: int)
    requires cursor <= TailId(ledger) < row.id
    ensures UpTo(ledger + [row], cursor) == UpTo(ledger, cursor)
    ensures After(ledger + [row], cursor) == After(ledger, cursor) + [row]
  {
    AfterAppend(ledger, [row], cursor);
  }

  lemma {:induction false} AppendKeepsLedger<T>(ledger: seq<Row<T>>, row: Row<T>)
    requires LedgerOk(ledger) && row.id > TailId(ledger) && row.id >= 1
    ensures LedgerOk(ledger + [row])
  {
  }

  lemma {:induction false} AppendKeepsTruth<T>(ledger: seq<Row<T>>, row: Row<T>, a: Answer<T>)
    requires row.id > TailId(ledger) && Truthful(ledger, a)
    ensures Truthful(ledger + [row], a)
  {
    AppendKeepsPast(ledger, row, a.asked);
  }

  lemma {:induction false} AppendKeepsServer<T, H>(w: World<T, H>, x: World<T, H>, row: Row<T>)
    requires ServerInv(w.ledger, w.answers) && Append(w, x, row)
    ensures ServerInv(x.ledger, x.answers)
  {
    hide Truthful, LedgerOk;
    AppendKeepsLedger(w.ledger, row);
    forall a | a in x.answers ensures Truthful(x.ledger, a) {
      AppendKeepsTruth(w.ledger, row, a);
    }
  }

  lemma {:induction false} AskKeepsServer<T, H>(w: World<T, H>, x: World<T, H>, cursor: int, limit: QueryText)
    requires ServerInv(w.ledger, w.answers) && Ask(w, x, cursor, limit) && 0 <= cursor <= TailId(w.ledger)
    ensures ServerInv(x.ledger, x.answers)
  {
    hide LedgerOk, After;
    var reply := PagedReply(w.ledger, Integer(cursor), limit);
    var a := Answer(cursor, reply.rows, reply.lastId);
    assert Truthful(w.ledger, a) && |a.rows| <= MAX_PAGE_LIMIT;
    hide Truthful;
    forall b | b in x.answers ensures Truthful(w.ledger, b) && |b.rows| <= MAX_PAGE_LIMIT {
      assert b in w.answers || b == a;
    }
  }

  // ---- what a folded page does ----

  lemma {:induction false} WindowBound<T>(ledger: seq<Row<T>>, h: SpendHistory<T>, maxHistory: nat)
    requires h.rows == SliceFromEnd(UpTo(ledger, h.after), maxHistory)
    ensures forall i :: 0 <= i < |h.rows| ==> h.rows[i].id <= h.after
  {
    var behind := UpTo(ledger, h.after);
    forall i | 0 <= i < |behind| ensures behind[i].id <= h.after { CursorMember(ledger, h.after, behind[i]); }
    SliceBound(behind, maxHistory, h.after);
  }

  /** The spend history holds the last `maxHistory` rows at or below its cursor, with no gap and no
      repeat, and every deliverable page keeps it so. */
  lemma {:induction false} SpendPageKeepsWindow<T>(ledger: seq<Row<T>>, h: SpendHistory<T>, asked: int,
                                                   page: seq<Row<T>>, maxHistory: nat)
    requires Ascending(ledger) && h.rows == SliceFromEnd(UpTo(ledger, h.after), maxHistory)
    requires asked <= h.after && IsPrefix(page, After(ledger, asked))
    requires forall i :: 0 <= i < |page| && page[i].id <= h.after ==> InWindow(h.rows, page[i].id)
    ensures var h' := AccumulateSpendPage(h, page, if page == [] then asked else TailId(page), maxHistory);
      && h'.after >= h.after
      && h'.rows == SliceFromEnd(UpTo(ledger, h'.after), maxHistory)
  {
    WindowBound(ledger, h, maxHistory);
    FreshIsPast(h.rows, page, h.after);
    PrefixPast(ledger, asked, page, h.after);
    var unseen := After(page, h.after);
    if unseen == [] {
      NothingPastMeansBehind(page, h.after);
    } else {
      LastOfSplit(page, h.after);
      PieceOrder(ledger, h.after, |unseen|);
      AbsorbPage(ledger, h.after, |unseen|);
      SliceExtends(UpTo(ledger, h.after), unseen, maxHistory);
    }
  }

  /** Where an answer leads is a row of the ledger, or where it was asked. */
  lemma {:induction false} LastIdInLedger<T>(ledger: seq<Row<T>>, a: Answer<T>)
    requires LedgerOk(ledger) && Truthful(ledger, a)
    ensures 0 <= a.lastId <= TailId(ledger)
  {
    if a.rows != [] {
      var x := a.rows[|a.rows| - 1];
      assert x == After(ledger, a.asked)[|a.rows| - 1];
      CursorMember(ledger, a.asked, x);
      TailIsLast(ledger, x);
    }
  }

  lemma {:induction false} AnswerKeepsWindow<T>(ledger: seq<Row<T>>, h: SpendHistory<T>, a: Answer<T>, maxHistory: nat)
    requires LedgerOk(ledger) && Windowed(ledger, h, maxHistory) && Truthful(ledger, a) && Deliverable(h, a)
    ensures var next := AccumulateSpendPage(h, a.rows, a.lastId, maxHistory);
      Windowed(ledger, next, maxHistory) && next.after >= h.after
  {
    SpendPageKeepsWindow(ledger, h, a.asked, a.rows, maxHistory);
    LastIdInLedger(ledger, a);
    hide SliceFromEnd, UpTo, After, IsPrefix, Fresh;
    assert AccumulateSpendPage(h, a.rows, a.lastId, maxHistory).after == Max(h.after, a.lastId);
  }

  // ---- folding an answer twice ----

  /** An answer that ends at the cursor lies wholly in the window exactly when the window is as long. */
  lemma {:induction false} AnswerFitsIff<T>(ledger: seq<Row<T>>, h: SpendHistory<T>, a: Answer<T>, maxHistory: nat)
    requires LedgerOk(ledger) && Windowed(ledger, h, maxHistory)
    requires Truthful(ledger, a) && a.rows != [] && h.after == a.lastId
    ensures (forall i :: 0 <= i < |a.rows| ==> InWindow(h.rows, a.rows[i].id))
        <==> maxHistory == 0 || |a.rows| <= maxHistory
  {
    var past := After(ledger, a.asked);
    AbsorbPage(ledger, a.asked, |a.rows|);
    CursorHalves(ledger, h.after);
    var before, upTo := UpTo(ledger, a.asked), UpTo(ledger, h.after);
    assert past[|a.rows| - 1] == a.rows[|a.rows| - 1] && upTo == before + a.rows;
    TailOfSlice(before, a.rows, maxHistory);
  }

  lemma {:induction false} TailOfSlice<T>(s: seq<Row<T>>, t: seq<Row<T>>, n: nat)
    requires Ascending(s + t) && t != []
    ensures (forall i :: 0 <= i < |t| ==> InWindow(SliceFromEnd(s + t, n), t[i].id)) <==> n == 0 || |t| <= n
  {
    var u, window := s + t, SliceFromEnd(s + t, n);
    assert forall i :: 0 <= i < |t| ==> u[|s| + i] == t[i];
    var from := |u| - |window|;
    assert forall j :: 0 <= j < |window| ==> window[j] == u[from + j];
    if n == 0 || |t| <= n {
      forall i | 0 <= i < |t| ensures InWindow(window, t[i].id) { assert window[|s| + i - from] == t[i]; }
    } else {
      assert from > |s|;
      assert !InWindow(window, t[0].id);
    }
  }

  /** Folding a deliverable answer a second time changes nothing exactly when the window has room for all of it, or
      when it brought nothing new in the first place. */
  lemma {:induction false} WindowFoldedTwiceIff<T>(ledger: seq<Row<T>>, h: SpendHistory<T>, a: Answer<T>,
                                                   maxHistory: nat)
    requires LedgerOk(ledger) && Windowed(ledger, h, maxHistory) && Truthful(ledger, a) && Deliverable(h, a)
    ensures var next := AccumulateSpendPage(h, a.rows, a.lastId, maxHistory);
      (AccumulateSpendPage(next, a.rows, a.lastId, maxHistory) == next)
        <==> (maxHistory == 0 || |a.rows| <= maxHistory || After(a.rows, h.after) == [])
  {
    var next := AccumulateSpendPage(h, a.rows, a.lastId, maxHistory);
    AnswerKeepsWindow(ledger, h, a, maxHistory);
    WindowBound(ledger, h, maxHistory);
    FreshIsPast(h.rows, a.rows, h.after);
    var unseen := After(a.rows, h.after);
    if unseen == [] {
      NothingPastMeansBehind(a.rows, h.after);
      assert next == h;
    } else {
      PrefixPast(ledger, a.asked, a.rows, h.after);
      LastOfSplit(a.rows, h.after);
      CursorMember(a.rows, h.after, unseen[|unseen| - 1]);
      AnswerFitsIff(ledger, next, a, maxHistory);
      SpendRedeliveryIsNoOpIff(next, a.rows, a.lastId, maxHistory);
    }
  }

  // ---- catching up ----

  /** An answer to the present cursor, folded at once, leaves exactly what it does not hold. */
  lemma {:induction false} AnswerTakesItsRows<T>(ledger: seq<Row<T>>, h: SpendHistory<T>, limit: QueryText,
                                                 maxHistory: nat)
    requires LedgerOk(ledger) && Windowed(ledger, h, maxHistory)
    requires PagedReply(ledger, Integer(h.after), limit).Page?
    ensures var reply := PagedReply(ledger, Integer(h.after), limit);
      var next := AccumulateSpendPage(h, reply.rows, reply.lastId, maxHistory);
      && Deliverable(h, Answer(h.after, reply.rows, reply.lastId))
      && next.after == reply.lastId && |reply.rows| <= |After(ledger, h.after)|
      && |reply.rows| == (if PageSize(limit) <= |After(ledger, h.after)| then PageSize(limit)
                          else |After(ledger, h.after)|)
      && After(ledger, next.after) == After(ledger, h.after)[|reply.rows|..]
  {
    ReplyIs(ledger, Integer(h.after), limit);
    var reply := PagedReply(ledger, Integer(h.after), limit);
    var past := After(ledger, h.after);
    forall i | 0 <= i < |reply.rows| ensures reply.rows[i].id > h.after {
      CursorMember(ledger, h.after, past[i]);
    }
    WindowBound(ledger, h, maxHistory);
    FreshIsPast(h.rows, reply.rows, h.after);
    if reply.rows != [] {
      AbsorbPage(ledger, h.after, |reply.rows|);
    }
  }
}

/** Polling runs over the event ledger: appends, requests and deliveries in any order. */
module Polling {
  import opened Rows
  import opened Events
  import opened Copy
  import opened Entities
  import opened Feed
  import opened Paging

  type EventWorld = World<Entry, EventHistory>

  function Accept(reg: Registry, h: EventHistory, a: Answer<Entry>, maxHistory: int): EventHistory {
    AccumulateEventsPage(reg, h, a.rows, a.lastId, maxHistory)
  }

  ghost predicate Deliver(reg: Registry, maxHistory: int, w: EventWorld, x: EventWorld, a: Answer<Entry>) {
    && a in w.answers && Deliverable(Shown(w.client), a)
    && x == w.(client := Accept(reg, w.client, a, maxHistory))
  }

  ghost predicate Next(reg: Registry, maxHistory: int, w: EventWorld, x: EventWorld) {
    || (exists e :: Append(w, x, e))
    || (exists limit :: Ask(w, x, w.client.after, limit))
    || (exists a :: Deliver(reg, maxHistory, w, x, a))
  }

  ghost predicate Run(reg: Registry, maxHistory: int, ws: seq<EventWorld>) {
    && ws != [] && LedgerOk(ws[0].ledger) && ws[0].client == EMPTY_EVENT_HISTORY && ws[0].answers == []
    && forall i :: 0 <= i < |ws| - 1 ==> Next(reg, maxHistory, ws[i], ws[i + 1])
  }

  // ---- what every step keeps ----

  /** The client has folded exactly the ledger up to its cursor, and shows the last of it. */
  ghost predicate Faithful(reg: Registry, maxHistory: int, ledger: seq<Event>, h: EventHistory) {
    && 0 <= h.after <= TailId(ledger)
    && h.open == OpenAfter(reg, UpTo(ledger, h.after), map[])
    && h.titles == TitlesAfter(UpTo(ledger, h.after), map[])
    && (forall i :: 0 <= i < |h.events| ==> h.events[i].id <= h.after)
    && (maxHistory >= 0 ==> h.events == SliceFromEnd(UpTo(ledger, h.after), maxHistory))
  }

  ghost predicate Inv(reg: Registry, maxHistory: int, w: EventWorld) {
    ServerInv(w.ledger, w.answers) && Faithful(reg, maxHistory, w.ledger, w.client)
  }

  lemma {:induction false} AppendKeepsInv(reg: Registry, maxHistory: int, w: EventWorld, x: EventWorld, e: Event)
    requires Inv(reg, maxHistory, w) && Append(w, x, e)
    ensures Inv(reg, maxHistory, x)
  {
    AppendKeepsServer(w, x, e);
    AppendKeepsPast(w.ledger, e, w.client.after);
  }

  lemma {:induction false} AbsorbKeepsFaith(reg: Registry, maxHistory: int, ledger: seq<Event>, h: EventHistory,
                                            h': EventHistory, n: nat)
    requires LedgerOk(ledger) && Faithful(reg, maxHistory, ledger, h) && 0 < n <= |After(ledger, h.after)|
    requires var unseen := After(ledger, h.after)[..n];
      h' == EventHistory(TailId(unseen), SliceFromEnd(h.events + unseen, maxHistory),
                         TitlesAfter(unseen, h.titles), OpenAfter(reg, unseen, h.open))
    ensures Faithful(reg, maxHistory, ledger, h') && h'.after > h.after
  {
    hide UpTo, After, OpenAfter, TitlesAfter, InWindow;
    var done, unseen := UpTo(ledger, h.after), After(ledger, h.after)[..n];
    PieceOrder(ledger, h.after, n);
    AbsorbPage(ledger, h.after, n);
    OpenFoldIsIncremental(reg, done, unseen, map[]);
    TitleFoldIsIncremental(done, unseen, map[]);
    if maxHistory >= 0 { SliceExtends(done, unseen, maxHistory); }
    SliceBound(h.events + unseen, maxHistory, h'.after);
  }

  lemma {:induction false} DeliverKeepsFaith(reg: Registry, maxHistory: int, ledger: seq<Event>, h: EventHistory,
                                             a: Answer<Entry>)
    requires LedgerOk(ledger) && Faithful(reg, maxHistory, ledger, h)
    requires Truthful(ledger, a) && Deliverable(Shown(h), a)
    ensures Faithful(reg, maxHistory, ledger, Accept(reg, h, a, maxHistory))
    ensures Accept(reg, h, a, maxHistory).after >= h.after
  {
    FreshIsPast(h.events, a.rows, h.after);
    PrefixPast(ledger, a.asked, a.rows, h.after);
    var unseen := After(a.rows, h.after);
    if unseen == [] {
      NothingPastMeansBehind(a.rows, h.after);
    } else {
      LastOfSplit(a.rows, h.after);
      CursorMember(a.rows, h.after, unseen[|unseen| - 1]);
      AbsorbKeepsFaith(reg, maxHistory, ledger, h, Accept(reg, h, a, maxHistory), |unseen|);
    }
  }

  lemma {:induction false} NextKeepsInv(reg: Registry, maxHistory: int, w: EventWorld, x: EventWorld)
    requires Inv(reg, maxHistory, w) && Next(reg, maxHistory, w, x)
    ensures Inv(reg, maxHistory, x)
    ensures x.client.after >= w.client.after
  {
    if e :| Append(w, x, e) {
      AppendKeepsInv(reg, maxHistory, w, x, e);
    } else if limit :| Ask(w, x, w.client.after, limit) {
      AskKeepsServer(w, x, w.client.after, limit);
    } else {
      var a :| Deliver(reg, maxHistory, w, x, a);
      DeliverKeepsFaith(reg, maxHistory, w.ledger, w.client, a);
    }
  }

  /** In every state of every run the live maps are one fold over the ledger up to the cursor, whatever
      the display cap, and the window is the last `maxHistory` of it. */
  lemma {:induction false} RunIsFaithful(reg: Registry, maxHistory: int, ws: seq<EventWorld>, i: nat)
    requires Run(reg, maxHistory, ws) && i < |ws|
    ensures Inv(reg, maxHistory, ws[i])
  {
    if i == 0 {
      AllPast(ws[0].ledger, 0);
    } else {
      RunIsFaithful(reg, maxHistory, ws, i - 1);
      NextKeepsInv(reg, maxHistory, ws[i - 1], ws[i - 1 + 1]);
    }
  }

  lemma {:induction false} CursorNeverMovesBack(reg: Registry, maxHistory: int, ws: seq<EventWorld>, i: nat, j: nat)
    requires Run(reg, maxHistory, ws) && i <= j < |ws|
    ensures ws[i].client.after <= ws[j].client.after
  {
    if i < j {
      CursorNeverMovesBack(reg, maxHistory, ws, i, j - 1);
      RunIsFaithful(reg, maxHistory, ws, j - 1);
      NextKeepsInv(reg, maxHistory, ws[j - 1], ws[j - 1 + 1]);
    }
  }

  /** Over every run: folding an answer a second time right after the first changes nothing exactly when the display
      window has room for all of it, or when it brought nothing new in the first place. */
  lemma {:induction false} FoldedTwiceIff(reg: Registry, maxHistory: nat, ws: seq<EventWorld>, i: nat, a: Answer<Entry>)
    requires Run(reg, maxHistory, ws) && i < |ws|
    requires a in ws[i].answers && Deliverable(Shown(ws[i].client), a)
    ensures var next := Accept(reg, ws[i].client, a, maxHistory);
      (Accept(reg, next, a, maxHistory) == next)
        <==> (maxHistory == 0 || |a.rows| <= maxHistory || After(a.rows, ws[i].client.after) == [])
  {
    RunIsFaithful(reg, maxHistory, ws, i);
    var h := ws[i].client;
    var next := Accept(reg, h, a, maxHistory);
    WindowFoldedTwiceIff(ws[i].ledger, Shown(h), a, maxHistory);
    assert Shown(next) == AccumulateSpendPage(Shown(h), a.rows, a.lastId, maxHistory);
    RedeliveryIsNoOpIff(reg, next, a.rows, a.lastId, maxHistory);
    SpendRedeliveryIsNoOpIff(Shown(next), a.rows, a.lastId, maxHistory);
  }

  /** So under a display cap that holds the server's largest page, as the dashboard's does, the accumulation is
      idempotent in every state of every run, whatever limits the client asked for. */
  lemma {:induction false} FoldingIsIdempotent(reg: Registry, maxHistory: nat, ws: seq<EventWorld>, i: nat,
                                               a: Answer<Entry>)
    requires Run(reg, maxHistory, ws) && i < |ws| && maxHistory >= MAX_PAGE_LIMIT
    requires a in ws[i].answers && Deliverable(Shown(ws[i].client), a)
    ensures var next := Accept(reg, ws[i].client, a, maxHistory);
      Accept(reg, next, a, maxHistory) == next
  {
    RunIsFaithful(reg, maxHistory, ws, i);
    FoldedTwiceIff(reg, maxHistory, ws, i, a);
  }

  // ---- catching up ----

  /** The client asks at its cursor and folds the very answer it gets. */
  ghost predicate IsRound(reg: Registry, maxHistory: int, w: EventWorld, x: EventWorld, y: EventWorld,
                          limit: QueryText) {
    Ask(w, x, w.client.after, limit) && Deliver(reg, maxHistory, x, y, x.answers[|x.answers| - 1])
  }

  ghost predicate AreRounds(reg: Registry, maxHistory: int, ws: seq<EventWorld>, i: nat, n: nat, limit: QueryText)
    requires i + 2 * n < |ws|
  {
    forall k :: 0 <= k < n ==> IsRound(reg, maxHistory, ws[i + 2 * k], ws[i + 2 * k + 1], ws[i + 2 * k + 2], limit)
  }

  /** In every state of every run such a round can be made, whatever well-formed limit the client asks for. */
  lemma {:induction false} RoundIsPossible(reg: Registry, maxHistory: nat, ws: seq<EventWorld>, limit: QueryText)
    requires Run(reg, maxHistory, ws) && (limit == Absent || (limit.Integer? && limit.n >= 1))
    ensures exists x, y :: IsRound(reg, maxHistory, ws[|ws| - 1], x, y, limit) && Run(reg, maxHistory, ws + [x, y])
  {
    var w := ws[|ws| - 1];
    RunIsFaithful(reg, maxHistory, ws, |ws| - 1);
    var x, y := RoundFrom(reg, maxHistory, w, limit);
    hide *;
    RunExtends(reg, maxHistory, ws, x);
    RunExtends(reg, maxHistory, ws + [x], y);
    assert ws + [x] + [y] == ws + [x, y];
  }

  lemma {:induction false} RunExtends(reg: Registry, maxHistory: int, ws: seq<EventWorld>, x: EventWorld)
    requires Run(reg, maxHistory, ws) && Next(reg, maxHistory, ws[|ws| - 1], x)
    ensures Run(reg, maxHistory, ws + [x])
  {
    hide Next, LedgerOk;
    var longer := ws + [x];
    forall j | 0 <= j < |longer| - 1 ensures Next(reg, maxHistory, longer[j], longer[j + 1]) {
      if j < |ws| - 1 { assert Next(reg, maxHistory, ws[j], ws[j + 1]); }
    }
  }

  lemma {:induction false} RoundFrom(reg: Registry, maxHistory: nat, w: EventWorld, limit: QueryText)
    returns (x: EventWorld, y: EventWorld)
    requires Inv(reg, maxHistory, w) && (limit == Absent || (limit.Integer? && limit.n >= 1))
    ensures IsRound(reg, maxHistory, w, x, y, limit)
    ensures Next(reg, maxHistory, w, x) && Next(reg, maxHistory, x, y)
  {
    var reply := PagedReply(w.ledger, Integer(w.client.after), limit);
    ReplyIs(w.ledger, Integer(w.client.after), limit);
    AnswerTakesItsRows(w.ledger, Shown(w.client), limit, maxHistory);
    hide PagedReply, Accept, After, UpTo, TitlesAfter, OpenAfter, SliceFromEnd;
    var a := Answer(w.client.after, reply.rows, reply.lastId);
    x := w.(answers := w.answers + [a]);
    y := x.(client := Accept(reg, x.client, a, maxHistory));
    assert Ask(w, x, w.client.after, limit);
    assert Deliver(reg, maxHistory, x, y, x.answers[|x.answers| - 1]);
  }

  lemma {:induction false} RoundTakesItsRows(reg: Registry, maxHistory: nat, w: EventWorld, x: EventWorld,
                                             y: EventWorld, limit: QueryText)
    requires Inv(reg, maxHistory, w) && IsRound(reg, maxHistory, w, x, y, limit)
    ensures y.ledger == w.ledger && PageSize(limit) >= 1
    ensures var left := |After(w.ledger, w.client.after)|;
      |After(y.ledger, y.client.after)| == left - (if PageSize(limit) <= left then PageSize(limit) else left)
  {
    ReplyIs(w.ledger, Integer(w.client.after), limit);
    AnswerTakesItsRows(w.ledger, Shown(w.client), limit, maxHistory);
    hide Inv, LedgerOk, After, OpenAfter, TitlesAfter, SliceFromEnd, Fresh;
    var reply := PagedReply(w.ledger, Integer(w.client.after), limit);
    assert x.answers[|x.answers| - 1] == Answer(w.client.after, reply.rows, reply.lastId);
  }

  lemma {:induction false} RoundsTail(reg: Registry, maxHistory: int, ws: seq<EventWorld>, i: nat, n: nat,
                                      limit: QueryText)
    requires 0 < n && i + 2 * n < |ws| && AreRounds(reg, maxHistory, ws, i, n, limit)
    ensures IsRound(reg, maxHistory, ws[i], ws[i + 1], ws[i + 2], limit)
    ensures AreRounds(reg, maxHistory, ws, i + 2, n - 1, limit)
  {
    hide IsRound;
    assert i + 2 * 0 == i;
    forall k | 0 <= k < n - 1
      ensures IsRound(reg, maxHistory, ws[i + 2 + 2 * k], ws[i + 2 + 2 * k + 1], ws[i + 2 + 2 * k + 2], limit)
    {
      var j := k + 1;
      assert i + 2 * j == i + 2 + 2 * k;
    }
  }

  /** Over every run: `n` rounds of one limit have read everything exactly when `n` pages of that size cover what was
      left before them. */
  lemma {:induction false} CaughtUpIff(reg: Registry, maxHistory: nat, ws: seq<EventWorld>, i: nat, n: nat,
                                       limit: QueryText)
    requires Run(reg, maxHistory, ws) && i + 2 * n < |ws| && AreRounds(reg, maxHistory, ws, i, n, limit)
    ensures var before, after := ws[i], ws[i + 2 * n];
      && after.ledger == before.ledger
      && ((After(after.ledger, after.client.after) == [])
          <==> (|After(before.ledger, before.client.after)| <= n * PageSize(limit)))
    decreases n
  {
    hide *;
    var size := PageSize(limit);
    if n == 0 {
      assert 0 * size == 0;
    } else {
      RoundsTail(reg, maxHistory, ws, i, n, limit);
      RunIsFaithful(reg, maxHistory, ws, i);
      RoundTakesItsRows(reg, maxHistory, ws[i], ws[i + 1], ws[i + 2], limit);
      CaughtUpIff(reg, maxHistory, ws, i + 2, n - 1, limit);
      PageArithmetic(|After(ws[i].ledger, ws[i].client.after)|, size, n);
    }
  }
}

/** Polling runs over the spend ledger: appends, requests and deliveries in any order. */
module SpendPolling {
  import opened Rows
  import opened Spending
  import opened Feed
  import opened Paging

  type SpendWorld = World<Spend, SpendHistory<Spend>>

  const EMPTY_SPEND_HISTORY: SpendHistory<Spend> := SpendHistory(0, [])

  function Accept<T>(h: SpendHistory<T>, a: Answer<T>, maxHistory: int): SpendHistory<T> {
    AccumulateSpendPage(h, a.rows, a.lastId, maxHistory)
  }

  ghost predicate Deliver(maxHistory: int, w: SpendWorld, x: SpendWorld, a: Answer<Spend>) {
    a in w.answers && Deliverable(w.client, a) && x == w.(client := Accept(w.client, a, maxHistory))
  }

  ghost predicate Next(maxHistory: int, w: SpendWorld, x: SpendWorld) {
    || (exists row :: Append(w, x, row))
    || (exists limit :: Ask(w, x, w.client.after, limit))
    || (exists a :: Deliver(maxHistory, w, x, a))
  }

  ghost predicate SpendRun(maxHistory: int, ws: seq<SpendWorld>) {
    && ws != [] && LedgerOk(ws[0].ledger) && ws[0].client == EMPTY_SPEND_HISTORY && ws[0].answers == []
    && forall i :: 0 <= i < |ws| - 1 ==> Next(maxHistory, ws[i], ws[i + 1])
  }

  ghost predicate SpendInv(maxHistory: nat, w: SpendWorld) {
    ServerInv(w.ledger, w.answers) && Windowed(w.ledger, w.client, maxHistory)
  }

  lemma {:induction false} NextKeepsSpendInv(maxHistory: nat, w: SpendWorld, x: SpendWorld)
    requires SpendInv(maxHistory, w) && Next(maxHistory, w, x)
    ensures SpendInv(maxHistory, x) && x.client.after >= w.client.after
  {
    if row :| Append(w, x, row) {
      AppendKeepsServer(w, x, row);
      AppendKeepsPast(w.ledger, row, w.client.after);
    } else if limit :| Ask(w, x, w.client.after, limit) {
      AskKeepsServer(w, x, w.client.after, limit);
    } else {
      var a :| Deliver(maxHistory, w, x, a);
      AnswerKeepsWindow(w.ledger, w.client, a, maxHistory);
    }
  }

  /** In every state of every run from the empty history the spend rows are the last `maxHistory` ledger rows at or
      below the cursor, with no gap and no repeat. */
  lemma {:induction false} SpendRunIsFaithful(maxHistory: nat, ws: seq<SpendWorld>, i: nat)
    requires SpendRun(maxHistory, ws) && i < |ws|
    ensures SpendInv(maxHistory, ws[i])
  {
    if i == 0 {
      AllPast(ws[0].ledger, 0);
    } else {
      SpendRunIsFaithful(maxHistory, ws, i - 1);
      NextKeepsSpendInv(maxHistory, ws[i - 1], ws[i - 1 + 1]);
    }
  }

  /** The spend cursor never moves back over any run. */
  lemma {:induction false} SpendCursorNeverMovesBack(maxHistory: nat, ws: seq<SpendWorld>, i: nat, j: nat)
    requires SpendRun(maxHistory, ws) && i <= j < |ws|
    ensures ws[i].client.after <= ws[j].client.after
    decreases j - i
  {
    if i < j {
      SpendCursorNeverMovesBack(maxHistory, ws, i, j - 1);
      SpendRunIsFaithful(maxHistory, ws, j - 1);
      NextKeepsSpendInv(maxHistory, ws[j - 1], ws[j - 1 + 1]);
    }
  }

  /** Over every run: folding a spend answer a second time changes nothing exactly when the window has room for all of
      it, or when it brought nothing new in the first place. */
  lemma {:induction false} SpendFoldedTwiceIff(maxHistory: nat, ws: seq<SpendWorld>, i: nat, a: Answer<Spend>)
    requires SpendRun(maxHistory, ws) && i < |ws| && a in ws[i].answers && Deliverable(ws[i].client, a)
    ensures var next := Accept(ws[i].client, a, maxHistory);
      (Accept(next, a, maxHistory) == next)
        <==> (maxHistory == 0 || |a.rows| <= maxHistory || After(a.rows, ws[i].client.after) == [])
  {
    SpendRunIsFaithful(maxHistory, ws, i);
    WindowFoldedTwiceIff(ws[i].ledger, ws[i].client, a, maxHistory);
  }

  lemma {:induction false} SpendFoldingIsIdempotent(maxHistory: nat, ws: seq<SpendWorld>, i: nat, a: Answer<Spend>)
    requires SpendRun(maxHistory, ws) && i < |ws| && maxHistory >= MAX_PAGE_LIMIT
    requires a in ws[i].answers && Deliverable(ws[i].client, a)
    ensures var next := Accept(ws[i].client, a, maxHistory);
      Accept(next, a, maxHistory) == next
  {
    SpendRunIsFaithful(maxHistory, ws, i);
    SpendFoldedTwiceIff(maxHistory, ws, i, a);
  }

  // ---- catching up ----

  /** The client asks at its cursor and folds the very answer it gets. */
  ghost predicate IsRound(maxHistory: int, w: SpendWorld, x: SpendWorld, y: SpendWorld, limit: QueryText) {
    Ask(w, x, w.client.after, limit) && Deliver(maxHistory, x, y, x.answers[|x.answers| - 1])
  }

  ghost predicate AreRounds(maxHistory: int, ws: seq<SpendWorld>, i: nat, n: nat, limit: QueryText)
    requires i + 2 * n < |ws|
  {
    forall k :: 0 <= k < n ==> IsRound(maxHistory, ws[i + 2 * k], ws[i + 2 * k + 1], ws[i + 2 * k + 2], limit)
  }

  lemma {:induction false} SpendRoundTakesItsRows(maxHistory: nat, w: SpendWorld, x: SpendWorld, y: SpendWorld,
                                                  limit: QueryText)
    requires SpendInv(maxHistory, w) && IsRound(maxHistory, w, x, y, limit)
    ensures y.ledger == w.ledger && PageSize(limit) >= 1
    ensures var left := |After(w.ledger, w.client.after)|;
      |After(y.ledger, y.client.after)| == left - (if PageSize(limit) <= left then PageSize(limit) else left)
  {
    ReplyIs(w.ledger, Integer(w.client.after), limit);
    AnswerTakesItsRows(w.ledger, w.client, limit, maxHistory);
    hide SpendInv, LedgerOk, After, AccumulateSpendPage;
    var reply := PagedReply(w.ledger, Integer(w.client.after), limit);
    assert x.answers[|x.answers| - 1] == Answer(w.client.after, reply.rows, reply.lastId);
  }

  lemma {:induction false} SpendRoundsTail(maxHistory: int, ws: seq<SpendWorld>, i: nat, n: nat, limit: QueryText)
    requires 0 < n && i + 2 * n < |ws| && AreRounds(maxHistory, ws, i, n, limit)
    ensures IsRound(maxHistory, ws[i], ws[i + 1], ws[i + 2], limit)
    ensures AreRounds(maxHistory, ws, i + 2, n - 1, limit)
  {
    hide IsRound;
    assert i + 2 * 0 == i;
    forall k | 0 <= k < n - 1
      ensures IsRound(maxHistory, ws[i + 2 + 2 * k], ws[i + 2 + 2 * k + 1], ws[i + 2 + 2 * k + 2], limit)
    {
      var j := k + 1;
      assert i + 2 * j == i + 2 + 2 * k;
    }
  }

  /** Over every run: `n` rounds of one limit have read the whole spend ledger exactly when `n` pages of that size
      cover what was left before them. */
  lemma {:induction false} SpendCaughtUpIff(maxHistory: nat, ws: seq<SpendWorld>, i: nat, n: nat, limit: QueryText)
    requires SpendRun(maxHistory, ws) && i + 2 * n < |ws| && AreRounds(maxHistory, ws, i, n, limit)
    ensures var before, after := ws[i], ws[i + 2 * n];
      && after.ledger == before.ledger
      && ((After(after.ledger, after.client.after) == [])
          <==> (|After(before.ledger, before.client.after)| <= n * PageSize(limit)))
    decreases n
  {
    hide *;
    var size := PageSize(limit);
    if n == 0 {
      assert 0 * size == 0;
    } else {
      SpendRoundsTail(maxHistory, ws, i, n, limit);
      SpendRunIsFaithful(maxHistory, ws, i);
      SpendRoundTakesItsRows(maxHistory, ws[i], ws[i + 1], ws[i + 2], limit);
      SpendCaughtUpIff(maxHistory, ws, i + 2, n - 1, limit);
      PageArithmetic(|After(ws[i].ledger, ws[i].client.after)|, size, n);
    }
  }
}

/** The operator's one-shot reading of a whole ledger, and its agreement with the live view. */
module Probe {
  import opened Rows
  import opened Events
  import opened Copy
  import opened Entities
  import opened Feed
  import opened Paging
  import opened Polling

  /** Pages forward until a page comes back empty; what it gathers is the ledger. */
  method ReadAllEvents(ledger: seq<Event>, pageSize: nat) returns (all: seq<Event>)
    requires LedgerOk(ledger) && pageSize >= 1
    ensures all == ledger
  {
    all := [];
    var afterId := 0;
    AllPast(ledger, 0);
    while true
      invariant all == UpTo(ledger, afterId)
      decreases |After(ledger, afterId)|
    {
      var page := EventsPage(ledger, afterId, pageSize);
      CursorSplits(ledger, afterId);
      if |page| == 0 {
        return;
      }
      AbsorbPage(ledger, afterId, |page|);
      all := all + page;
      afterId := page[|page| - 1].id;
    }
  }

  /** The open rows as a set: the strip's own order is not modelled. */
  function OpenRows(open: OpenAttention): set<Event> {
    set k | k in open :: open[k]
  }

  function Overlay(rows: set<Event>, dismissed: set<int>): set<Event> {
    set e | e in rows && e.id !in dismissed
  }

  function OpenAttentionForProbe(reg: Registry, events: seq<Event>, dismissed: set<int>): set<Event> {
    Overlay(OpenRows(OpenAfter(reg, events, map[])), dismissed)
  }

  /** A dashboard that has caught up shows exactly the rows the probe counts, in every run. */
  lemma {:induction false} CaughtUpAgreesWithProbe(reg: Registry, maxHistory: int, ws: seq<EventWorld>, i: nat,
                                                   dismissed: set<int>)
    requires Run(reg, maxHistory, ws) && i < |ws|
    requires After(ws[i].ledger, ws[i].client.after) == []
    ensures forall e :: e in OpenAttentionForProbe(reg, ws[i].ledger, dismissed) <==>
      e.id !in dismissed && exists k :: k in ws[i].client.open && ws[i].client.open[k] == e
    ensures ws[i].client.titles == TitlesAfter(ws[i].ledger, map[])
  {
    RunIsFaithful(reg, maxHistory, ws, i);
    CursorSplits(ws[i].ledger, ws[i].client.after);
    assert UpTo(ws[i].ledger, ws[i].client.after) == ws[i].ledger;
  }
}
