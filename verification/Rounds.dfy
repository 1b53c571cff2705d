/** What the spend ledger records, and sums over it. Money is exact: the rounding of floating point is
    not modelled. */
module Spending {
  import opened Options
  import opened Rows

  datatype Spend = Spend(ts: string, worker: string, actorKind: Option<string>, model: string, usd: real)

  type SpendRow = Row<Spend>

  function Total(rows: seq<SpendRow>): real {
    if rows == [] then 0.0 else rows[0].item.usd + Total(rows[1..])
  }

  lemma {:induction false} TotalAppend(a: seq<SpendRow>, b: seq<SpendRow>)
    ensures Total(a + b) == Total(a) + Total(b)
  {
    if a == [] {
      assert a + b == b;
    } else {
      assert (a + b)[1..] == a[1..] + b;
      TotalAppend(a[1..], b);
    }
  }
}

/** Rounds as the dashboard reads them; a round's row id is its round id. */
module Rounds {
  import opened Options
  import opened Rows

  /** The two artifact members that are read, each absent when it is not a number. */
  datatype Artifact = Artifact(prsMerged: Option<real>, spendUsd: Option<real>)

  /** `artifact` is absent when it is null or not an object. */
  datatype RoundInfo = RoundInfo(done: bool, startEventId: int, startSpendId: int, eventCount: nat,
                                 artifact: Option<Artifact>)

  type Round = Row<RoundInfo>

  function First<T>(s: seq<T>): Option<T> { if s == [] then None else Some(s[0]) }

  /** The round with the next higher id. */
  function NextRound(rounds: seq<Round>, round: Round): Option<Round> {
    First(SortById(After(rounds, round.id)))
  }
}

/** Cutting the ledgers into rounds: a round holds what lies past its own start cursor and at or below the
    next round's. */
module RoundLog {
  import opened Options
  import opened Rows
  import opened Spending
  import opened Rounds
  import Feed

  function AtOrBelow<T>(s: seq<Row<T>>, ceiling: Option<int>): seq<Row<T>> {
    if ceiling.None? then s else UpTo(s, ceiling.value)
  }

  function Window<T>(s: seq<Row<T>>, start: int, ceiling: Option<int>): seq<Row<T>> {
    AtOrBelow(After(s, start), ceiling)
  }

  function RoundEventCeiling(round: Round, rounds: seq<Round>): Option<int> {
    var next := NextRound(rounds, round);
    if next.None? then None else Some(next.value.item.startEventId)
  }

  function SpendCeiling(round: Round, rounds: seq<Round>): Option<int> {
    var next := NextRound(rounds, round);
    if next.None? then None else Some(next.value.item.startSpendId)
  }

  function RoundEvents<T>(events: seq<Row<T>>, rounds: seq<Round>, round: Round): seq<Row<T>> {
    SortById(Window(events, round.item.startEventId, RoundEventCeiling(round, rounds)))
  }

  /** Stable sort by time stamp; `upTo` says of two stamps that the first does not come after the second. */
  function InsertByTs(r: SpendRow, s: seq<SpendRow>, upTo: (string, string) -> bool): seq<SpendRow> {
    if s == [] || upTo(r.item.ts, s[0].item.ts) then [r] + s else [s[0]] + InsertByTs(r, s[1..], upTo)
  }

  function SortByTs(s: seq<SpendRow>, upTo: (string, string) -> bool): seq<SpendRow> {
    if s == [] then [] else InsertByTs(s[0], SortByTs(s[1..], upTo), upTo)
  }

  function RoundSpend(spend: seq<SpendRow>, rounds: seq<Round>, round: Round,
                      upTo: (string, string) -> bool): seq<SpendRow> {
    SortByTs(Window(spend, round.item.startSpendId, SpendCeiling(round, rounds)), upTo)
  }

  // ---- which round comes next ----

  function EventCursors(rs: seq<Round>): seq<int> { seq(|rs|, i requires 0 <= i < |rs| => rs[i].item.startEventId) }

  function SpendCursors(rs: seq<Round>): seq<int> { seq(|rs|, i requires 0 <= i < |rs| => rs[i].item.startSpendId) }

  lemma {:induction false} AfterDistinct<T>(s: seq<Row<T>>, cursor: int)
    requires DistinctIds(s)
    ensures DistinctIds(After(s, cursor))
  {
    if s != [] {
      AfterDistinct(s[1..], cursor);
      var rest := After(s[1..], cursor);
      forall k | 0 <= k < |rest| ensures rest[k].id != s[0].id {
        CursorMember(s[1..], cursor, rest[k]);
        var j :| 0 <= j < |s[1..]| && s[1..][j] == rest[k];
        assert s[j + 1] == rest[k];
      }
    }
  }

  lemma {:induction false} PastIsLater(rounds: seq<Round>, i: nat)
    requires DistinctIds(rounds) && i < |SortById(rounds)|
    ensures SameRows(After(rounds, SortById(rounds)[i].id), SortById(rounds)[i + 1..])
    ensures Ascending(SortById(rounds)[i + 1..])
  {
    hide SortById, After;
    var rs := SortById(rounds);
    var later := rs[i + 1..];
    var past := After(rounds, rs[i].id);
    SortByIdAscends(rounds);
    forall k | 0 <= k < |later| ensures later[k] in past {
      assert later[k] == rs[i + 1 + k];
      SortByIdRow(rounds, later[k]);
      CursorMember(rounds, rs[i].id, later[k]);
    }
    forall k | 0 <= k < |past| ensures past[k] in later {
      CursorMember(rounds, rs[i].id, past[k]);
      SortByIdRow(rounds, past[k]);
      var j :| 0 <= j < |rs| && rs[j] == past[k];
      assert j > i;
      assert later[j - i - 1] == past[k];
    }
  }

  /** In id order, the next round of each round is its neighbour. */
  lemma {:induction false} NextIsNeighbour(rounds: seq<Round>, i: nat)
    requires DistinctIds(rounds) && i < |SortById(rounds)|
    ensures NextRound(rounds, SortById(rounds)[i]) ==
            if i + 1 < |SortById(rounds)| then Some(SortById(rounds)[i + 1]) else None
  {
    hide SortById, After, SameRows;
    var rs := SortById(rounds);
    var later := rs[i + 1..];
    var past := After(rounds, rs[i].id);
    PastIsLater(rounds, i);
    AfterDistinct(rounds, rs[i].id);
    SortedIsFixed(later);
    SortIgnoresOrder(past, later);
  }

  // ---- splitting a sorted log at a cursor ----

  lemma {:induction false} InsertAbove<T>(r: Row<T>, s: seq<Row<T>>, t: seq<Row<T>>)
    requires forall x :: x in s ==> x.id < r.id
    ensures InsertById(r, s + t) == s + InsertById(r, t)
  {
    if s == [] {
      assert s + t == t;
    } else {
      assert s[0] in s;
      assert (s + t)[1..] == s[1..] + t;
      InsertAbove(r, s[1..], t);
      assert [s[0]] + (s[1..] + InsertById(r, t)) == s + InsertById(r, t);
    }
  }

  /** Sorting in one go is sorting what lies at or below a cursor, then what lies past it. */
  lemma {:induction false} SortSplits<T>(s: seq<Row<T>>, cursor: int)
    ensures SortById(s) == SortById(UpTo(s, cursor)) + SortById(After(s, cursor))
  {
    if s != [] {
      SortSplits(s[1..], cursor);
      var low, high := SortById(UpTo(s[1..], cursor)), SortById(After(s[1..], cursor));
      if s[0].id <= cursor {
        forall x | x in high ensures s[0].id <= x.id {
          SortByIdRow(After(s[1..], cursor), x);
          CursorMember(s[1..], cursor, x);
        }
        InsertBelow(s[0], low, high);
        assert After(s, cursor) == After(s[1..], cursor);
        assert ([s[0]] + UpTo(s[1..], cursor))[1..] == UpTo(s[1..], cursor);
      } else {
        forall x | x in low ensures x.id < s[0].id {
          SortByIdRow(UpTo(s[1..], cursor), x);
          CursorMember(s[1..], cursor, x);
        }
        InsertAbove(s[0], low, high);
        assert UpTo(s, cursor) == UpTo(s[1..], cursor);
        assert ([s[0]] + After(s[1..], cursor))[1..] == After(s[1..], cursor);
      }
    }
  }

  // ---- the partition ----

  /** The slice between the `i`-th cursor and the next one. */
  function Slice<T>(s: seq<Row<T>>, cursors: seq<int>, i: nat): seq<Row<T>>
    requires i < |cursors|
  {
    Window(s, cursors[i], if i + 1 < |cursors| then Some(cursors[i + 1]) else None)
  }

  /** The slices from the `i`-th on, each in id order, one after the other. */
  function Slices<T>(s: seq<Row<T>>, cursors: seq<int>, i: nat): seq<Row<T>>
    requires i <= |cursors|
    decreases |cursors| - i
  {
    if i == |cursors| then [] else SortById(Slice(s, cursors, i)) + Slices(s, cursors, i + 1)
  }

  ghost predicate Climbing(cursors: seq<int>) {
    forall i :: 0 <= i < |cursors| - 1 ==> cursors[i] <= cursors[i + 1]
  }

  lemma {:induction false} SlicesJoin<T>(s: seq<Row<T>>, cursors: seq<int>, i: nat)
    requires i < |cursors| && Climbing(cursors)
    ensures Slices(s, cursors, i) == SortById(After(s, cursors[i]))
    decreases |cursors| - i
  {
    if i + 1 < |cursors| {
      SlicesJoin(s, cursors, i + 1);
      SortSplits(After(s, cursors[i]), cursors[i + 1]);
      AfterAfter(s, cursors[i], cursors[i + 1]);
    } else {
      assert Slices(s, cursors, i + 1) == [];
    }
  }

  /** A row past the last cursor it meets stays in some slice from there on. */
  lemma {:induction false} SomeSliceHolds<T>(x: Row<T>, cursors: seq<int>, i: nat)
    requires i < |cursors| && cursors[i] < x.id
    ensures |Slices([x], cursors, i)| >= 1
    decreases |cursors| - i
  {
    CursorMember([x], cursors[i], x);
    if i + 1 < |cursors| {
      if cursors[i + 1] < x.id {
        SomeSliceHolds(x, cursors, i + 1);
      } else {
        CursorMember(After([x], cursors[i]), cursors[i + 1], x);
        SortByIdRow(Slice([x], cursors, i), x);
      }
    } else {
      SortByIdRow(Slice([x], cursors, i), x);
    }
  }

  /** A row between an earlier cursor and a later one lies in a slice between them. */
  lemma {:induction false} SliceBetween<T>(x: Row<T>, cursors: seq<int>, i: nat, j: nat)
    requires i < j < |cursors| && cursors[i] < x.id <= cursors[j]
    ensures |Slices([x], cursors, i)| >= 1 + |Slices([x], cursors, j)|
    decreases j - i
  {
    CursorMember([x], cursors[i], x);
    if cursors[i + 1] < x.id {
      SliceBetween(x, cursors, i + 1, j);
    } else {
      CursorMember(After([x], cursors[i]), cursors[i + 1], x);
      SortByIdRow(Slice([x], cursors, i), x);
      SlicesShrink([x], cursors, i + 1, j);
    }
  }

  lemma {:induction false} SlicesShrink<T>(s: seq<Row<T>>, cursors: seq<int>, i: nat, j: nat)
    requires i <= j <= |cursors|
    ensures |Slices(s, cursors, i)| >= |Slices(s, cursors, j)|
    decreases j - i
  {
    if i < j { SlicesShrink(s, cursors, i + 1, j); }
  }

  /** Where the cursors fall back, a single row is lost from the order of things: it is held twice, or held
      although it lies before the first round. */
  lemma {:induction false} FallingCursorsMiscount<T>(x: Row<T>, cursors: seq<int>, i: nat)
    requires i + 1 < |cursors| && cursors[i + 1] < x.id <= cursors[i]
    ensures Slices([x], cursors, 0) != SortById(After([x], cursors[0]))
  {
    SomeSliceHolds(x, cursors, i + 1);
    SlicesShrink([x], cursors, 0, i + 1);
    SortByIdRow(After([x], cursors[0]), x);
    if cursors[0] < x.id {
      SlicesShrink([x], cursors, i, i + 1);
      SliceBetween(x, cursors, 0, i);
    }
  }

  /** The slices of every ledger, put together in round order, give back the id-sorted ledger past the first
      round's cursor, exactly when the cursors never fall from one round to the next. */
  lemma {:induction false} SlicesPartitionIff<T>(cursors: seq<int>, item: T)
    requires cursors != []
    ensures Climbing(cursors) <==> forall s: seq<Row<T>> :: Slices(s, cursors, 0) == SortById(After(s, cursors[0]))
  {
    if Climbing(cursors) {
      forall s: seq<Row<T>> ensures Slices(s, cursors, 0) == SortById(After(s, cursors[0])) {
        SlicesJoin(s, cursors, 0);
      }
    } else {
      var i :| 0 <= i < |cursors| - 1 && cursors[i] > cursors[i + 1];
      FallingCursorsMiscount(Row(cursors[i], item), cursors, i);
    }
  }

  // ---- the rounds of a bundle ----

  /** The event slices of the rounds from the `i`-th on, in round order. */
  function RoundsEvents<T>(events: seq<Row<T>>, rounds: seq<Round>, i: nat): seq<Row<T>>
    requires i <= |SortById(rounds)|
    decreases |SortById(rounds)| - i
  {
    if i == |SortById(rounds)| then []
    else RoundEvents(events, rounds, SortById(rounds)[i]) + RoundsEvents(events, rounds, i + 1)
  }

  lemma {:induction false} RoundsAreSlices<T>(events: seq<Row<T>>, rounds: seq<Round>, i: nat)
    requires DistinctIds(rounds) && i <= |SortById(rounds)|
    ensures RoundsEvents(events, rounds, i) == Slices(events, EventCursors(SortById(rounds)), i)
    decreases |SortById(rounds)| - i
  {
    if i < |SortById(rounds)| {
      NextIsNeighbour(rounds, i);
      RoundsAreSlices(events, rounds, i + 1);
    }
  }

  /** Whatever order rounds and events come in, the rounds' event slices in round order are the id-sorted
      log past the first round's cursor. */
  lemma {:induction false} RoundsPartitionEvents<T>(events: seq<Row<T>>, rounds: seq<Round>)
    requires DistinctIds(rounds) && rounds != []
    requires Climbing(EventCursors(SortById(rounds)))
    ensures |SortById(rounds)| > 0
    ensures RoundsEvents(events, rounds, 0) == SortById(After(events, SortById(rounds)[0].item.startEventId))
  {
    SortByIdRow(rounds, rounds[0]);
    RoundsAreSlices(events, rounds, 0);
    SlicesJoin(events, EventCursors(SortById(rounds)), 0);
  }

  /** The id lies past the `i`-th cursor and not past the next one. */
  predicate InSlice(cursors: seq<int>, i: nat, id: int)
    requires i < |cursors|
  {
    cursors[i] < id && (i + 1 < |cursors| ==> id <= cursors[i + 1])
  }

  lemma {:induction false} LastCursorBefore(cursors: seq<int>, id: int, i: nat) returns (j: nat)
    requires i < |cursors| && cursors[i] < id
    ensures i <= j < |cursors| && InSlice(cursors, j, id)
    decreases |cursors| - i
  {
    j := i;
    if i + 1 < |cursors| && cursors[i + 1] < id { j := LastCursorBefore(cursors, id, i + 1); }
  }

  lemma {:induction false} ClimbingPairs(cursors: seq<int>, i: nat, j: nat)
    requires Climbing(cursors) && i <= j < |cursors|
    ensures cursors[i] <= cursors[j]
    decreases j - i
  {
    if i < j { ClimbingPairs(cursors, i, j - 1); }
  }

  lemma {:induction false} OneSliceAtMost(cursors: seq<int>, id: int, j: nat, k: nat)
    requires Climbing(cursors) && j < |cursors| && k < |cursors| && InSlice(cursors, j, id) && InSlice(cursors, k, id)
    ensures j == k
  {
    if k < j { ClimbingPairs(cursors, k + 1, j); }
    if j < k { ClimbingPairs(cursors, j + 1, k); }
  }

  /** Which rounds hold a row, told by the round: `holds` is what the two theorems below put in. */
  ghost predicate ByCursors(rounds: seq<Round>, cursors: seq<int>, id: int, holds: Round -> bool) {
    && |cursors| == |SortById(rounds)|
    && forall i :: 0 <= i < |cursors| ==> holds(SortById(rounds)[i]) == InSlice(cursors, i, id)
  }

  /** When cursors say which rounds hold a row, exactly one does past the first cursor, and none before. */
  lemma {:induction false} ExactlyOneRound(rounds: seq<Round>, cursors: seq<int>, id: int, holds: Round -> bool)
    requires rounds != [] && Climbing(cursors) && ByCursors(rounds, cursors, id, holds)
    ensures |cursors| > 0
    ensures if id > cursors[0]
            then exists i :: 0 <= i < |rounds| && holds(rounds[i])
                   && forall q :: q in rounds && holds(q) ==> q == rounds[i]
            else forall q :: q in rounds ==> !holds(q)
  {
    hide SortById, InSlice, Climbing;
    var rs := SortById(rounds);
    SortByIdRow(rounds, rounds[0]);
    if id > cursors[0] {
      var j := LastCursorBefore(cursors, id, 0);
      SortByIdRow(rounds, rs[j]);
      var i :| 0 <= i < |rounds| && rounds[i] == rs[j];
      forall q | q in rounds && holds(q) ensures q == rounds[i] {
        SortByIdRow(rounds, q);
        var k :| 0 <= k < |rs| && rs[k] == q;
        OneSliceAtMost(cursors, id, j, k);
      }
    } else {
      forall q | q in rounds ensures !holds(q) {
        SortByIdRow(rounds, q);
        var k :| 0 <= k < |rs| && rs[k] == q;
        BeforeFirst(cursors, id, k);
      }
    }
  }

  lemma {:induction false} BeforeFirst(cursors: seq<int>, id: int, k: nat)
    requires Climbing(cursors) && k < |cursors| && id <= cursors[0]
    ensures !InSlice(cursors, k, id)
  {
    ClimbingPairs(cursors, 0, k);
  }

  lemma {:induction false} WindowMember<T>(s: seq<Row<T>>, cursors: seq<int>, i: nat, x: Row<T>)
    requires i < |cursors|
    ensures x in Slice(s, cursors, i) <==> x in s && InSlice(cursors, i, x.id)
  {
    CursorMember(s, cursors[i], x);
    if i + 1 < |cursors| { CursorMember(After(s, cursors[i]), cursors[i + 1], x); }
  }

  lemma {:induction false} EventsByCursors<T>(events: seq<Row<T>>, rounds: seq<Round>, i: nat, e: Row<T>)
    requires DistinctIds(rounds) && i < |SortById(rounds)| && e in events
    ensures e in RoundEvents(events, rounds, SortById(rounds)[i]) <==> InSlice(EventCursors(SortById(rounds)), i, e.id)
  {
    hide SortById, InSlice;
    NextIsNeighbour(rounds, i);
    WindowMember(events, EventCursors(SortById(rounds)), i, e);
    SortByIdRow(Slice(events, EventCursors(SortById(rounds)), i), e);
  }

  /** Every event past the first round's cursor lies in exactly one round, and no other event in any. */
  lemma {:induction false} ExactlyOneRoundHolds<T>(events: seq<Row<T>>, rounds: seq<Round>, e: Row<T>)
    requires DistinctIds(rounds) && rounds != [] && e in events
    requires Climbing(EventCursors(SortById(rounds)))
    ensures |SortById(rounds)| > 0
    ensures if e.id > SortById(rounds)[0].item.startEventId
            then exists i :: 0 <= i < |rounds| && e in RoundEvents(events, rounds, rounds[i])
                   && forall q :: q in rounds && e in RoundEvents(events, rounds, q) ==> q == rounds[i]
            else forall q :: q in rounds ==> e !in RoundEvents(events, rounds, q)
  {
    hide RoundEvents, SortById, InSlice, Climbing;
    var cursors := EventCursors(SortById(rounds));
    var holds := (q: Round) => e in RoundEvents(events, rounds, q);
    forall i | 0 <= i < |cursors| ensures holds(SortById(rounds)[i]) == InSlice(cursors, i, e.id) {
      EventsByCursors(events, rounds, i, e);
    }
    ExactlyOneRound(rounds, cursors, e.id, holds);
  }

  // ---- spend ----

  lemma {:induction false} InsertByTsTotal(r: SpendRow, s: seq<SpendRow>, upTo: (string, string) -> bool)
    ensures Total(InsertByTs(r, s, upTo)) == r.item.usd + Total(s)
  {
    if s == [] || upTo(r.item.ts, s[0].item.ts) {
      assert ([r] + s)[1..] == s;
    } else {
      InsertByTsTotal(r, s[1..], upTo);
      assert ([s[0]] + InsertByTs(r, s[1..], upTo))[1..] == InsertByTs(r, s[1..], upTo);
    }
  }

  lemma {:induction false} SortByTsTotal(s: seq<SpendRow>, upTo: (string, string) -> bool)
    ensures Total(SortByTs(s, upTo)) == Total(s)
  {
    if s != [] {
      SortByTsTotal(s[1..], upTo);
      InsertByTsTotal(s[0], SortByTs(s[1..], upTo), upTo);
    }
  }

  lemma {:induction false} CursorSplitsTotal(s: seq<SpendRow>, cursor: int)
    ensures Total(UpTo(s, cursor)) + Total(After(s, cursor)) == Total(s)
  {
    if s != [] {
      CursorSplitsTotal(s[1..], cursor);
      TotalAppend(if s[0].id <= cursor then [s[0]] else [], UpTo(s[1..], cursor));
      TotalAppend(if s[0].id > cursor then [s[0]] else [], After(s[1..], cursor));
    }
  }

  lemma {:induction false} SortByTsRow(s: seq<SpendRow>, upTo: (string, string) -> bool, x: SpendRow)
    ensures x in SortByTs(s, upTo) <==> x in s
  {
    if s != [] {
      SortByTsRow(s[1..], upTo, x);
      InsertByTsRow(s[0], SortByTs(s[1..], upTo), upTo, x);
      assert s == [s[0]] + s[1..];
    }
  }

  lemma {:induction false} InsertByTsRow(r: SpendRow, s: seq<SpendRow>, upTo: (string, string) -> bool, x: SpendRow)
    ensures x in InsertByTs(r, s, upTo) <==> x == r || x in s
  {
    if s != [] && !upTo(r.item.ts, s[0].item.ts) {
      InsertByTsRow(r, s[1..], upTo, x);
      assert s == [s[0]] + s[1..];
    }
  }

  /** Of any two stamps one does not come after the other, and the relation is transitive. */
  ghost predicate OrdersStamps(upTo: (string, string) -> bool) {
    && (forall a, b :: upTo(a, b) || upTo(b, a))
    && forall a, b, c :: upTo(a, b) && upTo(b, c) ==> upTo(a, c)
  }

  /** In the order of the stamps, and rows of one stamp in the order of their ids. */
  ghost predicate InTimeOrder(s: seq<SpendRow>, upTo: (string, string) -> bool) {
    forall i, j :: 0 <= i < j < |s| ==>
      upTo(s[i].item.ts, s[j].item.ts) && (upTo(s[j].item.ts, s[i].item.ts) ==> s[i].id < s[j].id)
  }

  lemma {:induction false} InsertByTsSorts(r: SpendRow, s: seq<SpendRow>, upTo: (string, string) -> bool)
    requires OrdersStamps(upTo) && InTimeOrder(s, upTo) && forall x :: x in s ==> r.id < x.id
    ensures InTimeOrder(InsertByTs(r, s, upTo), upTo)
  {
    if s != [] {
      if upTo(r.item.ts, s[0].item.ts) {
        assert forall k :: 0 <= k < |s| ==> upTo(s[0].item.ts, s[k].item.ts) && s[k] in s;
      } else {
        assert s == [s[0]] + s[1..];
        InsertByTsSorts(r, s[1..], upTo);
        var t := InsertByTs(r, s[1..], upTo);
        forall k | 0 <= k < |t|
          ensures upTo(s[0].item.ts, t[k].item.ts) && (upTo(t[k].item.ts, s[0].item.ts) ==> s[0].id < t[k].id)
        {
          InsertByTsRow(r, s[1..], upTo, t[k]);
          assert t[k] in t;
        }
      }
    }
  }

  lemma {:induction false} SortByTsSorts(s: seq<SpendRow>, upTo: (string, string) -> bool)
    requires OrdersStamps(upTo) && Ascending(s)
    ensures InTimeOrder(SortByTs(s, upTo), upTo)
  {
    if s != [] {
      AscendingTail(s);
      SortByTsSorts(s[1..], upTo);
      forall x | x in SortByTs(s[1..], upTo) ensures s[0].id < x.id { SortByTsRow(s[1..], upTo, x); }
      InsertByTsSorts(s[0], SortByTs(s[1..], upTo), upTo);
    }
  }

  lemma {:induction false} AtOrBelowAscends(s: seq<SpendRow>, ceiling: Option<int>)
    requires Ascending(s)
    ensures Ascending(AtOrBelow(s, ceiling))
  {
    if ceiling.Some? { CursorHalves(s, ceiling.value); }
  }

  /** A round's spend comes in the order of its stamps, ties in ledger order: what the replay's binary search needs. */
  lemma {:induction false} RoundSpendIsInTimeOrder(spend: seq<SpendRow>, rounds: seq<Round>, round: Round,
                                                   upTo: (string, string) -> bool)
    requires Ascending(spend) && OrdersStamps(upTo)
    ensures InTimeOrder(RoundSpend(spend, rounds, round, upTo), upTo)
  {
    CursorHalves(spend, round.item.startSpendId);
    AtOrBelowAscends(After(spend, round.item.startSpendId), SpendCeiling(round, rounds));
    SortByTsSorts(Window(spend, round.item.startSpendId, SpendCeiling(round, rounds)), upTo);
  }

  lemma {:induction false} SpendByCursors(spend: seq<SpendRow>, rounds: seq<Round>, i: nat, x: SpendRow,
                                          upTo: (string, string) -> bool)
    requires DistinctIds(rounds) && i < |SortById(rounds)| && x in spend
    ensures x in RoundSpend(spend, rounds, SortById(rounds)[i], upTo)
        <==> InSlice(SpendCursors(SortById(rounds)), i, x.id)
  {
    hide SortById, SortByTs, InSlice;
    NextIsNeighbour(rounds, i);
    WindowMember(spend, SpendCursors(SortById(rounds)), i, x);
    SortByTsRow(Slice(spend, SpendCursors(SortById(rounds)), i), upTo, x);
  }

  /** Every spend row past the first round's cursor lies in exactly one round, and no other row in any. */
  lemma {:induction false} ExactlyOneRoundHoldsSpend(spend: seq<SpendRow>, rounds: seq<Round>, x: SpendRow,
                                                     upTo: (string, string) -> bool)
    requires DistinctIds(rounds) && rounds != [] && x in spend
    requires Climbing(SpendCursors(SortById(rounds)))
    ensures |SortById(rounds)| > 0
    ensures if x.id > SortById(rounds)[0].item.startSpendId
            then exists i :: 0 <= i < |rounds| && x in RoundSpend(spend, rounds, rounds[i], upTo)
                   && forall q :: q in rounds && x in RoundSpend(spend, rounds, q, upTo) ==> q == rounds[i]
            else forall q :: q in rounds ==> x !in RoundSpend(spend, rounds, q, upTo)
  {
    hide RoundSpend, SortById, InSlice, Climbing;
    var cursors := SpendCursors(SortById(rounds));
    var holds := (q: Round) => x in RoundSpend(spend, rounds, q, upTo);
    forall i | 0 <= i < |cursors| ensures holds(SortById(rounds)[i]) == InSlice(cursors, i, x.id) {
      SpendByCursors(spend, rounds, i, x, upTo);
    }
    ExactlyOneRound(rounds, cursors, x.id, holds);
  }

  /** What the rounds from the `i`-th on spent, added up round by round. */
  function RoundsTotal(spend: seq<SpendRow>, rounds: seq<Round>, i: nat, upTo: (string, string) -> bool): real
    requires i <= |SortById(rounds)|
    decreases |SortById(rounds)| - i
  {
    if i == |SortById(rounds)| then 0.0
    else Total(RoundSpend(spend, rounds, SortById(rounds)[i], upTo)) + RoundsTotal(spend, rounds, i + 1, upTo)
  }

  /** No money is lost or counted twice between rounds, whatever order their rows are put in. */
  lemma {:induction false} SpendIsConserved(spend: seq<SpendRow>, rounds: seq<Round>, i: nat,
                                            upTo: (string, string) -> bool)
    requires DistinctIds(rounds) && i < |SortById(rounds)| && Climbing(SpendCursors(SortById(rounds)))
    ensures RoundsTotal(spend, rounds, i, upTo) == Total(After(spend, SortById(rounds)[i].item.startSpendId))
    decreases |SortById(rounds)| - i
  {
    var rs := SortById(rounds);
    var from := rs[i].item.startSpendId;
    NextIsNeighbour(rounds, i);
    SortByTsTotal(Window(spend, from, SpendCeiling(rs[i], rounds)), upTo);
    if i + 1 < |rs| {
      assert SpendCursors(rs)[i] <= SpendCursors(rs)[i + 1];
      SpendIsConserved(spend, rounds, i + 1, upTo);
      CursorSplitsTotal(After(spend, from), rs[i + 1].item.startSpendId);
      AfterAfter(spend, from, rs[i + 1].item.startSpendId);
    } else {
      assert RoundsTotal(spend, rounds, i + 1, upTo) == 0.0;
    }
  }

  // ---- the same slice over the network ----

  /** One more page past the cursor extends what lies between the round's start and the cursor. */
  lemma {:induction false} PageExtendsSlice<T>(ledger: seq<Row<T>>, start: int, after: int, n: nat)
    requires Ascending(ledger) && start <= after && 0 < n <= |After(ledger, after)|
    ensures var last := After(ledger, after)[n - 1].id;
            last > after && UpTo(After(ledger, start), last)
                == UpTo(After(ledger, start), after) + After(ledger, after)[..n]
  {
    AfterAfter(ledger, start, after);
    CursorHalves(ledger, start);
    AbsorbPage(After(ledger, start), after, n);
  }

  lemma {:induction false} AtOrBelowAppend<T>(a: seq<Row<T>>, b: seq<Row<T>>, ceiling: Option<int>)
    ensures AtOrBelow(a + b, ceiling) == AtOrBelow(a, ceiling) + AtOrBelow(b, ceiling)
  {
    if ceiling.Some? { AfterAppend(a, b, ceiling.value); }
  }

  lemma {:induction false} StaysFull<T>(collected: seq<Row<T>>, page: seq<Row<T>>, i: nat, ceiling: Option<int>,
                                        eventCount: nat)
    requires i <= |page| && eventCount <= |Take(collected + AtOrBelow(page[..i], ceiling), eventCount)|
    ensures Take(collected + AtOrBelow(page, ceiling), eventCount)
        == Take(collected + AtOrBelow(page[..i], ceiling), eventCount)
  {
    hide AtOrBelow;
    AtOrBelowAppend(page[..i], page[i..], ceiling);
    assert page == page[..i] + page[i..];
    TakeEnough(collected, AtOrBelow(page[..i], ceiling), AtOrBelow(page[i..], ceiling), eventCount);
  }

  lemma {:induction false} TakeEnough<T>(a: seq<T>, b: seq<T>, c: seq<T>, n: nat)
    requires n <= |Take(a + b, n)|
    ensures Take(a + (b + c), n) == Take(a + b, n)
  {
    assert a + (b + c) == (a + b) + c;
  }

  lemma {:induction false} NextRowOfPage<T>(page: seq<Row<T>>, i: nat, ceiling: Option<int>)
    requires i < |page|
    ensures AtOrBelow(page[..i + 1], ceiling) ==
            if ceiling.Some? && page[i].id > ceiling.value then AtOrBelow(page[..i], ceiling)
            else AtOrBelow(page[..i], ceiling) + [page[i]]
  {
    AtOrBelowAppend(page[..i], [page[i]], ceiling);
    assert page[..i + 1] == page[..i] + [page[i]];
    if ceiling.Some? {
      if page[i].id > ceiling.value { AllPast([page[i]], ceiling.value); } else { NonePast([page[i]], ceiling.value); }
    }
  }

  lemma {:induction false} TakeOneMore<T>(collected: seq<T>, rows: seq<T>, e: T, n: nat)
    requires |Take(collected + rows, n)| < n
    ensures Take(collected + (rows + [e]), n) == Take(collected + rows, n) + [e]
  {
    assert collected + (rows + [e]) == (collected + rows) + [e];
  }

  /** The rows of one page that are kept: those at or below the ceiling, up to the number still missing. */
  method KeepPage<T>(collected: seq<Row<T>>, page: seq<Row<T>>, ceiling: Option<int>, eventCount: nat)
    returns (kept: seq<Row<T>>)
    requires |collected| <= eventCount
    ensures kept == Take(collected + AtOrBelow(page, ceiling), eventCount)
  {
    kept := collected;
    assert collected + AtOrBelow(page[..0], ceiling) == collected;
    for i := 0 to |page|
      invariant |kept| <= eventCount
      invariant kept == Take(collected + AtOrBelow(page[..i], ceiling), eventCount)
    {
      NextRowOfPage(page, i, ceiling);
      if ceiling.None? || page[i].id <= ceiling.value {
        if |kept| >= eventCount {
          StaysFull(collected, page, i, ceiling, eventCount);
          return;
        }
        TakeOneMore(collected, AtOrBelow(page[..i], ceiling), page[i], eventCount);
        kept := kept + [page[i]];
      }
    }
    assert page[..|page|] == page;
  }

  lemma {:induction false} SliceStaysFull<T>(s: seq<Row<T>>, cursor: int, ceiling: Option<int>, eventCount: nat)
    requires Ascending(s) && eventCount <= |AtOrBelow(UpTo(s, cursor), ceiling)|
    ensures Take(AtOrBelow(UpTo(s, cursor), ceiling), eventCount) == Take(AtOrBelow(s, ceiling), eventCount)
  {
    CursorSplits(s, cursor);
    AtOrBelowAppend(UpTo(s, cursor), After(s, cursor), ceiling);
  }

  lemma {:induction false} TakeMore<T>(a: seq<T>, b: seq<T>, n: nat)
    ensures Take(Take(a, n) + b, n) == Take(a + b, n)
  {
  }

  lemma {:induction false} WindowAscends<T>(ledger: seq<Row<T>>, start: int, ceiling: Option<int>, n: nat)
    requires Ascending(ledger)
    ensures Ascending(Window(ledger, start, ceiling)) && Ascending(Take(Window(ledger, start, ceiling), n))
  {
    CursorHalves(ledger, start);
    if ceiling.Some? { CursorHalves(After(ledger, start), ceiling.value); }
  }

  /** Pages through the server's feed from the round's start: ends on every ledger, and gathers the first
      `eventCount` events of the round's window, however the page boundaries fall; when the count covers the
      window this is the very slice that the in-memory log cuts out. */
  method LoadRoundEvents<T>(ledger: seq<Row<T>>, rounds: seq<Round>, round: Round, pageSize: nat)
    returns (events: seq<Row<T>>)
    requires Ascending(ledger) && pageSize >= 1
    ensures events == Take(Window(ledger, round.item.startEventId, RoundEventCeiling(round, rounds)),
        round.item.eventCount)
    ensures |Window(ledger, round.item.startEventId, RoundEventCeiling(round, rounds))| <= round.item.eventCount
      ==> events == RoundEvents(ledger, rounds, round)
  {
    var ceiling := RoundEventCeiling(round, rounds);
    var start, eventCount := round.item.startEventId, round.item.eventCount;
    ghost var past := After(ledger, start);
    var collected: seq<Row<T>> := [];
    var after := start;
    CursorHalves(ledger, start);
    forall x | x in past ensures x.id > start { CursorMember(ledger, start, x); }
    AllPast(past, start);
    while |collected| < eventCount
      invariant start <= after && |collected| <= eventCount
      invariant collected == Take(AtOrBelow(UpTo(past, after), ceiling), eventCount)
      decreases |After(ledger, after)|
    {
      var page := Feed.EventsPage(ledger, after, pageSize);
      if |page| == 0 {
        AfterAfter(ledger, start, after);
        CursorSplits(past, after);
        assert UpTo(past, after) == past;
        break;
      }
      assert page == After(ledger, after)[..|page|];
      PageExtendsSlice(ledger, start, after, |page|);
      AbsorbPage(ledger, after, |page|);
      AtOrBelowAppend(UpTo(past, after), page, ceiling);
      TakeMore(AtOrBelow(UpTo(past, after), ceiling), AtOrBelow(page, ceiling), eventCount);
      collected := KeepPage(collected, page, ceiling, eventCount);
      after := page[|page| - 1].id;
    }
    if |collected| >= eventCount { SliceStaysFull(past, after, ceiling, eventCount); }
    assert collected == Take(Window(ledger, start, ceiling), eventCount);
    WindowAscends(ledger, start, ceiling, eventCount);
    SortedIsFixed(collected);
    SortedIsFixed(Window(ledger, start, ceiling));
    events := SortById(collected);
  }
}
