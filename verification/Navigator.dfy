/** The round navigator: stepping through closed rounds, and the round list with its folded standby runs. */
module Navigator {
  import opened Options
  import opened Rows
  import opened Rounds

  // ---- stepping ----

  /** The closed rounds' ids in ascending order, once per round. */
  function ClosedIds(rounds: seq<Round>): seq<int> { Ids(SortById(Closed(rounds))) }

  function Closed(rounds: seq<Round>): seq<Round> {
    if rounds == [] then []
    else (if rounds[0].item.done then [rounds[0]] else []) + Closed(rounds[1..])
  }

  function Ids(rounds: seq<Round>): seq<int> { seq(|rounds|, i requires 0 <= i < |rounds| => rounds[i].id) }

  function Reversed<T>(s: seq<T>): seq<T> { if s == [] then [] else Reversed(s[1..]) + [s[0]] }

  function FirstBelow(ids: seq<int>, id: int): Option<int> {
    if ids == [] then None else if ids[0] < id then Some(ids[0]) else FirstBelow(ids[1..], id)
  }

  function FirstAbove(ids: seq<int>, id: int): Option<int> {
    if ids == [] then None else if ids[0] > id then Some(ids[0]) else FirstAbove(ids[1..], id)
  }

  /** A selection is a round id, or live when it is absent. */
  function StepRoundLeft(rounds: seq<Round>, selected: Option<int>): Option<int> {
    var closedDesc := Reversed(ClosedIds(rounds));
    if selected.None? then First(closedDesc)
    else
      var older := FirstBelow(closedDesc, selected.value);
      if older.Some? then older else selected
  }

  function StepRoundRight(rounds: seq<Round>, selected: Option<int>): Option<int> {
    if selected.None? then None else FirstAbove(ClosedIds(rounds), selected.value)
  }

  predicate IsClosedId(rounds: seq<Round>, id: int) {
    exists i :: 0 <= i < |rounds| && rounds[i].item.done && rounds[i].id == id
  }

  lemma {:induction false} ClosedMember(rounds: seq<Round>, r: Round)
    ensures r in Closed(rounds) <==> r in rounds && r.item.done
  {
    if rounds != [] {
      ClosedMember(rounds[1..], r);
      assert rounds == [rounds[0]] + rounds[1..];
    }
  }

  lemma {:induction false} ClosedIdMember(rounds: seq<Round>, id: int)
    ensures id in ClosedIds(rounds) <==> IsClosedId(rounds, id)
  {
    var sorted := SortById(Closed(rounds));
    if id in ClosedIds(rounds) {
      var k :| 0 <= k < |sorted| && sorted[k].id == id;
      SortByIdRow(Closed(rounds), sorted[k]);
      ClosedMember(rounds, sorted[k]);
    }
    if IsClosedId(rounds, id) {
      var i :| 0 <= i < |rounds| && rounds[i].item.done && rounds[i].id == id;
      ClosedMember(rounds, rounds[i]);
      SortByIdRow(Closed(rounds), rounds[i]);
      var k :| 0 <= k < |sorted| && sorted[k] == rounds[i];
      assert ClosedIds(rounds)[k] == id;
    }
  }

  ghost predicate Sorted(ids: seq<int>) { forall i, j :: 0 <= i < j < |ids| ==> ids[i] <= ids[j] }

  lemma {:induction false} ClosedIdsSorted(rounds: seq<Round>)
    ensures Sorted(ClosedIds(rounds))
  {
    SortByIdSorts(Closed(rounds));
  }

  lemma {:induction false} ReversedAt<T>(s: seq<T>)
    ensures |Reversed(s)| == |s| && forall k :: 0 <= k < |s| ==> Reversed(s)[k] == s[|s| - 1 - k]
  {
    if s != [] {
      ReversedAt(s[1..]);
    }
  }

  lemma {:induction false} FirstBelowIs(ids: seq<int>, id: int)
    requires forall i, j :: 0 <= i < j < |ids| ==> ids[i] >= ids[j]
    ensures FirstBelow(ids, id).None? ==> forall k :: 0 <= k < |ids| ==> ids[k] >= id
    ensures FirstBelow(ids, id).Some? ==>
      FirstBelow(ids, id).value in ids && FirstBelow(ids, id).value < id
      && forall k :: 0 <= k < |ids| && ids[k] < id ==> ids[k] <= FirstBelow(ids, id).value
  {
    if ids != [] {
      FirstBelowIs(ids[1..], id);
      assert forall k :: 1 <= k < |ids| ==> ids[k] == ids[1..][k - 1];
    }
  }

  lemma {:induction false} FirstAboveIs(ids: seq<int>, id: int)
    requires Sorted(ids)
    ensures FirstAbove(ids, id).None? ==> forall k :: 0 <= k < |ids| ==> ids[k] <= id
    ensures FirstAbove(ids, id).Some? ==>
      FirstAbove(ids, id).value in ids && FirstAbove(ids, id).value > id
      && forall k :: 0 <= k < |ids| && ids[k] > id ==> ids[k] >= FirstAbove(ids, id).value
  {
    if ids != [] {
      FirstAboveIs(ids[1..], id);
      assert forall k :: 1 <= k < |ids| ==> ids[k] == ids[1..][k - 1];
    }
  }

  /** The newest closed round among those older than the selection; from live, the newest of all. */
  ghost predicate NewestOlder(rounds: seq<Round>, selected: Option<int>, id: int) {
    && IsClosedId(rounds, id) && (selected.Some? ==> id < selected.value)
    && forall c :: IsClosedId(rounds, c) && (selected.Some? ==> c < selected.value) ==> c <= id
  }

  ghost predicate OldestNewer(rounds: seq<Round>, selected: int, id: int) {
    && IsClosedId(rounds, id) && id > selected
    && forall c :: IsClosedId(rounds, c) && c > selected ==> c >= id
  }

  /** Left goes to the newest older closed round when there is one and stays put otherwise. */
  lemma {:induction false} StepLeftIs(rounds: seq<Round>, selected: Option<int>)
    ensures var to := StepRoundLeft(rounds, selected);
            if exists c :: IsClosedId(rounds, c) && (selected.Some? ==> c < selected.value)
            then to.Some? && NewestOlder(rounds, selected, to.value)
            else to == selected
  {
    var asc := ClosedIds(rounds);
    var desc := Reversed(asc);
    ClosedIdsSorted(rounds);
    ReversedAt(asc);
    forall c ensures c in desc <==> IsClosedId(rounds, c) {
      ClosedIdMember(rounds, c);
      if c in asc {
        var k :| 0 <= k < |asc| && asc[k] == c;
        assert desc[|asc| - 1 - k] == c;
      }
    }
    if selected.Some? {
      FirstBelowIs(desc, selected.value);
    }
  }

  /** Right goes to the oldest newer closed round when there is one and to live otherwise. */
  lemma {:induction false} StepRightIs(rounds: seq<Round>, selected: int)
    ensures var to := StepRoundRight(rounds, Some(selected));
            if exists c :: IsClosedId(rounds, c) && c > selected
            then to.Some? && OldestNewer(rounds, selected, to.value)
            else to == None
  {
    ClosedIdsSorted(rounds);
    forall c ensures c in ClosedIds(rounds) <==> IsClosedId(rounds, c) {
      ClosedIdMember(rounds, c);
    }
    FirstAboveIs(ClosedIds(rounds), selected);
  }

  /** Right undoes a left step that moved exactly when it moved away from live or from a closed round; from
      any other selected id the way back leads elsewhere. */
  lemma {:induction false} RightUndoesLeftIff(rounds: seq<Round>, selected: Option<int>)
    requires StepRoundLeft(rounds, selected) != selected
    ensures StepRoundRight(rounds, StepRoundLeft(rounds, selected)) == selected
      <==> selected.None? || IsClosedId(rounds, selected.value)
  {
    StepLeftIs(rounds, selected);
    var to := StepRoundLeft(rounds, selected);
    StepRightIs(rounds, to.value);
  }

  // ---- a session in front of the navigator ----

  /** The arrows, a row of the list, and the way back to live. */
  datatype Click = Left | Right | Pick(id: int) | BackToLive

  datatype View = View(rounds: seq<Round>, selected: Option<int>)

  /** The list's button of a round that is not closed is disabled. */
  function Clicked(v: View, c: Click): View {
    match c
    case Left => v.(selected := StepRoundLeft(v.rounds, v.selected))
    case Right => v.(selected := StepRoundRight(v.rounds, v.selected))
    case Pick(id) => if IsClosedId(v.rounds, id) then v.(selected := Some(id)) else v
    case BackToLive => v.(selected := None)
  }

  /** One click reaches every closed round and live, no click selects a round that is not closed, and none changes the
      rounds. The arrows go to the nearest closed round on their side, and right from the newest back to live. */
  lemma {:induction false} ClicksReach(v: View, id: int)
    ensures forall c :: Clicked(v, c).rounds == v.rounds
    ensures Clicked(v, Pick(id)).selected == (if IsClosedId(v.rounds, id) then Some(id) else v.selected)
    ensures Clicked(v, BackToLive).selected == None
    ensures var to := Clicked(v, Left).selected;
      if exists c :: IsClosedId(v.rounds, c) && (v.selected.Some? ==> c < v.selected.value)
      then to.Some? && NewestOlder(v.rounds, v.selected, to.value)
      else to == v.selected
    ensures var to := Clicked(v, Right).selected;
      if v.selected.Some? && exists c :: IsClosedId(v.rounds, c) && c > v.selected.value
      then to.Some? && OldestNewer(v.rounds, v.selected.value, to.value)
      else to == None
  {
    hide IsClosedId, StepRoundLeft, StepRoundRight;
    StepLeftIs(v.rounds, v.selected);
    if v.selected.Some? {
      StepRightIs(v.rounds, v.selected.value);
    } else {
      RightFromLive(v.rounds);
    }
  }

  /** The rounds were read again: what was closed stays closed. */
  ghost predicate Refreshed(v: View, next: View) {
    next.selected == v.selected && forall id :: IsClosedId(v.rounds, id) ==> IsClosedId(next.rounds, id)
  }

  ghost predicate Moves(v: View, next: View) { (exists c :: next == Clicked(v, c)) || Refreshed(v, next) }

  ghost predicate Session(vs: seq<View>) {
    vs != [] && vs[0].selected.None? && forall i :: 0 <= i < |vs| - 1 ==> Moves(vs[i], vs[i + 1])
  }

  ghost predicate Replayable(v: View) { v.selected.Some? ==> IsClosedId(v.rounds, v.selected.value) }

  lemma {:induction false} ClickKeepsReplayable(v: View, c: Click)
    requires Replayable(v)
    ensures Replayable(Clicked(v, c))
  {
    hide IsClosedId, StepRoundLeft, StepRoundRight;
    StepLeftIs(v.rounds, v.selected);
    if v.selected.Some? {
      StepRightIs(v.rounds, v.selected.value);
    } else {
      RightFromLive(v.rounds);
    }
  }

  lemma {:induction false} RightFromLive(rounds: seq<Round>)
    ensures StepRoundRight(rounds, None) == None
  {
  }

  /** Over every session from live, of clicks and refreshes in any order, the selection is live or a closed round. */
  lemma {:induction false} SelectionIsReplayable(vs: seq<View>, i: nat)
    requires Session(vs) && i < |vs|
    ensures Replayable(vs[i])
  {
    hide IsClosedId, Clicked;
    if i > 0 {
      SelectionIsReplayable(vs, i - 1);
      var v, next := vs[i - 1], vs[i - 1 + 1];
      assert Moves(v, next);
      if c :| next == Clicked(v, c) { ClickKeepsReplayable(v, c); }
    }
  }

  /** So in every session a right step undoes each left step that moved. */
  lemma {:induction false} RightUndoesLeft(vs: seq<View>, i: nat)
    requires Session(vs) && i < |vs| && Clicked(vs[i], Left) != vs[i]
    ensures Clicked(Clicked(vs[i], Left), Right) == vs[i]
  {
    hide IsClosedId, StepRoundLeft, StepRoundRight;
    SelectionIsReplayable(vs, i);
    RightUndoesLeftIff(vs[i].rounds, vs[i].selected);
  }

  // ---- walking from live ----

  function Lefts(rounds: seq<Round>, k: nat): Option<int> {
    if k == 0 then None else StepRoundLeft(rounds, Lefts(rounds, k - 1))
  }

  function Rights(rounds: seq<Round>, selected: Option<int>, k: nat): Option<int> {
    if k == 0 then selected else StepRoundRight(rounds, Rights(rounds, selected, k - 1))
  }

  lemma {:induction false} ClosedDistinct(rounds: seq<Round>)
    requires DistinctIds(rounds)
    ensures DistinctIds(Closed(rounds))
  {
    if rounds != [] {
      ClosedDistinct(rounds[1..]);
      var rest := Closed(rounds[1..]);
      forall k | 0 <= k < |rest| ensures rest[k].id != rounds[0].id {
        ClosedMember(rounds[1..], rest[k]);
        var j :| 0 <= j < |rounds[1..]| && rounds[1..][j] == rest[k];
        assert rounds[j + 1] == rest[k];
      }
    }
  }

  lemma {:induction false} AscendingIds(rounds: seq<Round>, i: nat, j: nat)
    requires DistinctIds(rounds) && i < j < |ClosedIds(rounds)|
    ensures ClosedIds(rounds)[i] < ClosedIds(rounds)[j]
  {
    ClosedDistinct(rounds);
    SortByIdAscends(Closed(rounds));
  }

  lemma {:induction false} LeftFrom(rounds: seq<Round>, i: nat)
    requires DistinctIds(rounds) && i < |ClosedIds(rounds)|
    ensures var ids := ClosedIds(rounds);
            StepRoundLeft(rounds, Some(ids[i])) == Some(ids[if i == 0 then 0 else i - 1])
    ensures StepRoundRight(rounds, Some(ClosedIds(rounds)[i])) ==
            if i + 1 < |ClosedIds(rounds)| then Some(ClosedIds(rounds)[i + 1]) else None
  {
    var ids := ClosedIds(rounds);
    StepLeftIs(rounds, Some(ids[i]));
    StepRightIs(rounds, ids[i]);
    forall c ensures c in ids <==> IsClosedId(rounds, c) { ClosedIdMember(rounds, c); }
    forall a: nat, b: nat | a < b < |ids| ensures ids[a] < ids[b] { AscendingIds(rounds, a, b); }
    if i > 0 {
      assert IsClosedId(rounds, ids[i - 1]) && ids[i - 1] < ids[i];
    }
    if i + 1 < |ids| {
      assert IsClosedId(rounds, ids[i + 1]) && ids[i + 1] > ids[i];
    }
  }

  /** Stepping left from live visits every closed round once, newest first, and then stays on the oldest;
      with no closed round it stays live. */
  lemma {:induction false} LeftsVisitEachRound(rounds: seq<Round>, k: nat)
    requires DistinctIds(rounds)
    ensures var ids := ClosedIds(rounds);
            Lefts(rounds, k) ==
              if k == 0 || ids == [] then None else if k <= |ids| then Some(ids[|ids| - k]) else Some(ids[0])
  {
    var ids := ClosedIds(rounds);
    if k == 0 {
    } else if k == 1 || ids == [] {
      if k > 1 { LeftsVisitEachRound(rounds, k - 1); }
      assert k == 1 ==> Lefts(rounds, k - 1) == None;
      ReversedAt(ids);
    } else {
      LeftsVisitEachRound(rounds, k - 1);
      LeftFrom(rounds, if k - 1 <= |ids| then |ids| - (k - 1) else 0);
    }
  }

  lemma {:induction false} RightsClimb(rounds: seq<Round>, i: nat, k: nat)
    requires DistinctIds(rounds) && i < |ClosedIds(rounds)|
    ensures var ids := ClosedIds(rounds);
            Rights(rounds, Some(ids[i]), k) == if i + k < |ids| then Some(ids[i + k]) else None
  {
    if k > 0 {
      RightsClimb(rounds, i, k - 1);
      if i + k - 1 < |ClosedIds(rounds)| { LeftFrom(rounds, i + k - 1); }
    }
  }

  /** As many steps right as were taken left from live lead back to live, however far left they went. */
  lemma {:induction false} RightsReturnToLive(rounds: seq<Round>, k: nat)
    requires DistinctIds(rounds)
    ensures Rights(rounds, Lefts(rounds, k), k) == None
  {
    var ids := ClosedIds(rounds);
    LeftsVisitEachRound(rounds, k);
    if k == 0 {
    } else if ids == [] {
      LiveStaysLive(rounds, k);
    } else {
      RightsClimb(rounds, if k <= |ids| then |ids| - k else 0, k);
    }
  }

  lemma {:induction false} LiveStaysLive(rounds: seq<Round>, k: nat)
    ensures Rights(rounds, None, k) == None
  {
    if k > 0 { LiveStaysLive(rounds, k - 1); }
  }

  // ---- the round list ----

  predicate IsStandbyRound(round: Round) {
    var a := round.item.artifact;
    a.Some? && a.value.prsMerged == Some(0.0) && (a.value.spendUsd.None? || a.value.spendUsd == Some(0.0))
  }

  /** A round that merged nothing and cost nothing, as far as its artifact says. */
  ghost predicate Standby(round: Round) {
    round.item.artifact in {Some(Artifact(Some(0.0), None)), Some(Artifact(Some(0.0), Some(0.0)))}
  }

  lemma {:induction false} StandbyIff(round: Round)
    ensures IsStandbyRound(round) <==> Standby(round)
  {
  }

  datatype Entry = Single(round: Round) | StandbyGroup(rounds: seq<Round>)

  function InsertNewestFirst(r: Round, s: seq<Round>): seq<Round> {
    if s == [] || r.id >= s[0].id then [r] + s else [s[0]] + InsertNewestFirst(r, s[1..])
  }

  function NewestFirst(rounds: seq<Round>): seq<Round> {
    if rounds == [] then [] else InsertNewestFirst(rounds[0], NewestFirst(rounds[1..]))
  }

  ghost predicate NewerFirst(s: seq<Round>) { forall i, j :: 0 <= i < j < |s| ==> s[i].id >= s[j].id }

  lemma {:induction false} InsertNewestFirstBag(r: Round, s: seq<Round>)
    ensures multiset(InsertNewestFirst(r, s)) == multiset(s) + multiset{r}
  {
    if s == [] || r.id >= s[0].id {
      assert multiset([r] + s) == multiset{r} + multiset(s);
    } else {
      InsertNewestFirstBag(r, s[1..]);
      var t := InsertNewestFirst(r, s[1..]);
      assert s == [s[0]] + s[1..];
      assert multiset([s[0]] + t) == multiset{s[0]} + multiset(t);
    }
  }

  lemma {:induction false} InsertNewestFirstSorts(r: Round, s: seq<Round>)
    requires NewerFirst(s)
    ensures NewerFirst(InsertNewestFirst(r, s))
    ensures forall x :: x in InsertNewestFirst(r, s) ==> x == r || x in s
  {
    if s != [] && r.id < s[0].id {
      InsertNewestFirstSorts(r, s[1..]);
      var t := InsertNewestFirst(r, s[1..]);
      forall k | 0 <= k < |t| ensures s[0].id >= t[k].id {
        assert t[k] in t;
      }
    }
  }

  /** The list holds every round as often as it came, newest first. */
  lemma {:induction false} NewestFirstSorts(rounds: seq<Round>)
    ensures multiset(NewestFirst(rounds)) == multiset(rounds) && NewerFirst(NewestFirst(rounds))
  {
    if rounds != [] {
      NewestFirstSorts(rounds[1..]);
      InsertNewestFirstSorts(rounds[0], NewestFirst(rounds[1..]));
      InsertNewestFirstBag(rounds[0], NewestFirst(rounds[1..]));
      assert rounds == [rounds[0]] + rounds[1..];
    }
  }

  function RoundsOf(e: Entry): seq<Round> { if e.Single? then [e.round] else e.rounds }

  function Flatten(entries: seq<Entry>): seq<Round> {
    if entries == [] then [] else RoundsOf(entries[0]) + Flatten(entries[1..])
  }

  /** An entry with only standby rounds. */
  ghost predicate Calm(e: Entry) { e.StandbyGroup? || Standby(e.round) }

  /** A group has at least two rounds, all standby, and no two neighbours could have been one group. */
  ghost predicate WellGrouped(entries: seq<Entry>) {
    && (forall i :: 0 <= i < |entries| && entries[i].StandbyGroup? ==>
          |entries[i].rounds| >= 2 && forall k :: 0 <= k < |entries[i].rounds| ==> Standby(entries[i].rounds[k]))
    && forall i :: 0 <= i < |entries| - 1 ==> !(Calm(entries[i]) && Calm(entries[i + 1]))
  }

  lemma {:induction false} FlattenAppend(a: seq<Entry>, b: seq<Entry>)
    ensures Flatten(a + b) == Flatten(a) + Flatten(b)
  {
    if a == [] {
      assert a + b == b;
    } else {
      assert (a + b)[1..] == a[1..] + b;
      FlattenAppend(a[1..], b);
    }
  }

  ghost predicate AllStandby(rounds: seq<Round>) { forall k :: 0 <= k < |rounds| ==> Standby(rounds[k]) }

  ghost predicate EndsBusy(entries: seq<Entry>) { entries != [] ==> !Calm(entries[|entries| - 1]) }

  lemma {:induction false} AppendBusy(entries: seq<Entry>, round: Round)
    requires WellGrouped(entries) && !Standby(round)
    ensures WellGrouped(entries + [Single(round)]) && EndsBusy(entries + [Single(round)])
    ensures Flatten(entries + [Single(round)]) == Flatten(entries) + [round]
  {
    FlattenAppend(entries, [Single(round)]);
  }

  lemma {:induction false} NoEntries()
    ensures WellGrouped([]) && EndsBusy([]) && AllStandby([]) && Flatten([]) == []
  {
  }

  lemma {:induction false} StandbyGrows(group: seq<Round>, round: Round)
    requires AllStandby(group) && Standby(round)
    ensures AllStandby(group + [round])
  {
  }

  lemma {:induction false} AppendCalm(entries: seq<Entry>, e: Entry, group: seq<Round>)
    requires WellGrouped(entries) && EndsBusy(entries) && AllStandby(group)
    requires RoundsOf(e) == group && (e.StandbyGroup? ==> |group| >= 2)
    ensures WellGrouped(entries + [e]) && Flatten(entries + [e]) == Flatten(entries) + group
  {
    hide Standby;
    FlattenAppend(entries, [e]);
    assert Flatten([e]) == group by { assert [e][1..] == []; }
    hide Flatten;
  }

  method FlushGroup(entries: seq<Entry>, group: seq<Round>) returns (flushed: seq<Entry>)
    requires WellGrouped(entries) && AllStandby(group)
    requires EndsBusy(entries)
    ensures WellGrouped(flushed) && Flatten(flushed) == Flatten(entries) + group
    ensures group == [] ==> flushed == entries
  {
    hide WellGrouped, Flatten, EndsBusy, AllStandby;
    flushed := entries;
    if |group| == 1 {
      AppendCalm(entries, Single(group[0]), group);
      flushed := entries + [Single(group[0])];
    } else if |group| > 1 {
      AppendCalm(entries, StandbyGroup(group), group);
      flushed := entries + [StandbyGroup(group)];
    }
  }

  /** Folds each run of consecutive standby rounds: nothing is lost or reordered, and the groups are the
      maximal runs of two or more. */
  method BuildRoundListEntries(rounds: seq<Round>) returns (entries: seq<Entry>)
    ensures Flatten(entries) == NewestFirst(rounds) && WellGrouped(entries)
  {
    hide NewestFirst, WellGrouped, Flatten, EndsBusy, AllStandby, Standby, IsStandbyRound;
    var sorted := NewestFirst(rounds);
    entries := [];
    var group: seq<Round> := [];
    NoEntries();
    for i := 0 to |sorted|
      invariant WellGrouped(entries) && EndsBusy(entries) && AllStandby(group)
      invariant Flatten(entries) + group == sorted[..i]
    {
      assert sorted[..i + 1] == sorted[..i] + [sorted[i]];
      StandbyIff(sorted[i]);
      if IsStandbyRound(sorted[i]) {
        StandbyGrows(group, sorted[i]);
        group := group + [sorted[i]];
      } else {
        entries := FlushGroup(entries, group);
        group := [];
        AppendBusy(entries, sorted[i]);
        entries := entries + [Single(sorted[i])];
      }
    }
    entries := FlushGroup(entries, group);
    assert sorted[..|sorted|] == sorted;
  }

  // ---- the grouping is the only one ----

  ghost function LeadingStandby(rounds: seq<Round>): nat {
    if rounds == [] || !Standby(rounds[0]) then 0 else 1 + LeadingStandby(rounds[1..])
  }

  lemma {:induction false} LeadingStandbyIs(a: seq<Round>, b: seq<Round>)
    requires AllStandby(a) && (b != [] ==> !Standby(b[0]))
    ensures LeadingStandby(a + b) == |a|
  {
    if a == [] {
      assert a + b == b;
    } else {
      assert (a + b)[1..] == a[1..] + b;
      LeadingStandbyIs(a[1..], b);
    }
  }

  lemma {:induction false} HeadEntry(entries: seq<Entry>)
    requires WellGrouped(entries) && entries != []
    ensures Flatten(entries) != [] && RoundsOf(entries[0]) != [] && WellGrouped(entries[1..])
    ensures !Calm(entries[0]) ==> LeadingStandby(Flatten(entries)) == 0 && entries[0] == Single(Flatten(entries)[0])
    ensures Calm(entries[0]) ==> LeadingStandby(Flatten(entries)) == |RoundsOf(entries[0])|
  {
    assert forall i :: 0 <= i < |entries| - 1 ==> entries[1..][i] == entries[i + 1];
    if Calm(entries[0]) {
      if |entries| > 1 {
        assert Flatten(entries[1..])[0] == entries[1].round by {
          assert !Calm(entries[1]);
          assert entries[1..][0] == entries[1];
        }
      }
      LeadingStandbyIs(RoundsOf(entries[0]), Flatten(entries[1..]));
    }
  }

  /** There is one such grouping of a list of rounds and no other. */
  lemma {:induction false} GroupingIsUnique(a: seq<Entry>, b: seq<Entry>)
    requires WellGrouped(a) && WellGrouped(b) && Flatten(a) == Flatten(b)
    ensures a == b
  {
    if a == [] {
      if b != [] { HeadEntry(b); }
    } else if b == [] {
      HeadEntry(a);
    } else {
      HeadEntry(a);
      HeadEntry(b);
      var x, y := RoundsOf(a[0]), RoundsOf(b[0]);
      assert |x| == |y|;
      assert x == Flatten(a)[..|x|] && y == Flatten(b)[..|y|];
      assert a[0] == b[0];
      assert Flatten(a[1..]) == Flatten(a)[|x|..] && Flatten(b[1..]) == Flatten(b)[|y|..];
      GroupingIsUnique(a[1..], b[1..]);
      assert a == [a[0]] + a[1..] && b == [b[0]] + b[1..];
    }
  }
}
