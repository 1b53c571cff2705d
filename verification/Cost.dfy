/** The cost panel's sums: bars per model, per lane and per stage, and the cut of a replay's spend at its
    cursor. A bar list is a JavaScript Map read off in insertion order. */
module Cost {
  import opened Options
  import opened Rows
  import opened Spending

  datatype Bar = Bar(name: string, usd: real)

  function BarsTotal(bars: seq<Bar>): real {
    if bars == [] then 0.0 else bars[0].usd + BarsTotal(bars[1..])
  }

  /** Where a name first occurs, or the number of names. */
  function IndexIn(names: seq<string>, name: string): (i: nat)
    ensures i <= |names| && (i < |names| ==> names[i] == name)
    ensures forall j :: 0 <= j < i ==> names[j] != name
  {
    if names == [] || names[0] == name then 0 else 1 + IndexIn(names[1..], name)
  }

  function Names(bars: seq<Bar>): seq<string> { seq(|bars|, i requires 0 <= i < |bars| => bars[i].name) }

  /** `totals.set(name, (totals.get(name) ?? 0) + usd)`: a new name goes last. */
  function AddTo(bars: seq<Bar>, name: string, usd: real): seq<Bar> {
    var i := IndexIn(Names(bars), name);
    if i < |bars| then bars[i := Bar(name, bars[i].usd + usd)] else bars + [Bar(name, usd)]
  }

  // ---- the order in which a Map keeps its keys ----

  /** Each name once, where it was first seen. */
  function FirstSeen(names: seq<string>): seq<string> {
    if names == [] then []
    else
      var before, last := FirstSeen(names[..|names| - 1]), names[|names| - 1];
      if last in before then before else before + [last]
  }

  lemma {:induction false} FirstSeenMember(names: seq<string>, name: string)
    ensures name in FirstSeen(names) <==> name in names
  {
    if names != [] {
      assert names == names[..|names| - 1] + [names[|names| - 1]];
      FirstSeenMember(names[..|names| - 1], name);
    }
  }

  lemma {:induction false} IndexInLonger(names: seq<string>, last: string, name: string)
    ensures IndexIn(names + [last], name) ==
            if name in names then IndexIn(names, name) else if name == last then |names| else |names| + 1
    ensures IndexIn(names, name) < |names| <==> name in names
  {
    if names == [] {
      assert [last][1..] == [];
    } else {
      assert (names + [last])[1..] == names[1..] + [last];
      assert names == [names[0]] + names[1..];
      IndexInLonger(names[1..], last, name);
    }
  }

  /** The names come in the order of their first occurrences, so none comes twice. */
  lemma {:induction false} FirstSeenOrder(names: seq<string>, i: nat, j: nat)
    requires i < j < |FirstSeen(names)|
    ensures IndexIn(names, FirstSeen(names)[i]) < IndexIn(names, FirstSeen(names)[j])
  {
    var before, last := names[..|names| - 1], names[|names| - 1];
    var a, b := FirstSeen(names)[i], FirstSeen(names)[j];
    assert names == before + [last];
    IndexInLonger(before, last, a);
    IndexInLonger(before, last, b);
    FirstSeenMember(before, a);
    FirstSeenMember(before, b);
    if j < |FirstSeen(before)| { FirstSeenOrder(before, i, j); }
  }

  function Keys(rows: seq<SpendRow>, key: Spend -> string): seq<string> {
    seq(|rows|, i requires 0 <= i < |rows| => key(rows[i].item))
  }

  lemma {:induction false} FirstSeenSnoc(names: seq<string>, last: string)
    ensures FirstSeen(names + [last]) ==
            if last in FirstSeen(names) then FirstSeen(names) else FirstSeen(names) + [last]
  {
    assert (names + [last])[..|names|] == names;
  }

  lemma {:induction false} AddToNames(bars: seq<Bar>, name: string, usd: real)
    ensures Names(AddTo(bars, name, usd)) == if name in Names(bars) then Names(bars) else Names(bars) + [name]
  {
    var i := IndexIn(Names(bars), name);
    if name in Names(bars) {
      assert i < |bars|;
      assert Names(AddTo(bars, name, usd)) == Names(bars);
    } else {
      assert i == |bars|;
    }
  }

  /** One more row keeps the bars in first-seen order. */
  lemma {:induction false} NamesRow(bars: seq<Bar>, rows: seq<SpendRow>, row: SpendRow, key: Spend -> string)
    requires Names(bars) == FirstSeen(Keys(rows, key))
    ensures Names(AddTo(bars, key(row.item), row.item.usd)) == FirstSeen(Keys(rows + [row], key))
  {
    AddToNames(bars, key(row.item), row.item.usd);
    assert Keys(rows + [row], key) == Keys(rows, key) + [key(row.item)];
    FirstSeenSnoc(Keys(rows, key), key(row.item));
  }

  ghost predicate OneBarPerName(bars: seq<Bar>) {
    forall i, j :: 0 <= i < j < |bars| ==> bars[i].name != bars[j].name
  }

  function Matching(rows: seq<SpendRow>, key: Spend -> string, name: string): seq<SpendRow> {
    if rows == [] then []
    else if key(rows[0].item) == name then [rows[0]] + Matching(rows[1..], key, name)
    else Matching(rows[1..], key, name)
  }

  /** One bar per key that occurs, holding the sum of that key's rows, and no other bar. */
  ghost predicate Tallies(bars: seq<Bar>, rows: seq<SpendRow>, key: Spend -> string) {
    && OneBarPerName(bars)
    && (forall i :: 0 <= i < |bars| ==> Matching(rows, key, bars[i].name) != [])
    && (forall i :: 0 <= i < |bars| ==> bars[i].usd == Total(Matching(rows, key, bars[i].name)))
    && (forall k :: 0 <= k < |rows| ==> HasBar(bars, key(rows[k].item)))
  }

  ghost predicate HasBar(bars: seq<Bar>, name: string) { exists i :: 0 <= i < |bars| && bars[i].name == name }

  lemma {:induction false} BarsTotalAppend(a: seq<Bar>, b: seq<Bar>)
    ensures BarsTotal(a + b) == BarsTotal(a) + BarsTotal(b)
  {
    if a == [] {
      assert a + b == b;
    } else {
      assert (a + b)[1..] == a[1..] + b;
      BarsTotalAppend(a[1..], b);
    }
  }

  lemma {:induction false} BarsTotalAt(bars: seq<Bar>, i: nat, bar: Bar)
    requires i < |bars|
    ensures BarsTotal(bars[i := bar]) == BarsTotal(bars) - bars[i].usd + bar.usd
  {
    assert bars == bars[..i] + ([bars[i]] + bars[i + 1..]);
    assert bars[i := bar] == bars[..i] + ([bar] + bars[i + 1..]);
    BarsTotalAppend(bars[..i], [bars[i]] + bars[i + 1..]);
    BarsTotalAppend(bars[..i], [bar] + bars[i + 1..]);
    assert ([bars[i]] + bars[i + 1..])[1..] == bars[i + 1..] && ([bar] + bars[i + 1..])[1..] == bars[i + 1..];
  }

  lemma {:induction false} AddToTotal(bars: seq<Bar>, name: string, usd: real)
    ensures BarsTotal(AddTo(bars, name, usd)) == BarsTotal(bars) + usd
  {
    var i := IndexIn(Names(bars), name);
    if i < |bars| {
      BarsTotalAt(bars, i, Bar(name, bars[i].usd + usd));
    } else {
      BarsTotalAppend(bars, [Bar(name, usd)]);
      assert BarsTotal([Bar(name, usd)]) == usd;
    }
  }

  /** Adding to a name changes that name's bar, or puts it last, and nothing else. */
  lemma {:induction false} AddToIs(bars: seq<Bar>, name: string, usd: real)
    requires OneBarPerName(bars)
    ensures var t := AddTo(bars, name, usd);
            && OneBarPerName(t) && |t| == (if HasBar(bars, name) then |bars| else |bars| + 1)
            && (forall i :: 0 <= i < |bars| ==>
                  t[i] == if bars[i].name == name then Bar(name, bars[i].usd + usd) else bars[i])
            && (!HasBar(bars, name) ==> t[|bars|] == Bar(name, usd))
  {
    assert forall j :: 0 <= j < |bars| ==> Names(bars)[j] == bars[j].name;
  }

  lemma {:induction false} MatchingSnoc(rows: seq<SpendRow>, row: SpendRow, key: Spend -> string, name: string)
    ensures Matching(rows + [row], key, name) ==
            if key(row.item) == name then Matching(rows, key, name) + [row] else Matching(rows, key, name)
  {
    if rows == [] {
      assert rows + [row] == [row];
    } else {
      assert (rows + [row])[1..] == rows[1..] + [row];
      MatchingSnoc(rows[1..], row, key, name);
    }
  }

  lemma {:induction false} NoBarNoRows(bars: seq<Bar>, rows: seq<SpendRow>, key: Spend -> string, name: string)
    requires forall k :: 0 <= k < |rows| ==> HasBar(bars, key(rows[k].item))
    requires !HasBar(bars, name)
    ensures Matching(rows, key, name) == []
  {
    if rows != [] {
      assert HasBar(bars, key(rows[0].item));
      assert forall k :: 0 <= k < |rows[1..]| ==> rows[1..][k] == rows[k + 1];
      NoBarNoRows(bars, rows[1..], key, name);
    }
  }

  /** One more row keeps the tally. */
  lemma {:induction false} TallyRow(bars: seq<Bar>, rows: seq<SpendRow>, row: SpendRow, key: Spend -> string)
    requires Tallies(bars, rows, key)
    ensures Tallies(AddTo(bars, key(row.item), row.item.usd), rows + [row], key)
  {
    var name := key(row.item);
    var t := AddTo(bars, name, row.item.usd);
    AddToIs(bars, name, row.item.usd);
    forall i | 0 <= i < |t|
      ensures Matching(rows + [row], key, t[i].name) != [] && t[i].usd == Total(Matching(rows + [row], key, t[i].name))
    {
      MatchingSnoc(rows, row, key, t[i].name);
      if t[i].name == name {
        TotalAppend(Matching(rows, key, name), [row]);
        assert Total([row]) == row.item.usd;
        if i >= |bars| { NoBarNoRows(bars, rows, key, name); }
      }
    }
    forall k | 0 <= k < |rows + [row]| ensures HasBar(t, key((rows + [row])[k].item)) {
      if k < |rows| {
        assert HasBar(bars, key(rows[k].item));
        var i :| 0 <= i < |bars| && bars[i].name == key(rows[k].item);
        assert t[i].name == key(rows[k].item);
      } else if HasBar(bars, name) {
        var i :| 0 <= i < |bars| && bars[i].name == name;
        assert t[i].name == name;
      } else {
        assert t[|bars|].name == name;
      }
    }
  }

  // ---- bars per model ----

  /** Stable, largest first. */
  function InsertBar(bar: Bar, bars: seq<Bar>): seq<Bar> {
    if bars == [] || bar.usd >= bars[0].usd then [bar] + bars else [bars[0]] + InsertBar(bar, bars[1..])
  }

  function LargestFirst(bars: seq<Bar>): seq<Bar> {
    if bars == [] then [] else InsertBar(bars[0], LargestFirst(bars[1..]))
  }

  ghost predicate Descending(bars: seq<Bar>) { forall i, j :: 0 <= i < j < |bars| ==> bars[i].usd >= bars[j].usd }

  lemma {:induction false} InsertBarBag(bar: Bar, bars: seq<Bar>)
    ensures multiset(InsertBar(bar, bars)) == multiset(bars) + multiset{bar}
    ensures BarsTotal(InsertBar(bar, bars)) == bar.usd + BarsTotal(bars)
  {
    if bars == [] || bar.usd >= bars[0].usd {
      assert ([bar] + bars)[1..] == bars;
    } else {
      InsertBarBag(bar, bars[1..]);
      var t := InsertBar(bar, bars[1..]);
      assert bars == [bars[0]] + bars[1..];
      assert ([bars[0]] + t)[1..] == t;
      assert multiset([bars[0]] + t) == multiset{bars[0]} + multiset(t);
    }
  }

  lemma {:induction false} InsertBarDescends(bar: Bar, bars: seq<Bar>)
    requires Descending(bars)
    ensures Descending(InsertBar(bar, bars))
    ensures forall x :: x in InsertBar(bar, bars) ==> x == bar || x in bars
  {
    if bars != [] && bar.usd < bars[0].usd {
      InsertBarDescends(bar, bars[1..]);
      var t := InsertBar(bar, bars[1..]);
      forall k | 0 <= k < |t| ensures bars[0].usd >= t[k].usd {
        assert t[k] in t;
      }
    }
  }

  /** Of bars with one amount the earlier name comes first. */
  ghost predicate Stable(bars: seq<Bar>, names: seq<string>) {
    forall i, j :: 0 <= i < j < |bars| && bars[i].usd == bars[j].usd
        ==> IndexIn(names, bars[i].name) < IndexIn(names, bars[j].name)
  }

  /** `bar` may stand before `t`: what costs the same there was seen later. */
  ghost predicate Leads(bar: Bar, t: seq<Bar>, names: seq<string>) {
    forall x :: x in t && x.usd == bar.usd ==> IndexIn(names, bar.name) < IndexIn(names, x.name)
  }

  lemma {:induction false} StableCons(bar: Bar, t: seq<Bar>, names: seq<string>)
    ensures Stable([bar] + t, names) <==> Leads(bar, t, names) && Stable(t, names)
  {
    hide IndexIn;
    var s := [bar] + t;
    if Stable(s, names) {
      forall x | x in t && x.usd == bar.usd ensures IndexIn(names, bar.name) < IndexIn(names, x.name) {
        var k :| 0 <= k < |t| && t[k] == x;
        assert s[0] == bar && s[k + 1] == x;
      }
      forall i, j | 0 <= i < j < |t| && t[i].usd == t[j].usd
        ensures IndexIn(names, t[i].name) < IndexIn(names, t[j].name)
      {
        assert s[i + 1] == t[i] && s[j + 1] == t[j];
      }
    }
  }

  lemma {:induction false} InsertBarStable(bar: Bar, bars: seq<Bar>, names: seq<string>)
    requires Descending(bars) && Stable(bars, names) && Leads(bar, bars, names)
    ensures Stable(InsertBar(bar, bars), names)
  {
    hide Stable;
    if bars != [] && bar.usd < bars[0].usd {
      var rest := bars[1..];
      assert bars == [bars[0]] + rest;
      StableCons(bars[0], rest, names);
      InsertBarStable(bar, rest, names);
      InsertBarDescends(bar, rest);
      StableCons(bars[0], InsertBar(bar, rest), names);
    } else {
      StableCons(bar, bars, names);
    }
  }

  /** Behind a new first bar every other bar comes one place later. */
  lemma {:induction false} StableBehind(bar: Bar, rest: seq<Bar>, t: seq<Bar>)
    requires OneBarPerName([bar] + rest) && Stable(t, Names(rest)) && multiset(t) == multiset(rest)
    ensures Stable(t, Names([bar] + rest)) && Leads(bar, t, Names([bar] + rest))
  {
    var names := Names([bar] + rest);
    assert names[1..] == Names(rest);
    forall x | x in t ensures IndexIn(names, x.name) == 1 + IndexIn(Names(rest), x.name) {
      assert x in multiset(t);
      var m :| 0 <= m < |rest| && rest[m] == x;
      assert ([bar] + rest)[m + 1] == x;
    }
    assert forall k :: 0 <= k < |t| ==> t[k] in t;
  }

  lemma {:induction false} LargestFirstStable(bars: seq<Bar>)
    requires OneBarPerName(bars)
    ensures Stable(LargestFirst(bars), Names(bars))
  {
    if bars != [] {
      var rest, t := bars[1..], LargestFirst(bars[1..]);
      assert bars == [bars[0]] + rest;
      LargestFirstStable(rest);
      LargestFirstBag(rest);
      LargestFirstDescends(rest);
      StableBehind(bars[0], rest, t);
      hide Stable, Leads, IndexIn, Names, OneBarPerName, InsertBar;
      InsertBarStable(bars[0], t, Names(bars));
    }
  }

  lemma {:induction false} LargestFirstBag(bars: seq<Bar>)
    ensures multiset(LargestFirst(bars)) == multiset(bars) && BarsTotal(LargestFirst(bars)) == BarsTotal(bars)
  {
    hide InsertBar;
    if bars != [] {
      LargestFirstBag(bars[1..]);
      InsertBarBag(bars[0], LargestFirst(bars[1..]));
      assert bars == [bars[0]] + bars[1..];
    }
  }

  lemma {:induction false} LargestFirstDescends(bars: seq<Bar>)
    ensures Descending(LargestFirst(bars))
  {
    if bars != [] {
      hide InsertBar, Descending;
      LargestFirstDescends(bars[1..]);
      InsertBarDescends(bars[0], LargestFirst(bars[1..]));
    }
  }

  lemma {:induction false} RepeatedBar(bars: seq<Bar>, i: nat, j: nat)
    requires i < j < |bars| && bars[i] == bars[j]
    ensures multiset(bars)[bars[i]] >= 2
  {
    assert bars == bars[..j] + [bars[j]] + bars[j + 1..];
    assert bars[..j][i] == bars[j];
    assert bars[j] in multiset(bars[..j]);
  }

  lemma {:induction false} BarOnce(bars: seq<Bar>, bar: Bar)
    requires OneBarPerName(bars)
    ensures multiset(bars)[bar] <= 1
  {
    if bars != [] {
      assert bars == [bars[0]] + bars[1..];
      BarOnce(bars[1..], bar);
      if bar == bars[0] {
        assert bar !in bars[1..];
      }
    }
  }

  /** Putting the bars in another order keeps the tally. */
  lemma {:induction false} TallyIgnoresOrder(bars: seq<Bar>, t: seq<Bar>, rows: seq<SpendRow>, key: Spend -> string)
    requires Tallies(bars, rows, key) && multiset(t) == multiset(bars)
    ensures Tallies(t, rows, key)
  {
    forall i | 0 <= i < |t| ensures t[i] in bars {
      assert t[i] in multiset(t);
    }
    forall i, j | 0 <= i < j < |t| ensures t[i].name != t[j].name {
      if t[i].name == t[j].name {
        var a :| 0 <= a < |bars| && bars[a] == t[i];
        var b :| 0 <= b < |bars| && bars[b] == t[j];
        assert a == b;
        RepeatedBar(t, i, j);
        BarOnce(bars, t[i]);
        assert false;
      }
    }
    forall i | 0 <= i < |t|
      ensures Matching(rows, key, t[i].name) != [] && t[i].usd == Total(Matching(rows, key, t[i].name))
    {
      var a :| 0 <= a < |bars| && bars[a] == t[i];
    }
    forall k | 0 <= k < |rows| ensures HasBar(t, key(rows[k].item)) {
      assert HasBar(bars, key(rows[k].item));
      var a :| 0 <= a < |bars| && bars[a].name == key(rows[k].item);
      assert bars[a] in multiset(t);
      var i :| 0 <= i < |t| && t[i] == bars[a];
      assert t[i].name == key(rows[k].item);
    }
  }

  lemma {:induction false} StableByFirstSeen(bars: seq<Bar>, seen: seq<string>, names: seq<string>)
    requires Stable(bars, seen) && seen == FirstSeen(names)
    requires forall i :: 0 <= i < |bars| ==> bars[i].name in seen
    ensures Stable(bars, names)
  {
    forall i, j | 0 <= i < j < |bars| && bars[i].usd == bars[j].usd
      ensures IndexIn(names, bars[i].name) < IndexIn(names, bars[j].name)
    {
      IndexInLonger(seen, "", bars[i].name);
      IndexInLonger(seen, "", bars[j].name);
      FirstSeenOrder(names, IndexIn(seen, bars[i].name), IndexIn(seen, bars[j].name));
    }
  }

  lemma {:induction false} SameNames(bars: seq<Bar>, t: seq<Bar>)
    requires multiset(t) == multiset(bars)
    ensures forall i :: 0 <= i < |t| ==> t[i].name in Names(bars)
  {
    forall i | 0 <= i < |t| ensures t[i].name in Names(bars) {
      assert t[i] in multiset(t);
      var k :| 0 <= k < |bars| && bars[k] == t[i];
      assert Names(bars)[k] == t[i].name;
    }
  }

  /** One bar per model with what that model cost, largest first, together all that was spent; models that cost
      the same come in the order in which they were first seen. */
  method ModelCostBars(rows: seq<SpendRow>) returns (bars: seq<Bar>)
    ensures Tallies(bars, rows, (s: Spend) => s.model) && Descending(bars)
    ensures Stable(bars, Keys(rows, (s: Spend) => s.model))
    ensures BarsTotal(bars) == Total(rows)
  {
    var totals: seq<Bar> := [];
    ghost var key := (s: Spend) => s.model;
    for i := 0 to |rows|
      invariant Tallies(totals, rows[..i], key) && Names(totals) == FirstSeen(Keys(rows[..i], key))
      invariant BarsTotal(totals) == Total(rows[..i])
    {
      hide Tallies, Names, FirstSeen, Keys, BarsTotal, Total, AddTo;
      NamesRow(totals, rows[..i], rows[i], key);
      OneRow(rows[i]);
      assert rows[..i + 1] == rows[..i] + [rows[i]];
      TallyRow(totals, rows[..i], rows[i], key);
      AddToTotal(totals, rows[i].item.model, rows[i].item.usd);
      TotalAppend(rows[..i], [rows[i]]);
      totals := AddTo(totals, rows[i].item.model, rows[i].item.usd);
    }
    assert rows[..|rows|] == rows;
    OneBarEach(totals, rows, key);
    hide Tallies, Names, FirstSeen, Keys, BarsTotal, Total, LargestFirst, Stable, Descending, OneBarPerName;
    LargestFirstBag(totals);
    LargestFirstDescends(totals);
    LargestFirstStable(totals);
    bars := LargestFirst(totals);
    SameNames(totals, bars);
    TallyIgnoresOrder(totals, bars, rows, key);
    StableByFirstSeen(bars, Names(totals), Keys(rows, key));
  }

  lemma {:induction false} OneBarEach(bars: seq<Bar>, rows: seq<SpendRow>, key: Spend -> string)
    requires Tallies(bars, rows, key)
    ensures OneBarPerName(bars)
  {
  }

  lemma {:induction false} OneRow(row: SpendRow)
    ensures Total([row]) == row.item.usd
  {
  }

  // ---- bars per lane ----

  predicate IsLaneRow(row: SpendRow, dayPrefix: string) {
    dayPrefix <= row.item.ts && (row.item.actorKind == Some("worker") || row.item.actorKind == Some("fix-leg"))
  }

  /** A worker's or a fix leg's row whose stamp begins with the day. */
  ghost predicate OfLaneThatDay(row: SpendRow, day: string) {
    row.item.actorKind in {Some("worker"), Some("fix-leg")} && |day| <= |row.item.ts| && row.item.ts[..|day|] == day
  }

  lemma {:induction false} LaneRowIff(row: SpendRow, day: string)
    ensures IsLaneRow(row, day) <==> OfLaneThatDay(row, day)
  {
  }

  ghost function LaneRows(rows: seq<SpendRow>, dayPrefix: string): seq<SpendRow> {
    if rows == [] then []
    else if OfLaneThatDay(rows[0], dayPrefix) then [rows[0]] + LaneRows(rows[1..], dayPrefix)
    else LaneRows(rows[1..], dayPrefix)
  }

  lemma {:induction false} LaneRowsSnoc(rows: seq<SpendRow>, row: SpendRow, dayPrefix: string)
    ensures LaneRows(rows + [row], dayPrefix) ==
            if OfLaneThatDay(row, dayPrefix) then LaneRows(rows, dayPrefix) + [row] else LaneRows(rows, dayPrefix)
  {
    if rows == [] {
      assert rows + [row] == [row];
    } else {
      assert (rows + [row])[1..] == rows[1..] + [row];
      LaneRowsSnoc(rows[1..], row, dayPrefix);
    }
  }

  /** One bar per lane with what its worker and fix legs cost that day, together exactly those rows, in the order
      in which the lanes were first seen. */
  method SpendByWorkerForDay(rows: seq<SpendRow>, dayPrefix: string) returns (bars: seq<Bar>)
    ensures Tallies(bars, LaneRows(rows, dayPrefix), (s: Spend) => s.worker)
    ensures Names(bars) == FirstSeen(Keys(LaneRows(rows, dayPrefix), (s: Spend) => s.worker))
    ensures BarsTotal(bars) == Total(LaneRows(rows, dayPrefix))
  {
    bars := [];
    ghost var key := (s: Spend) => s.worker;
    for i := 0 to |rows|
      invariant Tallies(bars, LaneRows(rows[..i], dayPrefix), key)
      invariant Names(bars) == FirstSeen(Keys(LaneRows(rows[..i], dayPrefix), key))
      invariant BarsTotal(bars) == Total(LaneRows(rows[..i], dayPrefix))
    {
      assert rows[..i + 1] == rows[..i] + [rows[i]];
      LaneRowsSnoc(rows[..i], rows[i], dayPrefix);
      LaneRowIff(rows[i], dayPrefix);
      hide Tallies, Names, FirstSeen, Keys, BarsTotal, Total, AddTo, LaneRows;
      if IsLaneRow(rows[i], dayPrefix) {
        OneRow(rows[i]);
        NamesRow(bars, LaneRows(rows[..i], dayPrefix), rows[i], key);
        TallyRow(bars, LaneRows(rows[..i], dayPrefix), rows[i], key);
        AddToTotal(bars, rows[i].item.worker, rows[i].item.usd);
        TotalAppend(LaneRows(rows[..i], dayPrefix), [rows[i]]);
        bars := AddTo(bars, rows[i].item.worker, rows[i].item.usd);
      }
    }
    assert rows[..|rows|] == rows;
  }
}

/** Spend by stage: rows are put in the phase window that holds their time stamp, and the stages are drawn
    in a fixed order. */
module Stages {
  import opened Options
  import opened Rows
  import opened Spending
  import opened Precedence
  import opened Cost

  const UNATTRIBUTED_PHASE := "unattributed"

  const STAGE_PHASES: seq<string> := ["aligning", "architecting", "plan_review", "executing", "harvesting", "retro"]
  const STAGE_NAMES: seq<string> := ["Goal & align", "Arch review", "Verify", "Lanes", "Summary", "Retro"]

  datatype PhaseWindow = PhaseWindow(phase: string, startTs: string, endTs: Option<string>)

  datatype Bucket = Bucket(phase: string, rows: seq<SpendRow>)

  /** JavaScript's `a <= b` on strings. */
  predicate UpToTs(a: string, b: string) { !LexLess(b, a) }

  predicate Holds(w: PhaseWindow, ts: string) {
    UpToTs(w.startTs, ts) && (w.endTs.None? || LexLess(ts, w.endTs.value))
  }

  /** The phase of the first window that holds the stamp. */
  function PhaseAt(windows: seq<PhaseWindow>, ts: string): Option<string> {
    if windows == [] then None
    else if Holds(windows[0], ts) then Some(windows[0].phase)
    else PhaseAt(windows[1..], ts)
  }

  function RowsOfPhase(rows: seq<SpendRow>, windows: seq<PhaseWindow>, phase: Option<string>): seq<SpendRow> {
    if rows == [] then []
    else if PhaseAt(windows, rows[0].item.ts) == phase then [rows[0]] + RowsOfPhase(rows[1..], windows, phase)
    else RowsOfPhase(rows[1..], windows, phase)
  }

  function BucketsTotal(buckets: seq<Bucket>): real {
    if buckets == [] then 0.0 else Total(buckets[0].rows) + BucketsTotal(buckets[1..])
  }

  function Phases(buckets: seq<Bucket>): seq<string> {
    seq(|buckets|, i requires 0 <= i < |buckets| => buckets[i].phase)
  }

  /** The row goes into its phase's bucket; a new phase's bucket goes last. */
  function Push(buckets: seq<Bucket>, phase: string, row: SpendRow): seq<Bucket> {
    var i := IndexIn(Phases(buckets), phase);
    if i < |buckets| then buckets[i := Bucket(phase, buckets[i].rows + [row])] else buckets + [Bucket(phase, [row])]
  }

  ghost predicate OneBucketPerPhase(buckets: seq<Bucket>) {
    forall i, j :: 0 <= i < j < |buckets| ==> buckets[i].phase != buckets[j].phase
  }

  /** Each bucket holds its phase's rows in order, and there is one for every phase that has rows. */
  ghost predicate Attributed(buckets: seq<Bucket>, rows: seq<SpendRow>, windows: seq<PhaseWindow>) {
    && OneBucketPerPhase(buckets)
    && (forall i :: 0 <= i < |buckets| ==>
          buckets[i].rows != [] && buckets[i].rows == RowsOfPhase(rows, windows, Some(buckets[i].phase)))
    && forall phase :: !HasBucket(buckets, phase) ==> RowsOfPhase(rows, windows, Some(phase)) == []
  }

  ghost predicate HasBucket(buckets: seq<Bucket>, phase: string) {
    exists i :: 0 <= i < |buckets| && buckets[i].phase == phase
  }

  lemma {:induction false} BucketsTotalConcat(a: seq<Bucket>, b: seq<Bucket>)
    ensures BucketsTotal(a + b) == BucketsTotal(a) + BucketsTotal(b)
  {
    if a == [] {
      assert a + b == b;
    } else {
      assert (a + b)[1..] == a[1..] + b;
      BucketsTotalConcat(a[1..], b);
    }
  }

  lemma {:induction false} BucketsTotalAppend(buckets: seq<Bucket>, b: Bucket)
    ensures BucketsTotal(buckets + [b]) == BucketsTotal(buckets) + Total(b.rows)
  {
    BucketsTotalConcat(buckets, [b]);
    assert BucketsTotal([b]) == Total(b.rows);
  }

  lemma {:induction false} BucketsTotalAt(buckets: seq<Bucket>, i: nat, b: Bucket)
    requires i < |buckets|
    ensures BucketsTotal(buckets[i := b]) == BucketsTotal(buckets) - Total(buckets[i].rows) + Total(b.rows)
  {
    assert buckets == buckets[..i] + ([buckets[i]] + buckets[i + 1..]);
    assert buckets[i := b] == buckets[..i] + ([b] + buckets[i + 1..]);
    BucketsTotalConcat(buckets[..i], [buckets[i]] + buckets[i + 1..]);
    BucketsTotalConcat(buckets[..i], [b] + buckets[i + 1..]);
    assert ([buckets[i]] + buckets[i + 1..])[1..] == buckets[i + 1..]
        && ([b] + buckets[i + 1..])[1..] == buckets[i + 1..];
  }

  lemma {:induction false} PushTotal(buckets: seq<Bucket>, phase: string, row: SpendRow)
    ensures BucketsTotal(Push(buckets, phase, row)) == BucketsTotal(buckets) + row.item.usd
  {
    assert Total([row]) == row.item.usd;
    var i := IndexIn(Phases(buckets), phase);
    if i < |buckets| {
      BucketsTotalAt(buckets, i, Bucket(phase, buckets[i].rows + [row]));
      TotalAppend(buckets[i].rows, [row]);
    } else {
      BucketsTotalAppend(buckets, Bucket(phase, [row]));
    }
  }

  lemma {:induction false} RowsOfPhaseSnoc(rows: seq<SpendRow>, row: SpendRow, windows: seq<PhaseWindow>,
                                           phase: Option<string>)
    ensures RowsOfPhase(rows + [row], windows, phase) ==
            if PhaseAt(windows, row.item.ts) == phase then RowsOfPhase(rows, windows, phase) + [row]
            else RowsOfPhase(rows, windows, phase)
  {
    if rows == [] {
      assert rows + [row] == [row];
    } else {
      assert (rows + [row])[1..] == rows[1..] + [row];
      RowsOfPhaseSnoc(rows[1..], row, windows, phase);
    }
  }

  /** The phases that the rows are attributed to, row by row. */
  function RowPhases(rows: seq<SpendRow>, windows: seq<PhaseWindow>): seq<string> {
    if rows == [] then []
    else
      var before, phase := RowPhases(rows[..|rows| - 1], windows), PhaseAt(windows, rows[|rows| - 1].item.ts);
      if phase.None? then before else before + [phase.value]
  }

  lemma {:induction false} PushPhases(buckets: seq<Bucket>, phase: string, row: SpendRow)
    ensures Phases(Push(buckets, phase, row)) ==
            if phase in Phases(buckets) then Phases(buckets) else Phases(buckets) + [phase]
  {
    var i := IndexIn(Phases(buckets), phase);
    if phase in Phases(buckets) {
      assert i < |buckets|;
      assert Phases(Push(buckets, phase, row)) == Phases(buckets);
    } else {
      assert i == |buckets|;
    }
  }

  lemma {:induction false} NoneSeen(windows: seq<PhaseWindow>)
    ensures Phases([]) == FirstSeen(RowPhases([], windows))
  {
  }

  lemma {:induction false} RowPhasesSnoc(rows: seq<SpendRow>, row: SpendRow, windows: seq<PhaseWindow>)
    ensures var before, phase := RowPhases(rows, windows), PhaseAt(windows, row.item.ts);
            RowPhases(rows + [row], windows) == if phase.None? then before else before + [phase.value]
  {
    hide PhaseAt;
    assert (rows + [row])[..|rows|] == rows;
  }

  /** A pushed row keeps the buckets in first-seen order. */
  lemma {:induction false} PushSeen(buckets: seq<Bucket>, seen: seq<string>, phase: string, row: SpendRow)
    requires Phases(buckets) == FirstSeen(seen)
    ensures Phases(Push(buckets, phase, row)) == FirstSeen(seen + [phase])
  {
    hide Push, Phases;
    PushPhases(buckets, phase, row);
    FirstSeenSnoc(seen, phase);
  }

  lemma {:induction false} HasBucketIff(buckets: seq<Bucket>, phase: string)
    ensures HasBucket(buckets, phase) <==> phase in Phases(buckets)
  {
    if HasBucket(buckets, phase) {
      var i :| 0 <= i < |buckets| && buckets[i].phase == phase;
      assert Phases(buckets)[i] == phase;
    }
  }

  lemma {:induction false} PushDistinct(buckets: seq<Bucket>, phase: string, row: SpendRow)
    requires OneBucketPerPhase(buckets)
    ensures OneBucketPerPhase(Push(buckets, phase, row))
    ensures forall p :: HasBucket(Push(buckets, phase, row), p) <==> p == phase || HasBucket(buckets, p)
  {
    assert forall j :: 0 <= j < |buckets| ==> Phases(buckets)[j] == buckets[j].phase;
    forall p ensures HasBucket(Push(buckets, phase, row), p) <==> p == phase || HasBucket(buckets, p) {
      hide HasBucket, Push, Phases;
      PushPhases(buckets, phase, row);
      HasBucketIff(buckets, p);
      HasBucketIff(Push(buckets, phase, row), p);
    }
  }

  lemma {:induction false} AttributeBucket(buckets: seq<Bucket>, rows: seq<SpendRow>, windows: seq<PhaseWindow>,
                                           row: SpendRow, phase: string, i: nat)
    requires Attributed(buckets, rows, windows) && PhaseAt(windows, row.item.ts) == Some(phase)
    requires i < |Push(buckets, phase, row)|
    ensures var b := Push(buckets, phase, row)[i];
            b.rows != [] && b.rows == RowsOfPhase(rows + [row], windows, Some(b.phase))
  {
    hide PhaseAt;
    assert forall j :: 0 <= j < |buckets| ==> Phases(buckets)[j] == buckets[j].phase;
    var b := Push(buckets, phase, row)[i];
    RowsOfPhaseSnoc(rows, row, windows, Some(b.phase));
    hide RowsOfPhase;
    if i == |buckets| {
      HasBucketIff(buckets, phase);
    } else {
      assert buckets[i].rows == RowsOfPhase(rows, windows, Some(buckets[i].phase));
    }
  }

  lemma {:induction false} AttributeRow(buckets: seq<Bucket>, rows: seq<SpendRow>, windows: seq<PhaseWindow>,
                                        row: SpendRow, phase: string)
    requires Attributed(buckets, rows, windows) && PhaseAt(windows, row.item.ts) == Some(phase)
    ensures Attributed(Push(buckets, phase, row), rows + [row], windows)
  {
    hide Push, PhaseAt, RowsOfPhase, HasBucket;
    var t := Push(buckets, phase, row);
    PushDistinct(buckets, phase, row);
    forall i: nat | i < |t|
      ensures t[i].rows != [] && t[i].rows == RowsOfPhase(rows + [row], windows, Some(t[i].phase))
    {
      AttributeBucket(buckets, rows, windows, row, phase, i);
    }
    forall p | !HasBucket(t, p) ensures RowsOfPhase(rows + [row], windows, Some(p)) == [] {
      RowsOfPhaseSnoc(rows, row, windows, Some(p));
    }
  }

  lemma {:induction false} SkipRow(buckets: seq<Bucket>, rows: seq<SpendRow>, windows: seq<PhaseWindow>, row: SpendRow)
    requires Attributed(buckets, rows, windows) && PhaseAt(windows, row.item.ts) == None
    ensures Attributed(buckets, rows + [row], windows)
  {
    forall p ensures RowsOfPhase(rows + [row], windows, Some(p)) == RowsOfPhase(rows, windows, Some(p)) {
      RowsOfPhaseSnoc(rows, row, windows, Some(p));
    }
  }

  ghost predicate IsBucketing(buckets: seq<Bucket>, rows: seq<SpendRow>, windows: seq<PhaseWindow>) {
    var loose := RowsOfPhase(rows, windows, None);
    && (if loose == [] then Attributed(buckets, rows, windows)
        else buckets != [] && buckets[|buckets| - 1] == Bucket(UNATTRIBUTED_PHASE, loose)
             && Attributed(buckets[..|buckets| - 1], rows, windows))
    && Phases(buckets) == FirstSeen(RowPhases(rows, windows)) + (if loose == [] then [] else [UNATTRIBUTED_PHASE])
    && BucketsTotal(buckets) == Total(rows)
  }

  /** The buckets with what is attributed to a window, one per phase in the order in which the phases were first
      seen, and last, when there are any, the rows that no window holds; together they hold all the money. */
  method BucketSpendByPhase(rows: seq<SpendRow>, windows: seq<PhaseWindow>) returns (buckets: seq<Bucket>)
    ensures IsBucketing(buckets, rows, windows)
  {
    hide FirstSeen;
    var byPhase: seq<Bucket> := [];
    assert Phases(byPhase) == FirstSeen(RowPhases([], windows)) by { NoneSeen(windows); }
    var unattributed: seq<SpendRow> := [];
    for i := 0 to |rows|
      invariant Attributed(byPhase, rows[..i], windows)
      invariant Phases(byPhase) == FirstSeen(RowPhases(rows[..i], windows))
      invariant unattributed == RowsOfPhase(rows[..i], windows, None)
      invariant BucketsTotal(byPhase) + Total(unattributed) == Total(rows[..i])
    {
      assert rows[..i + 1] == rows[..i] + [rows[i]];
      TotalAppend(rows[..i], [rows[i]]);
      RowsOfPhaseSnoc(rows[..i], rows[i], windows, None);
      RowPhasesSnoc(rows[..i], rows[i], windows);
      OneRow(rows[i]);
      hide Attributed, Phases, FirstSeen, RowPhases, RowsOfPhase, BucketsTotal, Total, Push, PhaseAt;
      var phase := PhaseAt(windows, rows[i].item.ts);
      if phase.None? {
        SkipRow(byPhase, rows[..i], windows, rows[i]);
        TotalAppend(unattributed, [rows[i]]);
        unattributed := unattributed + [rows[i]];
      } else {
        AttributeRow(byPhase, rows[..i], windows, rows[i], phase.value);
        PushTotal(byPhase, phase.value, rows[i]);
        PushSeen(byPhase, RowPhases(rows[..i], windows), phase.value, rows[i]);
        byPhase := Push(byPhase, phase.value, rows[i]);
      }
    }
    assert rows[..|rows|] == rows;
    buckets := byPhase;
    if |unattributed| > 0 {
      buckets := byPhase + [Bucket(UNATTRIBUTED_PHASE, unattributed)];
      BucketsTotalAppend(byPhase, Bucket(UNATTRIBUTED_PHASE, unattributed));
      assert buckets[..|buckets| - 1] == byPhase;
      assert Phases(buckets) == Phases(byPhase) + [UNATTRIBUTED_PHASE];
    }
  }

  // ---- the stage bars ----

  /** `new Map(bars).get(phase)`: of buckets with one phase the last wins. */
  function UsdOf(buckets: seq<Bucket>, phase: string): Option<real>
    decreases |buckets|
  {
    if buckets == [] then None
    else if buckets[|buckets| - 1].phase == phase then Some(Total(buckets[|buckets| - 1].rows))
    else UsdOf(buckets[..|buckets| - 1], phase)
  }

  function OrZero(usd: Option<real>): real { if usd.Some? then usd.value else 0.0 }

  function StageBars(buckets: seq<Bucket>): seq<Bar> {
    seq(6, i requires 0 <= i < 6 => Bar(STAGE_NAMES[i], OrZero(UsdOf(buckets, STAGE_PHASES[i]))))
  }

  /** The six stages, zero-filled, and the leftover last when there is one. */
  function StageCostBars(buckets: seq<Bucket>): seq<Bar> {
    StageBars(buckets)
    + (var rest := UsdOf(buckets, UNATTRIBUTED_PHASE); if rest.Some? then [Bar("Unattributed", rest.value)] else [])
  }

  predicate Listed(phase: string) { phase in STAGE_PHASES || phase == UNATTRIBUTED_PHASE }

  /** The rows in windows of phases that no bar is for. */
  function UnlistedRows(rows: seq<SpendRow>, windows: seq<PhaseWindow>): seq<SpendRow> {
    if rows == [] then []
    else
      var phase, rest := PhaseAt(windows, rows[0].item.ts), UnlistedRows(rows[1..], windows);
      if phase.Some? && !Listed(phase.value) then [rows[0]] + rest else rest
  }

  function PhasesTotal(buckets: seq<Bucket>, phases: seq<string>): real {
    if phases == [] then 0.0 else OrZero(UsdOf(buckets, phases[0])) + PhasesTotal(buckets, phases[1..])
  }

  /** What the rows of some phases cost, one phase after the other. */
  function RowsTotal(rows: seq<SpendRow>, windows: seq<PhaseWindow>, phases: seq<string>): real {
    if phases == [] then 0.0
    else Total(RowsOfPhase(rows, windows, Some(phases[0]))) + RowsTotal(rows, windows, phases[1..])
  }

  lemma {:induction false} StagesAreDistinct()
    ensures forall i, j :: 0 <= i < j < 6 ==> STAGE_PHASES[i] != STAGE_PHASES[j]
    ensures UNATTRIBUTED_PHASE !in STAGE_PHASES
  {
    var p := STAGE_PHASES;
    assert p[0][0] == 'a' && p[1][0] == 'a' && p[0][1] == 'l' && p[1][1] == 'r';
    assert p[2][0] == 'p' && p[3][0] == 'e' && p[4][0] == 'h' && p[5][0] == 'r' && UNATTRIBUTED_PHASE[0] == 'u';
  }

  lemma {:induction false} UsdOfIs(buckets: seq<Bucket>, phase: string)
    ensures UsdOf(buckets, phase).None? ==> !HasBucket(buckets, phase)
    ensures UsdOf(buckets, phase).Some? ==>
      exists i :: 0 <= i < |buckets| && buckets[i].phase == phase
                  && UsdOf(buckets, phase) == Some(Total(buckets[i].rows))
    decreases |buckets|
  {
    if buckets != [] {
      var before, b := buckets[..|buckets| - 1], buckets[|buckets| - 1];
      UsdOfIs(before, phase);
      if b.phase != phase && UsdOf(before, phase).Some? {
        var i :| 0 <= i < |before| && before[i].phase == phase && UsdOf(before, phase) == Some(Total(before[i].rows));
        assert buckets[i] == before[i];
      } else if b.phase != phase {
        forall i | 0 <= i < |before| ensures buckets[i].phase != phase { assert before[i] == buckets[i]; }
      }
    }
  }

  /** What is looked up under a phase is what its rows cost. */
  lemma {:induction false} UsdOfPhase(buckets: seq<Bucket>, rows: seq<SpendRow>, windows: seq<PhaseWindow>,
                                      phase: string)
    requires Attributed(buckets, rows, windows)
    ensures OrZero(UsdOf(buckets, phase)) == Total(RowsOfPhase(rows, windows, Some(phase)))
  {
    hide UsdOf, RowsOfPhase;
    UsdOfIs(buckets, phase);
  }

  lemma {:induction false} UsdOfBucketing(buckets: seq<Bucket>, rows: seq<SpendRow>, windows: seq<PhaseWindow>,
                                          phase: string)
    requires IsBucketing(buckets, rows, windows)
    ensures var loose := RowsOfPhase(rows, windows, None);
      OrZero(UsdOf(buckets, phase)) == if phase == UNATTRIBUTED_PHASE && loose != [] then Total(loose)
                                       else Total(RowsOfPhase(rows, windows, Some(phase)))
  {
    hide Attributed, RowsOfPhase, BucketsTotal, FirstSeen, RowPhases, Phases;
    if RowsOfPhase(rows, windows, None) == [] {
      UsdOfPhase(buckets, rows, windows, phase);
    } else {
      UsdOfPhase(buckets[..|buckets| - 1], rows, windows, phase);
    }
  }

  lemma {:induction false} StageUsd(buckets: seq<Bucket>, rows: seq<SpendRow>, windows: seq<PhaseWindow>,
                                    phases: seq<string>)
    requires IsBucketing(buckets, rows, windows) && UNATTRIBUTED_PHASE !in phases
    ensures PhasesTotal(buckets, phases) == RowsTotal(rows, windows, phases)
  {
    hide IsBucketing, UsdOf, RowsOfPhase;
    if phases != [] {
      UsdOfBucketing(buckets, rows, windows, phases[0]);
      StageUsd(buckets, rows, windows, phases[1..]);
    }
  }

  /** One more row in front adds its money once, when its phase is among those asked for. */
  lemma {:induction false} RowsTotalFront(rows: seq<SpendRow>, windows: seq<PhaseWindow>, phases: seq<string>)
    requires rows != [] && forall i, j :: 0 <= i < j < |phases| ==> phases[i] != phases[j]
    ensures var phase := PhaseAt(windows, rows[0].item.ts);
      RowsTotal(rows, windows, phases) == RowsTotal(rows[1..], windows, phases)
        + (if phase.Some? && phase.value in phases then rows[0].item.usd else 0.0)
  {
    hide PhaseAt;
    if phases != [] {
      RowsTotalFront(rows, windows, phases[1..]);
      TotalFront(rows[0], RowsOfPhase(rows[1..], windows, Some(phases[0])));
      assert forall i :: 0 < i < |phases| ==> phases[1..][i - 1] == phases[i];
    }
  }

  lemma {:induction false} TotalFront(row: SpendRow, rows: seq<SpendRow>)
    ensures Total([row] + rows) == row.item.usd + Total(rows)
  {
    assert ([row] + rows)[1..] == rows;
  }

  /** Every row is in a stage, in a window of the leftover's name, in one of another phase, or in none. */
  lemma {:induction false} RowsAreSplit(rows: seq<SpendRow>, windows: seq<PhaseWindow>)
    ensures Total(rows) == RowsTotal(rows, windows, STAGE_PHASES)
        + Total(RowsOfPhase(rows, windows, Some(UNATTRIBUTED_PHASE)))
        + Total(UnlistedRows(rows, windows)) + Total(RowsOfPhase(rows, windows, None))
  {
    if rows == [] {
      NoRowsTotal(windows, STAGE_PHASES);
    } else {
      var rest := rows[1..];
      StagesAreDistinct();
      RowsAreSplit(rest, windows);
      RowsTotalFront(rows, windows, STAGE_PHASES);
      TotalFront(rows[0], RowsOfPhase(rest, windows, Some(UNATTRIBUTED_PHASE)));
      TotalFront(rows[0], UnlistedRows(rest, windows));
      TotalFront(rows[0], RowsOfPhase(rest, windows, None));
      hide PhaseAt, RowsTotal;
    }
  }

  lemma {:induction false} NoRowsTotal(windows: seq<PhaseWindow>, phases: seq<string>)
    ensures RowsTotal([], windows, phases) == 0.0
  {
    if phases != [] { NoRowsTotal(windows, phases[1..]); }
  }

  lemma {:induction false} StagesTotal(buckets: seq<Bucket>, k: nat)
    requires k <= 6
    ensures BarsTotal(StageBars(buckets)[k..]) == PhasesTotal(buckets, STAGE_PHASES[k..])
    decreases 6 - k
  {
    var bars := StageBars(buckets);
    if k < 6 {
      StagesTotal(buckets, k + 1);
      assert bars[k..][1..] == bars[k + 1..] && STAGE_PHASES[k..][1..] == STAGE_PHASES[k + 1..];
    }
  }

  lemma {:induction false} BarsArePhases(buckets: seq<Bucket>)
    ensures BarsTotal(StageCostBars(buckets))
         == PhasesTotal(buckets, STAGE_PHASES) + OrZero(UsdOf(buckets, UNATTRIBUTED_PHASE))
  {
    var stages, rest := StageBars(buckets), UsdOf(buckets, UNATTRIBUTED_PHASE);
    StagesTotal(buckets, 0);
    assert stages[0..] == stages && STAGE_PHASES[0..] == STAGE_PHASES;
    BarsTotalAppend(stages, if rest.Some? then [Bar("Unattributed", rest.value)] else []);
  }

  /** From the ledger to the bars: they show every row but those in windows of unlisted phases and, when some rows are
      in no window at all, those in windows that bear the leftover's own name. Without such a name the bars come to
      the whole exactly when the unlisted rows come to nothing. */
  lemma {:induction false} StageBarsConserve(rows: seq<SpendRow>, windows: seq<PhaseWindow>, buckets: seq<Bucket>)
    requires IsBucketing(buckets, rows, windows)
    ensures var bars, unlisted := BarsTotal(StageCostBars(buckets)), Total(UnlistedRows(rows, windows));
      && bars + unlisted + (if RowsOfPhase(rows, windows, None) == [] then 0.0
                            else Total(RowsOfPhase(rows, windows, Some(UNATTRIBUTED_PHASE)))) == Total(rows)
      && ((forall i :: 0 <= i < |windows| ==> windows[i].phase != UNATTRIBUTED_PHASE)
            ==> (bars == Total(rows) <==> unlisted == 0.0))
  {
    hide IsBucketing, RowsOfPhase, UnlistedRows, StageCostBars, BarsTotal, PhasesTotal, UsdOf;
    BarsArePhases(buckets);
    StagesAreDistinct();
    StageUsd(buckets, rows, windows, STAGE_PHASES);
    UsdOfBucketing(buckets, rows, windows, UNATTRIBUTED_PHASE);
    RowsAreSplit(rows, windows);
    if forall i :: 0 <= i < |windows| ==> windows[i].phase != UNATTRIBUTED_PHASE {
      NoWindowNoRows(rows, windows, UNATTRIBUTED_PHASE);
    }
  }

  /** A stamp that is neither before the window's start nor, when it has one, at or past its end. */
  ghost predicate Covers(w: PhaseWindow, ts: string) {
    !LexLess(ts, w.startTs) && (w.endTs.Some? ==> LexLess(ts, w.endTs.value))
  }

  ghost predicate FirstCover(windows: seq<PhaseWindow>, i: nat, ts: string) {
    i < |windows| && Covers(windows[i], ts) && forall j :: 0 <= j < i ==> !Covers(windows[j], ts)
  }

  /** A stamp is of the first window that covers it, and of none when none does. */
  lemma {:induction false} FirstWindowDecides(windows: seq<PhaseWindow>, ts: string)
    ensures PhaseAt(windows, ts).None? <==> forall i :: 0 <= i < |windows| ==> !Covers(windows[i], ts)
    ensures forall i :: 0 <= i < |windows| && FirstCover(windows, i, ts) ==>
      PhaseAt(windows, ts) == Some(windows[i].phase)
  {
    if windows != [] {
      var rest := windows[1..];
      FirstWindowDecides(rest, ts);
      assert forall j :: 0 <= j < |rest| ==> rest[j] == windows[j + 1];
      forall i | 0 <= i < |windows| && FirstCover(windows, i, ts)
        ensures PhaseAt(windows, ts) == Some(windows[i].phase)
      {
        if i > 0 {
          assert !Covers(windows[0], ts);
          assert FirstCover(rest, i - 1, ts);
        }
      }
    }
  }

  /** The bars by name: the six stages in their order with what their phase's rows cost, and last the leftover, when
      some rows are in no window, or else in one of the leftover's name. */
  lemma {:induction false} StageBarsShow(rows: seq<SpendRow>, windows: seq<PhaseWindow>, buckets: seq<Bucket>)
    requires IsBucketing(buckets, rows, windows)
    ensures var bars := StageCostBars(buckets);
      var loose, named := RowsOfPhase(rows, windows, None), RowsOfPhase(rows, windows, Some("unattributed"));
      && |bars| == (if loose == [] && named == [] then 6 else 7)
      && bars[0] == Bar("Goal & align", Total(RowsOfPhase(rows, windows, Some("aligning"))))
      && bars[1] == Bar("Arch review", Total(RowsOfPhase(rows, windows, Some("architecting"))))
      && bars[2] == Bar("Verify", Total(RowsOfPhase(rows, windows, Some("plan_review"))))
      && bars[3] == Bar("Lanes", Total(RowsOfPhase(rows, windows, Some("executing"))))
      && bars[4] == Bar("Summary", Total(RowsOfPhase(rows, windows, Some("harvesting"))))
      && bars[5] == Bar("Retro", Total(RowsOfPhase(rows, windows, Some("retro"))))
      && (|bars| == 7 ==> bars[6] == Bar("Unattributed", Total(if loose == [] then named else loose)))
  {
    LeftoverIff(rows, windows, buckets);
    UsdOfBucketing(buckets, rows, windows, UNATTRIBUTED_PHASE);
    forall k: nat | k < 6
      ensures StageBars(buckets)[k].usd == Total(RowsOfPhase(rows, windows, Some(STAGE_PHASES[k])))
    {
      StageBarAt(rows, windows, buckets, k);
    }
    hide IsBucketing, RowsOfPhase, UsdOf, Total;
    var stages := StageBars(buckets);
    assert |stages| == 6 && forall k :: 0 <= k < 6 ==> stages[k].name == STAGE_NAMES[k];
    assert forall k :: 0 <= k < 6 ==> StageCostBars(buckets)[k] == stages[k];
  }

  lemma {:induction false} StageBarAt(rows: seq<SpendRow>, windows: seq<PhaseWindow>, buckets: seq<Bucket>, k: nat)
    requires IsBucketing(buckets, rows, windows) && k < 6
    ensures StageBars(buckets)[k].usd == Total(RowsOfPhase(rows, windows, Some(STAGE_PHASES[k])))
  {
    hide IsBucketing, RowsOfPhase, UsdOf, Total;
    StagesAreDistinct();
    UsdOfBucketing(buckets, rows, windows, STAGE_PHASES[k]);
  }

  lemma {:induction false} LeftoverIff(rows: seq<SpendRow>, windows: seq<PhaseWindow>, buckets: seq<Bucket>)
    requires IsBucketing(buckets, rows, windows)
    ensures UsdOf(buckets, UNATTRIBUTED_PHASE).Some? <==>
      RowsOfPhase(rows, windows, None) != [] || RowsOfPhase(rows, windows, Some(UNATTRIBUTED_PHASE)) != []
  {
    UsdOfIs(buckets, UNATTRIBUTED_PHASE);
    hide RowsOfPhase, UsdOf, Phases, BucketsTotal, FirstSeen;
    if RowsOfPhase(rows, windows, None) != [] {
      assert HasBucket(buckets, UNATTRIBUTED_PHASE);
    }
  }

  lemma {:induction false} PhaseIsAWindow(windows: seq<PhaseWindow>, ts: string)
    ensures var phase := PhaseAt(windows, ts);
      phase.Some? ==> exists i :: 0 <= i < |windows| && windows[i].phase == phase.value
  {
    if windows != [] && !Holds(windows[0], ts) {
      PhaseIsAWindow(windows[1..], ts);
      var phase := PhaseAt(windows, ts);
      if phase.Some? {
        var i :| 0 <= i < |windows[1..]| && windows[1..][i].phase == phase.value;
        assert windows[i + 1].phase == phase.value;
      }
    }
  }

  lemma {:induction false} NoWindowNoRows(rows: seq<SpendRow>, windows: seq<PhaseWindow>, phase: string)
    requires forall i :: 0 <= i < |windows| ==> windows[i].phase != phase
    ensures RowsOfPhase(rows, windows, Some(phase)) == []
  {
    if rows != [] {
      PhaseIsAWindow(windows, rows[0].item.ts);
      NoWindowNoRows(rows[1..], windows, phase);
    }
  }

  lemma {:induction false} ClosedIsUnlisted()
    ensures !Listed("closed")
  {
    var p := STAGE_PHASES;
    assert p[0][0] == 'a' && p[1][0] == 'a' && p[2][0] == 'p' && p[3][0] == 'e' && p[4][0] == 'h' && p[5][0] == 'r';
    assert UNATTRIBUTED_PHASE[0] == 'u' && "closed"[0] == 'c';
  }

  /** What is paid after a round's last phase has begun, `closed`, is bucketed and then shown by no bar. */
  lemma {:induction false} ClosedSpendIsInNoBar(row: SpendRow, buckets: seq<Bucket>)
    requires IsBucketing(buckets, [row], [PhaseWindow("closed", row.item.ts, None)])
    ensures BucketsTotal(buckets) == row.item.usd && BarsTotal(StageCostBars(buckets)) == 0.0
  {
    var windows := [PhaseWindow("closed", row.item.ts, None)];
    LexTrichotomy(row.item.ts, row.item.ts);
    assert PhaseAt(windows, row.item.ts) == Some("closed");
    ClosedIsUnlisted();
    StageBarsConserve([row], windows, buckets);
    hide PhaseAt, Attributed, StageCostBars, BarsTotal, Phases, FirstSeen;
    assert [row][1..] == [] && RowsOfPhase([row], windows, None) == [];
    assert UnlistedRows([row], windows) == [row];
  }

  // ---- the replay's cut ----

  ghost predicate SortedByTs(rows: seq<SpendRow>) {
    forall i, j :: 0 <= i < j < |rows| ==> UpToTs(rows[i].item.ts, rows[j].item.ts)
  }

  lemma {:induction false} UpToTsTransitive(a: string, b: string, c: string)
    requires UpToTs(a, b) && UpToTs(b, c)
    ensures UpToTs(a, c)
  {
    LexTrichotomy(a, b);
    LexTrichotomy(b, c);
    if a != b && b != c { LexTransitive(a, b, c); }
    LexTrichotomy(a, c);
  }

  /** The binary search cuts the rows exactly at the cursor. */
  method SpendThroughTs(rows: seq<SpendRow>, cursorTs: string) returns (through: seq<SpendRow>)
    requires SortedByTs(rows)
    ensures through <= rows
    ensures forall i :: 0 <= i < |rows| ==> (i < |through| <==> UpToTs(rows[i].item.ts, cursorTs))
  {
    var lo, hi := 0, |rows|;
    while lo < hi
      invariant 0 <= lo <= hi <= |rows|
      invariant forall i :: 0 <= i < lo ==> UpToTs(rows[i].item.ts, cursorTs)
      invariant forall i :: hi <= i < |rows| ==> !UpToTs(rows[i].item.ts, cursorTs)
    {
      var mid := (lo + hi) / 2;
      if UpToTs(rows[mid].item.ts, cursorTs) {
        forall i | lo <= i <= mid ensures UpToTs(rows[i].item.ts, cursorTs) {
          if i < mid { UpToTsTransitive(rows[i].item.ts, rows[mid].item.ts, cursorTs); }
        }
        lo := mid + 1;
      } else {
        forall i | mid <= i < hi ensures !UpToTs(rows[i].item.ts, cursorTs) {
          if mid < i && UpToTs(rows[i].item.ts, cursorTs) {
            UpToTsTransitive(rows[mid].item.ts, rows[i].item.ts, cursorTs);
          }
        }
        hi := mid;
      }
    }
    through := rows[..lo];
  }
}
