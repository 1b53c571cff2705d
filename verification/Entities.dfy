module Options {
  datatype Option<T> = None | Some(value: T)
}

/** Ledger events and the JSON values their payloads carry. */
module Events {
  import opened Rows

  /** A payload field as JavaScript reads it; an absent field is `Undefined`. */
  datatype Value = Undefined | Null | Bool(b: bool) | Num(n: int) | Str(s: string) | Structured

  /** A row whose stored payload is not parseable JSON is served as null. */
  datatype Payload = Corrupt | Fields(fields: map<string, Value>)

  datatype Entry = Entry(ts: string, kind: string, payload: Payload)

  type Event = Row<Entry>

  function Get(p: Payload, name: string): Value {
    match p
    case Corrupt => Undefined
    case Fields(m) => if name in m then m[name] else Undefined
  }

  function Kind(e: Event): string { e.item.kind }

  function Issue(e: Event): Value { Get(e.item.payload, "issue") }

  function SourceOf(p: Payload): string {
    match Get(p, "source")
    case Str(s) => s
    case _ => ""
  }

  function Source(e: Event): string { SourceOf(e.item.payload) }
}

/** Which events leave work waiting on a person. The two kind sets of the running build are the
    fields of a `Registry`; everything below holds for every registry. */
module Copy {
  import opened Events

  datatype Registry = Registry(clears: set<string>, attention: set<string>)

  /** Kinds that carry a predicate instead of an unconditional marker. */
  predicate PayloadNeedsAttention(kind: string, p: Payload) {
    if kind == "reclaim-done" || kind == "reclaim-failed" then Get(p, "next") != Str("DRIVING")
    else kind == "resume-capped" && Get(p, "split") != Bool(true)
  }

  predicate HasAttention(reg: Registry, kind: string, p: Payload) {
    kind in reg.attention || PayloadNeedsAttention(kind, p)
  }
}

/** The two entity folds: first-wins titles per issue, and the keyed open/close machine of the
    needs-attention strip. */
module Entities {
  import opened Rows
  import opened Events
  import opened Copy
  import opened Options
  import Text

  type OpenAttention = map<string, Event>

  const PARK := "park-escalated"
  const SPIN := "empty-spin-park"
  const WORKTREE := "worktree-retained"

  // ---- keys ----

  function WorktreeKey(path: string): string { WORKTREE + ":" + path }

  function AttentionKey(kind: string, p: Payload): string {
    if kind == WORKTREE then
      match Get(p, "worktreePath")
      case Str(path) => WorktreeKey(path)
      case _ => kind
    else
      match Get(p, "issue")
      case Num(n) => kind + ":" + Text.IntText(n)
      case _ => kind
  }

  /** The breaker kind that already stands for a park episode of this source. */
  function BreakerKey(source: string): set<string> {
    if source == "rapid-restart" then {"rapid-restart-detected"}
    else if source == "consecutive-stalls" then {"consecutive-stalls-detected"}
    else if source == "idle-churn" then {"idle-churn-detected"}
    else {}
  }

  /** `source in TABLE` also answers yes for the names every JavaScript object inherits. */
  const INHERITED_NAMES: set<string> := {
    "constructor", "toString", "toLocaleString", "valueOf", "hasOwnProperty", "isPrototypeOf",
    "propertyIsEnumerable", "__proto__", "__defineGetter__", "__defineSetter__",
    "__lookupGetter__", "__lookupSetter__"
  }

  predicate RepresentedElsewhere(source: string) {
    BreakerKey(source) != {} || source in INHERITED_NAMES
  }

  function ResumedKeys(source: string): set<string> {
    {PARK} + BreakerKey(source) + (if source == "llm" then {SPIN} else {})
  }

  // ---- one event ----

  predicate IsReceipt(kind: string) {
    kind == "escalation-resolved" || kind == "park-resumed" || kind == "run-started" || kind == "worktree-released"
  }

  predicate ClearedBySameOperation(clearKind: string, row: Event) {
    clearKind == "merged" && Kind(row) == "rollback-escalated"
    && Get(row.item.payload, "reason") == Str("merged-board-done")
  }

  /** What an issue-wide clear of issue `n` removes. */
  predicate SweptBy(clearKind: string, n: int, row: Event) {
    Kind(row) != WORKTREE && Issue(row) == Num(n) && !ClearedBySameOperation(clearKind, row)
  }

  function Sweep(open: OpenAttention, clearKind: string, n: int): OpenAttention {
    map k | k in open && !SweptBy(clearKind, n, open[k]) :: open[k]
  }

  function SweptMap(reg: Registry, open: OpenAttention, e: Event): OpenAttention {
    if Kind(e) in reg.clears && Issue(e).Num? then Sweep(open, Kind(e), Issue(e).n) else open
  }

  function OpenPark(open: OpenAttention, e: Event): OpenAttention {
    if RepresentedElsewhere(Source(e)) then open
    else if Source(e) == "llm" && SPIN in open then open
    else open[AttentionKey(PARK, e.item.payload) := e]
  }

  function Step(reg: Registry, open: OpenAttention, e: Event): OpenAttention {
    var p := e.item.payload;
    if Kind(e) == "escalation-resolved" then open - {AttentionKey(Source(e), p)}
    else if Kind(e) == "park-resumed" then open - ResumedKeys(Source(e))
    else if Kind(e) == "run-started" then open - {"emergency-stop"}
    else if Kind(e) == "worktree-released" then
      match Get(p, "worktreePath")
      case Str(path) => open - {WorktreeKey(path)}
      case _ => open
    else
      var swept := SweptMap(reg, open, e);
      if !HasAttention(reg, Kind(e), p) then swept
      else if Kind(e) == PARK then OpenPark(swept, e)
      else swept[AttentionKey(Kind(e), p) := e]
  }

  function Fold(reg: Registry, xs: seq<Event>, seed: OpenAttention): OpenAttention {
    if xs == [] then seed else Fold(reg, xs[1..], Step(reg, seed, xs[0]))
  }

  /** The fold as callers see it: oldest first, whatever order the events came in. */
  function OpenAfter(reg: Registry, events: seq<Event>, seed: OpenAttention): OpenAttention {
    Fold(reg, SortById(events), seed)
  }

  // ---- what one event does to one key ----

  /** `e` asks for a row under `k`. */
  predicate Opens(reg: Registry, e: Event, k: string) {
    && !IsReceipt(Kind(e))
    && HasAttention(reg, Kind(e), e.item.payload)
    && k == AttentionKey(Kind(e), e.item.payload)
    && !(Kind(e) == PARK && RepresentedElsewhere(Source(e)))
  }

  /** An LLM park gives way to an empty-spin row that is already open. */
  predicate YieldsToSpin(e: Event) { Kind(e) == PARK && Source(e) == "llm" }

  /** `e` closes the row held under `k`. */
  predicate Clears(reg: Registry, e: Event, k: string, row: Event) {
    var p := e.item.payload;
    if Kind(e) == "escalation-resolved" then k == AttentionKey(Source(e), p)
    else if Kind(e) == "park-resumed" then k in ResumedKeys(Source(e))
    else if Kind(e) == "run-started" then k == "emergency-stop"
    else if Kind(e) == "worktree-released" then
      Get(p, "worktreePath").Str? && k == WorktreeKey(Get(p, "worktreePath").s)
    else Kind(e) in reg.clears && Issue(e).Num? && SweptBy(Kind(e), Issue(e).n, row)
  }

  predicate OpensOn(reg: Registry, open: OpenAttention, e: Event, k: string) {
    Opens(reg, e, k)
    && !(YieldsToSpin(e) && SPIN in open && !Clears(reg, e, SPIN, open[SPIN]))
  }

  lemma {:induction false} StepAtKey(reg: Registry, open: OpenAttention, e: Event, k: string)
    ensures var next := Step(reg, open, e);
      && (k in next <==> OpensOn(reg, open, e, k) || (k in open && !Clears(reg, e, k, open[k])))
      && (k in next ==> next[k] == if OpensOn(reg, open, e, k) then e else open[k])
  {
  }

  // ---- batches ----

  lemma {:induction false} FoldConcat(reg: Registry, xs: seq<Event>, ys: seq<Event>, seed: OpenAttention)
    ensures Fold(reg, xs + ys, seed) == Fold(reg, ys, Fold(reg, xs, seed))
  {
    if xs == [] {
      assert xs + ys == ys;
    } else {
      assert (xs + ys)[1..] == xs[1..] + ys;
      FoldConcat(reg, xs[1..], ys, Step(reg, seed, xs[0]));
    }
  }

  /** Folding page by page is folding once: the seed carries everything an earlier page decided. */
  lemma {:induction false} OpenFoldIsIncremental(reg: Registry, xs: seq<Event>, ys: seq<Event>, seed: OpenAttention)
    requires Below(xs, ys)
    ensures OpenAfter(reg, xs + ys, seed)
         == OpenAfter(reg, ys, OpenAfter(reg, xs, seed))
  {
    SortConcat(xs, ys);
    FoldConcat(reg, SortById(xs), SortById(ys), seed);
  }

  /** The fold does not depend on the order its input arrives in. */
  lemma {:induction false} OpenFoldIgnoresOrder(reg: Registry, xs: seq<Event>, ys: seq<Event>, seed: OpenAttention)
    requires DistinctIds(xs) && DistinctIds(ys) && SameRows(xs, ys)
    ensures OpenAfter(reg, xs, seed) == OpenAfter(reg, ys, seed)
  {
    SortIgnoresOrder(xs, ys);
  }

  // ---- which rows are open ----

  /** Event `h` opened `k` and nothing in `(h, n)` reopened or closed it. Exact for every key whose
      opening does not depend on other rows. */
  ghost predicate Latest(reg: Registry, xs: seq<Event>, h: nat, n: nat, k: string)
    requires n <= |xs|
  {
    h < n && Opens(reg, xs[h], k)
    && forall j :: h < j < n ==> !Opens(reg, xs[j], k) && !Clears(reg, xs[j], k, xs[h])
  }

  /** Event `i` finds an empty-spin row open, and does not itself close it. */
  ghost predicate SpinOpenAt(reg: Registry, xs: seq<Event>, i: nat)
    requires i < |xs|
  {
    exists h :: 0 <= h < i && Latest(reg, xs, h, i, SPIN) && !Clears(reg, xs[i], SPIN, xs[h])
  }

  ghost predicate OpensAt(reg: Registry, xs: seq<Event>, i: nat, k: string)
    requires i < |xs|
  {
    Opens(reg, xs[i], k) && !(YieldsToSpin(xs[i]) && SpinOpenAt(reg, xs, i))
  }

  /** The history-only reading of "k is open after n events, held by event i". */
  ghost predicate HeldBy(reg: Registry, xs: seq<Event>, i: nat, n: nat, k: string)
    requires n <= |xs|
  {
    i < n && OpensAt(reg, xs, i, k)
    && forall j :: i < j < n ==> !OpensAt(reg, xs, j, k) && !Clears(reg, xs[j], k, xs[i])
  }

  lemma {:induction false} ParkKeyIsNotSpin(e: Event)
    requires YieldsToSpin(e)
    ensures AttentionKey(Kind(e), e.item.payload) != SPIN
  {
    assert AttentionKey(Kind(e), e.item.payload)[0] == 'p';
    assert SPIN[0] == 'e';
  }

  lemma {:induction false} HeldSpinIsLatest(reg: Registry, xs: seq<Event>, h: nat, n: nat)
    requires n <= |xs|
    ensures HeldBy(reg, xs, h, n, SPIN) <==> Latest(reg, xs, h, n, SPIN)
  {
    forall i | 0 <= i < n ensures OpensAt(reg, xs, i, SPIN) <==> Opens(reg, xs[i], SPIN) {
      if YieldsToSpin(xs[i]) { ParkKeyIsNotSpin(xs[i]); }
    }
  }

  /** What `n` events leave open, key by key. */
  ghost predicate Explains(reg: Registry, xs: seq<Event>, n: nat, open: OpenAttention, k: string)
    requires n <= |xs|
  {
    && (k in open ==> exists i :: 0 <= i < n && HeldBy(reg, xs, i, n, k))
    && (forall i :: 0 <= i < n && HeldBy(reg, xs, i, n, k) ==> k in open && open[k] == xs[i])
  }

  lemma {:induction false} OpensOnIsOpensAt(reg: Registry, xs: seq<Event>, n: nat, open: OpenAttention, k: string)
    requires n < |xs| && Explains(reg, xs, n, open, SPIN)
    ensures OpensOn(reg, open, xs[n], k) <==> OpensAt(reg, xs, n, k)
  {
    forall h | 0 <= h < n ensures HeldBy(reg, xs, h, n, SPIN) <==> Latest(reg, xs, h, n, SPIN) {
      HeldSpinIsLatest(reg, xs, h, n);
    }
  }

  lemma {:induction false} ExplainStep(reg: Registry, xs: seq<Event>, n: nat, open: OpenAttention, k: string)
    requires n < |xs| && Explains(reg, xs, n, open, SPIN) && Explains(reg, xs, n, open, k)
    ensures Explains(reg, xs, n + 1, Step(reg, open, xs[n]), k)
  {
    var next := Step(reg, open, xs[n]);
    StepAtKey(reg, open, xs[n], k);
    OpensOnIsOpensAt(reg, xs, n, open, k);
    if OpensAt(reg, xs, n, k) {
      assert HeldBy(reg, xs, n, n + 1, k);
    } else {
      assert !HeldBy(reg, xs, n, n + 1, k);
      forall i | 0 <= i < n
        ensures HeldBy(reg, xs, i, n + 1, k) <==> HeldBy(reg, xs, i, n, k) && !Clears(reg, xs[n], k, xs[i])
      {
      }
      if k in next {
        var i :| 0 <= i < n && HeldBy(reg, xs, i, n, k);
        assert HeldBy(reg, xs, i, n + 1, k);
      }
    }
  }

  lemma {:induction false} FoldExplained(reg: Registry, xs: seq<Event>, n: nat, k: string)
    requires n <= |xs|
    ensures Explains(reg, xs, n, Fold(reg, xs[..n], map[]), k)
  {
    if n == 0 {
    } else {
      FoldExplained(reg, xs, n - 1, k);
      FoldExplained(reg, xs, n - 1, SPIN);
      ExplainStep(reg, xs, n - 1, Fold(reg, xs[..n - 1], map[]), k);
      assert xs[..n] == xs[..n - 1] + [xs[n - 1]];
      FoldConcat(reg, xs[..n - 1], [xs[n - 1]], map[]);
    }
  }

  /** A key is open exactly when some event opened it and no later event reopened or closed it, and
      the row it holds is that event. `xs` is the ledger in id order. */
  lemma {:induction false} OpenExactlyWhen(reg: Registry, xs: seq<Event>, k: string)
    requires Ascending(xs)
    ensures var open := OpenAfter(reg, xs, map[]);
      && (k in open <==> exists i :: 0 <= i < |xs| && HeldBy(reg, xs, i, |xs|, k))
      && (forall i :: 0 <= i < |xs| && HeldBy(reg, xs, i, |xs|, k) ==> open[k] == xs[i])
  {
    SortedIsFixed(xs);
    FoldExplained(reg, xs, |xs|, k);
    assert xs[..|xs|] == xs;
  }

  // ---- worktrees and breaker episodes ----

  /** No issue-wide clear ever removes a retained worktree: such a row goes only when its path is
      released, when a resolution names its key, or when it is reopened. */
  lemma {:induction false} WorktreeSurvivesSweep(reg: Registry, open: OpenAttention, e: Event, k: string)
    requires k in open && Kind(open[k]) == WORKTREE && k == AttentionKey(WORKTREE, open[k].item.payload)
    requires Kind(e) != "escalation-resolved" && Kind(e) != "worktree-released"
    ensures k in Step(reg, open, e)
    ensures Step(reg, open, e)[k] == open[k] || (Step(reg, open, e)[k] == e && Opens(reg, e, k))
  {
    StepAtKey(reg, open, e, k);
    assert k[0] == 'w';
    assert PARK[0] == 'p' && SPIN[0] == 'e';
    if Kind(e) == "park-resumed" {
      assert "rapid-restart-detected"[0] == 'r' && "consecutive-stalls-detected"[0] == 'c'
          && "idle-churn-detected"[0] == 'i';
    }
    assert "emergency-stop"[0] == 'e';
  }

  /** A breaker's own row stands for its episode: no open park row ever names one of the breakers. */
  lemma {:induction false} BreakerParkNeverOpens(reg: Registry, xs: seq<Event>, k: string)
    requires Ascending(xs) && k in OpenAfter(reg, xs, map[])
    ensures var row := OpenAfter(reg, xs, map[])[k];
      Kind(row) == PARK ==> !RepresentedElsewhere(Source(row))
  {
    OpenExactlyWhen(reg, xs, k);
  }

  lemma {:induction false} HeldSpinIsOpenAt(reg: Registry, xs: seq<Event>, h: nat, i: nat)
    requires i < |xs| && HeldBy(reg, xs, h, |xs|, SPIN)
    ensures h < i ==> SpinOpenAt(reg, xs, i)
    ensures h == i ==> !YieldsToSpin(xs[i])
  {
    HeldSpinIsLatest(reg, xs, h, |xs|);
    if h < i { assert Latest(reg, xs, h, i, SPIN); }
    if YieldsToSpin(xs[i]) { ParkKeyIsNotSpin(xs[i]); }
  }

  lemma {:induction false} HeldIsLatest(reg: Registry, xs: seq<Event>, i: nat, k: string)
    requires i < |xs| && Latest(reg, xs, i, |xs|, k)
    ensures HeldBy(reg, xs, i, |xs|, k) <==> OpensAt(reg, xs, i, k)
  {
  }

  lemma {:induction false} HoldsRowIff(reg: Registry, xs: seq<Event>, i: nat, k: string)
    requires Ascending(xs) && i < |xs|
    ensures var open := OpenAfter(reg, xs, map[]);
      (k in open && open[k] == xs[i]) <==> HeldBy(reg, xs, i, |xs|, k)
  {
    hide OpenAfter, HeldBy;
    OpenExactlyWhen(reg, xs, k);
    var open := OpenAfter(reg, xs, map[]);
    if k in open && open[k] == xs[i] {
      var j: nat :| j < |xs| && HeldBy(reg, xs, j, |xs|, k);
      assert xs[j].id == xs[i].id;
    }
  }

  /** Over every ledger that neither closes nor reopens them later: the empty-spin row of event `h` is open, and
      beside it the row of the LLM park `i` exactly when the park came first and found no empty-spin row. */
  lemma {:induction false} LlmEpisodeTwoRowsIff(reg: Registry, xs: seq<Event>, i: nat, h: nat, parkKey: string)
    requires Ascending(xs) && i < |xs| && h < |xs| && YieldsToSpin(xs[i])
    requires Latest(reg, xs, i, |xs|, parkKey) && Latest(reg, xs, h, |xs|, SPIN)
    ensures var open := OpenAfter(reg, xs, map[]);
      && SPIN in open && open[SPIN] == xs[h]
      && ((parkKey in open && open[parkKey] == xs[i]) <==> i < h && !SpinOpenAt(reg, xs, i))
  {
    hide OpenAfter, Ascending;
    HoldsRowIff(reg, xs, i, parkKey);
    HoldsRowIff(reg, xs, h, SPIN);
    HeldIsLatest(reg, xs, i, parkKey);
    HeldSpinIsLatest(reg, xs, h, |xs|);
    HeldSpinIsOpenAt(reg, xs, h, i);
  }

  /** That order does happen, and leaves one park episode holding two rows. */
  lemma {:induction false} SpinAfterParkHoldsTwoRows(reg: Registry, park: Event, spin: Event)
    requires PARK in reg.attention && SPIN in reg.attention && SPIN !in reg.clears
    requires park.id < spin.id
    requires park.item.kind == PARK && park.item.payload == Fields(map["source" := Str("llm")])
    requires spin.item.kind == SPIN && spin.item.payload == Fields(map[])
    ensures OpenAfter(reg, [park, spin], map[]) == map[PARK := park, SPIN := spin]
    ensures OpenAfter(reg, [park, spin.(id := park.id - 1)], map[]) == map[SPIN := spin.(id := park.id - 1)]
  {
    assert PARK[0] == 'p' && SPIN[0] == 'e';
    var early := spin.(id := park.id - 1);
    assert SortById([spin]) == [spin];
    assert [park, spin][1..] == [spin];
    assert SortById([early]) == [early];
    assert SortById([park]) == [park];
    assert InsertById(park, [early]) == [early] + InsertById(park, [early][1..]) == [early, park];
    assert [park, early][1..] == [early];
    StepsOfTwo(reg, park, spin);
    StepsOfTwo(reg, early, park);
  }

  lemma {:induction false} StepsOfTwo(reg: Registry, a: Event, b: Event)
    ensures Fold(reg, [a, b], map[]) == Step(reg, Step(reg, map[], a), b)
  {
    assert [a, b][1..] == [b];
    assert [b][1..] == [];
    assert Fold(reg, [b], Step(reg, map[], a)) == Fold(reg, [], Step(reg, Step(reg, map[], a), b));
  }

  /** `park-resumed` closes a park row exactly when that row was stored without an issue. */
  lemma {:induction false} ParkResumedClosesIff(reg: Registry, open: OpenAttention, e: Event, k: string)
    requires k in open && Kind(open[k]) == PARK && k == AttentionKey(PARK, open[k].item.payload)
    requires Kind(e) == "park-resumed"
    ensures k !in Step(reg, open, e) <==> !Issue(open[k]).Num?
  {
    StepAtKey(reg, open, e, k);
    assert PARK[0] == 'p' && SPIN[0] == 'e';
    assert "rapid-restart-detected"[0] == 'r' && "consecutive-stalls-detected"[0] == 'c'
        && "idle-churn-detected"[0] == 'i';
    assert k[0] == 'p';
  }

  // ---- what a key identifies ----

  predicate Plain(kind: string) { ':' !in kind }

  function FirstColon(s: string): nat {
    if s == [] || s[0] == ':' then 0 else 1 + FirstColon(s[1..])
  }

  lemma {:induction false} FirstColonEndsPlain(a: string, s: string)
    requires Plain(a)
    ensures FirstColon(a + ":" + s) == |a|
  {
    if a == [] {
      assert (a + ":" + s)[0] == ':';
    } else {
      assert a[0] in a;
      assert (a + ":" + s)[1..] == a[1..] + ":" + s;
      FirstColonEndsPlain(a[1..], s);
    }
  }

  lemma {:induction false} PrefixBeforeColon(a: string, b: string, s: string, t: string)
    requires Plain(a) && Plain(b) && a + ":" + s == b + ":" + t
    ensures a == b && s == t
  {
    var x, y := a + ":" + s, b + ":" + t;
    FirstColonEndsPlain(a, s);
    FirstColonEndsPlain(b, t);
    assert a == x[..|a|] && b == y[..|b|];
    assert s == x[|a| + 1..] && t == y[|b| + 1..];
  }

  /** Two events share a row only when they are of one kind and, retained worktrees apart, name the
      same issue or both name none. */
  lemma {:induction false} KeySeparatesIssues(k1: string, p1: Payload, k2: string, p2: Payload)
    requires Plain(k1) && Plain(k2) && k1 != WORKTREE && k2 != WORKTREE
    requires AttentionKey(k1, p1) == AttentionKey(k2, p2)
    ensures k1 == k2
    ensures Get(p1, "issue").Num? || Get(p2, "issue").Num? ==> Get(p1, "issue") == Get(p2, "issue")
  {
    var a, b := AttentionKey(k1, p1), AttentionKey(k2, p2);
    assert Get(p1, "issue").Num? ==> a[|k1|] == ':';
    assert Get(p2, "issue").Num? ==> b[|k2|] == ':';
    if Get(p1, "issue").Num? && Get(p2, "issue").Num? {
      var m, n := Get(p1, "issue").n, Get(p2, "issue").n;
      PrefixBeforeColon(k1, k2, Text.IntText(m), Text.IntText(n));
      Text.IntTextInjective(m, n);
    }
  }

  /** Retained worktrees are told apart by path alone, and never share a row with another kind. */
  lemma {:induction false} KeySeparatesWorktrees(p1: Payload, k2: string, p2: Payload)
    requires Plain(k2) && Plain(WORKTREE) && AttentionKey(WORKTREE, p1) == AttentionKey(k2, p2)
    ensures k2 == WORKTREE
    ensures Get(p1, "worktreePath").Str? ==> Get(p1, "worktreePath") == Get(p2, "worktreePath")
  {
    var a, b := AttentionKey(WORKTREE, p1), AttentionKey(k2, p2);
    assert Get(p1, "worktreePath").Str? ==> a[|WORKTREE|] == ':';
    assert k2 == WORKTREE && Get(p2, "worktreePath").Str? ==> b[|WORKTREE|] == ':';
    assert k2 != WORKTREE && Get(p2, "issue").Num? ==> b[|k2|] == ':';
    if Get(p1, "worktreePath").Str? {
      if k2 == WORKTREE {
        PrefixBeforeColon(WORKTREE, WORKTREE, Get(p1, "worktreePath").s, Get(p2, "worktreePath").s);
      } else {
        PrefixBeforeColon(WORKTREE, k2, Get(p1, "worktreePath").s, Text.IntText(Get(p2, "issue").n));
      }
    }
  }

  // ---- the last event of a ledger, in its own terms ----

  /** The last event acts on what the earlier ones left open. */
  lemma {:induction false} LastStep(reg: Registry, xs: seq<Event>, e: Event)
    requires Ascending(xs + [e])
    ensures OpenAfter(reg, xs + [e], map[]) == Step(reg, OpenAfter(reg, xs, map[]), e)
  {
    assert forall i :: 0 <= i < |xs| ==> (xs + [e])[i] == xs[i];
    SortedIsFixed(xs + [e]);
    SortedIsFixed(xs);
    FoldConcat(reg, xs, [e], map[]);
    assert [e][1..] == [];
    var open := Fold(reg, xs, map[]);
    assert Fold(reg, [e], open) == Fold(reg, [], Step(reg, open, e));
  }

  /** What each receipt closes, over every ledger that ends with it, and that it closes nothing else. */
  lemma {:induction false} ReceiptsClose(reg: Registry, xs: seq<Event>, e: Event)
    requires Ascending(xs + [e])
    ensures var p, open, after := e.item.payload, OpenAfter(reg, xs, map[]), OpenAfter(reg, xs + [e], map[]);
      var source, issue, path := Get(p, "source"), Get(p, "issue"), Get(p, "worktreePath");
      && (e.item.kind == "park-resumed" ==>
            after == (open - {"park-escalated"}
                      - (if source == Str("rapid-restart") then {"rapid-restart-detected"} else {})
                      - (if source == Str("consecutive-stalls") then {"consecutive-stalls-detected"} else {})
                      - (if source == Str("idle-churn") then {"idle-churn-detected"} else {})
                      - (if source == Str("llm") then {"empty-spin-park"} else {})))
      && (e.item.kind == "run-started" ==> after == open - {"emergency-stop"})
      && (e.item.kind == "worktree-released" ==>
            after == if path.Str? then open - {"worktree-retained:" + path.s} else open)
      && (e.item.kind == "escalation-resolved" ==>
            var kind := if source.Str? then source.s else "";
            after == open - {if kind == "worktree-retained" then
                               (if path.Str? then "worktree-retained:" + path.s else "worktree-retained")
                             else if issue.Num? then kind + ":" + Text.IntText(issue.n) else kind})
  {
    LastStep(reg, xs, e);
    hide OpenAfter, Ascending;
    assert WORKTREE + ":" == "worktree-retained:";
  }

  /** What any other event closes and opens, over every ledger that ends with it: it sweeps its issue when its kind
      clears issues, then asks for the row `key`, and a park asks for none that a breaker or an open empty-spin row
      already stands for. */
  lemma {:induction false} EventsSweepAndOpen(reg: Registry, xs: seq<Event>, e: Event, key: string)
    requires Ascending(xs + [e])
    requires e.item.kind !in {"escalation-resolved", "park-resumed", "run-started", "worktree-released"}
    requires var path, issue := Get(e.item.payload, "worktreePath"), Get(e.item.payload, "issue");
      key == (if e.item.kind == "worktree-retained" then
                (if path.Str? then "worktree-retained:" + path.s else "worktree-retained")
              else if issue.Num? then e.item.kind + ":" + Text.IntText(issue.n) else e.item.kind)
    ensures var kind, p, open := e.item.kind, e.item.payload, OpenAfter(reg, xs, map[]);
      var issue, source := Get(p, "issue"), Get(p, "source");
      var kept := map k | k in open
        && !(&& kind in reg.clears && issue.Num? && Get(open[k].item.payload, "issue") == issue
             && open[k].item.kind != "worktree-retained"
             && !(kind == "merged" && open[k].item.kind == "rollback-escalated"
                  && Get(open[k].item.payload, "reason") == Str("merged-board-done"))) :: open[k];
      var asks :=
        || kind in reg.attention
        || ((kind == "reclaim-done" || kind == "reclaim-failed") && Get(p, "next") != Str("DRIVING"))
        || (kind == "resume-capped" && Get(p, "split") != Bool(true));
      var standsAlready := kind == "park-escalated" && source.Str?
        && (|| source.s in {"rapid-restart", "consecutive-stalls", "idle-churn"}
            || source.s in {"constructor", "toString", "toLocaleString", "valueOf", "hasOwnProperty", "isPrototypeOf",
                            "propertyIsEnumerable", "__proto__", "__defineGetter__", "__defineSetter__",
                            "__lookupGetter__", "__lookupSetter__"}
            || (source.s == "llm" && "empty-spin-park" in kept));
      OpenAfter(reg, xs + [e], map[]) == if asks && !standsAlready then kept[key := e] else kept
  {
    LastStep(reg, xs, e);
    hide OpenAfter, Ascending;
    assert WORKTREE + ":" == "worktree-retained:";
    var open := OpenAfter(reg, xs, map[]);
    SweptIs(reg, open, e);
    hide Sweep, SweptMap;
  }

  lemma {:induction false} SweptIs(reg: Registry, open: OpenAttention, e: Event)
    ensures var kind, issue := e.item.kind, Get(e.item.payload, "issue");
      SweptMap(reg, open, e) == map k | k in open
        && !(&& kind in reg.clears && issue.Num? && Get(open[k].item.payload, "issue") == issue
             && open[k].item.kind != "worktree-retained"
             && !(kind == "merged" && open[k].item.kind == "rollback-escalated"
                  && Get(open[k].item.payload, "reason") == Str("merged-board-done"))) :: open[k]
  {
  }

  /** The `i`th event opened the breaker's bare row, and since then neither its park was resumed nor the row
      resolved by name. */
  ghost predicate Unresumed(xs: seq<Event>, i: nat, source: string, row: string) {
    && i < |xs| && xs[i].item.kind == row && !Get(xs[i].item.payload, "issue").Num?
    && forall j :: i < j < |xs| ==>
         && !(xs[j].item.kind == "park-resumed" && Get(xs[j].item.payload, "source") == Str(source))
         && !(xs[j].item.kind == "escalation-resolved" && Get(xs[j].item.payload, "source") == Str(row)
              && !Get(xs[j].item.payload, "issue").Num?)
  }

  lemma {:induction false} BreakerNames(row: string)
    requires row in {"rapid-restart-detected", "consecutive-stalls-detected", "idle-churn-detected"}
    ensures Plain(row) && row[0] in {'r', 'c', 'i'}
    ensures row != PARK && row != SPIN && row != WORKTREE && row != "emergency-stop" && !IsReceipt(row)
  {
    var a, b, c := "rapid-restart-detected", "consecutive-stalls-detected", "idle-churn-detected";
    assert forall k :: 0 <= k < |a| ==> a[k] != ':';
    assert forall k :: 0 <= k < |b| ==> b[k] != ':';
    assert forall k :: 0 <= k < |c| ==> c[k] != ':';
    assert PARK[0] == 'p' && SPIN[0] == 'e' && WORKTREE[0] == 'w' && "emergency-stop"[0] == 'e';
    assert "escalation-resolved"[0] == 'e' && "park-resumed"[0] == 'p' && "worktree-released"[0] == 'w';
    assert "run-started"[1] == 'u' && a[1] == 'a';
  }

  lemma {:induction false} BareKey(kind: string, p: Payload, row: string)
    requires Plain(row) && row != "" && row[0] != 'w'
    ensures AttentionKey(kind, p) == row <==> kind == row && !Get(p, "issue").Num?
  {
    var key := AttentionKey(kind, p);
    assert WORKTREE[0] == 'w';
    if kind != WORKTREE && Get(p, "issue").Num? { assert key[|kind|] == ':'; }
  }

  lemma {:induction false} BreakerRowEvent(reg: Registry, e: Event, row: string, open: Event)
    requires row in {"rapid-restart-detected", "consecutive-stalls-detected", "idle-churn-detected"}
    requires row in reg.attention && !Issue(open).Num?
    ensures Opens(reg, e, row) <==> Kind(e) == row && !Issue(e).Num?
    ensures Clears(reg, e, row, open) <==>
      || (Kind(e) == "escalation-resolved" && Source(e) == row && !Issue(e).Num?)
      || (Kind(e) == "park-resumed" && row in BreakerKey(Source(e)))
  {
    BreakerNames(row);
    BareKey(Kind(e), e.item.payload, row);
    BareKey(Source(e), e.item.payload, row);
    assert WORKTREE[0] == 'w';
  }

  lemma {:induction false} BreakersDiffer(source: string, row: string, s: string)
    requires (source, row) in {("rapid-restart", "rapid-restart-detected"),
                               ("consecutive-stalls", "consecutive-stalls-detected"),
                               ("idle-churn", "idle-churn-detected")}
    ensures row in BreakerKey(s) <==> s == source
    ensures row in {"rapid-restart-detected", "consecutive-stalls-detected", "idle-churn-detected"}
    ensures row != "" && source != ""
  {
    assert "rapid-restart-detected"[0] == 'r' && "consecutive-stalls-detected"[0] == 'c'
        && "idle-churn-detected"[0] == 'i';
    assert "rapid-restart"[0] == 'r' && "consecutive-stalls"[0] == 'c' && "idle-churn"[0] == 'i';
  }

  /** The last of the events that opened the row since then. */
  lemma {:induction false} LastUnresumed(xs: seq<Event>, i: nat, source: string, row: string) returns (h: nat)
    requires Unresumed(xs, i, source, row)
    ensures Unresumed(xs, h, source, row)
    ensures forall j :: h < j < |xs| ==> !(Kind(xs[j]) == row && !Issue(xs[j]).Num?)
    decreases |xs| - i
  {
    h := i;
    if j :| i < j < |xs| && Kind(xs[j]) == row && !Issue(xs[j]).Num? {
      h := LastUnresumed(xs, j, source, row);
    }
  }

  /** Event by event: what the key machine says of the row, in the row's own terms. */
  lemma {:induction false} HeldIffUnresumed(reg: Registry, xs: seq<Event>, i: nat, source: string, row: string)
    requires i < |xs| && row in reg.attention
    requires (source, row) in {("rapid-restart", "rapid-restart-detected"),
                               ("consecutive-stalls", "consecutive-stalls-detected"),
                               ("idle-churn", "idle-churn-detected")}
    ensures HeldBy(reg, xs, i, |xs|, row) <==>
      Unresumed(xs, i, source, row) && forall j :: i < j < |xs| ==> !(Kind(xs[j]) == row && !Issue(xs[j]).Num?)
  {
    BreakersDiffer(source, row, "");
    BreakerNames(row);
    BareKey(Kind(xs[i]), xs[i].item.payload, row);
    if Kind(xs[i]) == row && !Issue(xs[i]).Num? {
      forall j | i <= j < |xs|
        ensures OpensAt(reg, xs, j, row) <==> Kind(xs[j]) == row && !Issue(xs[j]).Num?
        ensures Clears(reg, xs[j], row, xs[i]) <==>
          || (Kind(xs[j]) == "park-resumed" && Get(xs[j].item.payload, "source") == Str(source))
          || (Kind(xs[j]) == "escalation-resolved" && Get(xs[j].item.payload, "source") == Str(row)
              && !Issue(xs[j]).Num?)
      {
        BreakersDiffer(source, row, Source(xs[j]));
        BreakerRowEvent(reg, xs[j], row, xs[i]);
        hide Clears, Opens, SpinOpenAt, BreakerKey;
      }
      hide OpensAt, Clears, Opens;
    }
  }

  /** Over every ledger a breaker's bare row is closed by the resumption of its own park, or by name, and by nothing
      else: no other source's resumption touches it. */
  lemma {:induction false} BreakerRowIsOpenIff(reg: Registry, xs: seq<Event>, source: string, row: string)
    requires Ascending(xs) && row in reg.attention
    requires (source, row) in {("rapid-restart", "rapid-restart-detected"),
                               ("consecutive-stalls", "consecutive-stalls-detected"),
                               ("idle-churn", "idle-churn-detected")}
    ensures var open := OpenAfter(reg, xs, map[]);
      && (row in open <==> exists i :: 0 <= i < |xs| && Unresumed(xs, i, source, row))
      && (row in open ==> open[row].item.kind == row && !Get(open[row].item.payload, "issue").Num?)
  {
    OpenExactlyWhen(reg, xs, row);
    hide OpenAfter, HeldBy, Ascending;
    forall i | 0 <= i < |xs| ensures HeldBy(reg, xs, i, |xs|, row) ==> Unresumed(xs, i, source, row) {
      HeldIffUnresumed(reg, xs, i, source, row);
    }
    if i :| 0 <= i < |xs| && Unresumed(xs, i, source, row) {
      var h := LastUnresumed(xs, i, source, row);
      HeldIffUnresumed(reg, xs, h, source, row);
    }
  }

  // ---- titles ----

  datatype Titles = Titles(issueTitle: Option<string>, prTitle: Option<string>)

  type EntityTitles = map<int, Titles>

  function FirstOf(known: Option<string>, v: Value): Option<string> {
    if known.None? && v.Str? then Some(v.s) else known
  }

  function TitleStep(titles: EntityTitles, e: Event): EntityTitles {
    match Issue(e)
    case Num(n) =>
      var entry := if n in titles then titles[n] else Titles(None, None);
      titles[n := Titles(FirstOf(entry.issueTitle, Get(e.item.payload, "issueTitle")),
                         FirstOf(entry.prTitle, Get(e.item.payload, "prTitle")))]
    case _ => titles
  }

  function FoldTitles(xs: seq<Event>, seed: EntityTitles): EntityTitles {
    if xs == [] then seed else FoldTitles(xs[1..], TitleStep(seed, xs[0]))
  }

  function TitlesAfter(events: seq<Event>, seed: EntityTitles): EntityTitles {
    FoldTitles(SortById(events), seed)
  }

  lemma {:induction false} FoldTitlesConcat(xs: seq<Event>, ys: seq<Event>, seed: EntityTitles)
    ensures FoldTitles(xs + ys, seed) == FoldTitles(ys, FoldTitles(xs, seed))
  {
    if xs == [] {
      assert xs + ys == ys;
    } else {
      assert (xs + ys)[1..] == xs[1..] + ys;
      FoldTitlesConcat(xs[1..], ys, TitleStep(seed, xs[0]));
    }
  }

  lemma {:induction false} TitleFoldIsIncremental(xs: seq<Event>, ys: seq<Event>, seed: EntityTitles)
    requires Below(xs, ys)
    ensures TitlesAfter(xs + ys, seed) == TitlesAfter(ys, TitlesAfter(xs, seed))
  {
    SortConcat(xs, ys);
    FoldTitlesConcat(SortById(xs), SortById(ys), seed);
  }

  lemma {:induction false} TitleFoldIgnoresOrder(xs: seq<Event>, ys: seq<Event>, seed: EntityTitles)
    requires DistinctIds(xs) && DistinctIds(ys) && SameRows(xs, ys)
    ensures TitlesAfter(xs, seed) == TitlesAfter(ys, seed)
  {
    SortIgnoresOrder(xs, ys);
  }

  predicate Bears(e: Event, n: int, field: string) {
    Issue(e) == Num(n) && Get(e.item.payload, field).Str?
  }

  /** Position `i` is the first event of issue `n` that bears `field`. */
  ghost predicate FirstBearer(xs: seq<Event>, i: nat, n: int, field: string) {
    i < |xs| && Bears(xs[i], n, field) && forall j :: 0 <= j < i ==> !Bears(xs[j], n, field)
  }

  /** `title` is the seed's title if it had one, else that of the first bearer, if there is one. */
  ghost predicate FirstWins(xs: seq<Event>, n: int, field: string, seeded: Option<string>, title: Option<string>) {
    if seeded.Some? then title == seeded
    else match title
      case None => forall i :: 0 <= i < |xs| ==> !Bears(xs[i], n, field)
      case Some(t) => exists i: nat :: FirstBearer(xs, i, n, field) && Get(xs[i].item.payload, field) == Str(t)
  }

  function TitleOf(titles: EntityTitles, n: int): Titles {
    if n in titles then titles[n] else Titles(None, None)
  }

  lemma {:induction false} FirstWinsStep(xs: seq<Event>, n: int, field: string, seeded: Option<string>,
                                         title: Option<string>)
    requires xs != []
    requires FirstWins(xs[1..], n, field,
      if Issue(xs[0]) == Num(n) then FirstOf(seeded, Get(xs[0].item.payload, field)) else seeded, title)
    ensures FirstWins(xs, n, field, seeded, title)
  {
    if seeded.None? {
      if Bears(xs[0], n, field) {
        assert FirstBearer(xs, 0, n, field);
      } else if title.Some? {
        var i: nat :| FirstBearer(xs[1..], i, n, field) && Get(xs[1..][i].item.payload, field) == Str(title.value);
        assert FirstBearer(xs, i + 1, n, field);
      } else {
        assert forall i :: 1 <= i < |xs| ==> xs[i] == xs[1..][i - 1];
      }
    }
  }

  /** The remembered title of an issue is that of the first event, in fold order, that bears one;
      a title carried in by the seed is never overwritten. */
  lemma {:induction false} FirstTitleWins(xs: seq<Event>, seed: EntityTitles, n: int)
    ensures var t := FoldTitles(xs, seed);
      && (n in t <==> n in seed || exists i :: 0 <= i < |xs| && Issue(xs[i]) == Num(n))
      && FirstWins(xs, n, "issueTitle", TitleOf(seed, n).issueTitle, TitleOf(t, n).issueTitle)
      && FirstWins(xs, n, "prTitle", TitleOf(seed, n).prTitle, TitleOf(t, n).prTitle)
  {
    if xs == [] {
    } else {
      var next := TitleStep(seed, xs[0]);
      FirstTitleWins(xs[1..], next, n);
      var t := FoldTitles(xs, seed);
      FirstWinsStep(xs, n, "issueTitle", TitleOf(seed, n).issueTitle, TitleOf(t, n).issueTitle);
      FirstWinsStep(xs, n, "prTitle", TitleOf(seed, n).prTitle, TitleOf(t, n).prTitle);
      assert xs == [xs[0]] + xs[1..];
    }
  }

  // ---- the loops ----

  method FoldEntityTitles(events: seq<Event>, seed: EntityTitles) returns (titles: EntityTitles)
    ensures titles == TitlesAfter(events, seed)
  {
    var ordered := SortById(events);
    titles := seed;
    for i := 0 to |ordered|
      invariant FoldTitles(ordered[i..], titles) == FoldTitles(ordered, seed)
    {
      var event := ordered[i];
      ghost var before := titles;
      assert ordered[i..][1..] == ordered[i + 1..];
      var issue := Issue(event);
      if !issue.Num? { continue; }
      if issue.n !in titles {
        titles := titles[issue.n := Titles(None, None)];
      }
      var issueTitle := Get(event.item.payload, "issueTitle");
      if titles[issue.n].issueTitle.None? && issueTitle.Str? {
        titles := titles[issue.n := titles[issue.n].(issueTitle := Some(issueTitle.s))];
      }
      var prTitle := Get(event.item.payload, "prTitle");
      if titles[issue.n].prTitle.None? && prTitle.Str? {
        titles := titles[issue.n := titles[issue.n].(prTitle := Some(prTitle.s))];
      }
      assert titles == TitleStep(before, event);
    }
  }

  /** The issue sweep, entry by entry over a snapshot of the map's keys. */
  method SweepEntries(open: OpenAttention, clearKind: string, n: int) returns (swept: OpenAttention)
    ensures swept == Sweep(open, clearKind, n)
  {
    swept := open;
    var pending := open.Keys;
    while pending != {}
      invariant pending <= open.Keys
      invariant forall k :: k in swept <==> k in open && (k in pending || !SweptBy(clearKind, n, open[k]))
      invariant forall k :: k in swept ==> swept[k] == open[k]
      decreases |pending|
    {
      var key :| key in pending;
      pending := pending - {key};
      if SweptBy(clearKind, n, open[key]) {
        swept := swept - {key};
      }
    }
  }

  method FoldOpenAttention(reg: Registry, events: seq<Event>, seed: OpenAttention) returns (open: OpenAttention)
    ensures open == OpenAfter(reg, events, seed)
  {
    var ordered := SortById(events);
    open := seed;
    for i := 0 to |ordered|
      invariant Fold(reg, ordered[i..], open) == Fold(reg, ordered, seed)
    {
      var event := ordered[i];
      open := FoldEvent(reg, event, open);
      assert ordered[i..][1..] == ordered[i + 1..];
    }
  }

  /** One iteration of the loop, branch by branch. */
  method FoldEvent(reg: Registry, event: Event, before: OpenAttention) returns (open: OpenAttention)
    ensures open == Step(reg, before, event)
  {
    open := before;
    var kind, payload := Kind(event), event.item.payload;
    if kind == "escalation-resolved" {
      open := open - {AttentionKey(Source(event), payload)};
      return;
    }
    if kind == "park-resumed" {
      open := open - {PARK};
      open := open - BreakerKey(Source(event));
      if Source(event) == "llm" { open := open - {SPIN}; }
      return;
    }
    if kind == "run-started" {
      open := open - {"emergency-stop"};
      return;
    }
    if kind == "worktree-released" {
      var path := Get(payload, "worktreePath");
      if path.Str? { open := open - {WorktreeKey(path.s)}; }
      return;
    }
    if kind in reg.clears && Issue(event).Num? {
      open := SweepEntries(open, kind, Issue(event).n);
    }
    if !HasAttention(reg, kind, payload) { return; }
    if kind == PARK {
      open := OpenPark(open, event);
      return;
    }
    open := open[AttentionKey(kind, payload) := event];
  }

  /** The overlay of operator dismissals: it hides occurrences, never keys. */
  function ApplyDismissals(open: seq<Event>, dismissed: set<int>): seq<Event> {
    if open == [] then []
    else (if open[0].id in dismissed then [] else [open[0]]) + ApplyDismissals(open[1..], dismissed)
  }

  lemma {:induction false} OverlayHidesOccurrences(open: seq<Event>, dismissed: set<int>, x: Event)
    ensures x in ApplyDismissals(open, dismissed) <==> x in open && x.id !in dismissed
  {
    if open == [] {
    } else {
      OverlayHidesOccurrences(open[1..], dismissed, x);
      assert open == [open[0]] + open[1..];
    }
  }
}
