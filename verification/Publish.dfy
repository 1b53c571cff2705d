/** The ordered publish: preconditions, then eight steps that reach GitHub, git and npm. Any number of
    clones and publish processes act on one origin in any order, a process may die before or after the
    effect of any step, and HEAD, main and CI move by themselves between steps. */
module Publish {
  import opened Options
  import opened ReleaseVersions

  type Sha = string

  datatype Step =
    WindowsSmoke | GhRelease | Tag | PushTag | NpmPublish | NpmViewVerify | DashboardCanary | CatalogPromote

  const PUBLISH_STEPS: seq<Step> :=
    [WindowsSmoke, GhRelease, Tag, PushTag, NpmPublish, NpmViewVerify, DashboardCanary, CatalogPromote]

  /** What a commit holds: the manifests' versions, the versions its lockfile states (absent when the
      file cannot be read), and the versions its changelog has a section for. */
  datatype Tree = Tree(manifests: seq<string>, lockfile: Option<seq<Option<string>>>, sections: set<string>)

  datatype Draft = Draft(tag: string, target: Sha, prerelease: bool)

  /** One publish process: `done` steps behind it, and the head its smoke step looked at. */
  datatype Process = Process(clone: nat, version: string, commit: Sha, catalog: bool, done: nat, alive: bool,
                             smoked: Option<Sha>)

  datatype Clone = Clone(head: Sha, dirty: bool, tags: map<string, Sha>)

  /** Everything the steps read or write. `dispatched` are the commits that the Windows smoke workflow was
      started on and `smokePassed` those with a run watched to its success; `npmJobs` are the commits whose
      tag-push workflow ended with a successful npm-publish job, `npm` the tags whose version the registry
      serves, and `smokedBy` records for each pushed tag the head that its process had smoked. */
  datatype World = World(
    main: Sha, tags: map<string, Sha>, drafts: set<Draft>,
    dispatched: set<Sha>, smokePassed: set<Sha>, smokedBy: map<string, Sha>,
    npmJobs: set<Sha>, npm: set<string>, canaried: set<string>, promoted: set<string>,
    clones: seq<Clone>, processes: seq<Process>)

  function TagOf(version: string): string { "v" + version }

  // ---- preconditions ----

  datatype Precondition = Ready(version: string, commit: Sha) | Refused

  predicate Lockstep(manifests: seq<string>) {
    manifests != [] && forall i :: 0 <= i < |manifests| ==> manifests[i] == manifests[0]
  }

  predicate LockfileAgrees(lockfile: Option<seq<Option<string>>>, version: string) {
    lockfile.Some? && forall i :: 0 <= i < |lockfile.value| ==> lockfile.value[i] == Some(version)
  }

  predicate TagExists(w: World, clone: Clone, tag: string) { tag in clone.tags || tag in w.tags }

  function CheckPublishPreconditions(trees: Sha -> Tree, w: World, clone: Clone): Precondition {
    var tree := trees(clone.head);
    if clone.head != w.main then Refused
    else if clone.dirty then Refused
    else if !Lockstep(tree.manifests) then Refused
    else if tree.manifests[0] == NEVER_RELEASED then Refused
    else if !LockfileAgrees(tree.lockfile, tree.manifests[0]) then Refused
    else if tree.manifests[0] !in tree.sections then Refused
    else if TagExists(w, clone, TagOf(tree.manifests[0])) then Refused
    else Ready(tree.manifests[0], clone.head)
  }

  // ---- the steps ----

  /** The effect of one step, or nothing when the tool it calls must refuse. The smoke step starts the workflow
      on main but waits for a run of the clone's head: there is one only when main is that head, or was when
      an earlier run was started. */
  function Effect(w: World, p: nat): Option<World>
    requires p < |w.processes| && w.processes[p].done < |PUBLISH_STEPS| && w.processes[p].clone < |w.clones|
  {
    var run := w.processes[p];
    var clone := w.clones[run.clone];
    var tag := TagOf(run.version);
    match PUBLISH_STEPS[run.done]
    case WindowsSmoke =>
      if clone.head != w.main && clone.head !in w.dispatched then None
      else Some(w.(dispatched := w.dispatched + {w.main}, smokePassed := w.smokePassed + {clone.head},
                   processes := w.processes[p := run.(smoked := Some(clone.head))]))
    case GhRelease => Some(w.(drafts := w.drafts + {Draft(tag, run.commit, IsPrerelease(run.version))}))
    case Tag =>
      if tag in clone.tags then None
      else Some(w.(clones := w.clones[run.clone := clone.(tags := clone.tags[tag := run.commit])]))
    case PushTag =>
      if tag !in clone.tags || (tag in w.tags && w.tags[tag] != clone.tags[tag]) then None
      else if tag in w.tags then Some(w)
      else Some(w.(tags := w.tags[tag := clone.tags[tag]],
                   smokedBy := if run.smoked.Some? then w.smokedBy[tag := run.smoked.value] else w.smokedBy))
    case NpmPublish => if run.commit in w.npmJobs then Some(w) else None
    case NpmViewVerify => if run.catalog && tag !in w.npm then None else Some(w)
    case DashboardCanary => Some(w.(canaried := w.canaried + {tag}))
    case CatalogPromote => Some(if run.catalog then w.(promoted := w.promoted + {tag}) else w)
  }

  datatype Fate = Completes | DiesBefore | DiesAfter

  datatype Action =
    | Begin(clone: nat, catalog: bool)
    | Perform(process: nat, fate: Fate)
    | Checkout(clone: nat, head: Sha, dirty: bool)
    | FetchTags(clone: nat)
    | Merge(main: Sha)
    | DispatchSmoke
    | CiPublishes(tag: string)

  function Advance(w: World, p: nat): World
    requires p < |w.processes|
  {
    w.(processes := w.processes[p := w.processes[p].(done := w.processes[p].done + 1)])
  }

  function Die(w: World, p: nat): World
    requires p < |w.processes|
  {
    w.(processes := w.processes[p := w.processes[p].(alive := false)])
  }

  predicate CanPerform(w: World, p: nat) {
    && p < |w.processes| && w.processes[p].alive && w.processes[p].done < |PUBLISH_STEPS|
    && w.processes[p].clone < |w.clones|
  }

  function PerformStep(w: World, p: nat, fate: Fate): World
    requires CanPerform(w, p)
  {
    var after := Effect(w, p);
    if fate.DiesBefore? || after.None? then Die(w, p)
    else if fate.DiesAfter? then Die(after.value, p)
    else Advance(after.value, p)
  }

  function Next(trees: Sha -> Tree, w: World, a: Action): World {
    match a
    case Begin(c, catalog) =>
      if c >= |w.clones| then w
      else (
        match CheckPublishPreconditions(trees, w, w.clones[c])
        case Refused => w
        case Ready(version, commit) =>
          w.(processes := w.processes + [Process(c, version, commit, catalog, 0, true, None)])
      )
    case Perform(p, fate) => if CanPerform(w, p) then PerformStep(w, p, fate) else w
    case Checkout(c, head, dirty) =>
      if c >= |w.clones| then w else w.(clones := w.clones[c := w.clones[c].(head := head, dirty := dirty)])
    case FetchTags(c) =>
      if c >= |w.clones| then w else w.(clones := w.clones[c := w.clones[c].(tags := w.tags + w.clones[c].tags)])
    case Merge(main) => w.(main := main)
    case DispatchSmoke => w.(dispatched := w.dispatched + {w.main})
    case CiPublishes(tag) =>
      if tag in w.tags then w.(npmJobs := w.npmJobs + {w.tags[tag]}, npm := w.npm + {tag}) else w
  }

  ghost predicate Moves(trees: Sha -> Tree, w: World, x: World) { exists a :: x == Next(trees, w, a) }

  /** The worlds one after the other, each reached from the one before by some action. */
  ghost predicate Run(trees: Sha -> Tree, ws: seq<World>) {
    ws != [] && forall i :: 0 <= i < |ws| - 1 ==> Moves(trees, ws[i], ws[i + 1])
  }

  /** No release yet, no process yet; main, the clones' heads and their number are arbitrary. */
  ghost predicate Fresh(w: World) {
    && w.tags == map[] && w.drafts == {} && w.dispatched == {} && w.smokePassed == {} && w.smokedBy == map[]
    && w.npmJobs == {} && w.npm == {} && w.canaried == {} && w.promoted == {} && w.processes == []
    && forall c :: 0 <= c < |w.clones| ==> w.clones[c].tags == map[]
  }

  /** What goes on around the publishes: heads, tags and main move, smoke runs are started, CI answers pushed tags. */
  lemma {:induction false} AroundThem(trees: Sha -> Tree, w: World, c: nat, head: Sha, dirty: bool, tag: string)
    requires c < |w.clones|
    ensures Next(trees, w, Merge(head)) == w.(main := head)
    ensures Next(trees, w, DispatchSmoke).dispatched == w.dispatched + {w.main}
    ensures var x := Next(trees, w, Checkout(c, head, dirty));
      x == w.(clones := x.clones) && x.clones == w.clones[c := Clone(head, dirty, w.clones[c].tags)]
    ensures var x := Next(trees, w, FetchTags(c));
      && x == w.(clones := x.clones) && |x.clones| == |w.clones|
      && x.clones[c].tags.Keys == w.tags.Keys + w.clones[c].tags.Keys
      && (forall t :: t in w.clones[c].tags ==> x.clones[c].tags[t] == w.clones[c].tags[t])
      && forall t :: t in w.tags && t !in w.clones[c].tags ==> x.clones[c].tags[t] == w.tags[t]
    ensures var x := Next(trees, w, CiPublishes(tag));
      if tag in w.tags then x.npmJobs == w.npmJobs + {w.tags[tag]} && x.npm == w.npm + {tag} else x == w
  {
  }

  // ---- what every step keeps ----

  /** How far a process is tells what the world already holds for its tag. */
  ghost predicate Backed(w: World, run: Process) {
    var tag := TagOf(run.version);
    && run.clone < |w.clones| && run.done <= |PUBLISH_STEPS|
    && (run.smoked.Some? ==> run.smoked.value in w.smokePassed)
    && (run.done >= 1 ==> run.smoked.Some?)
    && (run.done >= 2 ==> Draft(tag, run.commit, IsPrerelease(run.version)) in w.drafts)
    && (run.done >= 3 ==> tag in w.clones[run.clone].tags && w.clones[run.clone].tags[tag] == run.commit)
    && (run.done >= 4 ==> tag in w.tags && w.tags[tag] == run.commit)
    && (run.done >= 5 ==> run.commit in w.npmJobs)
    && (run.done >= 6 && run.catalog ==> tag in w.npm)
    && (run.done >= 7 ==> tag in w.canaried)
    && (run.done >= 8 && run.catalog ==> tag in w.promoted)
  }

  /** A pushed tag has a draft aimed at the tagged commit, and its process saw a smoke run pass. */
  ghost predicate Released(w: World, tag: string) {
    && tag in w.tags
    && (exists prerelease :: Draft(tag, w.tags[tag], prerelease) in w.drafts)
    && tag in w.smokedBy && w.smokedBy[tag] in w.smokePassed
  }

  ghost predicate Inv(w: World) {
    && (forall p :: 0 <= p < |w.processes| ==> Backed(w, w.processes[p]))
    && (forall tag :: tag in w.tags ==> Released(w, tag))
    && (forall tag :: tag in w.canaried ==> tag in w.tags && w.tags[tag] in w.npmJobs)
    && (forall tag :: tag in w.promoted ==> tag in w.tags && w.tags[tag] in w.npmJobs && tag in w.npm)
  }

  /** Nothing that was recorded is ever taken back or changed. */
  ghost predicate Grows(w: World, x: World) {
    && (forall tag :: tag in w.tags ==> tag in x.tags && x.tags[tag] == w.tags[tag])
    && (forall tag :: tag in w.smokedBy ==> tag in x.smokedBy)
    && (forall tag :: tag in w.tags && tag in w.smokedBy ==> x.smokedBy[tag] == w.smokedBy[tag])
    && w.drafts <= x.drafts && w.smokePassed <= x.smokePassed && w.npmJobs <= x.npmJobs && w.npm <= x.npm
    && w.canaried <= x.canaried && w.promoted <= x.promoted
    && |x.clones| == |w.clones|
    && (forall c, tag :: 0 <= c < |w.clones| && tag in w.clones[c].tags
         ==> tag in x.clones[c].tags && x.clones[c].tags[tag] == w.clones[c].tags[tag])
  }

  lemma {:induction false} EffectGrows(w: World, p: nat)
    requires CanPerform(w, p) && Effect(w, p).Some?
    ensures Grows(w, Effect(w, p).value)
  {
    var run := w.processes[p];
    assert PUBLISH_STEPS[run.done] in PUBLISH_STEPS;
  }

  lemma {:induction false} NextGrows(trees: Sha -> Tree, w: World, a: Action)
    ensures Grows(w, Next(trees, w, a))
  {
    if a.Perform? && CanPerform(w, a.process) && Effect(w, a.process).Some? {
      EffectGrows(w, a.process);
    }
  }

  lemma {:induction false} BackedGrows(w: World, x: World, run: Process)
    requires Backed(w, run) && Grows(w, x)
    ensures Backed(x, run)
  {
  }

  lemma {:induction false} ReleasedGrows(w: World, x: World, tag: string)
    requires Released(w, tag) && Grows(w, x)
    ensures Released(x, tag)
  {
    var prerelease :| Draft(tag, w.tags[tag], prerelease) in w.drafts;
    assert Draft(tag, x.tags[tag], prerelease) in x.drafts;
  }

  /** The process that took a step is one step further, and the world holds what that says. */
  lemma {:induction false} EffectBacks(w: World, p: nat)
    requires CanPerform(w, p) && Effect(w, p).Some? && Backed(w, w.processes[p])
    ensures var x := Effect(w, p).value;
            |x.processes| == |w.processes| && Backed(x, x.processes[p].(done := x.processes[p].done + 1))
    ensures forall q :: 0 <= q < |w.processes| && q != p ==> Effect(w, p).value.processes[q] == w.processes[q]
  {
    var run := w.processes[p];
    EffectGrows(w, p);
    BackedGrows(w, Effect(w, p).value, run);
  }

  lemma {:induction false} BackedStays(w: World, p: nat)
    requires CanPerform(w, p) && Effect(w, p).Some? && Backed(w, w.processes[p])
    ensures Backed(Effect(w, p).value, Effect(w, p).value.processes[p])
  {
    EffectBacks(w, p);
    EffectGrows(w, p);
    BackedGrows(w, Effect(w, p).value, w.processes[p]);
  }

  lemma {:induction false} EffectReleases(w: World, p: nat, tag: string)
    requires CanPerform(w, p) && Effect(w, p).Some? && Inv(w) && tag in Effect(w, p).value.tags
    ensures Released(Effect(w, p).value, tag)
  {
    var run := w.processes[p];
    EffectGrows(w, p);
    if tag in w.tags {
      ReleasedGrows(w, Effect(w, p).value, tag);
    } else {
      assert Backed(w, run);
      assert Draft(tag, run.commit, IsPrerelease(run.version)) in w.drafts;
    }
  }

  lemma {:induction false} EffectMarks(w: World, p: nat, tag: string)
    requires CanPerform(w, p) && Effect(w, p).Some? && Inv(w)
    ensures var x := Effect(w, p).value;
            && (tag in x.canaried ==> tag in x.tags && x.tags[tag] in x.npmJobs)
            && (tag in x.promoted ==> tag in x.tags && x.tags[tag] in x.npmJobs && tag in x.npm)
  {
    EffectGrows(w, p);
    assert Backed(w, w.processes[p]);
  }

  lemma {:induction false} PerformKeepsInv(w: World, p: nat, fate: Fate)
    requires CanPerform(w, p) && Inv(w)
    ensures Inv(PerformStep(w, p, fate))
  {
    var x := PerformStep(w, p, fate);
    var after := Effect(w, p);
    if fate.DiesBefore? || after.None? {
      forall q | 0 <= q < |x.processes| ensures Backed(x, x.processes[q]) {
        assert Backed(w, w.processes[q]);
      }
      forall tag | tag in x.tags ensures Released(x, tag) { ReleasedGrows(w, x, tag); }
    } else {
      assert Backed(w, w.processes[p]);
      EffectBacks(w, p);
      BackedStays(w, p);
      EffectGrows(w, p);
      forall q | 0 <= q < |x.processes| ensures Backed(x, x.processes[q]) {
        assert Backed(w, w.processes[q]);
        if q != p { BackedGrows(w, after.value, w.processes[q]); }
        BackedGrows(after.value, x, after.value.processes[q]);
      }
      forall tag | tag in x.tags ensures Released(x, tag) {
        EffectReleases(w, p, tag);
        ReleasedGrows(after.value, x, tag);
      }
      forall tag ensures tag in x.canaried ==> tag in x.tags && x.tags[tag] in x.npmJobs { EffectMarks(w, p, tag); }
      forall tag ensures tag in x.promoted ==> tag in x.tags && x.tags[tag] in x.npmJobs && tag in x.npm {
        EffectMarks(w, p, tag);
      }
    }
  }

  lemma {:induction false} NextKeepsInv(trees: Sha -> Tree, w: World, a: Action)
    requires Inv(w)
    ensures Inv(Next(trees, w, a))
  {
    var x := Next(trees, w, a);
    if a.Perform? {
      if CanPerform(w, a.process) { PerformKeepsInv(w, a.process, a.fate); }
    } else {
      NextGrows(trees, w, a);
      forall q | 0 <= q < |x.processes| ensures Backed(x, x.processes[q]) {
        if q < |w.processes| { BackedGrows(w, x, w.processes[q]); }
      }
      forall tag | tag in x.tags ensures Released(x, tag) { ReleasedGrows(w, x, tag); }
    }
  }

  lemma {:induction false} RunKeepsInv(trees: Sha -> Tree, ws: seq<World>, i: nat)
    requires Run(trees, ws) && Inv(ws[0]) && i < |ws|
    ensures Inv(ws[i])
  {
    hide Inv, Next;
    if i > 0 {
      RunKeepsInv(trees, ws, i - 1);
      assert Moves(trees, ws[i - 1], ws[i - 1 + 1]);
      var a :| ws[i] == Next(trees, ws[i - 1], a);
      NextKeepsInv(trees, ws[i - 1], a);
    }
  }

  lemma {:induction false} RunGrows(trees: Sha -> Tree, ws: seq<World>, i: nat, j: nat)
    requires Run(trees, ws) && i <= j < |ws|
    ensures Grows(ws[i], ws[j])
    decreases j - i
  {
    hide Next;
    if i < j {
      RunGrows(trees, ws, i, j - 1);
      assert Moves(trees, ws[j - 1], ws[j - 1 + 1]);
      var a :| ws[j] == Next(trees, ws[j - 1], a);
      NextGrows(trees, ws[j - 1], a);
    }
  }

  // ---- over whole runs ----

  /** Whatever died, moved or ran beside it: a pushed tag has a draft whose target is the tagged commit and
      a passed smoke run behind it, and a promoted one was published by CI from that same commit. */
  lemma {:induction false} PushedTagIsBacked(trees: Sha -> Tree, ws: seq<World>, i: nat, tag: string)
    requires Run(trees, ws) && Fresh(ws[0]) && i < |ws|
    ensures tag in ws[i].tags ==>
      && (exists prerelease :: Draft(tag, ws[i].tags[tag], prerelease) in ws[i].drafts)
      && tag in ws[i].smokedBy && ws[i].smokedBy[tag] in ws[i].smokePassed
    ensures tag in ws[i].promoted ==> tag in ws[i].tags && ws[i].tags[tag] in ws[i].npmJobs && tag in ws[i].npm
  {
    RunKeepsInv(trees, ws, i);
    if tag in ws[i].tags { assert Released(ws[i], tag); }
  }

  /** A pushed tag stays, at the commit it was pushed with, whatever happens later. */
  lemma {:induction false} PushedTagNeverMoves(trees: Sha -> Tree, ws: seq<World>, i: nat, j: nat, tag: string)
    requires Run(trees, ws) && i <= j < |ws| && tag in ws[i].tags
    ensures tag in ws[j].tags && ws[j].tags[tag] == ws[i].tags[tag]
  {
    RunGrows(trees, ws, i, j);
  }

  predicate SamePublish(a: Process, b: Process) {
    a.clone == b.clone && a.version == b.version && a.commit == b.commit && a.catalog == b.catalog
  }

  /** An effect leaves who is publishing what, and every head. */
  lemma {:induction false} EffectShape(w: World, p: nat)
    requires CanPerform(w, p) && Effect(w, p).Some?
    ensures var x := Effect(w, p).value;
            && |x.processes| == |w.processes| && |x.clones| == |w.clones|
            && x.processes[p] == w.processes[p].(smoked := x.processes[p].smoked)
            && (w.processes[p].done > 0 ==> x.processes[p].smoked == w.processes[p].smoked)
            && (w.processes[p].done == 0 ==>
                  x.processes[p].smoked == Some(w.clones[w.processes[p].clone].head) && x.tags == w.tags)
    ensures forall q :: 0 <= q < |w.processes| && q != p ==> Effect(w, p).value.processes[q] == w.processes[q]
    ensures forall c :: 0 <= c < |w.clones| ==> Effect(w, p).value.clones[c].head == w.clones[c].head
  {
  }

  lemma {:induction false} PerformShape(w: World, p: nat, fate: Fate)
    requires CanPerform(w, p)
    ensures var x := PerformStep(w, p, fate);
            && |x.processes| == |w.processes| && |x.clones| == |w.clones| && SamePublish(x.processes[p], w.processes[p])
            && x.processes[p].done == w.processes[p].done + (if x.processes[p].alive then 1 else 0)
    ensures forall q :: 0 <= q < |w.processes| && q != p ==> PerformStep(w, p, fate).processes[q] == w.processes[q]
    ensures forall c :: 0 <= c < |w.clones| ==> PerformStep(w, p, fate).clones[c].head == w.clones[c].head
    ensures w.processes[p].done > 0 ==> PerformStep(w, p, fate).processes[p].smoked == w.processes[p].smoked
    ensures w.processes[p].done == 0 ==>
      (var smoked := PerformStep(w, p, fate).processes[p].smoked;
       smoked == w.processes[p].smoked || smoked == Some(w.clones[w.processes[p].clone].head))
  {
    if Effect(w, p).Some? { EffectShape(w, p); }
  }

  lemma {:induction false} NextShape(trees: Sha -> Tree, w: World, a: Action, p: nat)
    requires p < |w.processes|
    ensures p < |Next(trees, w, a).processes| && SamePublish(Next(trees, w, a).processes[p], w.processes[p])
  {
    if a.Perform? && CanPerform(w, a.process) { PerformShape(w, a.process, a.fate); }
  }

  /** Only a passed precondition check brings a process into being. */
  lemma {:induction false} NextAdds(trees: Sha -> Tree, w: World, a: Action, p: nat)
    requires |w.processes| <= p < |Next(trees, w, a).processes|
    ensures var run := Next(trees, w, a).processes[p];
            run.clone < |w.clones| && !TagExists(w, w.clones[run.clone], TagOf(run.version))
  {
    if a.Perform? && CanPerform(w, a.process) { PerformShape(w, a.process, a.fate); }
  }

  lemma {:induction false} GrowsKeepsTag(w: World, x: World, c: nat, tag: string)
    requires c < |w.clones| && TagExists(w, w.clones[c], tag) && Grows(w, x)
    ensures c < |x.clones| && TagExists(x, x.clones[c], tag)
  {
  }

  /** Once the tag exists on origin or in the clone, no publish of that version ever starts there again,
      so it performs no step: every process that joins later in that clone is for another version. */
  lemma {:induction false} TaggedVersionPerformsNothing(trees: Sha -> Tree, ws: seq<World>, i: nat, j: nat, c: nat,
                                                        tag: string, p: nat)
    requires Run(trees, ws) && i <= j < |ws|
    requires c < |ws[i].clones| && TagExists(ws[i], ws[i].clones[c], tag)
    requires |ws[i].processes| <= p < |ws[j].processes| && ws[j].processes[p].clone == c
    ensures TagOf(ws[j].processes[p].version) != tag
    decreases j - i
  {
    hide Next, Grows, TagExists;
    if i < j {
      assert Moves(trees, ws[j - 1], ws[j - 1 + 1]);
      var a :| ws[j] == Next(trees, ws[j - 1], a);
      if p < |ws[j - 1].processes| {
        NextShape(trees, ws[j - 1], a, p);
        TaggedVersionPerformsNothing(trees, ws, i, j - 1, c, tag, p);
      } else {
        RunGrows(trees, ws, i, j - 1);
        GrowsKeepsTag(ws[i], ws[j - 1], c, tag);
        NextAdds(trees, ws[j - 1], a, p);
      }
    }
  }

  // ---- what a process starts from ----

  /** A publish of `version` at `commit` may start in the clone: it is clean and at main, the commit's manifests and
      lockfile all state the version, which is not 0.0.0, its changelog has the section, and no tag of it stands. */
  ghost predicate MayPublish(trees: Sha -> Tree, w: World, clone: Clone, version: string, commit: Sha) {
    && clone.head == commit && w.main == commit && !clone.dirty
    && var tree := trees(commit);
       && tree.manifests != [] && (forall i :: 0 <= i < |tree.manifests| ==> tree.manifests[i] == version)
       && version != "0.0.0"
       && tree.lockfile.Some?
       && (forall i :: 0 <= i < |tree.lockfile.value| ==> tree.lockfile.value[i] == Some(version))
       && version in tree.sections
       && "v" + version !in clone.tags && "v" + version !in w.tags
  }

  lemma {:induction false} ReadyIff(trees: Sha -> Tree, w: World, clone: Clone, version: string, commit: Sha)
    ensures CheckPublishPreconditions(trees, w, clone) == Ready(version, commit)
        <==> MayPublish(trees, w, clone, version, commit)
  {
  }

  lemma {:induction false} RefusedIff(trees: Sha -> Tree, w: World, clone: Clone)
    ensures CheckPublishPreconditions(trees, w, clone).Refused?
        <==> forall version, commit :: !MayPublish(trees, w, clone, version, commit)
  {
    hide CheckPublishPreconditions, MayPublish;
    var pre := CheckPublishPreconditions(trees, w, clone);
    forall version, commit ensures pre == Ready(version, commit) <==> MayPublish(trees, w, clone, version, commit) {
      ReadyIff(trees, w, clone, version, commit);
    }
    if pre.Ready? { assert MayPublish(trees, w, clone, pre.version, pre.commit); }
  }

  /** A publish begun in such a world joins as a new process with no step behind it; one begun in any other changes
      nothing. */
  lemma {:induction false} BeginIff(trees: Sha -> Tree, w: World, c: nat, catalog: bool, version: string, commit: Sha)
    requires c < |w.clones|
    ensures MayPublish(trees, w, w.clones[c], version, commit) <==>
      Next(trees, w, Begin(c, catalog))
        == w.(processes := w.processes + [Process(c, version, commit, catalog, 0, true, None)])
    ensures (forall v, sha :: !MayPublish(trees, w, w.clones[c], v, sha)) ==> Next(trees, w, Begin(c, catalog)) == w
  {
    ReadyIff(trees, w, w.clones[c], version, commit);
    RefusedIff(trees, w, w.clones[c]);
    hide CheckPublishPreconditions, MayPublish;
    match CheckPublishPreconditions(trees, w, w.clones[c])
    case Refused =>
      assert |w.processes + [Process(c, version, commit, catalog, 0, true, None)]| == |w.processes| + 1;
    case Ready(v, sha) =>
      var x := w.processes + [Process(c, v, sha, catalog, 0, true, None)];
      assert x[|w.processes|] == Process(c, v, sha, catalog, 0, true, None);
  }

  lemma {:induction false} NextBegins(trees: Sha -> Tree, w: World, a: Action, p: nat)
    requires |w.processes| <= p < |Next(trees, w, a).processes|
    ensures var run := Next(trees, w, a).processes[p];
      p == |w.processes| && run.clone < |w.clones|
      && MayPublish(trees, w, w.clones[run.clone], run.version, run.commit)
  {
    if a.Perform? && CanPerform(w, a.process) { PerformShape(w, a.process, a.fate); }
    hide PerformStep, CanPerform, MayPublish, CheckPublishPreconditions;
    var run := Next(trees, w, a).processes[p];
    if run.clone < |w.clones| { ReadyIff(trees, w, w.clones[run.clone], run.version, run.commit); }
  }

  /** Over every run: each process began in an earlier world, as the next one in line, in which its clone met all of
      the preconditions at the very version and commit it goes on to publish. */
  lemma {:induction false} EveryProcessBegan(trees: Sha -> Tree, ws: seq<World>, i: nat, p: nat) returns (k: nat)
    requires Run(trees, ws) && Fresh(ws[0]) && i < |ws| && p < |ws[i].processes|
    ensures k < i && p == |ws[k].processes|
    ensures var run := ws[i].processes[p];
      run.clone < |ws[k].clones| && MayPublish(trees, ws[k], ws[k].clones[run.clone], run.version, run.commit)
  {
    hide Next, MayPublish;
    assert i > 0;
    assert Moves(trees, ws[i - 1], ws[i - 1 + 1]);
    var a :| ws[i] == Next(trees, ws[i - 1], a);
    if p < |ws[i - 1].processes| {
      k := EveryProcessBegan(trees, ws, i - 1, p);
      NextShape(trees, ws[i - 1], a, p);
    } else {
      NextBegins(trees, ws[i - 1], a, p);
      k := i - 1;
    }
  }

  // ---- which commit the smoke run looked at ----

  /** Process `p` performs `step` from one world to the next, and its effect takes place. */
  ghost predicate Performs(w: World, x: World, p: nat, step: Step) {
    && CanPerform(w, p) && PUBLISH_STEPS[w.processes[p].done] == step && Effect(w, p).Some?
    && (x == PerformStep(w, p, Completes) || x == PerformStep(w, p, DiesAfter))
  }

  /** Process `p` pushes the tag of its version, which origin did not have. */
  ghost predicate Pushes(w: World, x: World, p: nat, tag: string) {
    Performs(w, x, p, PushTag) && tag == TagOf(w.processes[p].version) && tag !in w.tags
  }

  /** A process that has smoked never smokes again: it is past that step or dead. */
  predicate PastSmoke(run: Process) { run.smoked.Some? && (run.done > 0 || !run.alive) }

  lemma {:induction false} SmokeSets(w: World, x: World, p: nat)
    requires Performs(w, x, p, WindowsSmoke)
    ensures p < |x.processes| && PastSmoke(x.processes[p]) && w.processes[p].done == 0
    ensures x.processes[p].smoked == Some(w.clones[w.processes[p].clone].head)
    ensures SamePublish(x.processes[p], w.processes[p])
  {
    assert w.processes[p].done == 0 by {
      assert forall k :: 0 < k < |PUBLISH_STEPS| ==> PUBLISH_STEPS[k] != WindowsSmoke;
    }
    EffectShape(w, p);
  }

  lemma {:induction false} NextKeepsSmoked(trees: Sha -> Tree, w: World, a: Action, p: nat)
    requires p < |w.processes| && PastSmoke(w.processes[p])
    ensures p < |Next(trees, w, a).processes| && PastSmoke(Next(trees, w, a).processes[p])
    ensures Next(trees, w, a).processes[p].smoked == w.processes[p].smoked
  {
    NextShape(trees, w, a, p);
    if a.Perform? && CanPerform(w, a.process) { PerformShape(w, a.process, a.fate); }
  }

  lemma {:induction false} SmokedStays(trees: Sha -> Tree, ws: seq<World>, i: nat, j: nat, p: nat)
    requires Run(trees, ws) && i <= j < |ws| && p < |ws[i].processes| && PastSmoke(ws[i].processes[p])
    ensures p < |ws[j].processes| && SamePublish(ws[j].processes[p], ws[i].processes[p])
    ensures PastSmoke(ws[j].processes[p]) && ws[j].processes[p].smoked == ws[i].processes[p].smoked
    decreases j - i
  {
    hide Next, PastSmoke;
    if i < j {
      SmokedStays(trees, ws, i, j - 1, p);
      assert Moves(trees, ws[j - 1], ws[j - 1 + 1]);
      var a :| ws[j] == Next(trees, ws[j - 1], a);
      NextShape(trees, ws[j - 1], a, p);
      NextKeepsSmoked(trees, ws[j - 1], a, p);
    }
  }

  lemma {:induction false} PushRecords(w: World, x: World, p: nat, tag: string)
    requires Pushes(w, x, p, tag) && Backed(w, w.processes[p])
    ensures w.processes[p].smoked.Some?
    ensures tag in x.tags && x.tags[tag] == w.processes[p].commit
    ensures tag in x.smokedBy && x.smokedBy[tag] == w.processes[p].smoked.value
  {
    assert w.processes[p].done == 3 by {
      assert forall k :: 0 <= k < |PUBLISH_STEPS| && PUBLISH_STEPS[k] == PushTag ==> k == 3;
    }
  }

  /** Over every run: a pushed tag is on the very commit that its process had smoked exactly when the smoke step
      of that process found the clone's head still at the commit pinned by the preconditions. */
  lemma {:induction false} SmokeIsOfPinnedCommitIff(trees: Sha -> Tree, ws: seq<World>, k: nat, j: nat, i: nat,
                                                    p: nat, tag: string)
    requires Run(trees, ws) && Fresh(ws[0]) && k < j < i < |ws|
    requires Performs(ws[k], ws[k + 1], p, WindowsSmoke) && Pushes(ws[j], ws[j + 1], p, tag)
    ensures tag in ws[i].tags && tag in ws[i].smokedBy
    ensures ws[i].smokedBy[tag] == ws[i].tags[tag]
      <==> ws[k].clones[ws[k].processes[p].clone].head == ws[k].processes[p].commit
  {
    hide Next, Performs, Effect;
    SmokeSets(ws[k], ws[k + 1], p);
    SmokedStays(trees, ws, k + 1, j, p);
    RunKeepsInv(trees, ws, j);
    PushRecords(ws[j], ws[j + 1], p, tag);
    RunGrows(trees, ws, j + 1, i);
  }

  lemma {:induction false} NextTags(trees: Sha -> Tree, w: World, a: Action, tag: string)
    requires Inv(w) && tag in Next(trees, w, a).tags && tag !in w.tags
    ensures a.Perform? && Pushes(w, Next(trees, w, a), a.process, tag)
  {
    assert a.Perform? && CanPerform(w, a.process);
    var p := a.process;
    assert Effect(w, p).Some? && a.fate != DiesBefore;
    assert Backed(w, w.processes[p]);
  }

  lemma {:induction false} PerformSmokes(w: World, p: nat, fate: Fate)
    requires CanPerform(w, p)
    ensures p < |PerformStep(w, p, fate).processes|
    ensures PerformStep(w, p, fate).processes[p].smoked != w.processes[p].smoked
      ==> Performs(w, PerformStep(w, p, fate), p, WindowsSmoke)
  {
  }

  lemma {:induction false} NextSmokes(trees: Sha -> Tree, w: World, a: Action, p: nat)
    requires p < |Next(trees, w, a).processes| && Next(trees, w, a).processes[p].smoked.Some?
    requires p < |w.processes| ==> w.processes[p].smoked.None?
    ensures p < |w.processes| && Performs(w, Next(trees, w, a), p, WindowsSmoke)
  {
    if a.Perform? {
      NextPerforms(trees, w, a);
      hide Next;
      if CanPerform(w, a.process) {
        PerformShape(w, a.process, a.fate);
        PerformSmokes(w, a.process, a.fate);
      }
    } else {
      hide PerformStep;
    }
  }

  /** A process that has smoked did so at some earlier world of the run. */
  lemma {:induction false} SmokedOnce(trees: Sha -> Tree, ws: seq<World>, i: nat, p: nat) returns (k: nat)
    requires Run(trees, ws) && Fresh(ws[0]) && i < |ws|
    requires p < |ws[i].processes| && ws[i].processes[p].smoked.Some?
    ensures k < i && Performs(ws[k], ws[k + 1], p, WindowsSmoke)
    decreases i
  {
    hide Next, Performs;
    assert i > 0;
    assert Moves(trees, ws[i - 1], ws[i - 1 + 1]);
    var a :| ws[i] == Next(trees, ws[i - 1], a);
    if p < |ws[i - 1].processes| && ws[i - 1].processes[p].smoked.Some? {
      k := SmokedOnce(trees, ws, i - 1, p);
    } else {
      NextSmokes(trees, ws[i - 1], a, p);
      k := i - 1;
    }
  }

  /** Every tag on origin was pushed by a process of the run, after that process had smoked. */
  lemma {:induction false} EveryTagWasPushed(trees: Sha -> Tree, ws: seq<World>, i: nat, tag: string)
    returns (k: nat, j: nat, p: nat)
    requires Run(trees, ws) && Fresh(ws[0]) && i < |ws| && tag in ws[i].tags
    ensures k < j < i && Performs(ws[k], ws[k + 1], p, WindowsSmoke) && Pushes(ws[j], ws[j + 1], p, tag)
    decreases i
  {
    hide Next, Performs, Inv;
    assert i > 0;
    assert Moves(trees, ws[i - 1], ws[i - 1 + 1]);
    var a :| ws[i] == Next(trees, ws[i - 1], a);
    if tag in ws[i - 1].tags {
      k, j, p := EveryTagWasPushed(trees, ws, i - 1, tag);
    } else {
      FreshIsInv(ws[0]);
      RunKeepsInv(trees, ws, i - 1);
      NextTags(trees, ws[i - 1], a, tag);
      j, p := i - 1, a.process;
      PusherHasSmoked(ws[j], ws[j + 1], p, tag);
      k := SmokedOnce(trees, ws, j, p);
    }
  }

  lemma {:induction false} FreshIsInv(w: World)
    requires Fresh(w)
    ensures Inv(w)
  {
  }

  lemma {:induction false} PusherHasSmoked(w: World, x: World, p: nat, tag: string)
    requires Inv(w) && Pushes(w, x, p, tag)
    ensures p < |w.processes| && w.processes[p].smoked.Some?
  {
    assert Backed(w, w.processes[p]);
    PushRecords(w, x, p, tag);
  }

  // ---- what main was ----

  ghost predicate Within(m: map<string, Sha>, mains: set<Sha>) { forall tag :: tag in m ==> m[tag] in mains }

  /** Every commit the publish handles was on main at some time. */
  ghost predicate FromMain(w: World, mains: set<Sha>) {
    && w.main in mains && w.dispatched <= mains && Within(w.tags, mains) && Within(w.smokedBy, mains)
    && (forall c :: 0 <= c < |w.clones| ==> Within(w.clones[c].tags, mains))
    && (forall p :: 0 <= p < |w.processes| ==>
          w.processes[p].commit in mains && (w.processes[p].smoked.Some? ==> w.processes[p].smoked.value in mains))
  }

  lemma {:induction false} EffectFromMain(w: World, p: nat, mains: set<Sha>)
    requires FromMain(w, mains) && CanPerform(w, p) && Effect(w, p).Some?
    ensures FromMain(Effect(w, p).value, mains)
  {
    assert w.processes[p].commit in mains;
    assert Within(w.clones[w.processes[p].clone].tags, mains);
  }

  lemma {:induction false} PerformFromMain(w: World, p: nat, fate: Fate, mains: set<Sha>)
    requires FromMain(w, mains) && CanPerform(w, p)
    ensures FromMain(PerformStep(w, p, fate), mains) && PerformStep(w, p, fate).main in mains
  {
    if Effect(w, p).Some? { EffectFromMain(w, p, mains); }
    hide Effect, Within;
  }

  lemma {:induction false} FromMoreMains(w: World, mains: set<Sha>, more: set<Sha>)
    requires FromMain(w, mains) && mains <= more
    ensures FromMain(w, more)
  {
  }

  lemma {:induction false} OutsideFromMain(trees: Sha -> Tree, w: World, a: Action, mains: set<Sha>)
    requires FromMain(w, mains) && !a.Perform?
    ensures FromMain(Next(trees, w, a), mains + {Next(trees, w, a).main})
  {
    hide PerformStep, CanPerform;
    FromMoreMains(w, mains, mains + {Next(trees, w, a).main});
  }

  lemma {:induction false} NextFromMain(trees: Sha -> Tree, w: World, a: Action, mains: set<Sha>)
    requires FromMain(w, mains)
    ensures FromMain(Next(trees, w, a), mains + {Next(trees, w, a).main})
  {
    hide FromMain, Next, PerformStep, CanPerform;
    if a.Perform? {
      NextPerforms(trees, w, a);
      FromMoreMains(w, mains, mains + {w.main});
      if CanPerform(w, a.process) {
        PerformFromMain(w, a.process, a.fate, mains);
        FromMoreMains(Next(trees, w, a), mains, mains + {Next(trees, w, a).main});
      }
    } else {
      OutsideFromMain(trees, w, a, mains);
    }
  }

  function Mains(ws: seq<World>): set<Sha> { set k | 0 <= k < |ws| :: ws[k].main }

  lemma {:induction false} MainsSnoc(ws: seq<World>, w: World)
    ensures Mains(ws + [w]) == Mains(ws) + {w.main}
  {
    var longer := ws + [w];
    assert longer[|ws|] == w;
    forall k | 0 <= k < |ws| ensures ws[k].main in Mains(longer) {
      assert longer[k] == ws[k];
    }
  }

  lemma {:induction false} RunFromMain(trees: Sha -> Tree, ws: seq<World>, i: nat)
    requires Run(trees, ws) && Fresh(ws[0]) && i < |ws|
    ensures FromMain(ws[i], Mains(ws[..i + 1]))
  {
    if i == 0 {
      assert ws[..1][0] == ws[0];
    } else {
      hide Next, FromMain;
      RunFromMain(trees, ws, i - 1);
      assert Moves(trees, ws[i - 1], ws[i - 1 + 1]);
      var a :| ws[i] == Next(trees, ws[i - 1], a);
      NextFromMain(trees, ws[i - 1], a, Mains(ws[..i]));
      MainsSnoc(ws[..i], ws[i]);
      assert ws[..i + 1] == ws[..i] + [ws[i]];
    }
  }

  /** When a tag is on another commit than its process had smoked, both commits were on main at some time of the
      run: a head that moves by itself makes the smoke step fail instead. */
  lemma {:induction false} MismatchMeansMainMoved(trees: Sha -> Tree, ws: seq<World>, i: nat, tag: string)
    requires Run(trees, ws) && Fresh(ws[0]) && i < |ws| && tag in ws[i].tags
    ensures tag in ws[i].smokedBy
    ensures exists m, n ::
              0 <= m <= i && 0 <= n <= i && ws[m].main == ws[i].tags[tag] && ws[n].main == ws[i].smokedBy[tag]
  {
    FreshIsInv(ws[0]);
    RunKeepsInv(trees, ws, i);
    assert Released(ws[i], tag);
    RunFromMain(trees, ws, i);
    var mains := Mains(ws[..i + 1]);
    assert ws[i].tags[tag] in mains && ws[i].smokedBy[tag] in mains;
    var m :| 0 <= m < i + 1 && ws[..i + 1][m].main == ws[i].tags[tag];
    var n :| 0 <= n < i + 1 && ws[..i + 1][n].main == ws[i].smokedBy[tag];
    assert ws[m].main == ws[i].tags[tag] && ws[n].main == ws[i].smokedBy[tag];
  }

  /** While main stands still every pushed tag is on a commit whose own smoke run passed, wherever heads go. */
  lemma {:induction false} StandingMainSmokesTheTaggedCommit(trees: Sha -> Tree, ws: seq<World>, i: nat, tag: string)
    requires Run(trees, ws) && Fresh(ws[0]) && i < |ws| && tag in ws[i].tags
    requires forall k :: 0 <= k <= i ==> ws[k].main == ws[0].main
    ensures ws[i].tags[tag] in ws[i].smokePassed
  {
    MismatchMeansMainMoved(trees, ws, i, tag);
    FreshIsInv(ws[0]);
    RunKeepsInv(trees, ws, i);
    assert Released(ws[i], tag);
  }

  /** Somebody moves the head of a clone while a live publish there is still before or in its smoke step. */
  ghost predicate Disturbs(w: World, a: Action) {
    && a.Checkout?
    && exists p :: 0 <= p < |w.processes| && w.processes[p].clone == a.clone
                   && w.processes[p].alive && w.processes[p].done == 0
  }

  ghost predicate MovesSteadily(trees: Sha -> Tree, w: World, x: World) {
    exists a :: x == Next(trees, w, a) && !Disturbs(w, a)
  }

  /** A run in which no head moves under a live publish that has not smoked yet. */
  ghost predicate SteadyRun(trees: Sha -> Tree, ws: seq<World>) {
    ws != [] && forall i :: 0 <= i < |ws| - 1 ==> MovesSteadily(trees, ws[i], ws[i + 1])
  }

  ghost predicate Pinned(w: World, run: Process) {
    && (run.clone < |w.clones| && run.alive && run.done == 0 ==> w.clones[run.clone].head == run.commit)
    && (run.smoked.Some? ==> run.smoked.value == run.commit)
  }

  ghost predicate SmokedAsTagged(w: World) {
    && (forall p :: 0 <= p < |w.processes| ==> Pinned(w, w.processes[p]))
    && (forall tag :: tag in w.tags ==> tag in w.smokedBy && w.smokedBy[tag] == w.tags[tag])
  }

  lemma {:induction false} PushedWithItsSmoke(w: World, p: nat, tag: string)
    requires CanPerform(w, p) && Effect(w, p).Some? && Backed(w, w.processes[p]) && Pinned(w, w.processes[p])
    requires tag in Effect(w, p).value.tags
    requires tag in w.tags ==> tag in w.smokedBy && w.smokedBy[tag] == w.tags[tag]
    ensures tag in Effect(w, p).value.smokedBy && Effect(w, p).value.smokedBy[tag] == Effect(w, p).value.tags[tag]
  {
  }

  lemma {:induction false} PerformTags(w: World, p: nat, fate: Fate)
    requires CanPerform(w, p)
    ensures var x := PerformStep(w, p, fate);
            || (x.tags == w.tags && x.smokedBy == w.smokedBy)
            || (Effect(w, p).Some? && x.tags == Effect(w, p).value.tags && x.smokedBy == Effect(w, p).value.smokedBy)
  {
  }

  lemma {:induction false} PerformKeepsPins(w: World, p: nat, fate: Fate)
    requires CanPerform(w, p) && Inv(w) && SmokedAsTagged(w)
    ensures SmokedAsTagged(PerformStep(w, p, fate))
  {
    var x := PerformStep(w, p, fate);
    assert Pinned(w, w.processes[p]) && Backed(w, w.processes[p]);
    PerformShape(w, p, fate);
    forall q | 0 <= q < |x.processes| ensures Pinned(x, x.processes[q]) {
      assert Pinned(w, w.processes[q]);
    }
    PerformTags(w, p, fate);
    forall tag | tag in x.tags ensures tag in x.smokedBy && x.smokedBy[tag] == x.tags[tag] {
      if Effect(w, p).Some? && tag in Effect(w, p).value.tags { PushedWithItsSmoke(w, p, tag); }
    }
  }

  lemma {:induction false} OutsideKeepsPins(trees: Sha -> Tree, w: World, a: Action)
    requires SmokedAsTagged(w) && Inv(w) && !a.Perform? && !Disturbs(w, a)
    ensures SmokedAsTagged(Next(trees, w, a))
  {
    hide Released;
    var x := Next(trees, w, a);
    forall q | 0 <= q < |x.processes| ensures Pinned(x, x.processes[q]) {
      if q < |w.processes| { assert Pinned(w, w.processes[q]) && Backed(w, w.processes[q]); }
    }
  }

  lemma {:induction false} SteadyKeepsPins(trees: Sha -> Tree, ws: seq<World>, i: nat)
    requires SteadyRun(trees, ws) && Fresh(ws[0]) && i < |ws|
    ensures SmokedAsTagged(ws[i]) && Inv(ws[i])
  {
    if i > 0 {
      SteadyKeepsPins(trees, ws, i - 1);
      hide Inv, Next, PerformStep, SmokedAsTagged;
      var w := ws[i - 1];
      assert MovesSteadily(trees, w, ws[i - 1 + 1]);
      var a :| ws[i] == Next(trees, w, a) && !Disturbs(w, a);
      NextKeepsInv(trees, w, a);
      if a.Perform? {
        NextPerforms(trees, w, a);
        if CanPerform(w, a.process) { PerformKeepsPins(w, a.process, a.fate); }
      } else {
        OutsideKeepsPins(trees, w, a);
      }
    }
  }

  lemma {:induction false} NextPerforms(trees: Sha -> Tree, w: World, a: Action)
    requires a.Perform?
    ensures Next(trees, w, a) == if CanPerform(w, a.process) then PerformStep(w, a.process, a.fate) else w
  {
  }

  /** While no head moves under a live publish that has not smoked yet, every pushed tag is on a commit whose own
      smoke run passed. */
  lemma {:induction false} SteadyHeadsSmokeTheTaggedCommit(trees: Sha -> Tree, ws: seq<World>, i: nat, tag: string)
    requires SteadyRun(trees, ws) && Fresh(ws[0]) && i < |ws| && tag in ws[i].tags
    ensures ws[i].tags[tag] in ws[i].smokePassed
  {
    SteadyKeepsPins(trees, ws, i);
    assert Released(ws[i], tag);
  }

  lemma {:induction false} RunSnoc(trees: Sha -> Tree, ws: seq<World>, a: Action)
    requires Run(trees, ws)
    ensures Run(trees, ws + [Next(trees, ws[|ws| - 1], a)])
  {
    hide Next;
    var longer := ws + [Next(trees, ws[|ws| - 1], a)];
    forall i | 0 <= i < |longer| - 1 ensures Moves(trees, longer[i], longer[i + 1]) {
      if i < |ws| - 1 { assert Moves(trees, ws[i], ws[i + 1]); }
    }
  }

  /** The stages of a publish whose clone followed main to another commit before the smoke step. */
  ghost predicate Astray(w: World, version: string, commit: Sha, other: Sha, done: nat) {
    && |w.clones| > 0 && w.clones[0].head == w.main == other
    && w.processes == [Process(0, version, commit, false, done, true, if done > 0 then Some(other) else None)]
    && w.smokePassed == (if done > 0 then {other} else {})
    && w.clones[0].tags == (if done > 2 then map[TagOf(version) := commit] else map[])
    && w.tags == (if done > 3 then map[TagOf(version) := commit] else map[])
  }

  lemma {:induction false} AstrayGoesOn(trees: Sha -> Tree, w: World, version: string, commit: Sha, other: Sha,
                                        done: nat)
    requires done < 4 && Astray(w, version, commit, other, done)
    ensures Astray(Next(trees, w, Perform(0, Completes)), version, commit, other, done + 1)
  {
    assert CanPerform(w, 0);
    assert Effect(w, 0).Some?;
  }

  lemma {:induction false} AstrayStarts(trees: Sha -> Tree, w: World, version: string, commit: Sha, other: Sha)
    requires Fresh(w) && |w.clones| > 0
    requires CheckPublishPreconditions(trees, w, w.clones[0]) == Ready(version, commit)
    ensures var begun := Next(trees, w, Begin(0, false));
            Astray(Next(trees, Next(trees, begun, Merge(other)), Checkout(0, other, false)), version, commit, other, 0)
  {
    hide CheckPublishPreconditions;
  }

  /** From every world in which a first publish may start: when main moves on right after the preconditions and
      the clone follows it, the publish pushes a tag on a commit that no smoke run ever looked at. */
  lemma {:induction false} MovedHeadEscapesTheSmoke(trees: Sha -> Tree, w: World, version: string, commit: Sha,
                                                    other: Sha)
    requires Fresh(w) && |w.clones| > 0 && other != commit
    requires CheckPublishPreconditions(trees, w, w.clones[0]) == Ready(version, commit)
    ensures exists ws: seq<World> :: Run(trees, ws) && ws[0] == w && TagOf(version) in ws[|ws| - 1].tags
              && ws[|ws| - 1].tags[TagOf(version)] == commit && commit !in ws[|ws| - 1].smokePassed
  {
    hide Next, CheckPublishPreconditions;
    var ws := [w];
    RunSnoc(trees, ws, Begin(0, false));
    ws := ws + [Next(trees, w, Begin(0, false))];
    RunSnoc(trees, ws, Merge(other));
    ws := ws + [Next(trees, ws[1], Merge(other))];
    RunSnoc(trees, ws, Checkout(0, other, false));
    ws := ws + [Next(trees, ws[2], Checkout(0, other, false))];
    AstrayStarts(trees, w, version, commit, other);
    for done: nat := 0 to 4
      invariant Run(trees, ws) && ws[0] == w
      invariant Astray(ws[|ws| - 1], version, commit, other, done)
    {
      hide Astray, Run;
      AstrayGoesOn(trees, ws[|ws| - 1], version, commit, other, done);
      RunSnoc(trees, ws, Perform(0, Completes));
      ws := ws + [Next(trees, ws[|ws| - 1], Perform(0, Completes))];
    }
  }

  // ---- the publish command ----

  /** The world after a publish has begun and then performed `k` steps, nothing else interleaving. */
  function Published(trees: Sha -> Tree, w: World, c: nat, catalog: bool, fates: seq<Fate>, k: nat): World
    requires k <= |fates|
  {
    if k == 0 then Next(trees, w, Begin(c, catalog))
    else Next(trees, Published(trees, w, c, catalog, fates, k - 1), Perform(|w.processes|, fates[k - 1]))
  }

  lemma {:induction false} DeadStaysPut(trees: Sha -> Tree, w: World, c: nat, catalog: bool, fates: seq<Fate>, k: nat,
                                        n: nat)
    requires k <= n <= |fates| && !CanPerform(Published(trees, w, c, catalog, fates, k), |w.processes|)
    ensures Published(trees, w, c, catalog, fates, n) == Published(trees, w, c, catalog, fates, k)
  {
    hide CanPerform;
    if k < n {
      DeadStaysPut(trees, w, c, catalog, fates, k, n - 1);
      NextPerforms(trees, Published(trees, w, c, catalog, fates, n - 1), Perform(|w.processes|, fates[n - 1]));
    }
  }

  /** A publish that nothing interleaves with, `done` steps in. */
  ghost predicate Underway(x: World, p: nat, c: nat, version: string, commit: Sha, done: nat) {
    && Inv(x) && |x.processes| == p + 1 && c < |x.clones| && x.clones[c].head == commit
    && x.processes[p].alive && x.processes[p].done == done && x.processes[p].clone == c
    && x.processes[p].version == version && x.processes[p].commit == commit
    && (x.processes[p].smoked.Some? ==> x.processes[p].smoked.value == commit)
  }

  lemma {:induction false} ReadyIsHead(trees: Sha -> Tree, w: World, c: nat)
    requires c < |w.clones| && CheckPublishPreconditions(trees, w, w.clones[c]).Ready?
    ensures CheckPublishPreconditions(trees, w, w.clones[c]).commit == w.clones[c].head
  {
  }

  lemma {:induction false} UnderwayStarts(trees: Sha -> Tree, w: World, c: nat, catalog: bool, version: string,
                                          commit: Sha)
    requires Inv(w) && c < |w.clones| && CheckPublishPreconditions(trees, w, w.clones[c]) == Ready(version, commit)
    ensures Underway(Next(trees, w, Begin(c, catalog)), |w.processes|, c, version, commit, 0)
  {
    NextKeepsInv(trees, w, Begin(c, catalog));
  }

  lemma {:induction false} RefusedBeginsNothing(trees: Sha -> Tree, w: World, c: nat, catalog: bool)
    requires c < |w.clones| && CheckPublishPreconditions(trees, w, w.clones[c]).Refused?
    ensures Next(trees, w, Begin(c, catalog)) == w && !CanPerform(w, |w.processes|)
  {
  }

  lemma {:induction false} UnderwayGoesOn(x: World, p: nat, c: nat, version: string, commit: Sha, done: nat, fate: Fate)
    requires Underway(x, p, c, version, commit, done) && done < |PUBLISH_STEPS|
    ensures CanPerform(x, p) && Inv(PerformStep(x, p, fate)) && p < |PerformStep(x, p, fate).processes|
    ensures PerformStep(x, p, fate).processes[p].alive
        ==> Underway(PerformStep(x, p, fate), p, c, version, commit, done + 1)
    ensures !PerformStep(x, p, fate).processes[p].alive ==> !CanPerform(PerformStep(x, p, fate), p)
  {
    PerformKeepsInv(x, p, fate);
    PerformShape(x, p, fate);
  }

  lemma {:induction false} UnderwayEnds(x: World, p: nat, c: nat, version: string, commit: Sha)
    requires Underway(x, p, c, version, commit, |PUBLISH_STEPS|)
    ensures Succeeded(x, p, version, commit)
  {
    assert Backed(x, x.processes[p]);
  }

  /** The version's tag is on origin at the checked commit, which was smoked and published by CI. */
  ghost predicate Succeeded(x: World, p: nat, version: string, commit: Sha) {
    && TagOf(version) in x.tags && x.tags[TagOf(version)] == commit
    && p < |x.processes| && x.processes[p].smoked == Some(commit) && commit in x.smokePassed
    && commit in x.npmJobs && TagOf(version) in x.canaried
    && (x.processes[p].catalog ==> TagOf(version) in x.npm && TagOf(version) in x.promoted)
  }

  /** One publish from a clone, with the fate of each step as the outside world decides it. A dry run and a
      refused precondition change nothing; otherwise the world is the one the machine's own steps reach. */
  method RunPublish(trees: Sha -> Tree, w: World, c: nat, catalog: bool, dryRun: bool, fates: seq<Fate>)
    returns (x: World, success: bool)
    requires Inv(w) && c < |w.clones| && |fates| == |PUBLISH_STEPS|
    ensures dryRun ==> x == w
    ensures (forall version, commit :: !MayPublish(trees, w, w.clones[c], version, commit)) ==> x == w && !success
    ensures !dryRun ==> x == Published(trees, w, c, catalog, fates, |fates|)
    ensures Inv(x)
    ensures success ==>
      (var pre := CheckPublishPreconditions(trees, w, w.clones[c]);
       && pre.Ready? && MayPublish(trees, w, w.clones[c], pre.version, pre.commit)
       && (!dryRun ==> Succeeded(x, |w.processes|, pre.version, pre.commit)))
  {
    hide Next, PerformStep, CanPerform, Inv, CheckPublishPreconditions, MayPublish, Succeeded;
    var pre := CheckPublishPreconditions(trees, w, w.clones[c]);
    var p := |w.processes|;
    if pre.Refused? {
      RefusedBeginsNothing(trees, w, c, catalog);
      DeadStaysPut(trees, w, c, catalog, fates, 0, |fates|);
      return w, false;
    }
    ReadyIff(trees, w, w.clones[c], pre.version, pre.commit);
    assert MayPublish(trees, w, w.clones[c], pre.version, pre.commit);
    if dryRun {
      return w, true;
    }
    ReadyIsHead(trees, w, c);
    UnderwayStarts(trees, w, c, catalog, pre.version, pre.commit);
    x := Next(trees, w, Begin(c, catalog));
    for i := 0 to |PUBLISH_STEPS|
      invariant x == Published(trees, w, c, catalog, fates, i)
      invariant Underway(x, p, c, pre.version, pre.commit, i)
    {
      UnderwayGoesOn(x, p, c, pre.version, pre.commit, i, fates[i]);
      NextPerforms(trees, x, Perform(p, fates[i]));
      x := PerformStep(x, p, fates[i]);
      if !x.processes[p].alive {
        DeadStaysPut(trees, w, c, catalog, fates, i + 1, |fates|);
        return x, false;
      }
    }
    UnderwayEnds(x, p, c, pre.version, pre.commit);
    success := true;
  }

  // ---- each step, and a whole publish, exactly ----

  /** When the tool behind the next step does its work: the smoke run is for main or for a commit it was started on
      before, the tag is new to the clone, the pushed tag is not another commit's on origin, CI has published the
      commit, and with a catalog the registry serves the version. Every other step always works. */
  ghost predicate Works(w: World, p: nat)
    requires CanPerform(w, p)
  {
    var run := w.processes[p];
    var clone, tag := w.clones[run.clone], "v" + run.version;
    && (run.done == 0 ==> clone.head == w.main || clone.head in w.dispatched)
    && (run.done == 2 ==> tag !in clone.tags)
    && (run.done == 3 ==> tag in clone.tags && (tag in w.tags ==> w.tags[tag] == clone.tags[tag]))
    && (run.done == 4 ==> run.commit in w.npmJobs)
    && (run.done == 5 && run.catalog ==> tag in w.npm)
  }

  /** A process that is to complete its step lives on exactly when the step's tool works; one that dies before the
      effect leaves the world as it was, and one that dies right after it leaves what completing would have left. */
  lemma {:induction false} FatesAre(w: World, p: nat)
    requires CanPerform(w, p)
    ensures var dead := w.processes[p].(alive := false);
      && PerformStep(w, p, DiesBefore) == w.(processes := w.processes[p := dead])
      && (!Works(w, p) ==> forall fate :: PerformStep(w, p, fate) == PerformStep(w, p, DiesBefore))
    ensures Works(w, p) ==>
      var x := PerformStep(w, p, Completes);
      && p < |x.processes| && x.processes[p].alive && x.processes[p].done == w.processes[p].done + 1
      && PerformStep(w, p, DiesAfter) ==
           x.(processes := x.processes[p := x.processes[p].(alive := false, done := w.processes[p].done)])
  {
    WorksIff(w, p);
    if Effect(w, p).Some? {
      EffectShape(w, p);
      var after := Effect(w, p).value;
      hide Effect, Works;
      var run := after.processes[p];
      assert after.processes[p := run.(done := run.done + 1)][p := run.(alive := false)]
          == after.processes[p := run.(alive := false)];
    }
  }

  lemma {:induction false} WorksIff(w: World, p: nat)
    requires CanPerform(w, p)
    ensures Works(w, p) <==> Effect(w, p).Some?
  {
    assert PUBLISH_STEPS[w.processes[p].done] in PUBLISH_STEPS;
  }

  /** The world `done` steps into an undisturbed publish, before or after CI has answered its tag. */
  ghost function PartWay(w: World, c: nat, catalog: bool, version: string, commit: Sha, done: nat, ci: bool): World
    requires c < |w.clones|
  {
    var tag, clone := "v" + version, w.clones[c];
    w.(dispatched := if done >= 1 then w.dispatched + {commit} else w.dispatched,
       smokePassed := if done >= 1 then w.smokePassed + {commit} else w.smokePassed,
       drafts := if done >= 2 then w.drafts + {Draft(tag, commit, '-' in version)} else w.drafts,
       clones := if done >= 3 then w.clones[c := clone.(tags := clone.tags[tag := commit])] else w.clones,
       tags := if done >= 4 then w.tags[tag := commit] else w.tags,
       smokedBy := if done >= 4 then w.smokedBy[tag := commit] else w.smokedBy,
       npmJobs := if ci then w.npmJobs + {commit} else w.npmJobs,
       npm := if ci then w.npm + {tag} else w.npm,
       canaried := if done >= 7 then w.canaried + {tag} else w.canaried,
       promoted := if done >= 8 && catalog then w.promoted + {tag} else w.promoted,
       processes := w.processes
         + [Process(c, version, commit, catalog, done, true, if done >= 1 then Some(commit) else None)])
  }

  lemma {:induction false} LastReplaced(ps: seq<Process>, a: Process, b: Process)
    ensures (ps + [a])[|ps| := b] == ps + [b]
  {
  }

  lemma {:induction false} PartWayPerforms(trees: Sha -> Tree, w: World, c: nat, catalog: bool, version: string,
                                           commit: Sha, done: nat, ci: bool)
    requires c < |w.clones| && done < 8
    requires var x := PartWay(w, c, catalog, version, commit, done, ci);
      Effect(x, |w.processes|) == Some(PartWay(w, c, catalog, version, commit, done + 1, ci).(processes :=
        w.processes + [Process(c, version, commit, catalog, done, true, Some(commit))]))
    ensures Next(trees, PartWay(w, c, catalog, version, commit, done, ci), Perform(|w.processes|, Completes))
         == PartWay(w, c, catalog, version, commit, done + 1, ci)
  {
    var x, p := PartWay(w, c, catalog, version, commit, done, ci), |w.processes|;
    assert CanPerform(x, p);
    hide Effect;
    LastReplaced(w.processes, Process(c, version, commit, catalog, done, true, Some(commit)),
      Process(c, version, commit, catalog, done + 1, true, Some(commit)));
  }

  lemma {:induction false} EffectPartWay(trees: Sha -> Tree, w: World, c: nat, catalog: bool, version: string,
                                         commit: Sha, done: nat, ci: bool)
    requires c < |w.clones| && MayPublish(trees, w, w.clones[c], version, commit)
    requires done < 8 && ci == (done >= 4)
    ensures Effect(PartWay(w, c, catalog, version, commit, done, ci), |w.processes|)
      == Some(PartWay(w, c, catalog, version, commit, done + 1, ci).(processes :=
           w.processes + [Process(c, version, commit, catalog, done, true, Some(commit))]))
  {
    var x, p := PartWay(w, c, catalog, version, commit, done, ci), |w.processes|;
    assert x.processes[p] == Process(c, version, commit, catalog, done, true, if done >= 1 then Some(commit) else None);
    assert TagOf(version) == "v" + version && x.clones[c].head == commit && x.main == commit;
    assert IsPrerelease(version) <==> '-' in version;
    hide IsPrerelease;
    if done == 0 {
      LastReplaced(w.processes, x.processes[p], Process(c, version, commit, catalog, 0, true, Some(commit)));
    } else if done == 2 {
      assert x.clones == w.clones && "v" + version !in x.clones[c].tags;
    } else if done == 3 {
      var clone := w.clones[c];
      assert x.clones[c] == clone.(tags := clone.tags["v" + version := commit]);
    }
  }

  lemma {:induction false} CiAnswers(trees: Sha -> Tree, w: World, c: nat, catalog: bool, version: string, commit: Sha)
    requires c < |w.clones|
    ensures Next(trees, PartWay(w, c, catalog, version, commit, 4, false), CiPublishes("v" + version))
         == PartWay(w, c, catalog, version, commit, 4, true)
  {
  }

  lemma {:induction false} PartWayStarts(trees: Sha -> Tree, w: World, c: nat, catalog: bool, version: string,
                                         commit: Sha)
    requires c < |w.clones| && MayPublish(trees, w, w.clones[c], version, commit)
    ensures Next(trees, w, Begin(c, catalog)) == PartWay(w, c, catalog, version, commit, 0, false)
  {
    BeginIff(trees, w, c, catalog, version, commit);
  }

  /** A publish that may start and that nothing disturbs, CI publishing its tag once it is pushed, goes through, and
      leaves exactly the tag, the draft, the smoke run, the published version, the canary and, with a catalog, the
      promotion. */
  lemma {:induction false} UndisturbedPublish(trees: Sha -> Tree, w: World, c: nat, catalog: bool, version: string,
                                              commit: Sha)
    requires c < |w.clones| && MayPublish(trees, w, w.clones[c], version, commit)
    ensures exists ws: seq<World> :: Run(trees, ws) && ws[0] == w
              && ws[|ws| - 1] == PartWay(w, c, catalog, version, commit, 8, true)
  {
    var p := |w.processes|;
    var ws := [w];
    hide Next, MayPublish;
    RunSnoc(trees, ws, Begin(c, catalog));
    PartWayStarts(trees, w, c, catalog, version, commit);
    ws := ws + [Next(trees, w, Begin(c, catalog))];
    for done: nat := 0 to 8
      invariant Run(trees, ws) && ws[0] == w
      invariant ws[|ws| - 1] == PartWay(w, c, catalog, version, commit, done, done > 4)
    {
      hide Run, PartWay, Effect;
      if done == 4 {
        RunSnoc(trees, ws, CiPublishes("v" + version));
        CiAnswers(trees, w, c, catalog, version, commit);
        ws := ws + [Next(trees, ws[|ws| - 1], CiPublishes("v" + version))];
      }
      EffectPartWay(trees, w, c, catalog, version, commit, done, done >= 4);
      PartWayPerforms(trees, w, c, catalog, version, commit, done, done >= 4);
      RunSnoc(trees, ws, Perform(p, Completes));
      ws := ws + [Next(trees, ws[|ws| - 1], Perform(p, Completes))];
    }
  }

  // ---- waiting for a workflow ----

  datatype WorkflowRun = WorkflowRun(id: nat, headSha: Sha)

  function FindRun(runs: seq<WorkflowRun>, sha: Sha): (r: Option<nat>)
    ensures r.None? <==> forall k :: 0 <= k < |runs| ==> runs[k].headSha != sha
    ensures r.Some? ==> exists k :: 0 <= k < |runs| && runs[k] == WorkflowRun(r.value, sha)
                                    && forall j :: 0 <= j < k ==> runs[j].headSha != sha
  {
    if runs == [] then None
    else if runs[0].headSha == sha then Some(runs[0].id)
    else
      var rest := FindRun(runs[1..], sha);
      assert forall k :: 1 <= k < |runs| ==> runs[1..][k - 1] == runs[k];
      assert rest.Some? ==> exists k :: 0 <= k < |runs| && runs[k] == WorkflowRun(rest.value, sha)
                                        && forall j :: 0 <= j < k ==> runs[j].headSha != sha by {
        if rest.Some? {
          var k :| 0 <= k < |runs[1..]| && runs[1..][k] == WorkflowRun(rest.value, sha)
                   && forall j :: 0 <= j < k ==> runs[1..][j].headSha != sha;
          assert runs[k + 1] == WorkflowRun(rest.value, sha);
          assert forall j :: 0 <= j < k + 1 ==> runs[j].headSha != sha by {
            assert forall j :: 1 <= j < k + 1 ==> runs[j] == runs[1..][j - 1];
          }
        }
      }
      rest
  }

  /** Polls the run list until a run for the commit shows up; `attempt` is how many listings had none. */
  method AwaitRun(listings: nat -> seq<WorkflowRun>, sha: Sha, attempts: nat) returns (id: Option<nat>, attempt: nat)
    ensures id.None? <==> forall i: nat :: i < attempts ==> FindRun(listings(i), sha).None?
    ensures id.Some? ==> attempt < attempts && FindRun(listings(attempt), sha) == id
    ensures forall i: nat :: i < attempt && i < attempts ==> FindRun(listings(i), sha).None?
  {
    attempt := 0;
    while attempt < attempts
      invariant attempt <= attempts
      invariant forall i: nat :: i < attempt ==> FindRun(listings(i), sha).None?
    {
      id := FindRun(listings(attempt), sha);
      if id.Some? { return; }
      attempt := attempt + 1;
    }
    id := None;
  }

  datatype Job = Job(name: string, conclusion: Option<string>)

  const NPM_PUBLISH_JOB := "npm-publish"

  /** Whether the release workflow published: only the first npm-publish job of the run for the commit
      decides, whatever the run's other jobs concluded. */
  method WaitForReleaseWorkflow(listings: nat -> seq<WorkflowRun>, jobs: nat -> seq<Job>, sha: Sha, attempts: nat)
    returns (published: bool)
    ensures published <==>
      exists i: nat, k: nat :: i < attempts && FindRun(listings(i), sha).Some?
        && (forall e: nat :: e < i ==> FindRun(listings(e), sha).None?)
        && k < |jobs(FindRun(listings(i), sha).value)|
        && jobs(FindRun(listings(i), sha).value)[k] == Job("npm-publish", Some("success"))
        && forall j: nat :: j < k ==> jobs(FindRun(listings(i), sha).value)[j].name != "npm-publish"
  {
    var id, attempt := AwaitRun(listings, sha, attempts);
    if id.None? { return false; }
    var done := jobs(id.value);
    var k := 0;
    while k < |done| && done[k].name != NPM_PUBLISH_JOB
      invariant k <= |done|
      invariant forall j: nat :: j < k ==> done[j].name != NPM_PUBLISH_JOB
    {
      k := k + 1;
    }
    published := k < |done| && done[k].conclusion == Some("success");
    if published {
      assert done[k] == Job(NPM_PUBLISH_JOB, Some("success"));
    }
  }
}
