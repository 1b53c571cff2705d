/** Catalog promotion: the released tree's shell paths, stamped with the version, become the catalog's main,
    and the catalog gets the version's tag. A run works in a temporary clone and may die between any two of
    its steps; other people may push to the catalog meanwhile. */
module Catalog {
  import opened Options

  /** A file's content, the two manifests seen as their members. */
  datatype File =
    | Text(body: string)
    | Plugin(fields: map<string, string>)
    | Marketplace(plugins: seq<map<string, string>>, rest: string)

  type Tree = map<string, File>

  const PLUGIN := ".claude-plugin/plugin.json"
  const MARKETPLACE := ".claude-plugin/marketplace.json"
  const TEMPLATE := "scripts/catalog/ci.yml"
  const WORKFLOW := ".github/workflows/ci.yml"

  predicate Under(root: string, path: string) { root + "/" <= path }

  predicate Shell(path: string) { Under(".claude-plugin", path) || Under("commands", path) || Under("bin", path) }

  predicate ShellRoot(path: string) { path == ".claude-plugin" || path == "commands" || path == "bin" }

  predicate AllowedPath(path: string) {
    Shell(path) || ".github/workflows/" <= path || path == "marketplace.json" || path == "README.md"
  }

  predicate Allowed(tree: Tree) { forall path :: path in tree ==> AllowedPath(path) }

  /** The workflow file cannot be written when a file stands where one of its directories must be, or a
      directory stands in its own place. */
  predicate WorkflowBlocked(tree: Tree) {
    ".github" in tree || ".github/workflows" in tree || exists path :: path in tree && Under(WORKFLOW, path)
  }

  predicate SourceComplete(source: Tree) {
    && (exists path :: path in source && Under(".claude-plugin", path))
    && (exists path :: path in source && Under("commands", path))
    && (exists path :: path in source && Under("bin", path))
    && TEMPLATE in source
  }

  predicate Stampable(tree: Tree) {
    && PLUGIN in tree && tree[PLUGIN].Plugin?
    && MARKETPLACE in tree && tree[MARKETPLACE].Marketplace? && tree[MARKETPLACE].plugins != []
  }

  function StampPlugin(file: File, version: string): File
    requires file.Plugin?
  {
    Plugin(file.fields["version" := version] - {"sourceCommit", "metadata"})
  }

  function StampMarketplace(file: File, version: string): File
    requires file.Marketplace? && file.plugins != []
  {
    Marketplace([file.plugins[0]["source" := "./"]["version" := version]] + file.plugins[1..], file.rest)
  }

  function StampTree(tree: Tree, version: string): Tree
    requires Stampable(tree)
  {
    tree[PLUGIN := StampPlugin(tree[PLUGIN], version)][MARKETPLACE := StampMarketplace(tree[MARKETPLACE], version)]
  }

  // ---- what a promotion should leave ----

  ghost predicate HasPath(source: Tree, before: Tree, path: string) {
    if Shell(path) then path in source else path == WORKFLOW || (path in before && !ShellRoot(path))
  }

  ghost predicate HasContent(source: Tree, version: string, before: Tree, after: Tree, path: string)
    requires Stampable(source) && TEMPLATE in source && path in after && HasPath(source, before, path)
  {
    after[path] == (
      if path == PLUGIN then StampPlugin(source[path], version)
      else if path == MARKETPLACE then StampMarketplace(source[path], version)
      else if Shell(path) then source[path]
      else if path == WORKFLOW then source[TEMPLATE]
      else before[path])
  }

  /** The tree a promotion aims at: the shell paths are the release's, stamped; the workflow is the
      release's template; every other path is as the catalog had it. */
  ghost predicate IsPromotion(source: Tree, version: string, before: Tree, after: Tree) {
    && Stampable(source) && TEMPLATE in source
    && (forall path :: path in after <==> HasPath(source, before, path))
    && (forall path :: path in after ==> HasContent(source, version, before, after, path))
  }

  lemma {:induction false} PromotionIsUnique(source: Tree, version: string, before: Tree, a: Tree, b: Tree)
    requires IsPromotion(source, version, before, a) && IsPromotion(source, version, before, b)
    ensures a == b
  {
    assert forall path :: path in a <==> path in b;
  }

  lemma {:induction false} PathFacts()
    ensures Shell(PLUGIN) && Shell(MARKETPLACE) && PLUGIN != MARKETPLACE
    ensures !Shell(WORKFLOW) && !ShellRoot(WORKFLOW) && Staged(WORKFLOW)
  {
    assert WORKFLOW[0] == '.' && WORKFLOW[1] == 'g';
    assert ".claude-plugin"[1] == 'c' && (".claude-plugin" + "/")[1] == 'c';
    assert ("commands" + "/")[0] == 'c' && ("bin" + "/")[0] == 'b';
    assert PLUGIN[15] == 'p' && MARKETPLACE[15] == 'm';
  }

  /** A tree that is a promotion is left alone by promoting again. */
  lemma {:induction false} PromotingAgainChangesNothing(source: Tree, version: string, before: Tree, after: Tree)
    requires IsPromotion(source, version, before, after)
    ensures IsPromotion(source, version, after, after)
  {
    PathFacts();
    forall path ensures path in after <==> HasPath(source, after, path) {
      assert path in after <==> HasPath(source, before, path);
    }
    forall path | path in after ensures HasContent(source, version, after, after, path) {
      assert HasContent(source, version, before, after, path);
    }
  }

  // ---- repositories ----

  datatype Commit = Commit(tree: Tree, message: string)

  /** Main's commits, oldest first, and each tag as the number of commits up to the one it points at. */
  datatype Repo = Repo(history: seq<Commit>, tags: map<string, nat>)

  function Head(history: seq<Commit>): Tree {
    if history == [] then map[] else history[|history| - 1].tree
  }

  datatype Release = Release(commit: string, tree: Tree)

  /** What a promotion of one version is given: the registry's answer, when it is asked, and what the
      version's tag in the source repository points at, when there is one. */
  datatype Promotion = Promotion(version: string, verifyRegistry: bool, registry: string, release: Option<Release>)

  function TagOf(p: Promotion): string { "v" + p.version }

  /** The temporary clone: `base` is main as it was cloned, `history` the local branch on top of it. */
  datatype Workspace = Workspace(
    releaseCommit: string, source: Tree, base: seq<Commit>, tags: map<string, nat>, work: Tree,
    catalogChanged: bool, index: Tree, history: seq<Commit>)

  const EMPTY_WORKSPACE := Workspace("", map[], [], map[], map[], false, map[], [])

  // ---- the plan ----

  datatype Step =
    | VerifyRegistry | ResolveRelease | CloneSource | CheckoutSource | CheckSource | CloneCatalog
    | RemoveShell | CopyShell
    | CopyWorkflow | Stamp | ValidateAllowlist | Status | Add | CommitIfChanged | PushMain | TagIfAbsent

  const PLAN: seq<Step> :=
    [VerifyRegistry, ResolveRelease, CloneSource, CheckoutSource, CheckSource, CloneCatalog, RemoveShell, CopyShell,
     CopyWorkflow, Stamp, ValidateAllowlist, Status, Add, CommitIfChanged, PushMain, TagIfAbsent]

  predicate Staged(path: string) { Shell(path) || ShellRoot(path) || path == WORKFLOW || Under(WORKFLOW, path) }

  function WithoutShell(tree: Tree): Tree { map path | path in tree && !Shell(path) && !ShellRoot(path) :: tree[path] }

  function ShellOf(tree: Tree): Tree { map path | path in tree && Shell(path) :: tree[path] }

  function Index(head: Tree, work: Tree): Tree {
    (map path | path in head && !Staged(path) :: head[path]) + (map path | path in work && Staged(path) :: work[path])
  }

  function Message(p: Promotion, releaseCommit: string): string {
    "chore: promote sapwood v" + p.version + " from " + releaseCommit
  }

  datatype State = State(repo: Repo, ws: Workspace)

  /** One step's effect, or nothing when it throws. */
  function Effect(p: Promotion, step: Step, repo: Repo, ws: Workspace): Option<State> {
    match step
    case VerifyRegistry => if p.verifyRegistry && p.registry != p.version then None else Some(State(repo, ws))
    case ResolveRelease =>
      if p.release.None? || p.release.value.commit == "" then None
      else Some(State(repo, ws.(releaseCommit := p.release.value.commit)))
    case CloneSource => Some(State(repo, ws))
    case CheckoutSource => if p.release.None? then None else Some(State(repo, ws.(source := p.release.value.tree)))
    case CheckSource => if SourceComplete(ws.source) then Some(State(repo, ws)) else None
    case CloneCatalog =>
      Some(State(repo,
                 ws.(base := repo.history, history := repo.history, tags := repo.tags, work := Head(repo.history))))
    case RemoveShell => Some(State(repo, ws.(work := WithoutShell(ws.work))))
    case CopyShell => Some(State(repo, ws.(work := ws.work + ShellOf(ws.source))))
    case CopyWorkflow =>
      if WorkflowBlocked(ws.work) || TEMPLATE !in ws.source then None
      else Some(State(repo, ws.(work := ws.work[WORKFLOW := ws.source[TEMPLATE]])))
    case Stamp => if Stampable(ws.work) then Some(State(repo, ws.(work := StampTree(ws.work, p.version)))) else None
    case ValidateAllowlist => if Allowed(ws.work) then Some(State(repo, ws)) else None
    case Status => Some(State(repo, ws.(catalogChanged := ws.work != Head(ws.history))))
    case Add => Some(State(repo, if ws.catalogChanged then ws.(index := Index(Head(ws.history), ws.work)) else ws))
    case CommitIfChanged =>
      Some(State(repo,
                 if ws.catalogChanged
                 then ws.(history := ws.history + [Commit(ws.index, Message(p, ws.releaseCommit))])
                 else ws))
    case PushMain =>
      if !ws.catalogChanged then Some(State(repo, ws))
      else if repo.history <= ws.history then Some(State(repo.(history := ws.history), ws))
      else None
    case TagIfAbsent =>
      if TagOf(p) in ws.tags then Some(State(repo, ws))
      else if ws.history == [] || (TagOf(p) in repo.tags && repo.tags[TagOf(p)] != |ws.history|) then None
      else Some(State(repo.(tags := repo.tags[TagOf(p) := |ws.history|]), ws))
  }

  /** The catalog and the one running promotion: `done` steps behind it. */
  datatype World = World(repo: Repo, ws: Workspace, done: nat, alive: bool)

  datatype Action = Begin | Perform | Outside(commit: Commit)

  predicate Running(w: World) { w.alive && w.done < |PLAN| }

  /** A run that dies is one that performs no further step; the next `Begin` works in a new clone. */
  function Next(p: Promotion, w: World, a: Action): World {
    match a
    case Begin => World(w.repo, EMPTY_WORKSPACE, 0, true)
    case Perform =>
      if !Running(w) then w
      else (
        match Effect(p, PLAN[w.done], w.repo, w.ws)
        case None => w.(alive := false)
        case Some(s) => World(s.repo, s.ws, w.done + 1, true))
    case Outside(commit) => w.(repo := w.repo.(history := w.repo.history + [commit]))
  }

  function Run(p: Promotion, w: World, actions: seq<Action>): World
    decreases |actions|
  {
    if actions == [] then w else Next(p, Run(p, w, actions[..|actions| - 1]), actions[|actions| - 1])
  }

  lemma {:induction false} RunSnoc(p: Promotion, w: World, actions: seq<Action>, a: Action)
    ensures Run(p, w, actions + [a]) == Next(p, Run(p, w, actions), a)
  {
    assert (actions + [a])[..|actions|] == actions;
  }

  // ---- what a run knows after each step ----

  ghost predicate Sourced(p: Promotion, ws: Workspace) {
    p.release.Some? && ws.releaseCommit == p.release.value.commit && ws.source == p.release.value.tree
        && SourceComplete(ws.source)
  }

  /** The working tree while it is being put together, `done` steps in. */
  ghost predicate Worked(p: Promotion, ws: Workspace, done: nat) {
    var head := Head(ws.base);
    if done == 6 then ws.work == head
    else if done == 7 then ws.work == WithoutShell(head)
    else if done == 8 then ws.work == WithoutShell(head) + ShellOf(ws.source)
    else if done == 9 then
      TEMPLATE in ws.source && ws.work == (WithoutShell(head) + ShellOf(ws.source))[WORKFLOW := ws.source[TEMPLATE]]
    else IsPromotion(ws.source, p.version, head, ws.work) && (done > 10 ==> Allowed(ws.work))
  }

  ghost predicate Committed(p: Promotion, ws: Workspace, done: nat) {
    && (done >= 12 ==> ws.catalogChanged == (ws.work != Head(ws.base)))
    && (done >= 13 && ws.catalogChanged ==> ws.index == ws.work)
    && ws.history ==
         (if done < 14 || !ws.catalogChanged then ws.base
          else ws.base + [Commit(ws.work, Message(p, ws.releaseCommit))])
  }

  ghost predicate SubMap(a: map<string, nat>, b: map<string, nat>) {
    forall t :: t in a ==> t in b && b[t] == a[t]
  }

  ghost predicate Knows(p: Promotion, w: World) {
    && w.done <= |PLAN|
    && (w.done >= 1 ==> p.verifyRegistry ==> p.registry == p.version)
    && (w.done >= 2 ==> p.release.Some? && p.release.value.commit != "" && w.ws.releaseCommit == p.release.value.commit)
    && (w.done >= 4 ==> w.ws.source == p.release.value.tree)
    && (w.done >= 5 ==> Sourced(p, w.ws))
    && (w.done >= 6 ==>
          w.ws.base <= w.repo.history && SubMap(w.ws.tags, w.repo.tags) && Worked(p, w.ws, w.done) &&
          Committed(p, w.ws, w.done))
    && (w.done >= 15 ==> w.ws.history <= w.repo.history)
    && (w.done >= 16 ==> TagOf(p) in w.repo.tags)
  }

  lemma {:induction false} EarlyStepKnows(p: Promotion, w: World)
    requires Knows(p, w) && Running(w) && w.done < 6
    ensures Knows(p, Next(p, w, Perform)) && Next(p, w, Perform).repo == w.repo
  {
    hide IsPromotion, Allowed, SourceComplete;
    assert PLAN[0] == VerifyRegistry && PLAN[1] == ResolveRelease && PLAN[2] == CloneSource
        && PLAN[3] == CheckoutSource;
    assert PLAN[4] == CheckSource && PLAN[5] == CloneCatalog;
  }

  lemma {:induction false} CopiedIsPromotion(source: Tree, version: string, head: Tree, copied: Tree)
    requires TEMPLATE in source && copied == (WithoutShell(head) + ShellOf(source))[WORKFLOW := source[TEMPLATE]]
    requires Stampable(copied)
    ensures IsPromotion(source, version, head, StampTree(copied, version))
  {
    PathFacts();
    assert PLUGIN in ShellOf(source) && MARKETPLACE in ShellOf(source);
    var after := StampTree(copied, version);
    forall path ensures path in after <==> HasPath(source, head, path) {
    }
    forall path | path in after ensures HasContent(source, version, head, after, path) {
    }
  }

  lemma {:induction false} CopyStepKnows(p: Promotion, w: World)
    requires Knows(p, w) && Running(w) && 6 <= w.done < 9
    ensures Knows(p, Next(p, w, Perform)) && Next(p, w, Perform).repo == w.repo
  {
    hide IsPromotion, Allowed, SourceComplete, Stampable, WorkflowBlocked, WithoutShell, ShellOf, StampTree;
    assert PLAN[6] == RemoveShell && PLAN[7] == CopyShell && PLAN[8] == CopyWorkflow;
  }

  lemma {:induction false} StampStepKnows(p: Promotion, w: World)
    requires Knows(p, w) && Running(w) && 9 <= w.done < 11
    ensures Knows(p, Next(p, w, Perform)) && Next(p, w, Perform).repo == w.repo
  {
    hide IsPromotion, Allowed, SourceComplete, Stampable, WorkflowBlocked, WithoutShell, ShellOf, StampTree;
    assert PLAN[9] == Stamp && PLAN[10] == ValidateAllowlist;
    if w.done == 9 && Stampable(w.ws.work) {
      CopiedIsPromotion(w.ws.source, p.version, Head(w.ws.base), w.ws.work);
    }
  }

  lemma {:induction false} TreeStepKnows(p: Promotion, w: World)
    requires Knows(p, w) && Running(w) && 6 <= w.done < 11
    ensures Knows(p, Next(p, w, Perform)) && Next(p, w, Perform).repo == w.repo
  {
    if w.done < 9 { CopyStepKnows(p, w); } else { StampStepKnows(p, w); }
  }

  /** Staging the listed paths stages the whole promotion: nothing else differs from main. */
  lemma {:induction false} IndexIsWork(source: Tree, version: string, head: Tree, work: Tree)
    requires IsPromotion(source, version, head, work)
    ensures Index(head, work) == work
  {
    PathFacts();
    var index := Index(head, work);
    forall path ensures path in index <==> path in work {
      assert path in work <==> HasPath(source, head, path);
    }
    forall path | path in work ensures index[path] == work[path] {
      assert HasContent(source, version, head, work, path);
    }
  }

  lemma {:induction false} CommitStepKnows(p: Promotion, w: World)
    requires Knows(p, w) && Running(w) && 11 <= w.done < 14
    ensures Knows(p, Next(p, w, Perform)) && Next(p, w, Perform).repo == w.repo
  {
    hide IsPromotion, Allowed, SourceComplete, Index;
    assert PLAN[11] == Status && PLAN[12] == Add && PLAN[13] == CommitIfChanged;
    if w.done == 12 { IndexIsWork(w.ws.source, p.version, Head(w.ws.base), w.ws.work); }
  }

  lemma {:induction false} PushStepKnows(p: Promotion, w: World)
    requires Knows(p, w) && Running(w) && 14 <= w.done
    ensures Knows(p, Next(p, w, Perform))
  {
    hide IsPromotion, Allowed, SourceComplete;
    assert PLAN[14] == PushMain && PLAN[15] == TagIfAbsent;
  }

  lemma {:induction false} NextKnows(p: Promotion, w: World, a: Action)
    requires Knows(p, w)
    ensures Knows(p, Next(p, w, a))
  {
    if a == Perform && Running(w) {
      if w.done < 6 { EarlyStepKnows(p, w); }
      else if w.done < 11 { TreeStepKnows(p, w); }
      else if w.done < 14 { CommitStepKnows(p, w); }
      else { PushStepKnows(p, w); }
    }
  }

  // ---- every interleaving ----

  ghost predicate Extends(r: Repo, x: Repo) { r.history <= x.history && SubMap(r.tags, x.tags) }

  lemma {:induction false} NextExtends(p: Promotion, w: World, a: Action)
    requires Knows(p, w)
    ensures Extends(w.repo, Next(p, w, a).repo)
  {
    if a == Perform && Running(w) {
      if w.done < 6 { EarlyStepKnows(p, w); }
      else if w.done < 11 { TreeStepKnows(p, w); }
      else if w.done < 14 { CommitStepKnows(p, w); }
      else { assert PLAN[14] == PushMain && PLAN[15] == TagIfAbsent; }
    }
  }

  /** The commit a tag points at holds the stamped release. */
  ghost predicate TagIsStamped(p: Promotion, repo: Repo) {
    && TagOf(p) in repo.tags && 1 <= repo.tags[TagOf(p)] <= |repo.history|
    && p.release.Some?
    && var tree := repo.history[repo.tags[TagOf(p)] - 1].tree;
       IsPromotion(p.release.value.tree, p.version, tree, tree)
  }

  lemma {:induction false} TagStaysStamped(p: Promotion, repo: Repo, x: Repo)
    requires TagIsStamped(p, repo) && Extends(repo, x)
    ensures TagIsStamped(p, x)
  {
  }

  lemma {:induction false} TagStepStamps(p: Promotion, w: World)
    requires Knows(p, w) && Running(w) && w.done == 15 && TagOf(p) !in w.repo.tags
    requires Next(p, w, Perform).alive
    ensures TagIsStamped(p, Next(p, w, Perform).repo)
  {
    assert PLAN[15] == TagIfAbsent;
    var ws := w.ws;
    PromotingAgainChangesNothing(ws.source, p.version, Head(ws.base), ws.work);
    assert Head(ws.history) == ws.work;
    assert ws.history[|ws.history| - 1] == w.repo.history[|ws.history| - 1];
  }

  lemma {:induction false} OnlyTheTagStepTags(p: Promotion, w: World, a: Action)
    requires Knows(p, w) && !(a == Perform && Running(w) && w.done == 15)
    ensures Next(p, w, a).repo.tags == w.repo.tags
  {
    if a == Perform && Running(w) {
      if w.done < 6 { EarlyStepKnows(p, w); }
      else if w.done < 11 { TreeStepKnows(p, w); }
      else if w.done < 14 { CommitStepKnows(p, w); }
      else { assert PLAN[14] == PushMain; }
    }
  }

  lemma {:induction false} OthersTagsStay(p: Promotion, w: World, a: Action, t: string)
    requires Knows(p, w) && t != TagOf(p)
    ensures t in Next(p, w, a).repo.tags <==> t in w.repo.tags
  {
    if a == Perform && Running(w) && w.done == 15 {
      assert PLAN[15] == TagIfAbsent;
    } else {
      OnlyTheTagStepTags(p, w, a);
    }
  }

  /** Whatever dies, restarts or is pushed by others in between: main only grows, no tag moves or goes away,
      no tag but the version's own appears, and when that one appears the commit it points at holds the
      stamped release. */
  lemma {:induction false} PromotionsAreSafe(p: Promotion, repo: Repo, actions: seq<Action>)
    ensures var x := Run(p, World(repo, EMPTY_WORKSPACE, 0, false), actions);
            Knows(p, x) && Extends(repo, x.repo)
    ensures var x := Run(p, World(repo, EMPTY_WORKSPACE, 0, false), actions).repo;
            && (forall t :: t in x.tags && t != TagOf(p) ==> t in repo.tags)
            && (TagOf(p) in x.tags && TagOf(p) !in repo.tags ==> TagIsStamped(p, x))
  {
    var w := World(repo, EMPTY_WORKSPACE, 0, false);
    if actions != [] {
      var a := actions[|actions| - 1];
      var x := Run(p, w, actions[..|actions| - 1]);
      var y := Next(p, x, a);
      PromotionsAreSafe(p, repo, actions[..|actions| - 1]);
      NextKnows(p, x, a);
      NextExtends(p, x, a);
      forall t | t in y.repo.tags && t != TagOf(p) ensures t in repo.tags {
        OthersTagsStay(p, x, a, t);
      }
      if TagOf(p) in y.repo.tags && TagOf(p) !in repo.tags {
        if TagOf(p) in x.repo.tags {
          TagStaysStamped(p, x.repo, y.repo);
        } else if a == Perform && Running(x) && x.done == 15 {
          TagStepStamps(p, x);
        } else {
          OnlyTheTagStepTags(p, x, a);
        }
      }
    }
  }

  // ---- one run with nobody else pushing ----

  /** A run that performs at most `n` steps before it dies. */
  function Attempt(p: Promotion, repo: Repo, n: nat): World {
    if n == 0 then World(repo, EMPTY_WORKSPACE, 0, true) else Next(p, Attempt(p, repo, n - 1), Perform)
  }

  ghost predicate WorkflowWritable(head: Tree) {
    ".github" !in head && ".github/workflows" !in head && forall path :: path in head ==> !Under(WORKFLOW, path)
  }

  /** What a promotion needs: the registry serves the version, the tag resolves, the release has its shell and
      its workflow template and manifests that can be stamped, and the catalog holds no path that its own
      allowlist refuses. */
  ghost predicate Promotable(p: Promotion, repo: Repo) {
    && (p.verifyRegistry ==> p.registry == p.version)
    && p.release.Some? && p.release.value.commit != ""
    && SourceComplete(p.release.value.tree) && Stampable(p.release.value.tree)
    && WorkflowWritable(Head(repo.history))
    && forall path :: path in Head(repo.history) ==> AllowedPath(path) || ShellRoot(path)
  }

  function Copied(source: Tree, head: Tree): Tree
    requires TEMPLATE in source
  {
    (WithoutShell(head) + ShellOf(source))[WORKFLOW := source[TEMPLATE]]
  }

  lemma {:induction false} StampableIff(source: Tree, head: Tree)
    requires TEMPLATE in source
    ensures Stampable(Copied(source, head)) <==> Stampable(source)
  {
    PathFacts();
    assert PLUGIN in Copied(source, head) <==> PLUGIN in source;
    assert MARKETPLACE in Copied(source, head) <==> MARKETPLACE in source;
  }

  function PromotedTree(p: Promotion, head: Tree): Tree
    requires p.release.Some? && TEMPLATE in p.release.value.tree && Stampable(Copied(p.release.value.tree, head))
  {
    StampTree(Copied(p.release.value.tree, head), p.version)
  }

  predicate OnWorkflowPath(path: string) { path == ".github" || path == ".github/workflows" || Under(WORKFLOW, path) }

  /** The shell and the workflow's path do not meet. */
  lemma {:induction false} WorkflowPathIsNoShell(path: string)
    requires OnWorkflowPath(path)
    ensures !Shell(path) && !ShellRoot(path) && path != WORKFLOW
  {
    assert path[0] == '.' && path[1] == 'g' by {
      assert (WORKFLOW + "/")[0] == '.' && (WORKFLOW + "/")[1] == 'g';
      assert ".github"[0] == '.' && ".github"[1] == 'g' && ".github/workflows"[0] == '.'
          && ".github/workflows"[1] == 'g';
    }
    assert (".claude-plugin" + "/")[1] == 'c' && ("commands" + "/")[0] == 'c' && ("bin" + "/")[0] == 'b';
    assert ".claude-plugin"[1] == 'c' && "commands"[0] == 'c' && "bin"[0] == 'b';
    assert Under(WORKFLOW, path) ==> |path| > |WORKFLOW|;
  }

  lemma {:induction false} WritableIff(source: Tree, head: Tree)
    ensures WorkflowBlocked(WithoutShell(head) + ShellOf(source)) <==> !WorkflowWritable(head)
  {
    hide Shell, ShellRoot, Under;
    var tree := WithoutShell(head) + ShellOf(source);
    forall path | OnWorkflowPath(path) ensures path in tree <==> path in head {
      WorkflowPathIsNoShell(path);
    }
    assert OnWorkflowPath(".github") && OnWorkflowPath(".github/workflows");
    assert forall path :: Under(WORKFLOW, path) ==> OnWorkflowPath(path);
  }

  lemma {:induction false} AllowedIff(p: Promotion, head: Tree)
    requires p.release.Some? && TEMPLATE in p.release.value.tree && Stampable(Copied(p.release.value.tree, head))
    ensures Allowed(PromotedTree(p, head)) <==> forall path :: path in head ==> AllowedPath(path) || ShellRoot(path)
  {
    var source := p.release.value.tree;
    CopiedIsPromotion(source, p.version, head, Copied(source, head));
    var after := PromotedTree(p, head);
    assert AllowedPath(WORKFLOW);
    forall path ensures path in after <==> HasPath(source, head, path) {
    }
    if Allowed(after) {
      forall path | path in head ensures AllowedPath(path) || ShellRoot(path) {
        if !Shell(path) && !ShellRoot(path) { assert HasPath(source, head, path) && path in after; }
      }
    }
  }

  /** The conditions checked by the first `n` steps. */
  ghost predicate Gate(p: Promotion, repo: Repo, n: nat) {
    && (n >= 1 ==> p.verifyRegistry ==> p.registry == p.version)
    && (n >= 2 ==> p.release.Some? && p.release.value.commit != "")
    && (n >= 5 ==> SourceComplete(p.release.value.tree))
    && (n >= 9 ==> WorkflowWritable(Head(repo.history)))
    && (n >= 10 ==> Stampable(p.release.value.tree))
    && (n >= 11 ==> forall path :: path in Head(repo.history) ==> AllowedPath(path) || ShellRoot(path))
  }

  /** Main after a promotion: one more commit exactly when the promoted tree differs from main's. */
  function PromotedHistory(p: Promotion, history: seq<Commit>): seq<Commit>
    requires p.release.Some? && TEMPLATE in p.release.value.tree
        && Stampable(Copied(p.release.value.tree, Head(history)))
  {
    var tree := PromotedTree(p, Head(history));
    if tree == Head(history) then history else history + [Commit(tree, Message(p, p.release.value.commit))]
  }

  /** The catalog once `n` steps of a promotion that nothing stops are done. */
  ghost function Landed(p: Promotion, repo: Repo, n: nat): Repo
    requires Promotable(p, repo)
  {
    StampableIff(p.release.value.tree, Head(repo.history));
    var history := PromotedHistory(p, repo.history);
    if n < 15 then repo
    else if n == 15 || TagOf(p) in repo.tags then Repo(history, repo.tags)
    else Repo(history, repo.tags[TagOf(p) := |history|])
  }

  ghost predicate AsExpected(p: Promotion, repo: Repo, n: nat, x: World) {
    if Gate(p, repo, n) then
      && x.alive && x.done == n && Knows(p, x)
      && (n >= 6 ==> x.ws.base == repo.history && x.ws.tags == repo.tags)
      && (n < 15 ==> x.repo == repo)
      && (n >= 15 ==> Promotable(p, repo) && x.repo == Landed(p, repo, n))
    else !x.alive && x.repo == repo
  }

  lemma {:induction false} WorkIsPromoted(p: Promotion, repo: Repo, x: World)
    requires Knows(p, x) && 10 <= x.done && Promotable(p, repo) && x.ws.base == repo.history
    ensures Stampable(Copied(p.release.value.tree, Head(repo.history)))
    ensures x.ws.work == PromotedTree(p, Head(repo.history)) && x.ws.work != map[]
    ensures x.done >= 14 ==> x.ws.history == PromotedHistory(p, repo.history)
  {
    var source := p.release.value.tree;
    var head := Head(repo.history);
    StampableIff(source, head);
    CopiedIsPromotion(source, p.version, head, Copied(source, head));
    PromotionIsUnique(source, p.version, head, x.ws.work, PromotedTree(p, head));
    assert PLUGIN in x.ws.work;
  }

  lemma {:induction false} EarlyGate(p: Promotion, repo: Repo, n: nat, x: World)
    requires n < 6 && AsExpected(p, repo, n, x) && Gate(p, repo, n)
    ensures AsExpected(p, repo, n + 1, Next(p, x, Perform))
  {
    hide IsPromotion, Allowed, WorkflowWritable, Stampable, Landed;
    EarlyStepKnows(p, x);
    assert PLAN[0] == VerifyRegistry && PLAN[1] == ResolveRelease && PLAN[2] == CloneSource
        && PLAN[3] == CheckoutSource;
    assert PLAN[4] == CheckSource && PLAN[5] == CloneCatalog;
  }

  lemma {:induction false} CopyGate(p: Promotion, repo: Repo, n: nat, x: World)
    requires 6 <= n < 8 && AsExpected(p, repo, n, x) && Gate(p, repo, n)
    ensures AsExpected(p, repo, n + 1, Next(p, x, Perform))
  {
    hide IsPromotion, Allowed, WorkflowWritable, WorkflowBlocked, Stampable, WithoutShell, ShellOf, StampTree,
        Landed, SourceComplete, Promotable;
    CopyStepKnows(p, x);
    assert PLAN[6] == RemoveShell && PLAN[7] == CopyShell;
  }

  lemma {:induction false} WorkflowGate(p: Promotion, repo: Repo, x: World)
    requires AsExpected(p, repo, 8, x) && Gate(p, repo, 8)
    ensures AsExpected(p, repo, 9, Next(p, x, Perform))
  {
    hide IsPromotion, Allowed, WorkflowWritable, WorkflowBlocked, Stampable, WithoutShell, ShellOf, StampTree, Landed;
    CopyStepKnows(p, x);
    assert PLAN[8] == CopyWorkflow;
    WritableIff(x.ws.source, Head(repo.history));
  }

  lemma {:induction false} StampGate(p: Promotion, repo: Repo, x: World)
    requires AsExpected(p, repo, 9, x) && Gate(p, repo, 9)
    ensures AsExpected(p, repo, 10, Next(p, x, Perform))
  {
    hide IsPromotion, Allowed, WorkflowWritable, WorkflowBlocked, Stampable, WithoutShell, ShellOf, StampTree, Landed;
    StampStepKnows(p, x);
    assert PLAN[9] == Stamp;
    StampableIff(x.ws.source, Head(repo.history));
  }

  lemma {:induction false} AllowlistGate(p: Promotion, repo: Repo, x: World)
    requires AsExpected(p, repo, 10, x) && Gate(p, repo, 10)
    ensures AsExpected(p, repo, 11, Next(p, x, Perform))
  {
    hide HasPath, HasContent, WithoutShell, ShellOf, WorkflowWritable, StampTree, Landed;
    TreeStepKnows(p, x);
    assert PLAN[10] == ValidateAllowlist;
    var source := p.release.value.tree;
    var head := Head(repo.history);
    StampableIff(source, head);
    CopiedIsPromotion(source, p.version, head, Copied(source, head));
    PromotionIsUnique(source, p.version, head, x.ws.work, PromotedTree(p, head));
    AllowedIff(p, head);
  }

  lemma {:induction false} CommitGate(p: Promotion, repo: Repo, n: nat, x: World)
    requires 11 <= n < 14 && AsExpected(p, repo, n, x) && Gate(p, repo, n)
    ensures AsExpected(p, repo, n + 1, Next(p, x, Perform))
  {
    hide IsPromotion, Allowed, SourceComplete, WorkflowWritable, Landed, Promotable, Index;
    assert PLAN[11] == Status && PLAN[12] == Add && PLAN[13] == CommitIfChanged;
    CommitStepKnows(p, x);
  }

  lemma {:induction false} PushGate(p: Promotion, repo: Repo, x: World)
    requires AsExpected(p, repo, 14, x) && Gate(p, repo, 14)
    ensures AsExpected(p, repo, 15, Next(p, x, Perform))
  {
    hide IsPromotion, Allowed, SourceComplete, WorkflowWritable, Copied;
    assert PLAN[14] == PushMain;
    WorkIsPromoted(p, repo, x);
    PushStepKnows(p, x);
    assert x.ws.catalogChanged == (x.ws.work != Head(x.ws.base));
  }

  lemma {:induction false} TagGate(p: Promotion, repo: Repo, x: World)
    requires AsExpected(p, repo, 15, x) && Gate(p, repo, 15)
    ensures AsExpected(p, repo, 16, Next(p, x, Perform))
  {
    hide IsPromotion, Allowed, WorkflowWritable, Copied;
    assert PLAN[15] == TagIfAbsent;
    WorkIsPromoted(p, repo, x);
    PushStepKnows(p, x);
    assert x.ws.history == PromotedHistory(p, repo.history) != [];
  }

  lemma {:induction false} DeadGate(p: Promotion, repo: Repo, n: nat, x: World)
    requires AsExpected(p, repo, n, x) && !Gate(p, repo, n)
    ensures AsExpected(p, repo, n + 1, Next(p, x, Perform))
  {
    assert !Gate(p, repo, n + 1);
  }

  lemma {:induction false} StepGoes(p: Promotion, repo: Repo, n: nat, x: World)
    requires n < |PLAN| && AsExpected(p, repo, n, x)
    ensures AsExpected(p, repo, n + 1, Next(p, x, Perform))
  {
    if !Gate(p, repo, n) { DeadGate(p, repo, n, x); }
    else if n < 6 { EarlyGate(p, repo, n, x); }
    else if n < 8 { CopyGate(p, repo, n, x); }
    else if n == 8 { WorkflowGate(p, repo, x); }
    else if n == 9 { StampGate(p, repo, x); }
    else if n == 10 { AllowlistGate(p, repo, x); }
    else if n < 14 { CommitGate(p, repo, n, x); }
    else if n == 14 { PushGate(p, repo, x); }
    else { TagGate(p, repo, x); }
  }

  lemma {:induction false} AttemptGoes(p: Promotion, repo: Repo, n: nat)
    requires n <= |PLAN|
    ensures AsExpected(p, repo, n, Attempt(p, repo, n))
  {
    if n == 0 {
      assert Gate(p, repo, 0);
    } else {
      AttemptGoes(p, repo, n - 1);
      StepGoes(p, repo, n - 1, Attempt(p, repo, n - 1));
    }
  }

  /** A run is complete exactly when everything a promotion needs is there; until its push a run leaves the
      catalog alone, and one that is refused, by the allowlist or before, leaves it alone for good. */
  lemma {:induction false} CompletesIff(p: Promotion, repo: Repo, n: nat)
    requires n <= |PLAN|
    ensures var x := Attempt(p, repo, |PLAN|); x.alive && x.done == |PLAN| <==> Promotable(p, repo)
    ensures Attempt(p, repo, n).repo == if Promotable(p, repo) then Landed(p, repo, n) else repo
  {
    AttemptGoes(p, repo, |PLAN|);
    AttemptGoes(p, repo, n);
  }

  /** What a complete run leaves: main's tree is the promotion of what it was, with at most one commit
      more, and the version's tag is there, at that tree unless it existed before. */
  lemma {:induction false} CompleteRunPromotes(p: Promotion, repo: Repo)
    requires Promotable(p, repo)
    ensures var x := Attempt(p, repo, |PLAN|).repo;
            && IsPromotion(p.release.value.tree, p.version, Head(repo.history), Head(x.history))
            && repo.history <= x.history && |x.history| <= |repo.history| + 1
            && x.tags.Keys == repo.tags.Keys + {TagOf(p)}
            && (TagOf(p) !in repo.tags ==> x.tags[TagOf(p)] == |x.history|)
            && forall t :: t in repo.tags ==> x.tags[t] == repo.tags[t]
  {
    CompletesIff(p, repo, |PLAN|);
    var source := p.release.value.tree;
    StampableIff(source, Head(repo.history));
    CopiedIsPromotion(source, p.version, Head(repo.history), Copied(source, Head(repo.history)));
  }

  // ---- the promoted tree and the conditions, path by path and member by member ----

  predicate InShell(path: string) { ".claude-plugin/" <= path || "commands/" <= path || "bin/" <= path }

  /** The stamped plugin manifest: the version is the promoted one, the two members that name a source commit are gone,
      and every other member is the release's. */
  ghost predicate PluginReleased(f: File, release: File, version: string) {
    && f.Plugin? && release.Plugin?
    && "version" in f.fields && f.fields["version"] == version
    && "sourceCommit" !in f.fields && "metadata" !in f.fields
    && forall key :: key != "version" && key != "sourceCommit" && key != "metadata" ==>
         (key in f.fields <==> key in release.fields)
         && (key in f.fields ==> f.fields[key] == release.fields[key])
  }

  /** The stamped marketplace: its first entry has the version and points at the catalog itself, and everything else
      is the release's. */
  ghost predicate MarketplaceReleased(f: File, release: File, version: string) {
    && f.Marketplace? && release.Marketplace? && f.rest == release.rest
    && 0 < |f.plugins| == |release.plugins| && f.plugins[1..] == release.plugins[1..]
    && "version" in f.plugins[0] && f.plugins[0]["version"] == version
    && "source" in f.plugins[0] && f.plugins[0]["source"] == "./"
    && forall key :: key != "version" && key != "source" ==>
         (key in f.plugins[0] <==> key in release.plugins[0])
         && (key in f.plugins[0] ==> f.plugins[0][key] == release.plugins[0][key])
  }

  /** `after` holds the release's shell with both manifests stamped, the release's workflow template as its workflow,
      and of `before` everything that is neither in the shell nor stands where a directory of it must be. */
  ghost predicate IsReleased(source: Tree, version: string, before: Tree, after: Tree) {
    && (forall path :: path in after <==>
          if InShell(path) then path in source
          else path == ".github/workflows/ci.yml"
               || (path in before && path !in {".claude-plugin", "commands", "bin"}))
    && ".claude-plugin/plugin.json" in after && ".claude-plugin/plugin.json" in source
    && PluginReleased(after[".claude-plugin/plugin.json"], source[".claude-plugin/plugin.json"], version)
    && ".claude-plugin/marketplace.json" in after && ".claude-plugin/marketplace.json" in source
    && MarketplaceReleased(after[".claude-plugin/marketplace.json"], source[".claude-plugin/marketplace.json"], version)
    && "scripts/catalog/ci.yml" in source && ".github/workflows/ci.yml" in after
    && after[".github/workflows/ci.yml"] == source["scripts/catalog/ci.yml"]
    && forall path :: path in after && path !in {".claude-plugin/plugin.json", ".claude-plugin/marketplace.json",
                                                 ".github/workflows/ci.yml"} ==>
         after[path] == if InShell(path) then source[path] else before[path]
  }

  lemma {:induction false} StampsRelease(source: Tree, version: string)
    requires Stampable(source)
    ensures PluginReleased(StampPlugin(source[PLUGIN], version), source[PLUGIN], version)
    ensures MarketplaceReleased(StampMarketplace(source[MARKETPLACE], version), source[MARKETPLACE], version)
  {
    var entry := source[MARKETPLACE].plugins[0];
    assert "version"[0] == 'v' && "source"[0] == 's' && "metadata"[0] == 'm' && "sourceCommit"[0] == 's';
    assert ([entry["source" := "./"]["version" := version]] + source[MARKETPLACE].plugins[1..])[1..]
        == source[MARKETPLACE].plugins[1..];
  }

  lemma {:induction false} ShellIs(path: string)
    ensures Shell(path) <==> InShell(path)
    ensures ShellRoot(path) <==> path in {".claude-plugin", "commands", "bin"}
  {
    assert ".claude-plugin" + "/" == ".claude-plugin/" && "commands" + "/" == "commands/" && "bin" + "/" == "bin/";
  }

  lemma {:induction false} ReleasedPath(source: Tree, version: string, before: Tree, after: Tree, path: string)
    requires IsPromotion(source, version, before, after)
    ensures path in after <==>
      if InShell(path) then path in source
      else path == WORKFLOW || (path in before && path !in {".claude-plugin", "commands", "bin"})
    ensures path in after && path !in {PLUGIN, MARKETPLACE, WORKFLOW} ==>
      after[path] == if InShell(path) then source[path] else before[path]
  {
    hide StampPlugin, StampMarketplace, Stampable, InShell, Shell, ShellRoot;
    ShellIs(path);
    PathFacts();
    assert path in after <==> HasPath(source, before, path);
    if path in after { assert HasContent(source, version, before, after, path); }
  }

  lemma {:induction false} ReleasedManifests(source: Tree, version: string, before: Tree, after: Tree)
    requires IsPromotion(source, version, before, after)
    ensures PLUGIN in after && PLUGIN in source && PluginReleased(after[PLUGIN], source[PLUGIN], version)
    ensures MARKETPLACE in after && MARKETPLACE in source
         && MarketplaceReleased(after[MARKETPLACE], source[MARKETPLACE], version)
    ensures TEMPLATE in source && WORKFLOW in after && after[WORKFLOW] == source[TEMPLATE]
  {
    PathFacts();
    StampableHasManifests(source);
    StampsRelease(source, version);
    hide StampPlugin, StampMarketplace, PluginReleased, MarketplaceReleased, Stampable, Shell, ShellRoot;
    assert HasPath(source, before, PLUGIN) && HasPath(source, before, MARKETPLACE) && HasPath(source, before, WORKFLOW);
    assert HasContent(source, version, before, after, PLUGIN);
    assert HasContent(source, version, before, after, MARKETPLACE);
    assert HasContent(source, version, before, after, WORKFLOW);
  }

  lemma {:induction false} PromotionReleases(source: Tree, version: string, before: Tree, after: Tree)
    requires IsPromotion(source, version, before, after)
    ensures IsReleased(source, version, before, after)
  {
    hide *;
    ReleasedManifests(source, version, before, after);
    forall path
      ensures path in after <==>
        if InShell(path) then path in source
        else path == WORKFLOW || (path in before && path !in {".claude-plugin", "commands", "bin"})
      ensures path in after && path !in {PLUGIN, MARKETPLACE, WORKFLOW} ==>
        after[path] == if InShell(path) then source[path] else before[path]
    {
      ReleasedPath(source, version, before, after, path);
    }
    Released(source, version, before, after);
  }

  lemma {:induction false} Released(source: Tree, version: string, before: Tree, after: Tree)
    requires PLUGIN in after && PLUGIN in source && PluginReleased(after[PLUGIN], source[PLUGIN], version)
    requires MARKETPLACE in after && MARKETPLACE in source
          && MarketplaceReleased(after[MARKETPLACE], source[MARKETPLACE], version)
    requires TEMPLATE in source && WORKFLOW in after && after[WORKFLOW] == source[TEMPLATE]
    requires forall path :: path in after <==>
      if InShell(path) then path in source
      else path == WORKFLOW || (path in before && path !in {".claude-plugin", "commands", "bin"})
    requires forall path :: path in after && path !in {PLUGIN, MARKETPLACE, WORKFLOW} ==>
      after[path] == if InShell(path) then source[path] else before[path]
    ensures IsReleased(source, version, before, after)
  {
    hide InShell, PluginReleased, MarketplaceReleased;
  }

  lemma {:induction false} StampableHasManifests(source: Tree)
    requires Stampable(source)
    ensures PLUGIN in source && MARKETPLACE in source
  {
  }

  lemma {:induction false} HeadIs(history: seq<Commit>)
    ensures Head(history) == if history == [] then map[] else history[|history| - 1].tree
  {
  }

  lemma {:induction false} SourceIs(source: Tree)
    ensures SourceComplete(source) <==>
      && (exists path :: path in source && ".claude-plugin/" <= path)
      && (exists path :: path in source && "commands/" <= path)
      && (exists path :: path in source && "bin/" <= path)
      && "scripts/catalog/ci.yml" in source
    ensures Stampable(source) <==>
      && ".claude-plugin/plugin.json" in source && source[".claude-plugin/plugin.json"].Plugin?
      && ".claude-plugin/marketplace.json" in source && source[".claude-plugin/marketplace.json"].Marketplace?
      && source[".claude-plugin/marketplace.json"].plugins != []
  {
    assert ".claude-plugin" + "/" == ".claude-plugin/" && "commands" + "/" == "commands/" && "bin" + "/" == "bin/";
  }

  lemma {:induction false} CatalogIs(head: Tree)
    ensures WorkflowWritable(head) <==>
      && ".github" !in head && ".github/workflows" !in head
      && forall path :: path in head ==> !(".github/workflows/ci.yml/" <= path)
    ensures (forall path :: path in head ==> AllowedPath(path) || ShellRoot(path)) <==>
      forall path :: path in head ==>
        InShell(path) || ".github/workflows/" <= path
        || path in {"marketplace.json", "README.md", ".claude-plugin", "commands", "bin"}
  {
    assert WORKFLOW + "/" == ".github/workflows/ci.yml/";
    hide Shell, ShellRoot, InShell;
    forall path
      ensures AllowedPath(path) || ShellRoot(path) <==>
        InShell(path) || ".github/workflows/" <= path
        || path in {"marketplace.json", "README.md", ".claude-plugin", "commands", "bin"}
    {
      ShellIs(path);
    }
  }

  /** A run completes exactly under these conditions, all of which its inputs show before it starts. */
  lemma {:induction false} CompletesExactlyWhen(p: Promotion, repo: Repo)
    ensures var x := Attempt(p, repo, 16);
      var head: Tree := if repo.history == [] then map[] else repo.history[|repo.history| - 1].tree;
      x.alive && x.done == 16 <==>
        && (p.verifyRegistry ==> p.registry == p.version)
        && p.release.Some? && p.release.value.commit != ""
        && var source := p.release.value.tree;
           && (exists path :: path in source && ".claude-plugin/" <= path)
           && (exists path :: path in source && "commands/" <= path)
           && (exists path :: path in source && "bin/" <= path)
           && "scripts/catalog/ci.yml" in source
           && ".claude-plugin/plugin.json" in source && source[".claude-plugin/plugin.json"].Plugin?
           && ".claude-plugin/marketplace.json" in source && source[".claude-plugin/marketplace.json"].Marketplace?
           && source[".claude-plugin/marketplace.json"].plugins != []
           && ".github" !in head && ".github/workflows" !in head
           && (forall path :: path in head ==> !(".github/workflows/ci.yml/" <= path))
           && forall path :: path in head ==>
                InShell(path) || ".github/workflows/" <= path
                || path in {"marketplace.json", "README.md", ".claude-plugin", "commands", "bin"}
  {
    CompletesIff(p, repo, 16);
    HeadIs(repo.history);
    if p.release.Some? { SourceIs(p.release.value.tree); }
    CatalogIs(Head(repo.history));
    hide Attempt, Shell, ShellRoot, InShell, SourceComplete, Stampable, WorkflowWritable, AllowedPath;
  }

  /** What a complete run leaves, in those terms: on main, with the commit's message, and at the tag it makes. */
  lemma {:induction false} CompleteRunReleases(p: Promotion, repo: Repo)
    requires Attempt(p, repo, 16).alive && Attempt(p, repo, 16).done == 16
    ensures var x, tag := Attempt(p, repo, 16).repo, "v" + p.version;
      && p.release.Some? && x.history != []
      && IsReleased(p.release.value.tree, p.version, Head(repo.history), x.history[|x.history| - 1].tree)
      && (x.history == repo.history
          || x.history == repo.history
               + [Commit(x.history[|x.history| - 1].tree,
                         "chore: promote sapwood v" + p.version + " from " + p.release.value.commit)])
      && tag in x.tags && (tag !in repo.tags ==> x.tags[tag] == |x.history|)
  {
    CompletesIff(p, repo, 16);
    CompleteRunPromotes(p, repo);
    PromotionReleases(p.release.value.tree, p.version, Head(repo.history), Head(Attempt(p, repo, 16).repo.history));
    hide IsPromotion, IsReleased, Attempt;
    StampableIff(p.release.value.tree, Head(repo.history));
    EmptyIsNoRelease(p.release.value.tree, p.version, Head(repo.history));
  }

  lemma {:induction false} EmptyIsNoRelease(source: Tree, version: string, before: Tree)
    ensures !IsReleased(source, version, before, map[])
  {
  }

  /** Under every interleaving the commit that a new tag of the version points at holds the release so stamped. */
  lemma {:induction false} NewTagIsReleased(p: Promotion, repo: Repo, actions: seq<Action>)
    requires "v" + p.version !in repo.tags
    ensures var x, tag := Run(p, World(repo, EMPTY_WORKSPACE, 0, false), actions).repo, "v" + p.version;
      tag in x.tags ==>
        && p.release.Some? && 1 <= x.tags[tag] <= |x.history|
        && var tree := x.history[x.tags[tag] - 1].tree;
           IsReleased(p.release.value.tree, p.version, tree, tree)
  {
    PromotionsAreSafe(p, repo, actions);
    hide Run, IsPromotion, IsReleased;
    var x, tag := Run(p, World(repo, EMPTY_WORKSPACE, 0, false), actions).repo, "v" + p.version;
    if tag in x.tags {
      var tree := x.history[x.tags[tag] - 1].tree;
      PromotionReleases(p.release.value.tree, p.version, tree, tree);
    }
  }

  // ---- beside other people's pushes ----

  function Performs(n: nat): seq<Action> { seq(n, i => Perform) }

  /** A run is the machine's own steps after it has begun, whatever went on before. */
  lemma {:induction false} AttemptIsRun(p: Promotion, w: World, n: nat)
    ensures Run(p, w, [Begin] + Performs(n)) == Attempt(p, w.repo, n)
  {
    var actions := [Begin] + Performs(n);
    if n == 0 {
      assert actions == [] + [Begin];
      RunSnoc(p, w, [], Begin);
    } else {
      AttemptIsRun(p, w, n - 1);
      assert actions == ([Begin] + Performs(n - 1)) + [Perform];
      RunSnoc(p, w, [Begin] + Performs(n - 1), Perform);
    }
  }

  /** What others push to main stays on main, whatever runs come and die in between and after. */
  lemma {:induction false} OthersCommitsStay(p: Promotion, repo: Repo, actions: seq<Action>, k: nat)
    requires k < |actions| && actions[k].Outside?
    ensures actions[k].commit in Run(p, World(repo, EMPTY_WORKSPACE, 0, false), actions).repo.history
    decreases |actions|
  {
    var w, before, a := World(repo, EMPTY_WORKSPACE, 0, false), actions[..|actions| - 1], actions[|actions| - 1];
    if k == |actions| - 1 {
      assert Run(p, w, actions) == Next(p, Run(p, w, before), Outside(a.commit));
      var history := Run(p, w, before).repo.history;
      assert (history + [a.commit])[|history|] == a.commit;
    } else {
      OthersCommitsStay(p, repo, before, k);
      PromotionsAreSafe(p, repo, before);
      NextExtends(p, Run(p, w, before), a);
    }
  }

  /** A run that found nothing to change gets past its push, whatever others have pushed meanwhile. */
  lemma {:induction false} NothingToPushGoesOn(p: Promotion, w: World)
    requires Knows(p, w) && Running(w) && w.done == 14 && w.ws.work == Head(w.ws.base)
    ensures Next(p, w, Perform) == w.(done := 15)
  {
    hide IsPromotion, Allowed, SourceComplete;
    assert PLAN[14] == PushMain;
  }

  // ---- runs that died before ----

  function Attempts(p: Promotion, repo: Repo, lives: seq<nat>): Repo
    requires forall i :: 0 <= i < |lives| ==> lives[i] <= |PLAN|
    decreases |lives|
  {
    if lives == [] then repo
    else Attempt(p, Attempts(p, repo, lives[..|lives| - 1]), lives[|lives| - 1]).repo
  }

  /** A catalog that a run has reached promotes to the same result as before that run. */
  lemma {:induction false} LandedPromotesTheSame(p: Promotion, repo: Repo, n: nat)
    requires Promotable(p, repo)
    ensures Promotable(p, Landed(p, repo, n))
    ensures Landed(p, Landed(p, repo, n), 15) == Landed(p, repo, if n >= 16 then 16 else 15)
    ensures Landed(p, Landed(p, repo, n), 16) == Landed(p, repo, 16)
  {
    PathFacts();
    var source := p.release.value.tree;
    var head := Head(repo.history);
    StampableIff(source, head);
    CopiedIsPromotion(source, p.version, head, Copied(source, head));
    AllowedIff(p, head);
    var after := PromotedTree(p, head);
    if n >= 15 {
      assert Head(Landed(p, repo, n).history) == after;
      PromotedHeadIsWritable(source, p.version, head, after);
      PromotingAgainChangesNothing(source, p.version, head, after);
      StampableIff(source, after);
      CopiedIsPromotion(source, p.version, after, Copied(source, after));
      PromotionIsUnique(source, p.version, after, after, PromotedTree(p, after));
    }
  }

  lemma {:induction false} PromotedHeadIsWritable(source: Tree, version: string, head: Tree, after: Tree)
    requires IsPromotion(source, version, head, after) && WorkflowWritable(head)
    ensures WorkflowWritable(after)
  {
    hide Shell, ShellRoot, Under, HasContent;
    forall path | OnWorkflowPath(path) ensures path !in after {
      WorkflowPathIsNoShell(path);
      assert path in after <==> HasPath(source, head, path);
    }
    assert OnWorkflowPath(".github") && OnWorkflowPath(".github/workflows");
    assert forall path :: Under(WORKFLOW, path) ==> OnWorkflowPath(path);
  }

  /** Convergence: however many runs died, each after whatever number of steps, one complete run ends in the
      very catalog that a single undisturbed run would have left, without a second commit. */
  lemma {:induction false} PromotionConverges(p: Promotion, repo: Repo, lives: seq<nat>)
    requires forall i :: 0 <= i < |lives| ==> lives[i] <= |PLAN|
    ensures Attempt(p, Attempts(p, repo, lives), |PLAN|).repo == Attempt(p, repo, |PLAN|).repo
    ensures Promotable(p, Attempts(p, repo, lives)) <==> Promotable(p, repo)
    ensures !Promotable(p, repo) ==> Attempts(p, repo, lives) == repo
    ensures Promotable(p, repo) ==> exists n: nat :: Attempts(p, repo, lives) == Landed(p, repo, n)
    decreases |lives|
  {
    CompletesIff(p, repo, |PLAN|);
    if lives == [] {
      if Promotable(p, repo) { assert Attempts(p, repo, lives) == Landed(p, repo, 0); }
    } else {
      var before := Attempts(p, repo, lives[..|lives| - 1]);
      var life := lives[|lives| - 1];
      PromotionConverges(p, repo, lives[..|lives| - 1]);
      CompletesIff(p, before, life);
      if Promotable(p, repo) {
        var n: nat :| before == Landed(p, repo, n);
        LandedPromotesTheSame(p, repo, n);
        var reached := if life < 15 then n else if life == 15 && n < 16 then 15 else 16;
        assert Attempts(p, repo, lives) == Landed(p, repo, reached);
        LandedPromotesTheSame(p, repo, reached);
      }
      CompletesIff(p, Attempts(p, repo, lives), |PLAN|);
    }
  }

  // ---- the promote command ----

  /** The catalog's remote repository, which a promotion's pushes update in place. */
  class Remote {
    var history: seq<Commit>
    var tags: map<string, nat>

    constructor (repo: Repo)
      ensures State() == repo
    {
      history, tags := repo.history, repo.tags;
    }

    function State(): (repo: Repo)
      reads this
    {
      Repo(history, tags)
    }

    /** Runs the plan step by step until it ends, throws, or dies after `life` steps. */
    method Promote(p: Promotion, life: nat) returns (completed: bool)
      requires life <= |PLAN|
      modifies this
      ensures State() == Attempt(p, old(State()), life).repo
      ensures completed <==> life == |PLAN| && Promotable(p, old(State()))
    {
      ghost var before := State();
      var ws := EMPTY_WORKSPACE;
      for i := 0 to life
        invariant GotTo(p, before, i, State(), ws)
      {
        var after := Effect(p, PLAN[i], State(), ws);
        if after.None? {
          StoppedFor(p, before, i, life, ws);
          return false;
        }
        StepGotTo(p, before, i, State(), ws, after.value);
        history, tags, ws := after.value.repo.history, after.value.repo.tags, after.value.ws;
      }
      completed := life == |PLAN|;
      CompletesIff(p, before, |PLAN|);
    }
  }

  ghost predicate GotTo(p: Promotion, before: Repo, i: nat, repo: Repo, ws: Workspace) {
    Attempt(p, before, i) == World(repo, ws, i, true)
  }

  lemma {:induction false} StepGotTo(p: Promotion, before: Repo, i: nat, repo: Repo, ws: Workspace, after: State)
    requires i < |PLAN| && GotTo(p, before, i, repo, ws) && Effect(p, PLAN[i], repo, ws) == Some(after)
    ensures GotTo(p, before, i + 1, after.repo, after.ws)
  {
  }

  lemma {:induction false} StoppedFor(p: Promotion, repo: Repo, i: nat, life: nat, ws: Workspace)
    requires i < life <= |PLAN| && GotTo(p, repo, i, Attempt(p, repo, i).repo, ws)
    requires Effect(p, PLAN[i], Attempt(p, repo, i).repo, ws).None?
    ensures Attempt(p, repo, life).repo == Attempt(p, repo, i).repo && !Promotable(p, repo)
  {
    assert Attempt(p, repo, i + 1) == Attempt(p, repo, i).(alive := false);
    DeadStays(p, repo, i + 1, life);
    DeadStays(p, repo, i + 1, |PLAN|);
    CompletesIff(p, repo, |PLAN|);
  }

  lemma {:induction false} DeadStays(p: Promotion, repo: Repo, i: nat, n: nat)
    requires i <= n && !Attempt(p, repo, i).alive
    ensures Attempt(p, repo, n) == Attempt(p, repo, i)
    decreases n - i
  {
    if i < n { DeadStays(p, repo, i, n - 1); }
  }
}
