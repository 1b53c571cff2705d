# A verified model of sapwood's ledger views, release tooling and run flags

sapwood drives coding agents in rounds and records what happens in two append-only ledgers, events and
spend. This project models the parts of it whose behaviour spans many steps, and proves what they promise:

* **The event ledger and its readers** (`Rows`, `Events`, `Copy`, `Entities`, `Feed`, `Paging`, `Polling`,
  `SpendPolling`, `Probe`, `EventsCommand`): the keyed open/close machine behind the needs-attention strip, the
  first-wins title fold, the server's pages, the browser's bounded window with its two unbounded folds, the
  operator's one-shot probe and the CLI's cursor read. A run is any interleaving of appends, questions, answers that
  arrive late, and re-deliveries.
* **The release tooling** (`SemVer`, `Precedence`, `ReleaseVersions`, `Changelog`, `Publish`, `Catalog`):
  SemVer 2.0.0 text and precedence, the changelog transformation with its readers, the eight-step publish
  with any number of processes in any number of clones, and catalog promotion that may die between any two
  of its steps.
* **The CLI's flag passes** (`RunFlags`): the staged parse of `sapwood run` and the full parse that
  recomputes the stop configuration.
* **Graph, partition and grouping algorithms** (`Links`, `Spending`, `Rounds`, `RoundLog`, `Navigator`,
  `Dismissals`, `Cost`, `Stages`): link-graph reachability, cutting the ledgers into rounds, the round
  navigator, the crash-tolerant dismissal log and the cost panel's sums.

Loops of the source are methods proved against a specification function or an outright property; the
dismissal file and the catalog's remote, which the source updates in place, are classes. Rules that the
source writes as expressions are functions, and what is promised about them is stated in lemmas. Tables, keys,
paths, flags and character classes are stated a second time in those lemmas as literals, on the outcome of the
whole operation and without the functions that compute it. Every lemma carries `{:induction false}`, so each proof
is what its body says.

## Where the code and its promises part

The model follows the code. These are the places where a promise holds only under a condition, which the lemmas
state exactly.

* `dashboard/src/api/queries.ts:207` calls the accumulation idempotent because it removes duplicates by id. It looks
  for duplicates only in the bounded window, so folding an answer twice is folding it once exactly when the window
  has room for all of it or it brought nothing new (`Polling.FoldedTwiceIff`). The dashboard keeps the promise in
  every state of every run: its cap of 2000 holds the server's largest page of 1000 (`Polling.FoldingIsIdempotent`),
  and so does the spend ledger's (`SpendPolling.SpendFoldingIsIdempotent`). The exported function itself, given a
  stale page that the polling hook never passes, lets an aged-out row take its key again
  (`Feed.StaleRowReopens`, `Feed.AgedOutRedeliveryReopens`).
* A park episode caused by the LLM may hold two rows before it is cleared, as the source says. When neither row is
  closed or reopened later, both are open exactly when the park came first and found no empty-spin row
  (`Entities.LlmEpisodeTwoRowsIff`); `Entities.SpinAfterParkHoldsTwoRows` has the two events in both orders.
* `park-resumed` deletes only the bare key; a park row stored under an issue outlives it
  (`Entities.ParkResumedClosesIff`). The engine's park events carry no issue.
* `scripts/release.ts:804-811` says a pre-release never gets the `latest` dist-tag. It does exactly when its first
  identifier spells that word (`ReleaseVersions.LatestTagIff`), as 1.0.0-latest does
  (`ReleaseVersions.PrereleaseUnderLatest`).
* A substring test decides whether a version is a pre-release. It is right on every version the release
  commands accept; a hyphen in build metadata misleads it (`ReleaseVersions.IsPrereleaseIff`), as in 1.0.0+a-b
  (`ReleaseVersions.BuildHyphenMisleads`).
* `runPrepare` skips its comparison while the manifests are at 0.0.0, so the first release may be a pre-release
  of 0.0.0 itself, which is below it: `ReleaseVersions.ChainIncreasesIff` says exactly when, and
  `ReleaseVersions.FirstReleaseGoesBackwards` has the versions.
* Moving Unreleased to a version that has no earlier heading keeps the body exactly when the trimmed body does not
  open with `## `; else the new version's section reads as empty, as with an indented heading
  (`Changelog.IndentedHeadingIsLost`). When the version has an earlier heading, that section is still the one read,
  unchanged (`Changelog.MovedBodyIsVersionSection`). A body that opens with another version's heading, with none of
  it earlier, takes that version's section over (`Changelog.OwnHeadingTakesOver`).
* The publish pins the commit in its preconditions for the draft and the tag, but the Windows smoke waits for a run
  of HEAD as it is then. A pushed tag is on the commit its process had smoked exactly when that step found HEAD
  still at the pinned commit (`Publish.SmokeIsOfPinnedCommitIff`). A HEAD that moves by itself makes the step
  fail, because the workflow is started on main: the two commits differ only when both were on main during the run
  (`Publish.MismatchMeansMainMoved`). When main moves on and the clone follows it, a tag is pushed on a commit that
  was never smoked (`Publish.MovedHeadEscapesTheSmoke`).
* `resolveStopConfig` drops the error of its own parse. `--stop-after-issues --config X 3` passes the staged
  validation and then loses its stop condition (`RunFlags.SplitOperandLosesStop`).
  `RunFlags.ResolvedIsValidatedIff` says on exactly which accepted vectors the recomputed configuration is the
  validated one, and `RunFlags.NothingDroppedIff` on which no error is dropped.
* Stage bars show only the six listed phases and the leftover: they come to the whole ledger exactly when the rows
  in windows of other phases come to nothing (`Stages.StageBarsConserve`). Spend in a window of the terminal phase
  `closed` is in no bar (`Stages.ClosedSpendIsInNoBar`).

## Model

| member | source | states |
|---|---|---|
| Entities.StepAtKey | dashboard/src/entities.ts:155-211 | What one event does to one key: open afterwards exactly when this event opens it, or it was open and this event does not clear it; the row kept is the latest opening |
| Entities.OpenFoldIsIncremental | dashboard/src/entities.ts:155-157 | Folding a ledger page by page, seeding each fold with the last, is folding it once |
| Entities.OpenFoldIgnoresOrder | dashboard/src/entities.ts:155-157 | The open map does not depend on the order in which distinct rows arrive |
| Entities.OpenExactlyWhen | dashboard/src/entities.ts:155-211 | Over every ledger, a key is open exactly when some event opened it and no later event closed or reopened it, and its row is that event |
| Entities.ReceiptsClose | dashboard/src/entities.ts:163-190 | Over every ledger that ends with a receipt: which rows, by their literal keys, each of the four receipt kinds closes for each source, and that it closes nothing else |
| Entities.EventsSweepAndOpen | dashboard/src/entities.ts:191-209 | Over every ledger that ends with any other event: exactly the rows of its issue that an issue-wide clear sweeps, and the one row, by its literal key, that it then opens unless a breaker or an open empty-spin row already stands for it |
| Entities.BreakerRowIsOpenIff | dashboard/src/entities.ts:106-123 | Over every ledger, for each of the three pairs of park source and breaker row: the bare row is open exactly when since some opening of it neither its own park was resumed nor the row resolved by name; no other source's resumption touches it |
| Entities.WorktreeSurvivesSweep | dashboard/src/entities.ts:76-123 | A retained worktree's row survives every issue-wide clear |
| Entities.BreakerParkNeverOpens | dashboard/src/entities.ts:106-153 | After any ledger no park row stands beside the breaker that its episode is already shown under |
| Entities.LlmEpisodeTwoRowsIff | dashboard/src/entities.ts:125-153 | Over every ledger that neither closes nor reopens them, the empty-spin row is open and the LLM park's row beside it exactly when the park came first and found no empty-spin row |
| Entities.SpinAfterParkHoldsTwoRows | dashboard/src/entities.ts:125-153 | In that order they are, and in the other order there is one row |
| Entities.ParkResumedClosesIff | dashboard/src/entities.ts:155-211 | A resumed park closes a park row exactly when the row was stored without an issue |
| Entities.KeySeparatesIssues | dashboard/src/entities.ts:91-104 | Rows of different kinds or different issues never share a key |
| Entities.KeySeparatesWorktrees | dashboard/src/entities.ts:91-104 | Retained worktrees are told apart by path and never share a key with another kind |
| Text.IntTextReads | dashboard/src/entities.ts:95 | An issue number in a key is its decimal text, signed only when negative and without leading zeros |
| Entities.TitleFoldIsIncremental | dashboard/src/entities.ts:34-56 | Titles folded page by page are titles folded once |
| Entities.TitleFoldIgnoresOrder | dashboard/src/entities.ts:34-56 | The titles do not depend on arrival order |
| Entities.FirstTitleWins | dashboard/src/entities.ts:34-56 | Each issue has exactly the first title that any event bears, and the seed's titles are never overwritten |
| Entities.FoldEntityTitles | dashboard/src/entities.ts:34-56 | The loop over sorted events computes the title fold from any seed |
| Entities.SweepEntries | dashboard/src/entities.ts:155-211 | The sweep over a snapshot of the entries removes exactly the rows of the issue that are not exempt |
| Entities.FoldEvent | dashboard/src/entities.ts:155-211 | One iteration of the loop, branch by branch, is one step of the machine |
| Entities.FoldOpenAttention | dashboard/src/entities.ts:155-211 | The loop over sorted events computes the open fold from any seed |
| Entities.OverlayHidesOccurrences | dashboard/src/entities.ts:215-218 | The overlay keeps exactly the open rows whose own event id is not dismissed |
| Feed.RedeliveryIsNoOpIff | dashboard/src/api/queries.ts:145-177 | A re-delivered page changes nothing exactly when its rows are all still in the window and its cursor is not ahead |
| Feed.SpendRedeliveryIsNoOpIff | dashboard/src/api/queries.ts:253-259 | The same of a spend page |
| Feed.StaleRowReopens | dashboard/src/api/queries.ts:145-177 | Under every display cap the exported function, given an opening event that the window no longer holds, puts it under its key again, whatever came later |
| Feed.AgedOutRedeliveryReopens | dashboard/src/api/queries.ts:145-177 | Three calls of the exported function, the last with a stale page that the polling hook never passes, in which a closed emergency stop comes back |
| Feed.SliceFromEndIs | dashboard/src/replay/reducer.ts:70 | How many of the newest rows a display cap keeps, whatever the cap |
| Paging.ReplyIs | dashboard/server.ts:262-289 | A malformed cursor or limit is refused; any other query is answered with the rows just past its cursor, as many as the least of the limit (500 when absent), 1000 and what is left, and with a cursor that leads to the last of them |
| Paging.AfterIs | engine/src/state/state.ts:4187 | The rows past a cursor are the end of the ledger from the first greater id on |
| Polling.RunIsFaithful | dashboard/src/api/queries.ts:145-177 | In every state of every run of appends, questions, late answers and re-deliveries the open map and the titles are one fold of the ledger up to the cursor, whatever the display cap, and the window is the last rows of it |
| Polling.CursorNeverMovesBack | dashboard/src/api/queries.ts:145-177 | The cursor never moves back over any run |
| Polling.RoundIsPossible | dashboard/src/api/queries.ts:36-40 | In every state of every run the client can ask at its cursor with any well-formed limit and fold the very answer |
| Polling.CaughtUpIff | dashboard/server.ts:281-290 | Over every run, n rounds of asking at the cursor and folding the answer reach the tail exactly when n pages of the served size cover what was left |
| Polling.FoldedTwiceIff | dashboard/src/api/queries.ts:204-210 | In every state of every run, folding an answer twice is folding it once exactly when the window has room for all of it or it brought nothing new |
| Polling.FoldingIsIdempotent | dashboard/src/api/queries.ts:204-210 | Under a cap that holds the server's largest page the accumulation is idempotent in every state of every run |
| Paging.SpendPageKeepsWindow | dashboard/src/api/queries.ts:253-259 | Every deliverable page keeps the spend window at exactly the last rows at or below the cursor, with no gap and no repeat |
| SpendPolling.SpendRunIsFaithful | dashboard/src/api/queries.ts:253-259 | In every state of every run from the empty history the spend rows are exactly the last ledger rows at or below the cursor |
| SpendPolling.SpendCursorNeverMovesBack | dashboard/src/api/queries.ts:253-259 | The spend cursor never moves back over any run |
| SpendPolling.SpendFoldedTwiceIff | dashboard/src/api/queries.ts:261-275 | In every state of every run, folding a spend answer twice is folding it once exactly when the window has room for all of it or it brought nothing new |
| SpendPolling.SpendFoldingIsIdempotent | dashboard/src/api/queries.ts:261-275 | Under a cap that holds the server's largest page the spend accumulation is idempotent in every state of every run |
| SpendPolling.SpendCaughtUpIff | dashboard/server.ts:281-290 | Over every run, n rounds reach the spend ledger's tail exactly when n pages of the served size cover what was left |
| Probe.ReadAllEvents | dashboard/src/fold-open-attention.ts:51-60 | Paging until a page comes back empty ends and gathers the whole ledger |
| Probe.CaughtUpAgreesWithProbe | dashboard/src/fold-open-attention.ts:44-49 | In every run a client that has caught up shows exactly the rows that the probe's fold of the whole ledger counts |
| EventsCommand.RunEvents | engine/src/cli.ts:1348-1381 | A call past a cursor hands out the first `limit` matches in id order and a next cursor that never moves back and skips no match; a tail call hands out the newest `n` matches and the ledger's head |
| EventsCommand.FollowerReceivesExactly | engine/src/cli.ts:1348-1381 | Over any interleaving of appends and polls a follower holds every matching event up to its cursor exactly once and in id order, across empty pages included |
| EventsCommand.TailZeroStartsNow | engine/src/cli.ts:1348-1381 | A follower started from a tail of zero receives exactly the matching events committed after that snapshot |
| EventsCommand.DrainedIff | engine/src/cli.ts:1348-1381 | With no writer n calls have delivered every match exactly when n pages cover them |
| SemVer.ParseThenPrint | scripts/release.ts:48-65 | Printing a parsed version gives the text back, and without build metadata the part before the plus sign |
| SemVer.PrintThenParse | scripts/release.ts:48-65 | Parsing a printed well-formed version gives it back |
| SemVer.ParsesIff | scripts/release.ts:21-27 | The pattern accepts exactly the written forms of versions whose parts obey the grammar of SemVer 2.0.0, sections 2, 9 and 10, character by character |
| Precedence.NumericCompareIsValue | scripts/release.ts:74-87 | Length then text is numeric order on digit strings of any length without leading zeros |
| Precedence.ValueIsDecimal | scripts/release.ts:74-87 | That number is the one the decimal digits read as |
| Precedence.IdentifierOrder | scripts/release.ts:74-87 | Identifiers compare as section 11.4 of SemVer 2.0.0 orders them, and tie only when equal |
| Precedence.PrereleaseOrder | scripts/release.ts:89-111 | The comparison of identifier lists is section 11.4's order |
| Precedence.CompareSemver | scripts/release.ts:89-111 | The loop over shared fields computes the comparison, or fails when a text does not parse |
| Precedence.CompareIsPrecedence | scripts/release.ts:89-111 | The sign of the comparison is section 11's precedence, and it is zero exactly on versions equal up to build metadata |
| Precedence.CompareTransitive | scripts/release.ts:89-111 | The comparison is transitive, strictly as soon as one step is strict |
| ReleaseVersions.IsPrereleaseIff | scripts/release.ts:30-45 | When the substring test says pre-release; on every accepted release version it is right |
| ReleaseVersions.BuildHyphenMisleads | scripts/release.ts:43-45 | A release whose build metadata holds a hyphen is taken for a pre-release |
| ReleaseVersions.PrepareAcceptsIff | scripts/release.ts:853-875 | Prepare accepts exactly the release versions that come after the current one in section 11's order, and any of them while the current one is 0.0.0 |
| ReleaseVersions.AcceptedIncreasesIff | scripts/release.ts:853-875 | A version accepted by prepare is above the current one exactly when the current one is not 0.0.0 or the new core is not |
| ReleaseVersions.ChainIncreasesIff | scripts/release.ts:853-875 | A chain of accepted versions is strictly increasing between any two exactly when its first release does not keep the 0.0.0 core |
| ReleaseVersions.FirstReleaseGoesBackwards | scripts/release.ts:853-875 | From 0.0.0 every pre-release of 0.0.0 is accepted and is below it |
| ReleaseVersions.LatestTagIff | scripts/release.ts:812-831 | The dist-tag is `latest` exactly for plain releases and for pre-releases whose first identifier spells it |
| ReleaseVersions.DistTagIs | scripts/release.ts:812-831 | The whole rule: no tag for a text that is not a release version, `latest` for a plain release, a purely alphabetic first identifier in small letters for a pre-release, `next` for any other |
| ReleaseVersions.PrereleaseUnderLatest | scripts/release.ts:812-831 | A pre-release that is published under `latest` |
| Changelog.MovedUnreleasedIsEmpty | scripts/release.ts:227-236 | The move leaves an empty Unreleased body |
| Changelog.MovedBodyIsVersionSection | scripts/release.ts:227-243 | Without an earlier heading of it the new version's extracted section is the old Unreleased body exactly when that body does not open with a heading; with one, that earlier section is extracted as before |
| Changelog.IndentedHeadingIsLost | scripts/release.ts:204-243 | A changelog whose Unreleased body is an indented heading loses it to every version it is moved to |
| Changelog.OtherSectionsUnchanged | scripts/release.ts:227-243 | Every other version's extracted section stays as it was, unless the body opens with its heading and none comes earlier |
| Changelog.OwnHeadingTakesOver | scripts/release.ts:227-243 | In that case the moved body becomes that version's section; a version that had none gains one |
| Changelog.MoveIsFaithful | scripts/release.ts:183-243 | The three together, from the raw file text with its line endings normalised |
| Changelog.SectionCutIs | scripts/release.ts:187-209 | A section is found exactly when its heading stands on a line, and is cut at the first such line, at that line's end and at the next second-level heading |
| Changelog.TrimExactly | scripts/release.ts:208 | Trimming cuts white space off both ends, all of it and nothing else |
| Changelog.ReadsAndWrites | scripts/release.ts:211-243 | What the two readers return of those pieces, and the rewritten text with its fresh heading, the version's heading with its date, and the body |
| Changelog.CrlfReadsTheSame | scripts/release.ts:183-185 | A changelog is read and rewritten the same with either kind of line end |
| Publish.NextKeepsInv | scripts/release.ts:691-803 | Every action of the world, a step that dies before or after its effect included, keeps what a process's progress says about drafts, tags, smoke runs and CI |
| Publish.PushedTagIsBacked | scripts/release.ts:691-803 | Over every run of any number of processes a pushed tag has a draft whose target is the tagged commit and a passed smoke run, and a promoted tag was published by CI from that commit |
| Publish.PushedTagNeverMoves | scripts/release.ts:328-362 | A pushed tag stays at its commit whatever happens later |
| Publish.TaggedVersionPerformsNothing | scripts/release.ts:328-362 | Once the tag exists locally or remotely no later publish of that version comes to perform a step there |
| Publish.EveryProcessBegan | scripts/release.ts:337-362 | Over every run each process began in an earlier world in which its clone was clean and at main on the pinned commit, the commit's manifests, lockfile and changelog agreed on its version, not 0.0.0, and the tag stood nowhere |
| Publish.BeginIff | scripts/release.ts:337-362 | In such a world, and only in such a world, beginning a publish adds the process; in any other it changes nothing |
| Publish.EveryTagWasPushed | scripts/release.ts:691-803 | Every tag on origin was pushed by a process of the run, after a smoke step of that process |
| Publish.SmokeIsOfPinnedCommitIff | scripts/release.ts:627-650 | Over every run, a pushed tag is on the commit its process had smoked exactly when that process's smoke step found HEAD at the commit pinned by the preconditions |
| Publish.MismatchMeansMainMoved | scripts/release.ts:627-650 | When the tagged and the smoked commit differ both were on main during the run |
| Publish.StandingMainSmokesTheTaggedCommit | scripts/release.ts:627-650 | While main stands still every pushed tag is on a smoked commit, wherever heads go |
| Publish.SteadyHeadsSmokeTheTaggedCommit | scripts/release.ts:627-650 | While no head moves under a live publish that has not smoked yet, every pushed tag is on a smoked commit |
| Publish.MovedHeadEscapesTheSmoke | scripts/release.ts:627-650 | From every world in which a publish may start, main moving on with the clone behind it ends in a pushed tag on a commit never smoked |
| Publish.RunPublish | scripts/release.ts:833-849 | One publish is the machine's own steps; a dry run changes nothing, nor does a world in which no publish may start, and success means that one may start and, past the dry run, that the tag is on origin at the checked commit, smoked, published, canaried and, with a catalog, promoted |
| Publish.UndisturbedPublish | scripts/release.ts:691-803 | From every world in which a publish may start there is a run, CI answering the pushed tag, in which it goes through and leaves exactly the tag, the draft with its target, the smoke run, the published version, the canary and, with a catalog, the promotion |
| Publish.FatesAre | scripts/release.ts:627-803 | When each of the eight steps works and when it throws, and what a process that dies right before or right after its effect leaves |
| Publish.AwaitRun | scripts/release.ts:627-649 | Polling finds the first listed run of the commit within its attempts, or there was none in any of them |
| Publish.WaitForReleaseWorkflow | scripts/release.ts:669-689 | The wait succeeds exactly when the first npm-publish job of the commit's run succeeded, whatever other jobs did |
| Catalog.PromotionIsUnique | scripts/release.ts:401-416 | What a promotion should leave determines the tree |
| Catalog.PromotingAgainChangesNothing | scripts/release.ts:423-566 | A promoted tree is a fixed point of promotion |
| Catalog.CopiedIsPromotion | scripts/release.ts:491-514 | Removing, copying and stamping put together exactly the tree a promotion aims at |
| Catalog.IndexIsWork | scripts/release.ts:528-533 | Staging the listed paths stages everything that differs |
| Catalog.PromotionsAreSafe | scripts/release.ts:423-566 | Under any interleaving of runs, deaths and pushes by others main only grows, no tag moves or appears but the version's own, and that one points at the stamped release |
| Catalog.OthersCommitsStay | scripts/release.ts:541-552 | What others push to main stays there under any interleaving with runs that come and die |
| Catalog.NothingToPushGoesOn | scripts/release.ts:541-552 | A run that found nothing to change gets past its push whatever others have pushed meanwhile |
| Catalog.CompletesIff | scripts/release.ts:423-566 | A run completes exactly when the registry, the tag, the source, the manifests and the allowlist allow it; a refused one never changes the catalog |
| Catalog.CompleteRunPromotes | scripts/release.ts:423-566 | A complete run leaves the promoted tree on main with at most one commit more and the tag present, an existing tag unmoved |
| Catalog.CompletesExactlyWhen | scripts/release.ts:371-566 | The conditions of completion path by path: registry, tag, shell and template of the release, both manifests, and the paths that the catalog's main may and may not hold |
| Catalog.CompleteRunReleases | scripts/release.ts:401-416 | After a complete run main's tree, member by member: plugin.json with the promoted version and without the two source members, the first marketplace entry with that version and the catalog as its source, everything else of the manifests and the shell as released, the workflow the release's template, all else as before; and the commit's message and the tag |
| Catalog.NewTagIsReleased | scripts/release.ts:401-416 | Under every interleaving the commit a new tag of the version points at holds the release so stamped |
| Catalog.PromotionConverges | scripts/release.ts:572-579 | After any number of runs that died anywhere, one complete run ends in the very catalog a single undisturbed run leaves |
| Catalog.Remote.Promote | scripts/release.ts:572-579 | The loop over the plan updates the remote as specified and reports completion exactly when it completed |
| RunFlags.ExtractFlag | engine/src/cli.ts:294-310 | The index loop, for the config and for the milestone flag, extracts the flag's last value and leaves the other tokens in order |
| RunFlags.ParseStopFlags | engine/src/cli.ts:331-362 | The stop pass with its validation of each value |
| RunFlags.PassesCommute | engine/src/cli.ts:294-391 | With operands directly after their flags each pass takes out its own flags and leaves the other tokens in order, the passes commute, and all read the same values |
| RunFlags.ResolvedIsValidated | engine/src/cli.ts:2281-2299 | On such accepted vectors the stop configuration recomputed from the full vector is the one validated stage by stage |
| RunFlags.NothingDroppedIff | engine/src/cli.ts:2281-2299 | On accepted vectors the recomputation meets no error exactly when every operand directly follows its flag |
| RunFlags.ResolvedIsValidatedIff | engine/src/cli.ts:2281-2299 | On accepted vectors the recomputed configuration is the validated one, whatever the file configures, exactly when no milestone flag is split and each stop flag's last operand before the first split stop flag has the value of its last operand of all |
| RunFlags.FlagsWin | engine/src/cli.ts:2277-2299 | On accepted adjacent vectors each resolved field is the value of its flag's last operand when the flag is given and the configured one otherwise; for the milestone the stop flag, then the milestone flag, then the file |
| RunFlags.DecisionIs | engine/src/cli.ts:294-391 | The whole decision on an adjacent vector, refusal by refusal in their order, in the vector's own tokens |
| RunFlags.SplitIsRefused | engine/src/cli.ts:294-310 | On any vector, which of the two single flags without its operand is refused |
| RunFlags.SplitOperandLosesStop | engine/src/cli.ts:2281-2299 | A vector on which a validated stop condition is lost |
| Links.CollectScope | scripts/check-links.ts:77-99 | Terminates and collects exactly the pages reachable from the seeds on disk; missing seeds come back apart |
| Links.ReachableIsLeastClosed | scripts/check-links.ts:77-99 | That set is the least one that holds the present seeds and is closed under existing Markdown links |
| Links.SeedsSplit | scripts/check-links.ts:79-80 | The seeds split into present and missing |
| Links.PushTargets | scripts/check-links.ts:88-96 | One page queues exactly its linked pages that are not yet in scope |
| Links.TargetIs | scripts/check-links.ts:49-51 | What a link destination leads to: up to the first space, without angle brackets, no URL, address or anchor, up to its anchor, and a Markdown file on disk |
| RoundLog.NextIsNeighbour | dashboard/src/replay/round-log.ts:15-18 | The ceiling's round is the neighbour in id order, whatever order the rounds come in |
| RoundLog.SortSplits | dashboard/src/demo/build-round-log.ts:31-41 | Sorting a log in one go is sorting each side of a cursor |
| RoundLog.SlicesPartitionIff | dashboard/src/demo/build-round-log.ts:26-46 | Slices between cursors put together give every sorted log back exactly when the cursors never fall |
| RoundLog.RoundsPartitionEvents | dashboard/src/demo/build-round-log.ts:26-46 | The rounds' event slices in round order are the id-sorted log past the first cursor |
| RoundLog.ExactlyOneRoundHolds | dashboard/src/demo/build-round-log.ts:26-46 | Every event past the first cursor lies in exactly one round, every other in none |
| RoundLog.ExactlyOneRoundHoldsSpend | dashboard/src/demo/build-round-log.ts:43-45 | Every spend row past the first cursor lies in exactly one round, every other in none |
| RoundLog.SpendIsConserved | dashboard/src/demo/build-round-log.ts:43-45 | The rounds' spend adds up to the ledger's past the first cursor |
| RoundLog.RoundSpendIsInTimeOrder | dashboard/src/demo/build-round-log.ts:43-45 | A round's spend comes in the order of its stamps, ties in ledger order |
| RoundLog.LoadRoundEvents | dashboard/src/replay/round-log.ts:31-50 | The paged loader ends, gathers the first `eventCount` events of the window however pages fall, and agrees with the in-memory slice when the count covers it |
| Navigator.StepLeftIs | dashboard/src/components/RoundNavigator.tsx:37-45 | Left goes to the newest older closed round, or stays put |
| Navigator.StepRightIs | dashboard/src/components/RoundNavigator.tsx:49-57 | Right goes to the oldest newer closed round, or to live |
| Navigator.RightUndoesLeftIff | dashboard/src/components/RoundNavigator.tsx:37-57 | Right undoes a left step that moved exactly when it left live or a closed round |
| Navigator.SelectionIsReplayable | dashboard/src/components/RoundNavigator.tsx:154-180 | Over every session from live, of clicks and refreshes, the selection is live or a closed round |
| Navigator.ClicksReach | dashboard/src/components/RoundNavigator.tsx:154-180 | One click reaches every closed round and live, and no click selects a round that is not closed |
| Navigator.RightUndoesLeft | dashboard/src/components/RoundNavigator.tsx:37-57 | In every such session right undoes each left step that moved |
| Navigator.LeftsVisitEachRound | dashboard/src/components/RoundNavigator.tsx:37-45 | Left steps from live visit each closed round once, newest first, and then stay put |
| Navigator.RightsReturnToLive | dashboard/src/components/RoundNavigator.tsx:49-57 | As many right steps lead back to live |
| Navigator.BuildRoundListEntries | dashboard/src/components/RoundNavigator.tsx:125-148 | Flattening the entries gives the rounds newest first; groups have two or more standby rounds and are maximal |
| Navigator.GroupingIsUnique | dashboard/src/components/RoundNavigator.tsx:125-148 | There is only one such grouping |
| Navigator.NewestFirstSorts | dashboard/src/components/RoundNavigator.tsx:126 | The list holds every round as often as it came, newest first |
| Dismissals.LinesSplitTheText | dashboard/src/attention-dismissals.ts:17 | The lines hold no newline and make up the text again |
| Dismissals.ReadsExactly | dashboard/src/attention-dismissals.ts:13-40 | A file dismisses exactly the ids that some line names with a whole number from 1 on, a kind of 1 to 100 characters and a stamp |
| Dismissals.AppendAddsExactly | dashboard/src/attention-dismissals.ts:42-52 | For any existing text an append adds exactly its id to what is read, and the old text stays a prefix |
| Dismissals.TornAppendKeepsIds | dashboard/src/attention-dismissals.ts:42-52 | An append cut off anywhere loses no id and invents none |
| Dismissals.DismissHidesExactly | dashboard/src/entities.ts:215-218 | The overlay then hides exactly that occurrence; a later reopening stays as visible as it was |
| Dismissals.DismissalFile.ReadIds | dashboard/src/attention-dismissals.ts:13-40 | The line loop reads exactly the valid records' ids |
| Dismissals.DismissalFile.Append | dashboard/src/attention-dismissals.ts:42-52 | The file afterwards; a repeated append changes nothing |
| Dismissals.DismissalFile.Dismiss | dashboard/server.ts:392-409 | A request is accepted exactly when its record would be read back; a refused one leaves the file alone |
| Cost.ModelCostBars | dashboard/src/cost-panel.ts:63-67 | One bar per model with that model's sum, largest first and equal sums in first-seen order, together all that was spent |
| Cost.SpendByWorkerForDay | dashboard/src/api/queries.ts:290-299 | One bar per lane with its worker and fix-leg rows of the day, in first-seen order, together exactly those rows |
| Stages.BucketSpendByPhase | dashboard/src/replay/spend-replay.ts:88-104 | One bucket per phase with its rows in order, the phases in first-seen order and the leftover last, all money kept |
| Cost.FirstSeenOrder | dashboard/src/cost-panel.ts:63-67 | The order in which a Map keeps its keys: by first occurrence, each once |
| Stages.StageBarsConserve | dashboard/src/cost-panel.ts:48-58 | From the ledger to the bars: the bars, the rows in windows of unlisted phases and, when some rows are in no window, those in windows of the leftover's own name make up the whole ledger; without such a name the bars are the whole exactly when the unlisted rows come to nothing |
| Stages.StageBarsShow | dashboard/src/cost-panel.ts:33-58 | The six bars by name with what their phase's rows cost, and last the leftover when there is one |
| Stages.FirstWindowDecides | dashboard/src/replay/spend-replay.ts:72-104 | A row is of the first window that covers its stamp, and of none when none does |
| Stages.ClosedSpendIsInNoBar | dashboard/src/cost-panel.ts:48-58 | Spend after the terminal phase began is bucketed and then shown by no bar |
| Stages.SpendThroughTs | dashboard/src/replay/spend-replay.ts:23-32 | The binary search cuts sorted rows exactly at the cursor |

## Left out

* React rendering, hooks, HTTP, SQLite, git, gh and npm themselves: the ledger is a sequence with strictly
  increasing ids, a git remote a record of commits and tags, and each foreign answer a parameter or a fate.
* The kind tables (which kinds carry attention, which clear an issue): a `Registry` parameter. The sentence
  table of `dashboard/src/copy.ts` is reduced to which kinds and payloads carry attention.
* JSON, number parsing and path joining: parameters, with the properties of JSON that the dismissal log relies
  on stated in `Dismissals.Faithful`.
* Iteration order of JavaScript objects: the open map is a map, so the order in which the strip lists its rows is
  not modelled. Where a JavaScript Map's order is visible, in the cost bars and buckets, it is stated.
* Property names inherited by plain JavaScript objects, beyond their effect on the attention key.
* Issue numbers in keys are integers, money is exact, and stamps are compared as text: fractions as issue
  numbers, floating-point rounding and `localeCompare` are not modelled. The round log's sort by stamp takes
  its order as a parameter.
* The hero slice with its `steps`, which a repeated fold clears, the checkpoints of the replay, and phase windows: the
  folds beside them are modelled.
* `unknown` flags on accumulated events, used only by the feed's own drawing.
* A ledger that grows while `loadRoundEvents` or `readAllEvents` is still paging.
* The text of the changelog in the publish's preconditions: a commit's tree names the versions that its
  changelog has a section for.
* The draft's notes: the step that creates the draft records its tag, target and pre-release flag.
* The smoke workflow started by hand on another branch than main.
* The demo route of the round navigator, which starts on the bundle's first round instead of live.
* Tags deleted or moved by hand, and two promotions of one catalog at the same time.
* The order of a manifest's members and values that are not texts; ignored files and file modes in the catalog.
* `loadRoundSpend`, the twin of the event loader, and `mergeRoundPhaseBuckets`, which adds per-round buckets up.
* Simultaneous appends to the dismissal log by two processes.
* Help texts, status formatting, `roundCostFooter`, `reviewSpendUsd`, `avgRoundCostUsd`, `roundNavLabel`,
  control verbs and format helpers: each is settled by reading one expression.
