/** The scope of the link checker: the seed pages on disk and every Markdown page they lead to.
    Finding links in a page and joining paths are foreign; a page is given by its link destinations
    in file order, and `resolve` stands for normalising a destination against the page it is on. */
module Links {
  import opened Options

  type Disk = map<string, seq<string>>

  type Resolver = (string, string) -> string

  predicate StartsWith(s: string, p: string) { p <= s }

  predicate EndsWith(s: string, p: string) { |p| <= |s| && s[|s| - |p|..] == p }

  function UpToChar(s: string, c: char): string {
    if s == "" || s[0] == c then "" else [s[0]] + UpToChar(s[1..], c)
  }

  predicate IsAngle(c: char) { c == '<' || c == '>' }

  function StripAngleBrackets(s: string): string {
    if s != "" && IsAngle(s[0]) then StripAngleBrackets(s[1..])
    else if s != "" && IsAngle(s[|s| - 1]) then StripAngleBrackets(s[..|s| - 1])
    else s
  }

  /** The page a link destination leads to, when it is a relative link to a Markdown file on disk. */
  function Target(disk: Disk, resolve: Resolver, page: string, destination: string): Option<string> {
    var target := StripAngleBrackets(UpToChar(destination, ' '));
    var path := UpToChar(target, '#');
    if StartsWith(target, "http://") || StartsWith(target, "https://") then None
    else if StartsWith(target, "mailto:") || StartsWith(target, "#") then None
    else if path == "" then None
    else
      var newPath := resolve(page, path);
      if EndsWith(newPath, ".md") && newPath in disk then Some(newPath) else None
  }

  // ---- what a link leads to, character by character ----

  /** `p` is what of `s` comes before the first `c`, or all of it. */
  ghost predicate IsUpTo(s: string, c: char, p: string) {
    && p <= s && (forall i :: 0 <= i < |p| ==> p[i] != c)
    && (|p| < |s| ==> s[|p|] == c)
  }

  /** `t` is `s` with all angle brackets cut off both ends. */
  ghost predicate IsStripped(s: string, t: string) {
    exists a: nat, e: nat :: StripsAt(s, a, e) && t == s[a..e]
  }

  ghost predicate StripsAt(s: string, a: nat, e: nat) {
    && a <= e <= |s| && (forall k :: 0 <= k < |s| && (k < a || e <= k) ==> s[k] == '<' || s[k] == '>')
    && (a < e ==> s[a] != '<' && s[a] != '>' && s[e - 1] != '<' && s[e - 1] != '>')
  }

  /** The destination up to its first space, without angle brackets, is no URL, address or anchor, and up to its anchor
      names `next`, a Markdown file on disk. */
  ghost predicate LeadsTo(disk: Disk, resolve: Resolver, page: string, destination: string, next: string) {
    exists word, target, path :: IsUpTo(destination, ' ', word) && IsStripped(word, target) && IsUpTo(target, '#', path)
      && !("http://" <= target) && !("https://" <= target) && !("mailto:" <= target) && !("#" <= target)
      && path != "" && next == resolve(page, path)
      && |next| >= 3 && next[|next| - 3..] == ".md" && next in disk
  }

  lemma {:induction false} UpToIs(s: string, c: char, p: string)
    ensures IsUpTo(s, c, p) <==> p == UpToChar(s, c)
  {
    if s == "" || s[0] == c {
      if p != "" && p <= s { assert p[0] == s[0]; }
    } else {
      if p == "" {
      } else {
        UpToIs(s[1..], c, p[1..]);
        assert p == [p[0]] + p[1..] && s == [s[0]] + s[1..];
        assert p <= s <==> p[0] == s[0] && p[1..] <= s[1..];
        assert forall i :: 0 <= i < |p[1..]| ==> p[1..][i] == p[i + 1];
      }
    }
  }

  lemma {:induction false} StripCuts(s: string) returns (a: nat, e: nat)
    ensures StripsAt(s, a, e) && StripAngleBrackets(s) == s[a..e]
    decreases |s|
  {
    if s != "" && IsAngle(s[0]) {
      a, e := StripCuts(s[1..]);
      assert forall k :: 0 <= k < |s| - 1 ==> s[1..][k] == s[k + 1];
      a, e := a + 1, e + 1;
    } else if s != "" && IsAngle(s[|s| - 1]) {
      a, e := StripCuts(s[..|s| - 1]);
    } else {
      a, e := 0, |s|;
      assert s[0..|s|] == s;
    }
  }

  lemma {:induction false} StrippedIs(s: string, t: string)
    ensures IsStripped(s, t) <==> t == StripAngleBrackets(s)
  {
    var a, e := StripCuts(s);
    if IsStripped(s, t) {
      var b: nat, f: nat :| StripsAt(s, b, f) && t == s[b..f];
      SameCut(s, a, e, b, f);
    }
  }

  lemma {:induction false} SameCut(s: string, a: nat, e: nat, b: nat, f: nat)
    requires StripsAt(s, a, e) && StripsAt(s, b, f)
    ensures s[a..e] == s[b..f]
  {
    if a < e || b < f { assert a == b && e == f; }
  }

  lemma {:induction false} TargetIs(disk: Disk, resolve: Resolver, page: string, destination: string, next: string)
    ensures Target(disk, resolve, page, destination) == Some(next)
        <==> LeadsTo(disk, resolve, page, destination, next)
  {
    var word := UpToChar(destination, ' ');
    var target := StripAngleBrackets(word);
    var path := UpToChar(target, '#');
    UpToIs(destination, ' ', word);
    StrippedIs(word, target);
    UpToIs(target, '#', path);
    hide IsUpTo, IsStripped, UpToChar, StripAngleBrackets;
    forall w, t, p | IsUpTo(destination, ' ', w) && IsStripped(w, t) && IsUpTo(t, '#', p)
      ensures w == word && t == target && p == path
    {
      UpToIs(destination, ' ', w);
      StrippedIs(w, t);
      UpToIs(t, '#', p);
    }
  }

  ghost predicate LinksTo(disk: Disk, resolve: Resolver, page: string, next: string) {
    page in disk && exists i :: 0 <= i < |disk[page]| && LeadsTo(disk, resolve, page, disk[page][i], next)
  }

  // ---- reachability ----

  ghost predicate Trail(disk: Disk, resolve: Resolver, seeds: seq<string>, trail: seq<string>) {
    && trail != [] && trail[0] in seeds && trail[0] in disk
    && forall i :: 0 <= i < |trail| - 1 ==> LinksTo(disk, resolve, trail[i], trail[i + 1])
  }

  ghost predicate Reachable(disk: Disk, resolve: Resolver, seeds: seq<string>, page: string) {
    exists trail :: Trail(disk, resolve, seeds, trail) && trail[|trail| - 1] == page
  }

  lemma {:induction false} SeedIsReachable(disk: Disk, resolve: Resolver, seeds: seq<string>, page: string)
    requires page in seeds && page in disk
    ensures Reachable(disk, resolve, seeds, page)
  {
    assert Trail(disk, resolve, seeds, [page]);
  }

  lemma {:induction false} LinkIsReachable(disk: Disk, resolve: Resolver, seeds: seq<string>, page: string,
                                           next: string)
    requires Reachable(disk, resolve, seeds, page) && LinksTo(disk, resolve, page, next)
    ensures Reachable(disk, resolve, seeds, next)
  {
    var trail :| Trail(disk, resolve, seeds, trail) && trail[|trail| - 1] == page;
    var longer := trail + [next];
    assert forall i :: 0 <= i < |trail| ==> longer[i] == trail[i];
    assert Trail(disk, resolve, seeds, longer);
  }

  /** Holds the present seeds and every page linked from a member. */
  ghost predicate Closed(disk: Disk, resolve: Resolver, seeds: seq<string>, pages: set<string>) {
    && (forall i :: 0 <= i < |seeds| && seeds[i] in disk ==> seeds[i] in pages)
    && (forall p, q :: p in pages && LinksTo(disk, resolve, p, q) ==> q in pages)
  }

  lemma {:induction false} TrailStaysInside(disk: Disk, resolve: Resolver, seeds: seq<string>, pages: set<string>,
                                            trail: seq<string>)
    requires Closed(disk, resolve, seeds, pages) && Trail(disk, resolve, seeds, trail)
    ensures trail[|trail| - 1] in pages
  {
    if |trail| > 1 {
      var shorter := trail[..|trail| - 1];
      TrailStaysInside(disk, resolve, seeds, pages, shorter);
      assert LinksTo(disk, resolve, trail[|trail| - 2], trail[|trail| - 2 + 1]);
    }
  }

  /** The reachable pages are the least closed set. */
  lemma {:induction false} ReachableIsLeastClosed(disk: Disk, resolve: Resolver, seeds: seq<string>, scope: set<string>)
    requires forall p :: p in scope <==> Reachable(disk, resolve, seeds, p)
    ensures Closed(disk, resolve, seeds, scope)
    ensures forall pages :: Closed(disk, resolve, seeds, pages) ==> scope <= pages
  {
    forall i | 0 <= i < |seeds| && seeds[i] in disk ensures seeds[i] in scope {
      SeedIsReachable(disk, resolve, seeds, seeds[i]);
    }
    forall p, q | p in scope && LinksTo(disk, resolve, p, q) ensures q in scope {
      LinkIsReachable(disk, resolve, seeds, p, q);
    }
    forall pages, p | Closed(disk, resolve, seeds, pages) && p in scope ensures p in pages {
      var trail :| Trail(disk, resolve, seeds, trail) && trail[|trail| - 1] == p;
      TrailStaysInside(disk, resolve, seeds, pages, trail);
    }
  }

  // ---- the worklist ----

  function Present(seeds: seq<string>, disk: Disk): seq<string> {
    if seeds == [] then []
    else (if seeds[0] in disk then [seeds[0]] else []) + Present(seeds[1..], disk)
  }

  function Missing(seeds: seq<string>, disk: Disk): seq<string> {
    if seeds == [] then []
    else (if seeds[0] in disk then [] else [seeds[0]]) + Missing(seeds[1..], disk)
  }

  lemma {:induction false} SeedsSplit(seeds: seq<string>, disk: Disk, page: string)
    ensures page in Present(seeds, disk) <==> page in seeds && page in disk
    ensures page in Missing(seeds, disk) <==> page in seeds && page !in disk
    ensures |Present(seeds, disk)| + |Missing(seeds, disk)| == |seeds|
  {
    if seeds != [] {
      SeedsSplit(seeds[1..], disk, page);
      assert seeds == [seeds[0]] + seeds[1..];
    }
  }

  /** What pushing the links of a page on the queue leaves: everything that was queued, plus exactly
      linked pages, and no linked page is neither in scope nor queued. */
  ghost predicate Pushed(disk: Disk, resolve: Resolver, page: string, scope: set<string>, queue: seq<string>,
                         grown: seq<string>) {
    && queue <= grown
    && (forall k :: |queue| <= k < |grown| ==> LinksTo(disk, resolve, page, grown[k]) && grown[k] !in scope)
    && (forall q :: LinksTo(disk, resolve, page, q) ==> q in scope || q in grown)
  }

  lemma {:induction false} LinkedPageIsOnDisk(disk: Disk, resolve: Resolver, page: string, next: string)
    requires LinksTo(disk, resolve, page, next)
    ensures next in disk
  {
    var i :| 0 <= i < |disk[page]| && LeadsTo(disk, resolve, page, disk[page][i], next);
  }

  method PushTargets(disk: Disk, resolve: Resolver, page: string, scope: set<string>, queue: seq<string>)
    returns (grown: seq<string>)
    requires page in disk
    ensures Pushed(disk, resolve, page, scope, queue, grown)
  {
    hide Target;
    grown := queue;
    var links := disk[page];
    for i := 0 to |links|
      invariant queue <= grown
      invariant forall k :: |queue| <= k < |grown| ==> LinksTo(disk, resolve, page, grown[k]) && grown[k] !in scope
      invariant forall j, q ::
          0 <= j < i && LeadsTo(disk, resolve, page, links[j], q) ==> q in scope || q in grown
    {
      var target := Target(disk, resolve, page, links[i]);
      forall q ensures target == Some(q) <==> LeadsTo(disk, resolve, page, links[i], q) {
        TargetIs(disk, resolve, page, links[i], q);
      }
      hide LeadsTo;
      if target.Some? && target.value !in scope {
        assert LinksTo(disk, resolve, page, target.value);
        grown := grown + [target.value];
      }
    }
  }

  // ---- what every round of the worklist keeps ----

  /** Only reachable pages are held, the present seeds are held, and every link out of a page in scope
      leads to a page that is held; "held" is in scope or queued. */
  ghost predicate Progress(disk: Disk, resolve: Resolver, seeds: seq<string>, scope: set<string>, queue: seq<string>) {
    && scope <= disk.Keys
    && (forall p :: p in queue ==> p in disk)
    && (forall p :: p in scope || p in queue ==> Reachable(disk, resolve, seeds, p))
    && (forall i :: 0 <= i < |seeds| && seeds[i] in disk ==> seeds[i] in scope || seeds[i] in queue)
    && (forall p, q :: p in scope && LinksTo(disk, resolve, p, q) ==> q in scope || q in queue)
  }

  lemma {:induction false} SeedsAreProgress(disk: Disk, resolve: Resolver, seeds: seq<string>)
    ensures Progress(disk, resolve, seeds, {}, Present(seeds, disk))
  {
    forall p ensures p in Present(seeds, disk) <==> p in seeds && p in disk {
      SeedsSplit(seeds, disk, p);
    }
    forall p | p in Present(seeds, disk) ensures Reachable(disk, resolve, seeds, p) {
      SeedIsReachable(disk, resolve, seeds, p);
    }
  }

  lemma {:induction false} PopKeepsProgress(disk: Disk, resolve: Resolver, seeds: seq<string>, scope: set<string>,
                                            queue: seq<string>)
    requires queue != [] && queue[|queue| - 1] in scope
    requires Progress(disk, resolve, seeds, scope, queue)
    ensures Progress(disk, resolve, seeds, scope, queue[..|queue| - 1])
  {
    assert queue == queue[..|queue| - 1] + [queue[|queue| - 1]];
  }

  lemma {:induction false} VisitKeepsProgress(disk: Disk, resolve: Resolver, seeds: seq<string>, scope: set<string>,
                                              queue: seq<string>, page: string,
                           grown: seq<string>)
    requires Progress(disk, resolve, seeds, scope, queue + [page])
    requires Pushed(disk, resolve, page, scope + {page}, queue, grown)
    ensures Progress(disk, resolve, seeds, scope + {page}, grown)
  {
    assert page in queue + [page];
    forall p | p in grown ensures p in disk && Reachable(disk, resolve, seeds, p) {
      var k :| 0 <= k < |grown| && grown[k] == p;
      if k < |queue| {
        assert p in queue + [page];
      } else {
        LinkedPageIsOnDisk(disk, resolve, page, p);
        LinkIsReachable(disk, resolve, seeds, page, p);
      }
    }
  }

  lemma {:induction false} DoneIsExact(disk: Disk, resolve: Resolver, seeds: seq<string>, scope: set<string>, p: string)
    requires Progress(disk, resolve, seeds, scope, [])
    ensures p in scope <==> Reachable(disk, resolve, seeds, p)
  {
    assert Closed(disk, resolve, seeds, scope);
    if Reachable(disk, resolve, seeds, p) {
      var trail :| Trail(disk, resolve, seeds, trail) && trail[|trail| - 1] == p;
      TrailStaysInside(disk, resolve, seeds, scope, trail);
    }
  }

  /** Terminates on every disk, and collects exactly the pages reachable from the seeds on it; the
      seeds that are absent come back in `missingSeeds`. */
  method CollectScope(seeds: seq<string>, disk: Disk, resolve: Resolver)
    returns (scope: set<string>, missingSeeds: seq<string>)
    ensures missingSeeds == Missing(seeds, disk)
    ensures forall p :: p in scope <==> Reachable(disk, resolve, seeds, p)
  {
    hide Reachable, LinksTo, Pushed, Present, Missing;
    scope := {};
    missingSeeds := Missing(seeds, disk);
    var queue := Present(seeds, disk);
    SeedsAreProgress(disk, resolve, seeds);
    while |queue| > 0
      invariant Progress(disk, resolve, seeds, scope, queue)
      decreases disk.Keys - scope, |queue|
    {
      var rel := queue[|queue| - 1];
      if rel in scope {
        PopKeepsProgress(disk, resolve, seeds, scope, queue);
        queue := queue[..|queue| - 1];
      } else {
        var popped := queue[..|queue| - 1];
        assert queue == popped + [rel];
        assert rel in queue;
        queue := PushTargets(disk, resolve, rel, scope + {rel}, popped);
        VisitKeepsProgress(disk, resolve, seeds, scope, popped, rel, queue);
        scope := scope + {rel};
      }
    }
    assert queue == [];
    forall p ensures p in scope <==> Reachable(disk, resolve, seeds, p) {
      DoneIsExact(disk, resolve, seeds, scope, p);
    }
  }
}
