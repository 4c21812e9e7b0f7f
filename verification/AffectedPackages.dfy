/**
 Which workspace packages a set of changed files affects: path ownership by
 longest directory, the transposed dependency graph, and its closure.
 Hash sets and maps are iterated in an arbitrary order throughout.
 */
module AffectedPackages {
  import opened Common
  import opened PackagePaths

  // --------------------------------------------------------------- names in order

  /** Lexicographic order by code point. */
  predicate Less(a: string, b: string) {
    b != "" && (a == "" || a[0] < b[0] || (a[0] == b[0] && Less(a[1..], b[1..])))
  }

  lemma {:induction false} LessTotal(a: string, b: string)
    ensures Less(a, b) || Less(b, a) || a == b
    ensures !(Less(a, b) && Less(b, a)) && !Less(a, a)
  {
    if a != "" {
      LessTotal(a[1..], a[1..]);
      if b != "" {
        LessTotal(a[1..], b[1..]);
        assert a[0] == b[0] && a[1..] == b[1..] ==> a == [a[0]] + a[1..] == b;
      }
    }
  }

  lemma {:induction false} LessTransitive(a: string, b: string, c: string)
    requires Less(a, b) && Less(b, c)
    ensures Less(a, c)
  {
    if a != "" && a[0] == b[0] == c[0] {
      LessTransitive(a[1..], b[1..], c[1..]);
    }
  }

  ghost predicate IsSortedListing(names: seq<string>, s: set<string>) {
    && (forall x :: x in names <==> x in s)
    && forall i, j :: 0 <= i < j < |names| ==> Less(names[i], names[j])
  }

  method LeastName(s: set<string>) returns (m: string)
    requires s != {}
    ensures m in s && forall y :: y in s && y != m ==> Less(m, y)
  {
    m :| m in s;
    var others := s - {m};
    while others != {}
      invariant m in s && others <= s
      invariant forall y :: y in s && y !in others && y != m ==> Less(m, y)
      decreases others
    {
      var y :| y in others;
      LessTotal(m, y);
      if Less(y, m) {
        forall z | z in s && z !in others && z != m ensures Less(y, z) {
          LessTransitive(y, m, z);
        }
        m := y;
      }
      others := others - {y};
    }
  }

  method SortNames(s: set<string>) returns (names: seq<string>)
    ensures IsSortedListing(names, s)
  {
    names := [];
    var left := s;
    while left != {}
      invariant left <= s && IsSortedListing(names, s - left)
      invariant forall i, y :: 0 <= i < |names| && y in left ==> Less(names[i], y)
      decreases left
    {
      var m := LeastName(left);
      forall y | y in left - {m} ensures forall i :: 0 <= i < |names + [m]| ==> Less((names + [m])[i], y) {
      }
      names := names + [m];
      left := left - {m};
    }
  }

  /** A set has one sorted listing, so the output shows no iteration order. */
  lemma {:induction false} SortedListingIsUnique(a: seq<string>, b: seq<string>, s: set<string>)
    requires IsSortedListing(a, s) && IsSortedListing(b, s)
    ensures a == b
    decreases |a|
  {
    assert a != [] ==> a[0] in b;
    assert b != [] ==> b[0] in a;
    if a != [] && b != [] {
      LessTotal(a[0], b[0]);
      var i :| 0 <= i < |b| && b[i] == a[0];
      var j :| 0 <= j < |a| && a[j] == b[0];
      assert a[0] == b[0];
      LessTotal(a[0], a[0]);
      SortedListingIsUnique(a[1..], b[1..], s - {a[0]});
    }
  }

  // ------------------------------------------------------------ reverse closure

  type Graph = map<string, set<string>>

  ghost predicate Edge(reverse: Graph, x: string, y: string) {
    x in reverse && y in reverse[x]
  }

  /** Consecutive names are linked by an edge of `reverse`. */
  ghost predicate IsPath(reverse: Graph, p: seq<string>) {
    p != [] && forall i :: 0 <= i < |p| - 1 ==> Edge(reverse, p[i], p[i + 1])
  }

  ghost predicate Reaches(reverse: Graph, start: set<string>, x: string) {
    exists p :: IsPath(reverse, p) && p[0] in start && p[|p| - 1] == x
  }

  ghost function NamesOf(reverse: Graph): set<string> {
    set a, b | a in reverse && b in reverse[a] :: b
  }

  lemma EdgeExtendsReach(reverse: Graph, start: set<string>, x: string, y: string)
    requires Reaches(reverse, start, x) && Edge(reverse, x, y)
    ensures Reaches(reverse, start, y)
  {
    var p :| IsPath(reverse, p) && p[0] in start && p[|p| - 1] == x;
    var q := p + [y];
    assert IsPath(reverse, q) && q[0] in start && q[|q| - 1] == y;
  }

  lemma {:induction false} ClosedSetHoldsPaths(reverse: Graph, closed: set<string>, p: seq<string>, i: nat)
    requires IsPath(reverse, p) && p[0] in closed && i < |p|
    requires forall x, y :: x in closed && Edge(reverse, x, y) ==> y in closed
    ensures p[i] in closed
  {
    if i > 0 {
      ClosedSetHoldsPaths(reverse, closed, p, i - 1);
      assert Edge(reverse, p[i - 1], p[i]);
    }
  }

  /**
   Everything impacted is reachable, was queued exactly once, and has its
   dependents impacted too unless it is still in `open`.
   */
  ghost predicate Exploring(reverse: Graph, start: set<string>, impacted: set<string>,
                            open: seq<string>, queued: seq<string>) {
    && start <= impacted <= start + NamesOf(reverse)
    && Distinct(queued)
    && (forall x :: x in queued <==> x in impacted)
    && (forall x :: x in open ==> x in impacted)
    && (forall x :: x in impacted ==> Reaches(reverse, start, x))
    && forall x, y :: x in impacted && x !in open && Edge(reverse, x, y) ==> y in impacted
  }

  lemma NothingOpenIsEverything(reverse: Graph, start: set<string>, impacted: set<string>, queued: seq<string>)
    requires Exploring(reverse, start, impacted, [], queued)
    ensures forall x :: x in impacted <==> Reaches(reverse, start, x)
  {
    forall x | Reaches(reverse, start, x) ensures x in impacted {
      var p :| IsPath(reverse, p) && p[0] in start && p[|p| - 1] == x;
      ClosedSetHoldsPaths(reverse, impacted, p, |p| - 1);
    }
  }

  lemma StartExploring(reverse: Graph, start: set<string>, queue: seq<string>)
    requires Distinct(queue) && forall x :: x in queue <==> x in start
    ensures Exploring(reverse, start, start, queue, queue)
  {
    forall x | x in start ensures Reaches(reverse, start, x) {
      assert IsPath(reverse, [x]);
    }
  }

  /** `set.iter().collect()`: every element once, in some order. */
  method Elements(s: set<string>) returns (list: seq<string>)
    ensures Distinct(list) && forall x :: x in list <==> x in s
  {
    list := [];
    var left := s;
    while left != {}
      invariant left <= s && Distinct(list) && forall x :: x in list <==> x in s - left
      decreases left
    {
      var x :| x in left;
      assert forall i :: 0 <= i < |list| ==> list[i] in list;
      list, left := list + [x], left - {x};
    }
  }

  /**
   The worklist finds exactly the packages reachable along reverse edges, sorted,
   and puts no package on the queue twice (`queued` lists all that were put there).
   */
  method ReverseDependentClosure(start: set<string>, reverse: Graph)
    returns (list: seq<string>, ghost queued: seq<string>)
    ensures forall x :: x in list <==> Reaches(reverse, start, x)
    ensures forall i, j :: 0 <= i < j < |list| ==> Less(list[i], list[j])
    ensures Distinct(queued) && forall x :: x in queued <==> x in list
  {
    var impacted := start;
    var queue := Elements(start);
    queued := queue;
    StartExploring(reverse, start, queue);
    ghost var universe := start + NamesOf(reverse);
    while queue != []
      invariant Exploring(reverse, start, impacted, queue, queued)
      decreases universe - impacted, |queue|
    {
      var current, rest := queue[|queue| - 1], queue[..|queue| - 1];
      assert queue == rest + [current];
      impacted, queue, queued := AddDependents(start, reverse, current, impacted, rest, queued);
    }
    NothingOpenIsEverything(reverse, start, impacted, queued);
    list := SortNames(impacted);
  }

  /** The dependents of `current` not in `todo` have been seen. */
  ghost predicate Seen(reverse: Graph, current: string, todo: set<string>, impacted: set<string>) {
    forall y :: Edge(reverse, current, y) && y !in todo ==> y in impacted
  }

  /** One turn of the worklist: queue the dependents of `current` not seen before. */
  method AddDependents(ghost start: set<string>, reverse: Graph, current: string,
                       impacted: set<string>, queue: seq<string>, ghost queued: seq<string>)
    returns (impacted': set<string>, queue': seq<string>, ghost queued': seq<string>)
    requires Exploring(reverse, start, impacted, queue + [current], queued)
    ensures Exploring(reverse, start, impacted', queue', queued')
    ensures impacted <= impacted' && (impacted' == impacted ==> queue' == queue)
  {
    impacted', queue', queued' := impacted, queue, queued;
    if current in reverse {
      var todo := reverse[current];
      while todo != {}
        invariant todo <= reverse[current] && impacted <= impacted'
        invariant Exploring(reverse, start, impacted', queue' + [current], queued')
        invariant Seen(reverse, current, todo, impacted')
        invariant impacted' == impacted ==> queue' == queue
        decreases todo
      {
        var dependent :| dependent in todo;
        todo := todo - {dependent};
        impacted', queue', queued' := QueueIfNew(start, reverse, current, impacted', queue', queued', dependent);
      }
    }
  }

  method QueueIfNew(ghost start: set<string>, reverse: Graph, current: string,
                    impacted: set<string>, queue: seq<string>, ghost queued: seq<string>, y: string)
    returns (impacted': set<string>, queue': seq<string>, ghost queued': seq<string>)
    requires Exploring(reverse, start, impacted, queue + [current], queued) && Edge(reverse, current, y)
    ensures Exploring(reverse, start, impacted', queue' + [current], queued')
    ensures impacted' == impacted + {y} && queue' == if y in impacted then queue else queue + [y]
  {
    impacted', queue', queued' := impacted, queue, queued;
    if y !in impacted {
      QueueDependent(reverse, start, impacted, queue, current, queued, y);
      impacted', queue', queued' := impacted + {y}, queue + [y], queued + [y];
    }
  }

  lemma {:induction false} QueueDependent(reverse: Graph, start: set<string>, impacted: set<string>, queue: seq<string>,
                                          current: string, queued: seq<string>, y: string)
    requires Exploring(reverse, start, impacted, queue + [current], queued)
    requires Edge(reverse, current, y) && y !in impacted
    ensures Exploring(reverse, start, impacted + {y}, queue + [y] + [current], queued + [y])
  {
    assert current in queue + [current];
    EdgeExtendsReach(reverse, start, current, y);
    assert y in NamesOf(reverse);
    forall x ensures x in queue + [y] + [current] <==> x in queue + [current] || x == y {
    }
  }

  // ------------------------------------------------------------ workspace metadata

  /** A package; its manifest path relative to the root, or None when it lies elsewhere. */
  datatype Package = Package(name: string, manifest: Option<string>, dependencies: seq<string>)

  datatype GraphError = OutsideRepository(name: string)

  function DirOf(p: Package): string
    requires p.manifest.Some?
  {
    if Parent(p.manifest.value).Some? then Parent(p.manifest.value).value else "."
  }

  ghost predicate Depends(packages: seq<Package>, a: string, b: string) {
    exists i :: 0 <= i < |packages| && packages[i].name == a && b in packages[i].dependencies
  }

  ghost function WorkspaceNames(packages: seq<Package>): set<string> {
    set i | 0 <= i < |packages| :: packages[i].name
  }

  /** `reverse[b]` holds exactly the workspace packages that list `b` as a dependency. */
  ghost predicate IsTranspose(packages: seq<Package>, reverse: Graph) {
    && reverse.Keys == WorkspaceNames(packages)
    && forall a, b :: b in reverse ==> (a in reverse[b] <==> Depends(packages, a, b))
  }

  /** Package `i` is the last of the first `n` packages to carry `name`. */
  ghost predicate IsLastNamed(packages: seq<Package>, n: nat, name: string, i: int) {
    && 0 <= i < n <= |packages|
    && packages[i].name == name
    && forall j :: i < j < n ==> packages[j].name != name
  }

  /** Every name among the first `n` packages is mapped to the directory of the last one that carries it. */
  ghost predicate AreDirs(packages: seq<Package>, n: nat, dirs: map<string, string>) {
    && n <= |packages|
    && (forall i :: 0 <= i < n ==> packages[i].manifest.Some? && packages[i].name in dirs)
    && forall name :: name in dirs ==> exists i :: IsLastNamed(packages, n, name, i) && dirs[name] == DirOf(packages[i])
  }

  lemma {:induction false} OneMoreDir(packages: seq<Package>, i: nat, dirs: map<string, string>)
    requires i < |packages| && packages[i].manifest.Some? && AreDirs(packages, i, dirs)
    ensures AreDirs(packages, i + 1, dirs[packages[i].name := DirOf(packages[i])])
  {
    var dirs' := dirs[packages[i].name := DirOf(packages[i])];
    forall name | name in dirs'
      ensures exists k :: IsLastNamed(packages, i + 1, name, k) && dirs'[name] == DirOf(packages[k])
    {
      if name == packages[i].name {
        assert IsLastNamed(packages, i + 1, name, i);
      } else {
        var k :| IsLastNamed(packages, i, name, k) && dirs[name] == DirOf(packages[k]);
        assert IsLastNamed(packages, i + 1, name, k);
      }
    }
  }

  method PackageDirs(packages: seq<Package>) returns (r: Result<map<string, string>, GraphError>)
    ensures r.Ok? <==> forall i :: 0 <= i < |packages| ==> packages[i].manifest.Some?
    ensures r.Ok? ==> AreDirs(packages, |packages|, r.value)
  {
    var dirs: map<string, string> := map[];
    for i := 0 to |packages|
      invariant AreDirs(packages, i, dirs)
    {
      if packages[i].manifest.None? {
        return Err(OutsideRepository(packages[i].name));
      }
      OneMoreDir(packages, i, dirs);
      dirs := dirs[packages[i].name := DirOf(packages[i])];
    }
    return Ok(dirs);
  }

  /** Reverse edges recorded for the first `n` packages and the first `m` dependencies of package `n`. */
  ghost predicate TransposedUpTo(packages: seq<Package>, reverse: Graph, n: nat, m: nat) {
    && reverse.Keys == WorkspaceNames(packages)
    && forall a, b :: b in reverse ==>
         (a in reverse[b] <==> DependsUpTo(packages, a, b, n, m))
  }

  ghost predicate DependsUpTo(packages: seq<Package>, a: string, b: string, n: nat, m: nat) {
    exists i, k :: 0 <= i < |packages| && 0 <= k < |packages[i].dependencies| && (i < n || (i == n && k < m))
      && packages[i].name == a && packages[i].dependencies[k] == b
  }

  method ReverseGraph(packages: seq<Package>) returns (reverse: Graph)
    ensures IsTranspose(packages, reverse)
  {
    var names := set i | 0 <= i < |packages| :: packages[i].name;
    reverse := map name | name in names :: {};
    for n := 0 to |packages|
      invariant TransposedUpTo(packages, reverse, n, 0)
    {
      var deps := packages[n].dependencies;
      for m := 0 to |deps|
        invariant TransposedUpTo(packages, reverse, n, m)
      {
        if deps[m] in names {
          reverse := reverse[deps[m] := reverse[deps[m]] + {packages[n].name}];
        }
      }
    }
    forall a, b | b in reverse ensures a in reverse[b] <==> Depends(packages, a, b) {
      if Depends(packages, a, b) {
        var i :| 0 <= i < |packages| && packages[i].name == a && b in packages[i].dependencies;
        var k :| 0 <= k < |packages[i].dependencies| && packages[i].dependencies[k] == b;
        assert DependsUpTo(packages, a, b, |packages|, 0);
      }
    }
  }

  // -------------------------------------------------------------- path ownership

  predicate IsRootSource(path: string) {
    path == "build.rs" || StartsWith(path, "src/") || StartsWith(path, "tests/")
    || StartsWith(path, "benches/") || StartsWith(path, "examples/")
  }

  /** Directory `dir` claims `path`, as a package directory below the root. */
  predicate Claims(path: string, dir: string) {
    PathText(dir) != "." && Under(PathText(path), PathText(dir))
  }

  /** `name` has the longest directory around the path; failing any, it is a "." package of a root source. */
  ghost predicate IsOwner(path: string, dirs: map<string, string>, name: string) {
    && name in dirs
    && if exists other :: other in dirs && Claims(path, dirs[other])
       then Claims(path, dirs[name])
            && forall other :: other in dirs && Claims(path, dirs[other]) ==> |dirs[other]| <= |dirs[name]|
       else PathText(dirs[name]) == "." && IsRootSource(PathText(path))
  }

  method PackageForPath(path: string, dirs: map<string, string>) returns (owner: Option<string>)
    ensures owner.Some? ==> IsOwner(path, dirs, owner.value)
    ensures owner.None? ==> forall name :: !IsOwner(path, dirs, name)
  {
    var rootFallback: Option<string> := None;
    var bestMatch: Option<(nat, string)> := None;
    var left := dirs.Keys;
    while left != {}
      invariant left <= dirs.Keys
      invariant rootFallback.Some? ==> rootFallback.value in dirs && PathText(dirs[rootFallback.value]) == "."
                                       && IsRootSource(PathText(path))
      invariant rootFallback.None? ==> forall x :: x in dirs && x !in left && PathText(dirs[x]) == "." ==>
          !IsRootSource(PathText(path))
      invariant bestMatch.Some? ==> bestMatch.value.1 in dirs && Claims(path, dirs[bestMatch.value.1])
                                    && bestMatch.value.0 == |dirs[bestMatch.value.1]|
      invariant bestMatch.Some? ==> forall x :: x in dirs && x !in left && Claims(path, dirs[x]) ==>
          |dirs[x]| <= bestMatch.value.0
      invariant bestMatch.None? ==> forall x :: x in dirs && x !in left ==> !Claims(path, dirs[x])
      decreases left
    {
      var name :| name in left;
      left := left - {name};
      var prefix := PathText(dirs[name]);
      if prefix == "." {
        if IsRootSource(PathText(path)) {
          rootFallback := Some(name);
        }
      } else if Under(PathText(path), prefix) {
        var score := |prefix|;
        if bestMatch.None? || score > bestMatch.value.0 {
          bestMatch := Some((score, name));
        }
      }
    }
    owner := if bestMatch.Some? then Some(bestMatch.value.1) else rootFallback;
  }

  ghost predicate DistinctDirs(dirs: map<string, string>) {
    forall a, b :: a in dirs && b in dirs && PathText(dirs[a]) == PathText(dirs[b]) ==> a == b
  }

  lemma UnderSameLength(path: string, d: string, e: string)
    requires Under(path, d) && Under(path, e) && |d| == |e|
    ensures d == e
  {
    assert d == path[..|d|] by {
      if path != d {
        assert (d + "/")[..|d|] == d;
      }
    }
    assert e == path[..|e|] by {
      if path != e {
        assert (e + "/")[..|e|] == e;
      }
    }
  }

  /** With distinct directories the owner does not depend on the order the map was walked in. */
  lemma OwnerIsUnique(path: string, dirs: map<string, string>, a: string, b: string)
    requires DistinctDirs(dirs) && IsOwner(path, dirs, a) && IsOwner(path, dirs, b)
    ensures a == b
  {
    if Claims(path, dirs[a]) {
      UnderSameLength(PathText(path), PathText(dirs[a]), PathText(dirs[b]));
    }
  }

  ghost predicate DistinctBelowRoot(dirs: map<string, string>) {
    forall a, b :: a in dirs && b in dirs && PathText(dirs[a]) == PathText(dirs[b]) != "." ==> a == b
  }

  /** No two packages can both be found as the owner of one path by its directory. */
  ghost predicate OwnersAreUnique(dirs: map<string, string>) {
    forall path, a, b :: IsOwner(path, dirs, a) && IsOwner(path, dirs, b) && Claims(path, dirs[a]) ==> a == b
  }

  lemma {:induction false} DirectoryOwnsItself(dirs: map<string, string>, a: string, b: string)
    requires a in dirs && b in dirs && PathText(dirs[a]) == PathText(dirs[b]) != "."
    ensures IsOwner(dirs[a], dirs, b) && Claims(dirs[a], dirs[b])
  {
  }

  /** Ownership by directory does not depend on the walk order exactly when no two packages share a directory. */
  lemma {:induction false} OwnersAreUniqueIff(dirs: map<string, string>)
    ensures OwnersAreUnique(dirs) <==> DistinctBelowRoot(dirs)
  {
    if DistinctBelowRoot(dirs) {
      forall path, a, b | IsOwner(path, dirs, a) && IsOwner(path, dirs, b) && Claims(path, dirs[a]) ensures a == b {
        UnderSameLength(PathText(path), PathText(dirs[a]), PathText(dirs[b]));
      }
    }
    if OwnersAreUnique(dirs) {
      forall a, b | a in dirs && b in dirs && PathText(dirs[a]) == PathText(dirs[b]) != "." ensures a == b {
        DirectoryOwnsItself(dirs, a, a);
        DirectoryOwnsItself(dirs, a, b);
      }
    }
  }

  /**
   A manifest directly in the root gives directory "", not ".": such a package
   claims no relative path and is never the root fallback.
   */
  lemma RootManifestOwnsNothing(p: Package, path: string)
    requires p.manifest.Some? && p.manifest.value != "" && '/' !in p.manifest.value
    requires path != "" && PathText(path)[0] != '/'
    ensures DirOf(p) == "" && PathText(DirOf(p)) != "." && !Claims(path, DirOf(p))
  {
    DropFromLastSlash(p.manifest.value);
  }

  // ------------------------------------------------------- directories by component

  /** The manifest `dir/file` puts the package in `dir`. */
  lemma {:induction false} ManifestDirectory(p: Package, dir: string, file: string)
    requires NoSlash(file) && p.manifest == Some(dir + "/" + file)
    ensures DirOf(p) == dir
  {
    ParentOfFile(dir, file);
  }

  /** A package directory claims exactly the paths whose components begin with its own. */
  lemma {:induction false} ClaimsIffPrefix(path: string, dir: string)
    ensures Claims(path, dir)
        <==> PathText(dir) != "." && Components(PathText(dir)) <= Components(PathText(path))
  {
    UnderIsPrefix(PathText(path), PathText(dir));
  }

  lemma {:induction false} ClaimsBelow(path: string, dir: string)
    requires dir + "/" <= path && PathText(dir) != "."
    ensures Claims(path, dir)
  {
    var rest := path[|dir| + 1..];
    assert PathText(path) == PathText(dir) + "/" + PathText(rest);
  }

  /** No package directory lies in, or is, another's. */
  ghost predicate Unnested(dirs: map<string, string>) {
    forall a, b :: a in dirs && b in dirs && a != b ==> !Claims(dirs[a], dirs[b])
  }

  /** Of two directories that hold one path, one holds the other. */
  lemma {:induction false} ClaimsAreNested(path: string, dir: string, other: string)
    requires Claims(path, dir) && Claims(path, other)
    ensures Claims(dir, other) || Claims(other, dir)
  {
    ClaimsIffPrefix(path, dir);
    ClaimsIffPrefix(path, other);
    ClaimsIffPrefix(dir, other);
    ClaimsIffPrefix(other, dir);
    var ps, ds, es := Components(PathText(path)), Components(PathText(dir)), Components(PathText(other));
    assert if |ds| <= |es| then ds == es[..|ds|] else es == ds[..|es|];
  }

  /** When packages are not nested, the one whose directory holds the path owns it. */
  lemma {:induction false} HolderOwns(path: string, dirs: map<string, string>, name: string)
    requires name in dirs && Claims(path, dirs[name]) && Unnested(dirs)
    ensures IsOwner(path, dirs, name)
  {
    forall other | other in dirs && Claims(path, dirs[other]) ensures other == name {
      ClaimsAreNested(path, dirs[name], dirs[other]);
    }
  }

  // ------------------------------------------------------------- the whole analysis

  predicate IsDocOnly(path: string) {
    StartsWith(PathText(path), "book/") || StartsWith(PathText(path), "docs/")
  }

  predicate MatchesFullWorkspace(path: string) {
    var p := PathText(path);
    p == "Cargo.toml" || p == "Cargo.lock" || StartsWith(p, ".github/")
  }

  predicate HasSpecialPrefix(path: string) {
    StartsWith(PathText(path), "pyo3/")
  }

  /** Documentation is what lies below `book` or `docs`. */
  lemma {:induction false} DocumentationPaths(path: string)
    ensures var cs := Components(PathText(path));
            IsDocOnly(path) <==> |cs| > 1 && (cs[0] == "book" || cs[0] == "docs")
  {
    FirstComponent(PathText(path), "book");
    FirstComponent(PathText(path), "docs");
  }

  /** What lies below `pyo3` needs the extra target. */
  lemma {:induction false} SpecialPaths(path: string)
    ensures HasSpecialPrefix(path) <==> var cs := Components(PathText(path)); |cs| > 1 && cs[0] == "pyo3"
  {
    FirstComponent(PathText(path), "pyo3");
  }

  /** The two root files, and what lies below `.github`, touch the whole workspace. */
  lemma {:induction false} WorkspacePaths(path: string)
    ensures var cs := Components(PathText(path));
            MatchesFullWorkspace(path)
            <==> cs == ["Cargo.toml"] || cs == ["Cargo.lock"] || (|cs| > 1 && cs[0] == ".github")
  {
    FirstComponent(PathText(path), ".github");
    OneName(PathText(path), "Cargo.toml");
    OneName(PathText(path), "Cargo.lock");
  }

  datatype Scope = Scope(fullWorkspace: bool, impacted: seq<string>, specialTargets: set<string>)

  /** Package `a` is `b` or depends on it through workspace packages. */
  ghost predicate DependsTransitively(packages: seq<Package>, a: string, b: string) {
    exists p: seq<string> :: p != [] && p[0] == a && p[|p| - 1] == b && IsDependencyChain(packages, p)
  }

  ghost predicate WorkspaceEdge(packages: seq<Package>, a: string, b: string) {
    Depends(packages, a, b) && b in WorkspaceNames(packages)
  }

  ghost predicate IsDependencyChain(packages: seq<Package>, p: seq<string>) {
    forall i :: 0 <= i < |p| - 1 ==> WorkspaceEdge(packages, p[i], p[i + 1])
  }

  function Backwards(p: seq<string>): seq<string> {
    seq(|p|, i requires 0 <= i < |p| => p[|p| - 1 - i])
  }

  /** A path in the transposed graph is a dependency chain read backwards. */
  lemma TransposedPath(packages: seq<Package>, reverse: Graph, p: seq<string>)
    requires IsTranspose(packages, reverse) && p != []
    ensures IsPath(reverse, p) <==> IsDependencyChain(packages, Backwards(p))
  {
    var q := Backwards(p);
    if IsPath(reverse, p) {
      forall i | 0 <= i < |q| - 1 ensures WorkspaceEdge(packages, q[i], q[i + 1]) {
        assert Edge(reverse, p[|p| - 2 - i], p[|p| - 2 - i + 1]);
      }
    }
    if IsDependencyChain(packages, q) {
      forall i | 0 <= i < |p| - 1 ensures Edge(reverse, p[i], p[i + 1]) {
        assert WorkspaceEdge(packages, q[|p| - 2 - i], q[|p| - 2 - i + 1]);
      }
    }
  }

  /** Reaching along reverse edges is depending transitively. */
  lemma ReachesIffDepends(packages: seq<Package>, reverse: Graph, start: set<string>, x: string)
    requires IsTranspose(packages, reverse)
    ensures Reaches(reverse, start, x) <==> exists c :: c in start && DependsTransitively(packages, x, c)
  {
    if Reaches(reverse, start, x) {
      var p :| IsPath(reverse, p) && p[0] in start && p[|p| - 1] == x;
      TransposedPath(packages, reverse, p);
      var q := Backwards(p);
      assert q != [] && q[0] == x && q[|q| - 1] == p[0] && IsDependencyChain(packages, q);
      assert DependsTransitively(packages, x, p[0]);
    }
    if c :| c in start && DependsTransitively(packages, x, c) {
      var q :| q != [] && q[0] == x && q[|q| - 1] == c && IsDependencyChain(packages, q);
      var p := Backwards(q);
      assert Backwards(p) == q;
      TransposedPath(packages, reverse, p);
      assert IsPath(reverse, p) && p[0] == c && p[|p| - 1] == x;
    }
  }

  /** A changed path below `dir` that is neither workspace-wide nor documentation. */
  ghost predicate ChangedBelow(changed: seq<string>, k: int, dir: string) {
    0 <= k < |changed| && dir + "/" <= changed[k] && !MatchesFullWorkspace(changed[k]) && !IsDocOnly(changed[k])
  }

  /** Package `i` is in effect, and its manifest is a file in `dir`, which is not the root. */
  ghost predicate LivesIn(packages: seq<Package>, i: int, dir: string) {
    && 0 <= i < |packages|
    && IsLastNamed(packages, |packages|, packages[i].name, i)
    && PathText(dir) != "."
    && exists file :: NoSlash(file) && packages[i].manifest == Some(dir + "/" + file)
  }

  /** A package below whose manifest's directory something changed is impacted. */
  ghost predicate ChangesCount(changed: seq<string>, packages: seq<Package>, impacted: seq<string>) {
    forall i, k, dir :: LivesIn(packages, i, dir) && ChangedBelow(changed, k, dir) ==> packages[i].name in impacted
  }

  lemma {:induction false} ChangeBelowIsOwned(changed: seq<string>, packages: seq<Package>, dirs: map<string, string>,
                                              i: nat, k: nat, dir: string)
    requires AreDirs(packages, |packages|, dirs) && Unnested(dirs)
    requires LivesIn(packages, i, dir) && ChangedBelow(changed, k, dir)
    ensures OwnsChange(changed, |changed|, dirs, packages[i].name)
  {
    var name := packages[i].name;
    var file :| NoSlash(file) && packages[i].manifest == Some(dir + "/" + file);
    ManifestDirectory(packages[i], dir, file);
    var j :| IsLastNamed(packages, |packages|, name, j) && dirs[name] == DirOf(packages[j]);
    assert j == i;
    ClaimsBelow(changed[k], dir);
    HolderOwns(changed[k], dirs, name);
  }

  lemma {:induction false} DependsOnItself(packages: seq<Package>, name: string)
    ensures DependsTransitively(packages, name, name)
  {
    var p := [name];
    assert p != [] && p[0] == name && p[|p| - 1] == name && IsDependencyChain(packages, p);
  }

  /** `name` owns one of the first `n` changed paths that is neither workspace-wide nor documentation. */
  ghost predicate OwnsChange(changed: seq<string>, n: nat, dirs: map<string, string>, name: string)
    requires n <= |changed|
  {
    exists i :: 0 <= i < n && !MatchesFullWorkspace(changed[i]) && !IsDocOnly(changed[i])
      && IsOwner(changed[i], dirs, name)
  }

  ghost predicate SpecialNeeded(changed: seq<string>, n: nat, owners: set<string>)
    requires n <= |changed|
  {
    (exists k :: 0 <= k < n && HasSpecialPrefix(changed[k])) || "batchalign-types" in owners
  }

  ghost predicate FullWorkspaceNeeded(changed: seq<string>, n: nat)
    requires n <= |changed|
  {
    exists k :: 0 <= k < n && MatchesFullWorkspace(changed[k])
  }

  ghost predicate AreOwners(changed: seq<string>, n: nat, dirs: map<string, string>, owners: set<string>)
    requires n <= |changed|
  {
    forall c :: c in owners <==> OwnsChange(changed, n, dirs, c)
  }

  lemma {:induction false} OneMoreSpecial(changed: seq<string>, n: nat, owners: set<string>)
    requires n < |changed|
    ensures SpecialNeeded(changed, n + 1, owners) <==> SpecialNeeded(changed, n, owners) || HasSpecialPrefix(changed[n])
  {
  }

  lemma {:induction false} NoOwnerAt(changed: seq<string>, n: nat, dirs: map<string, string>, owners: set<string>)
    requires n < |changed| && (MatchesFullWorkspace(changed[n]) || IsDocOnly(changed[n]))
    ensures AreOwners(changed, n + 1, dirs, owners) <==> AreOwners(changed, n, dirs, owners)
  {
    assert forall c :: OwnsChange(changed, n + 1, dirs, c) <==> OwnsChange(changed, n, dirs, c);
  }

  /** The owner found for line `n` is the one name to add. */
  lemma {:induction false} OneMoreChange(changed: seq<string>, n: nat, dirs: map<string, string>,
                                         owners: set<string>, owner: Option<string>)
    requires n < |changed| && DistinctDirs(dirs) && AreOwners(changed, n, dirs, owners)
    requires !MatchesFullWorkspace(changed[n]) && !IsDocOnly(changed[n])
    requires owner.Some? ==> IsOwner(changed[n], dirs, owner.value)
    requires owner.None? ==> forall name :: !IsOwner(changed[n], dirs, name)
    ensures AreOwners(changed, n + 1, dirs, if owner.Some? then owners + {owner.value} else owners)
  {
    forall c
      ensures OwnsChange(changed, n + 1, dirs, c) <==> OwnsChange(changed, n, dirs, c) || IsOwner(changed[n], dirs, c)
    {
    }
    forall c ensures IsOwner(changed[n], dirs, c) <==> owner == Some(c) {
      if IsOwner(changed[n], dirs, c) && owner.Some? {
        OwnerIsUnique(changed[n], dirs, c, owner.value);
      }
    }
  }

  /** The loop over the changed paths: the workspace flag, the owners, and the extra targets. */
  method ScanPaths(changed: seq<string>, dirs: map<string, string>)
    returns (fullWorkspace: bool, owners: set<string>, specialTargets: set<string>)
    ensures fullWorkspace <==> FullWorkspaceNeeded(changed, |changed|)
    ensures DistinctDirs(dirs) ==> AreOwners(changed, |changed|, dirs, owners)
    ensures specialTargets == if SpecialNeeded(changed, |changed|, owners) then {"pyo3"} else {}
  {
    fullWorkspace, owners, specialTargets := false, {}, {};
    for i := 0 to |changed|
      invariant fullWorkspace <==> FullWorkspaceNeeded(changed, i)
      invariant DistinctDirs(dirs) ==> AreOwners(changed, i, dirs, owners)
      invariant specialTargets == if SpecialNeeded(changed, i, owners) then {"pyo3"} else {}
    {
      var path := changed[i];
      if HasSpecialPrefix(path) {
        specialTargets := specialTargets + {"pyo3"};
      }
      OneMoreSpecial(changed, i, owners);
      if MatchesFullWorkspace(path) || IsDocOnly(path) {
        NoOwnerAt(changed, i, dirs, owners);
      }
      if MatchesFullWorkspace(path) {
        fullWorkspace := true;
      } else if !IsDocOnly(path) {
        var owner := PackageForPath(path, dirs);
        if DistinctDirs(dirs) {
          OneMoreChange(changed, i, dirs, owners, owner);
        }
        if owner.Some? {
          owners := owners + {owner.value};
          if owner.value == "batchalign-types" {
            specialTargets := specialTargets + {"pyo3"};
          }
        }
      }
    }
  }

  /** The closure is skipped for a full-workspace run and for no owners. */
  method ImpactedBy(packages: seq<Package>, reverse: Graph, fullWorkspace: bool, owners: set<string>)
    returns (impacted: seq<string>)
    requires IsTranspose(packages, reverse)
    ensures fullWorkspace ==> impacted == []
    ensures !fullWorkspace ==>
              forall x :: x in impacted <==> exists c :: c in owners && DependsTransitively(packages, x, c)
    ensures forall i, j :: 0 <= i < j < |impacted| ==> Less(impacted[i], impacted[j])
  {
    impacted := [];
    if !fullWorkspace && owners != {} {
      ghost var queued;
      impacted, queued := ReverseDependentClosure(owners, reverse);
      forall x ensures x in impacted <==> exists c :: c in owners && DependsTransitively(packages, x, c) {
        ReachesIffDepends(packages, reverse, owners, x);
      }
    }
  }

  /**
   With distinct package directories: the workspace flag is set exactly by a
   workspace-wide path; otherwise a package is impacted exactly when it depends,
   in any number of steps, on one that owns a changed non-documentation path. If
   no package is nested in another, that takes in every package below whose
   manifest's directory such a path changed.
   */
  method InspectChanges(changed: seq<string>, packages: seq<Package>)
    returns (r: Result<Scope, GraphError>, ghost dirs: map<string, string>)
    ensures r.Ok? <==> forall i :: 0 <= i < |packages| ==> packages[i].manifest.Some?
    ensures r.Ok? ==> AreDirs(packages, |packages|, dirs)
    ensures r.Ok? ==> (r.value.fullWorkspace <==> exists k :: 0 <= k < |changed| && MatchesFullWorkspace(changed[k]))
    ensures r.Ok? && r.value.fullWorkspace ==> r.value.impacted == []
    ensures r.Ok? && !r.value.fullWorkspace && DistinctDirs(dirs) ==>
              forall x :: x in r.value.impacted
                <==> exists c :: OwnsChange(changed, |changed|, dirs, c) && DependsTransitively(packages, x, c)
    ensures r.Ok? && !r.value.fullWorkspace && DistinctDirs(dirs) && Unnested(dirs) ==>
              ChangesCount(changed, packages, r.value.impacted)
    ensures r.Ok? ==> forall i, j :: 0 <= i < j < |r.value.impacted| ==> Less(r.value.impacted[i], r.value.impacted[j])
    ensures r.Ok? && DistinctDirs(dirs) ==>
              r.value.specialTargets
              == if (exists k :: 0 <= k < |changed| && HasSpecialPrefix(changed[k]))
                    || OwnsChange(changed, |changed|, dirs, "batchalign-types")
                 then {"pyo3"} else {}
  {
    dirs := map[];
    var loaded := PackageDirs(packages);
    if loaded.Err? {
      return Err(loaded.error), dirs;
    }
    dirs := loaded.value;
    var reverse := ReverseGraph(packages);
    var fullWorkspace, owners, specialTargets := ScanPaths(changed, loaded.value);
    var impacted := ImpactedBy(packages, reverse, fullWorkspace, owners);
    r := Ok(Scope(fullWorkspace, impacted, specialTargets));
    if Unnested(dirs) {
      forall i, k, dir | LivesIn(packages, i, dir) && ChangedBelow(changed, k, dir)
        ensures OwnsChange(changed, |changed|, dirs, packages[i].name)
        ensures DependsTransitively(packages, packages[i].name, packages[i].name)
      {
        ChangeBelowIsOwned(changed, packages, dirs, i, k, dir);
        DependsOnItself(packages, packages[i].name);
      }
    }
  }
}
