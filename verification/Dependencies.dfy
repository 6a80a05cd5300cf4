/** Depth-limited discovery of package dependencies, as the watch command does it. */
module Dependencies {

  datatype Package = Package(imports: seq<string>, testImports: seq<string>, xTestImports: seq<string>)
  datatype Resolved = Resolved(dir: string, goroot: bool)

  /** What go/build answers: the packages found in directories, and the directory an
      import path resolves to.  A missing key is an import error.  `filtered` holds the
      directories that the ginkgo and gomega filter matches. */
  datatype Build = Build(dirs: map<string, Package>, names: map<string, Resolved>, filtered: set<string>)

  type Deps = map<string, int>

  predicate Kept(b: Build, name: string) {
    name in b.names && !b.names[name].goroot && b.names[name].dir !in b.filtered
  }

  function Targets(b: Build, imports: seq<string>): set<string> {
    set name | name in imports && Kept(b, name) :: b.names[name].dir
  }

  /** The directories a package depends on directly, once it is a dependency itself. */
  function Next(b: Build, dir: string): set<string> {
    if dir in b.dirs then Targets(b, b.dirs[dir].imports) else {}
  }

  /** Those of the package under test, whose tests count as well. */
  function Seeds(b: Build, root: string): set<string>
    requires root in b.dirs
  {
    var p := b.dirs[root];
    Targets(b, p.imports) + Targets(b, p.testImports) + Targets(b, p.xTestImports)
  }

  // ----------------------------------------------------- the import graph

  /** The ends of the import chains of n steps from the root. */
  function Walk(b: Build, root: string, n: nat): set<string>
    requires root in b.dirs && n >= 1
  {
    if n == 1 then Seeds(b, root) else set p, q | q in Walk(b, root, n - 1) && p in Next(b, q) :: p
  }

  /** d is the length of a shortest chain from the root to p. */
  ghost predicate Distance(b: Build, root: string, p: string, d: int)
    requires root in b.dirs
  {
    d >= 1 && p in Walk(b, root, d) && forall k :: 1 <= k < d ==> p !in Walk(b, root, k)
  }

  /** Apart from the root, deps holds exactly the packages within n steps, each with its distance. */
  ghost predicate Exact(b: Build, root: string, deps: Deps, n: int)
    requires root in b.dirs
  {
    && (forall p :: p in deps && p != root ==> deps[p] <= n && Distance(b, root, p, deps[p]))
    && (forall p, k {:trigger p in Walk(b, root, k)} :: 1 <= k <= n && p in Walk(b, root, k) && p != root ==> p in deps)
  }

  /** A dependency n steps away imports the root. */
  ghost predicate Returns(b: Build, root: string, n: int)
    requires root in b.dirs
  {
    exists p :: p != root && Distance(b, root, p, n) && root in Next(b, p)
  }

  /** The root itself is listed exactly when a dependency within fewer than n steps imports it, one step after the
      nearest that does. */
  ghost predicate RootExact(b: Build, root: string, deps: Deps, n: int)
    requires root in b.dirs
  {
    && (forall k :: 1 <= k < n && Returns(b, root, k) ==> root in deps)
    && (root in deps ==>
          && 2 <= deps[root] <= n && Returns(b, root, deps[root] - 1)
          && forall k :: 1 <= k < deps[root] - 1 ==> !Returns(b, root, k))
  }

  // -------------------------------------------------------- one more level

  /** Adding the targets that are not there yet. */
  function Insert(deps: Deps, targets: set<string>, depth: int): Deps {
    map p | p in deps.Keys + targets :: if p in deps then deps[p] else depth
  }

  lemma InsertTwice(deps: Deps, s: set<string>, t: set<string>, depth: int)
    ensures Insert(Insert(deps, s, depth), t, depth) == Insert(deps, s + t, depth)
  {
  }

  function Frontier(b: Build, deps: Deps, depth: int, from: set<string>): set<string> {
    set q, p | q in from && q in deps && deps[q] == depth && p in Next(b, q) :: p
  }

  lemma NextOfRoot(b: Build, root: string)
    requires root in b.dirs
    ensures Next(b, root) <= Seeds(b, root) == Walk(b, root, 1)
  {
  }

  lemma InFrontier(b: Build, root: string, deps: Deps, n: nat, p: string)
    requires root in b.dirs && n >= 1 && Exact(b, root, deps, n)
    requires p in Walk(b, root, n + 1) && p != root && p !in deps
    ensures p in Frontier(b, deps, n, deps.Keys)
  {
    var q :| q in Walk(b, root, n) && p in Next(b, q);
    NextOfRoot(b, root);
    assert q != root;
    assert q in deps && Distance(b, root, q, deps[q]);
    if deps[q] < n {
      assert p in Walk(b, root, deps[q] + 1);
    }
  }

  lemma FromFrontier(b: Build, root: string, deps: Deps, n: nat, p: string)
    requires root in b.dirs && n >= 1 && Exact(b, root, deps, n)
    requires p in Frontier(b, deps, n, deps.Keys) && p != root && p !in deps
    ensures Distance(b, root, p, n + 1)
  {
    var q :| q in deps && deps[q] == n && p in Next(b, q);
    NextOfRoot(b, root);
    assert q != root;
    assert Distance(b, root, q, n);
    assert p in Walk(b, root, n + 1);
  }

  /** Expanding the packages at distance n, with whatever the root adds, reaches distance n + 1. */
  lemma LevelIsExact(b: Build, root: string, deps: Deps, n: nat)
    requires root in b.dirs && n >= 1 && Exact(b, root, deps, n)
    ensures Exact(b, root, Insert(deps, Frontier(b, deps, n, deps.Keys), n + 1), n + 1)
  {
    var after := Insert(deps, Frontier(b, deps, n, deps.Keys), n + 1);
    forall p | p in after && p != root ensures after[p] <= n + 1 && Distance(b, root, p, after[p]) {
      if p !in deps {
        FromFrontier(b, root, deps, n, p);
      }
    }
    forall p, k | 1 <= k <= n + 1 && p in Walk(b, root, k) && p != root ensures p in after {
      if p !in deps {
        InFrontier(b, root, deps, n, p);
      }
    }
  }

  /** Once a level adds nothing, no deeper level can. */
  lemma {:induction false} Saturated(b: Build, root: string, deps: Deps, n: nat, k: nat, p: string)
    requires root in b.dirs && n >= 1 && Exact(b, root, deps, n + 1)
    requires forall q :: q in deps && q != root ==> deps[q] <= n
    requires k >= 1 && p in Walk(b, root, k) && p != root
    ensures p in deps
    decreases k
  {
    if k > n + 1 {
      var q :| q in Walk(b, root, k - 1) && p in Next(b, q);
      NextOfRoot(b, root);
      if q == root {
        assert p in Walk(b, root, 1);
      } else {
        Saturated(b, root, deps, n, k - 1, q);
        assert Distance(b, root, q, deps[q]);
        assert p in Walk(b, root, deps[q] + 1);
      }
    }
  }

  lemma StaysExact(b: Build, root: string, deps: Deps, n: nat, bound: int)
    requires root in b.dirs && n >= 1 && n < bound && Exact(b, root, deps, n + 1)
    requires forall q :: q in deps && q != root ==> deps[q] <= n
    ensures Exact(b, root, deps, bound)
  {
    forall p, k | 1 <= k <= bound && p in Walk(b, root, k) && p != root ensures p in deps {
      Saturated(b, root, deps, n, k, p);
    }
  }

  // ------------------------------------------------------------- the root

  lemma DistanceIsUnique(b: Build, root: string, p: string, d: int, e: int)
    requires root in b.dirs && Distance(b, root, p, d) && Distance(b, root, p, e)
    ensures d == e
  {
  }

  /** A level lists the root exactly if a package at that distance imports it. */
  lemma RootLevel(b: Build, root: string, deps: Deps, n: nat)
    requires root in b.dirs && n >= 1 && Exact(b, root, deps, n) && root !in deps
    ensures root in Frontier(b, deps, n, deps.Keys) <==> Returns(b, root, n)
  {
    if root in Frontier(b, deps, n, deps.Keys) {
      var q :| q in deps && deps[q] == n && root in Next(b, q);
      assert q != root && Distance(b, root, q, n);
    }
    if Returns(b, root, n) {
      var p :| p != root && Distance(b, root, p, n) && root in Next(b, p);
      assert p in Walk(b, root, n) && p in deps;
      DistanceIsUnique(b, root, p, n, deps[p]);
    }
  }

  lemma RootStep(b: Build, root: string, deps: Deps, after: Deps, n: nat)
    requires root in b.dirs && n >= 1 && RootExact(b, root, deps, n)
    requires root in deps ==> root in after && after[root] == deps[root]
    requires root !in deps ==> (root in after <==> Returns(b, root, n)) && (root in after ==> after[root] == n + 1)
    ensures RootExact(b, root, after, n + 1)
  {
  }

  lemma LevelIsRootExact(b: Build, root: string, deps: Deps, n: nat)
    requires root in b.dirs && n >= 1 && Exact(b, root, deps, n) && RootExact(b, root, deps, n)
    ensures RootExact(b, root, Insert(deps, Frontier(b, deps, n, deps.Keys), n + 1), n + 1)
  {
    if root !in deps {
      RootLevel(b, root, deps, n);
    }
    RootStep(b, root, deps, Insert(deps, Frontier(b, deps, n, deps.Keys), n + 1), n);
  }

  lemma StaysRootExact(b: Build, root: string, deps: Deps, n: nat, bound: int)
    requires root in b.dirs && n >= 1 && n < bound && Exact(b, root, deps, n + 1) && RootExact(b, root, deps, n + 1)
    requires forall q :: q in deps && q != root ==> deps[q] <= n
    ensures RootExact(b, root, deps, bound)
  {
    forall k | 1 <= k < bound && Returns(b, root, k) ensures root in deps {
      var p :| p != root && Distance(b, root, p, k) && root in Next(b, p);
      Saturated(b, root, deps, n, k, p);
      DistanceIsUnique(b, root, p, k, deps[p]);
    }
  }

  // -------------------------------------------------------- name by name

  /** The name is found outside the Go root, and its directory p is not filtered out. */
  predicate Leads(b: Build, name: string, p: string) {
    name in b.names && b.names[name] == Resolved(p, false) && p !in b.filtered
  }

  predicate RootNames(b: Build, root: string, name: string)
    requires root in b.dirs
  {
    var pkg := b.dirs[root];
    name in pkg.imports || name in pkg.testImports || name in pkg.xTestImports
  }

  predicate Imports(b: Build, q: string, name: string) {
    q in b.dirs && name in b.dirs[q].imports
  }

  /** q is listed one level above p and imports it. */
  ghost predicate Parent(b: Build, root: string, deps: Deps, q: string, p: string)
    requires p in deps
  {
    q in deps && q != root && deps[q] == deps[p] - 1 && exists name :: Imports(b, q, name) && Leads(b, name, p)
  }

  ghost predicate ListsSeeds(b: Build, root: string, deps: Deps)
    requires root in b.dirs
  {
    forall name, p :: p != root && RootNames(b, root, name) && Leads(b, name, p) ==> p in deps && deps[p] == 1
  }

  ghost predicate ListsImports(b: Build, deps: Deps, q: string)
    requires q in deps
  {
    forall name, p :: Imports(b, q, name) && Leads(b, name, p) ==> p in deps && deps[p] <= deps[q] + 1
  }

  /** The entry is there because of an import. */
  ghost predicate Sourced(b: Build, root: string, deps: Deps, p: string)
    requires root in b.dirs && p in deps
  {
    && (deps[p] == 1 ==> p != root && exists name :: RootNames(b, root, name) && Leads(b, name, p))
    && (deps[p] > 1 ==> exists q :: Parent(b, root, deps, q, p))
  }

  /** Whatever the root or its tests import is listed at depth 1; what a dependency short of the last level imports,
      at most one deeper; and every entry is there because of such an import. */
  ghost predicate Lists(b: Build, root: string, deps: Deps, n: int)
    requires root in b.dirs
  {
    && (n >= 1 ==> ListsSeeds(b, root, deps))
    && (forall q :: q in deps && q != root && deps[q] < n ==> ListsImports(b, deps, q))
    && (forall p :: p in deps ==> 1 <= deps[p] <= n && Sourced(b, root, deps, p))
  }

  lemma NextIs(b: Build, q: string, p: string)
    ensures p in Next(b, q) <==> exists name :: Imports(b, q, name) && Leads(b, name, p)
  {
    if name :| Imports(b, q, name) && Leads(b, name, p) {
      assert name in b.dirs[q].imports && Kept(b, name) && b.names[name].dir == p;
    } else if p in Next(b, q) {
      var name :| name in b.dirs[q].imports && Kept(b, name) && b.names[name].dir == p;
      assert Imports(b, q, name) && Leads(b, name, p);
    }
  }

  lemma SeedsAre(b: Build, root: string, p: string)
    requires root in b.dirs
    ensures p in Seeds(b, root) <==> exists name :: RootNames(b, root, name) && Leads(b, name, p)
  {
    if name :| RootNames(b, root, name) && Leads(b, name, p) {
      assert Kept(b, name) && b.names[name].dir == p;
    } else if p in Seeds(b, root) {
      var name :| RootNames(b, root, name) && Kept(b, name) && b.names[name].dir == p;
      assert Leads(b, name, p);
    }
  }

  lemma ListsSeed(b: Build, root: string, deps: Deps, n: int, name: string, p: string)
    requires root in b.dirs && Exact(b, root, deps, n)
    requires n >= 1 && p != root && RootNames(b, root, name) && Leads(b, name, p)
    ensures p in deps && deps[p] == 1
  {
    SeedsAre(b, root, p);
    assert p in Walk(b, root, 1);
  }

  lemma ListsImport(b: Build, root: string, deps: Deps, n: int, q: string, name: string, p: string)
    requires root in b.dirs && Exact(b, root, deps, n) && RootExact(b, root, deps, n)
    requires q in deps && q != root && deps[q] < n && Imports(b, q, name) && Leads(b, name, p)
    ensures p in deps && deps[p] <= deps[q] + 1
  {
    NextIs(b, q, p);
    var d := deps[q];
    assert Distance(b, root, q, d);
    if p == root {
      assert Returns(b, root, d);
    } else {
      assert p in Walk(b, root, d + 1);
    }
  }

  lemma HasParent(b: Build, root: string, deps: Deps, n: int, p: string) returns (q: string)
    requires root in b.dirs && Exact(b, root, deps, n) && RootExact(b, root, deps, n)
    requires p in deps && deps[p] > 1
    ensures Parent(b, root, deps, q, p)
  {
    var d := deps[p];
    NextOfRoot(b, root);
    if p == root {
      q :| q != root && Distance(b, root, q, d - 1) && root in Next(b, q);
      assert q in Walk(b, root, d - 1) && q in deps;
      DistanceIsUnique(b, root, q, d - 1, deps[q]);
    } else {
      assert Distance(b, root, p, d);
      q :| q in Walk(b, root, d - 1) && p in Next(b, q);
      assert q != root;
      assert q in deps && Distance(b, root, q, deps[q]);
      assert p in Walk(b, root, deps[q] + 1);
    }
    NextIs(b, q, p);
  }

  lemma IsSourced(b: Build, root: string, deps: Deps, n: int, p: string)
    requires root in b.dirs && Exact(b, root, deps, n) && RootExact(b, root, deps, n) && p in deps
    ensures 1 <= deps[p] <= n && Sourced(b, root, deps, p)
  {
    if deps[p] > 1 {
      var q := HasParent(b, root, deps, n, p);
    } else {
      assert Distance(b, root, p, 1);
      SeedsAre(b, root, p);
    }
  }

  /** The shortest distances are such a list. */
  lemma ExactLists(b: Build, root: string, deps: Deps, n: int)
    requires root in b.dirs && Exact(b, root, deps, n) && RootExact(b, root, deps, n)
    ensures Lists(b, root, deps, n)
  {
    forall name, p | n >= 1 && p != root && RootNames(b, root, name) && Leads(b, name, p)
      ensures p in deps && deps[p] == 1
    {
      ListsSeed(b, root, deps, n, name, p);
    }
    forall q | q in deps && q != root && deps[q] < n ensures ListsImports(b, deps, q) {
      ExactListsImports(b, root, deps, n, q);
    }
    forall p | p in deps ensures 1 <= deps[p] <= n && Sourced(b, root, deps, p) {
      IsSourced(b, root, deps, n, p);
    }
  }

  lemma ExactListsImports(b: Build, root: string, deps: Deps, n: int, q: string)
    requires root in b.dirs && Exact(b, root, deps, n) && RootExact(b, root, deps, n)
    requires q in deps && q != root && deps[q] < n
    ensures ListsImports(b, deps, q)
  {
    forall name, p | Imports(b, q, name) && Leads(b, name, p) ensures p in deps && deps[p] <= deps[q] + 1 {
      ListsImport(b, root, deps, n, q, name, p);
    }
  }

  lemma {:induction false} ListedBelow(b: Build, root: string, deps: Deps, other: Deps, n: int, p: string)
    requires root in b.dirs && Lists(b, root, deps, n) && Lists(b, root, other, n) && p in deps
    ensures p in other && other[p] <= deps[p]
    decreases deps[p]
  {
    if deps[p] > 1 {
      var q :| Parent(b, root, deps, q, p);
      ListedBelow(b, root, deps, other, n, q);
    }
  }

  lemma ListedSame(b: Build, root: string, deps: Deps, other: Deps, n: int, p: string)
    requires root in b.dirs && Lists(b, root, deps, n) && Lists(b, root, other, n)
    ensures (p in deps <==> p in other) && (p in deps ==> deps[p] == other[p])
  {
    if p in deps {
      ListedBelow(b, root, deps, other, n, p);
    }
    if p in other {
      ListedBelow(b, root, other, deps, n, p);
    }
  }

  /** There is only one such list. */
  lemma ListsIsUnique(b: Build, root: string, deps: Deps, other: Deps, n: int)
    requires root in b.dirs && Lists(b, root, deps, n) && Lists(b, root, other, n)
    ensures deps == other
  {
    forall p ensures (p in deps <==> p in other) && (p in deps ==> deps[p] == other[p]) {
      ListedSame(b, root, deps, other, n, p);
    }
  }

  // ------------------------------------------------------------- the code

  function AllDirs(b: Build): set<string> {
    set name | name in b.names :: b.names[name].dir
  }

  lemma TargetsAppend(b: Build, imports: seq<string>, i: nat)
    requires i < |imports|
    ensures Targets(b, imports[..i+1]) ==
      Targets(b, imports[..i]) + if Kept(b, imports[i]) then {b.names[imports[i]].dir} else {}
  {
    assert imports[..i+1] == imports[..i] + [imports[i]];
    assert imports[i] in imports[..i+1];
  }

  lemma VisitOne(b: Build, start: Deps, depth: int, visited: set<string>, dep: string)
    requires dep in Insert(start, Frontier(b, start, depth, visited), depth + 1)
    ensures var deps := Insert(start, Frontier(b, start, depth, visited), depth + 1);
      Insert(start, Frontier(b, start, depth, visited + {dep}), depth + 1)
        == if deps[dep] == depth then Insert(deps, Next(b, dep), depth + 1) else deps
    ensures Next(b, dep) <= AllDirs(b)
  {
    var here := if dep in start && start[dep] == depth then Next(b, dep) else {};
    assert Frontier(b, start, depth, visited + {dep}) == Frontier(b, start, depth, visited) + here;
    InsertTwice(start, Frontier(b, start, depth, visited), here, depth + 1);
  }

  class Dependencies {
    var deps: Deps

    constructor ()
      ensures deps == map[]
    {
      deps := map[];
    }

    method AddDepIfNotPresent(dep: string, depth: int)
      modifies this
      ensures deps == Insert(old(deps), {dep}, depth)
    {
      if dep !in deps {
        deps := deps[dep := depth];
      }
    }

    method ResolveAndAdd(b: Build, imports: seq<string>, depth: int)
      modifies this
      ensures deps == Insert(old(deps), Targets(b, imports), depth)
    {
      for i := 0 to |imports|
        invariant deps == Insert(old(deps), Targets(b, imports[..i]), depth)
      {
        TargetsAppend(b, imports, i);
        if Kept(b, imports[i]) {
          AddDepIfNotPresent(b.names[imports[i]].dir, depth);
          InsertTwice(old(deps), Targets(b, imports[..i]), {b.names[imports[i]].dir}, depth);
        }
      }
      assert imports[..|imports|] == imports;
    }

    method AddDepsForDep(b: Build, dep: string, depth: int)
      modifies this
      ensures deps == Insert(old(deps), Next(b, dep), depth)
    {
      if dep !in b.dirs {
        return;
      }
      ResolveAndAdd(b, b.dirs[dep].imports, depth);
    }

    /** Ranges over the map while inserting into it: every entry there at the start is
        visited, an entry added meanwhile may or may not be. */
    method AddDepsForDepth(b: Build, depth: int)
      modifies this
      ensures deps == Insert(old(deps), Frontier(b, old(deps), depth, old(deps).Keys), depth + 1)
    {
      ghost var start := deps;
      var before := deps.Keys;
      var visited: set<string> := {};
      while before - visited != {}
        invariant before <= deps.Keys <= before + AllDirs(b)
        invariant deps == Insert(start, Frontier(b, start, depth, visited), depth + 1)
        decreases before + AllDirs(b) - visited
      {
        ghost var left :| left in before - visited;
        assert left in deps.Keys - visited;
        var dep :| dep in deps.Keys - visited;
        VisitOne(b, start, depth, visited, dep);
        if deps[dep] == depth {
          AddDepsForDep(b, dep, depth + 1);
        }
        visited := visited + {dep};
      }
    }

    method SeedWithDepsForPackageAtPath(b: Build, path: string) returns (ok: bool)
      modifies this
      ensures ok <==> path in b.dirs
      ensures !ok ==> deps == old(deps)
      ensures ok ==> deps == Insert(old(deps), Seeds(b, path), 1) - {path}
    {
      if path !in b.dirs {
        return false;
      }
      var pkg := b.dirs[path];
      ResolveAndAdd(b, pkg.imports, 1);
      ResolveAndAdd(b, pkg.testImports, 1);
      ResolveAndAdd(b, pkg.xTestImports, 1);
      InsertTwice(old(deps), Targets(b, pkg.imports), Targets(b, pkg.testImports), 1);
      InsertTwice(old(deps), Targets(b, pkg.imports) + Targets(b, pkg.testImports), Targets(b, pkg.xTestImports), 1);
      deps := deps - {path};
      return true;
    }
  }

  /** The number of levels NewDependencies really explores. */
  function Levels(maxDepth: int): int {
    if maxDepth == 0 then 0 else if maxDepth < 1 then 1 else maxDepth
  }

  /** Every package other than the root is listed exactly when it can be reached in at most
      Levels(maxDepth) steps, with its shortest distance; the root exactly when one of them short
      of the last level imports it, with the length of the shortest way back. */
  method NewDependencies(b: Build, path: string, maxDepth: int) returns (d: Dependencies, ok: bool)
    ensures fresh(d)
    ensures maxDepth == 0 ==> ok && d.deps == map[]
    ensures maxDepth != 0 ==> (ok <==> path in b.dirs)
    ensures maxDepth != 0 && !ok ==> d.deps == map[]
    ensures path in b.dirs ==> Exact(b, path, d.deps, Levels(maxDepth)) && RootExact(b, path, d.deps, Levels(maxDepth))
    ensures path in b.dirs ==> Lists(b, path, d.deps, Levels(maxDepth))
  {
    d, ok := Explore(b, path, maxDepth);
    if path in b.dirs {
      ExactLists(b, path, d.deps, Levels(maxDepth));
    }
  }

  method Explore(b: Build, path: string, maxDepth: int) returns (d: Dependencies, ok: bool)
    ensures fresh(d)
    ensures maxDepth == 0 ==> ok && d.deps == map[]
    ensures maxDepth != 0 ==> (ok <==> path in b.dirs)
    ensures maxDepth != 0 && !ok ==> d.deps == map[]
    ensures path in b.dirs ==> Exact(b, path, d.deps, Levels(maxDepth)) && RootExact(b, path, d.deps, Levels(maxDepth))
  {
    d := new Dependencies();
    if maxDepth == 0 {
      return d, true;
    }
    ok := d.SeedWithDepsForPackageAtPath(b, path);
    if !ok {
      return d, false;
    }
    var depth := 1;
    while depth < maxDepth
      invariant 1 <= depth <= Levels(maxDepth) && Exact(b, path, d.deps, depth) && RootExact(b, path, d.deps, depth)
    {
      var n := |d.deps|;
      ghost var before := d.deps;
      d.AddDepsForDepth(b, depth);
      NextLevel(b, path, before, d.deps, depth, maxDepth);
      if n == |d.deps| {
        return d, true;
      }
      depth := depth + 1;
    }
    return d, true;
  }

  /** One turn of the loop; if it adds nothing, the remaining ones would not either. */
  lemma NextLevel(b: Build, root: string, before: Deps, after: Deps, depth: nat, maxDepth: int)
    requires root in b.dirs && 1 <= depth < maxDepth
    requires Exact(b, root, before, depth) && RootExact(b, root, before, depth)
    requires after == Insert(before, Frontier(b, before, depth, before.Keys), depth + 1)
    ensures Exact(b, root, after, depth + 1) && RootExact(b, root, after, depth + 1)
    ensures |before| == |after| ==> Exact(b, root, after, maxDepth) && RootExact(b, root, after, maxDepth)
  {
    LevelIsExact(b, root, before, depth);
    LevelIsRootExact(b, root, before, depth);
    if |before| == |after| {
      SameSize(before, after);
      StaysExact(b, root, after, depth, maxDepth);
      StaysRootExact(b, root, after, depth, maxDepth);
    }
  }

  lemma SameSize(before: Deps, after: Deps)
    requires before.Keys <= after.Keys && |before| == |after|
    ensures before.Keys == after.Keys
  {
    assert after.Keys == before.Keys + (after.Keys - before.Keys);
  }
}
