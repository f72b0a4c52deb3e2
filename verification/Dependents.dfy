/** Reverse reachability in the package graph: `dependents` in scripts/mutants_queue.py,
    lines 306-345. */
module Dependents {
  import opened Sequences

  /** A dependency with its kind; cargo leaves the kind out for a normal one. */
  datatype Kind = Unspecified | Named(kind: string)

  datatype Dep = Dep(name: string, kind: Kind)

  datatype Package = Package(name: string, deps: seq<Dep>)

  const BENCH: string := "rbitcoin-bench"

  /** Linked by tests: normal or dev, not build. */
  predicate Counts(d: Dep) {
    d.name != "" && (d.kind == Unspecified || d.kind == Named("normal") || d.kind == Named("dev"))
  }

  function DepNames(p: Package): set<string> {
    set i | 0 <= i < |p.deps| && Counts(p.deps[i]) :: p.deps[i].name
  }

  /** Some package named `a`, other than the bench, depends on `b`. */
  predicate Links(packages: seq<Package>, a: string, b: string) {
    a != "" && a != BENCH
    && exists i :: 0 <= i < |packages| && packages[i].name == a && b in DepNames(packages[i])
  }

  /** `path` runs from `q` to `p` along dependencies, through no bench. */
  predicate Leads(packages: seq<Package>, path: seq<string>, q: string, p: string) {
    && |path| >= 2 && path[0] == q && path[|path| - 1] == p
    && forall i :: 0 <= i < |path| - 1 ==> Links(packages, path[i], path[i + 1])
  }

  ghost predicate Reaches(packages: seq<Package>, q: string, p: string) {
    exists path :: Leads(packages, path, q, p)
  }

  /** `q` is another package that links `p`, directly or not. */
  ghost predicate DependsOn(packages: seq<Package>, q: string, p: string) {
    q != p && Reaches(packages, q, p)
  }

  type Reverse = map<string, set<string>>

  function Get(rev: Reverse, name: string): set<string> {
    if name in rev then rev[name] else {}
  }

  /** `rev[b]` is the set of packages that depend on `b`. */
  ghost predicate Reverses(rev: Reverse, packages: seq<Package>) {
    forall a, b :: a in Get(rev, b) <==> Links(packages, a, b)
  }

  /** `r` is `rev` with an edge from `name` to each of `deps` added. */
  ghost predicate WithEdges(r: Reverse, rev: Reverse, name: string, deps: set<string>) {
    forall b :: Get(r, b) == Get(rev, b) + if b in deps then {name} else {}
  }

  lemma AddEdge(r: Reverse, rev: Reverse, name: string, done: set<string>, d: string)
    requires WithEdges(r, rev, name, done)
    ensures WithEdges(r[d := Get(r, d) + {name}], rev, name, done + {d})
  {
    var next := r[d := Get(r, d) + {name}];
    forall b ensures Get(next, b) == Get(rev, b) + if b in done + {d} then {name} else {} {
      assert Get(next, b) == if b == d then Get(r, d) + {name} else Get(r, b);
      assert Get(r, b) == Get(rev, b) + if b in done then {name} else {};
    }
  }

  method AddEdges(rev: Reverse, name: string, deps: set<string>) returns (r: Reverse)
    ensures WithEdges(r, rev, name, deps)
  {
    r := rev;
    var todo := deps;
    ghost var done: set<string> := {};
    while todo != {}
      invariant done + todo == deps && WithEdges(r, rev, name, done)
      decreases |todo|
    {
      var d :| d in todo;
      AddEdge(r, rev, name, done, d);
      r := r[d := Get(r, d) + {name}];
      todo := todo - {d};
      done := done + {d};
    }
    assert done == deps;
  }

  method BuildReverse(packages: seq<Package>) returns (rev: Reverse)
    ensures Reverses(rev, packages)
  {
    rev := map[];
    for i := 0 to |packages|
      invariant Reverses(rev, packages[..i])
    {
      var p := packages[i];
      LinksAppend(packages[..i], p);
      assert packages[..i + 1] == packages[..i] + [p];
      if p.name == "" {
        continue;
      }
      if p.name !in rev {
        rev := rev[p.name := {}];
      }
      if p.name == BENCH {
        continue;
      }
      rev := AddEdges(rev, p.name, DepNames(p));
    }
    assert packages[..|packages|] == packages;
  }

  lemma LinksAppend(packages: seq<Package>, p: Package)
    ensures forall a, b :: Links(packages + [p], a, b) <==>
              Links(packages, a, b) || (a == p.name && a != "" && a != BENCH && b in DepNames(p))
  {
    var all := packages + [p];
    forall a, b | a != "" && a != BENCH
      ensures Links(all, a, b) <==> Links(packages, a, b) || (a == p.name && b in DepNames(p))
    {
      if Links(packages, a, b) {
        var i :| 0 <= i < |packages| && packages[i].name == a && b in DepNames(packages[i]);
        assert all[i] == packages[i];
      }
      if a == p.name && b in DepNames(p) {
        assert all[|packages|] == p;
      }
      if Links(all, a, b) {
        var i :| 0 <= i < |all| && all[i].name == a && b in DepNames(all[i]);
        assert i < |packages| ==> all[i] == packages[i];
      }
    }
  }

  method Listing(s: set<string>) returns (l: seq<string>)
    ensures forall x :: x in l <==> x in s
  {
    l := [];
    var todo := s;
    while todo != {}
      invariant todo <= s && forall x :: x in l <==> x in s - todo
      decreases |todo|
    {
      var x :| x in todo;
      l := l + [x];
      todo := todo - {x};
    }
  }

  /** Everything that links something already found has been found or is on the stack. */
  ghost predicate Closed(packages: seq<Package>, found: set<string>, waiting: set<string>) {
    forall a, b :: b in found && Links(packages, a, b) ==> a in found || a in waiting
  }

  function Names(packages: seq<Package>): set<string> {
    set i | 0 <= i < |packages| :: packages[i].name
  }

  lemma LinkSource(packages: seq<Package>, a: string, b: string)
    requires Links(packages, a, b)
    ensures a != BENCH && a in Names(packages)
  {}

  lemma ReachesSource(packages: seq<Package>, q: string, p: string)
    requires Reaches(packages, q, p)
    ensures q != BENCH && q in Names(packages)
  {
    var path :| Leads(packages, path, q, p);
    LinkSource(packages, path[0], path[1]);
  }

  lemma ReachesDirectly(packages: seq<Package>, a: string, b: string)
    requires Links(packages, a, b)
    ensures Reaches(packages, a, b)
  {
    assert Leads(packages, [a, b], a, b);
  }

  lemma ReachesThrough(packages: seq<Package>, a: string, b: string, p: string)
    requires Links(packages, a, b) && Reaches(packages, b, p)
    ensures Reaches(packages, a, p)
  {
    var path :| Leads(packages, path, b, p);
    var longer := [a] + path;
    forall i | 0 <= i < |longer| - 1 ensures Links(packages, longer[i], longer[i + 1]) {
      assert i > 0 ==> longer[i] == path[i - 1] && longer[i + 1] == path[i];
    }
    assert Leads(packages, longer, a, p);
  }

  /** A set that contains `p` and is closed under links contains every path to `p`. */
  lemma {:induction false} ClosedHoldsPath(packages: seq<Package>, found: set<string>, path: seq<string>,
                                          q: string, p: string, i: nat)
    requires Closed(packages, found, {}) && p in found && Leads(packages, path, q, p) && i < |path|
    ensures path[i] in found
    decreases |path| - i
  {
    if i < |path| - 1 {
      ClosedHoldsPath(packages, found, path, q, p, i + 1);
      assert Links(packages, path[i], path[i + 1]);
    }
  }

  lemma ClosedHoldsReaching(packages: seq<Package>, found: set<string>, q: string, p: string)
    requires Closed(packages, found, {}) && p in found && Reaches(packages, q, p)
    ensures q in found
  {
    var path :| Leads(packages, path, q, p);
    ClosedHoldsPath(packages, found, path, q, p, 0);
  }

  /** The worklist state: what is seen or waiting reaches the package, and nothing that
      links a seen package is missing. */
  ghost predicate Explored(packages: seq<Package>, package: string, seen: set<string>, waiting: set<string>) {
    && package !in seen && seen <= Names(packages)
    && (forall x :: x in seen || x in waiting ==> Reaches(packages, x, package))
    && Closed(packages, seen + {package}, waiting)
  }

  lemma ExploreStart(packages: seq<Package>, rev: Reverse, package: string)
    requires Reverses(rev, packages)
    ensures Explored(packages, package, {}, Get(rev, package))
  {
    forall x | x in Get(rev, package) ensures Reaches(packages, x, package) {
      ReachesDirectly(packages, x, package);
    }
  }

  lemma ExploreSkip(packages: seq<Package>, package: string, seen: set<string>, waiting: set<string>,
                    name: string, rest: set<string>)
    requires Explored(packages, package, seen, waiting) && waiting <= rest + {name} && rest <= waiting
    requires name in seen || name == package || name == BENCH
    ensures Explored(packages, package, seen, rest)
  {
    hide Reaches, Links;
    forall a, b | b in seen + {package} && Links(packages, a, b)
      ensures a in seen + {package} || a in rest
    {
      LinkSource(packages, a, b);
    }
  }

  lemma ExploreVisit(packages: seq<Package>, rev: Reverse, package: string, seen: set<string>, waiting: set<string>,
                     name: string, rest: set<string>)
    requires Reverses(rev, packages)
    requires Explored(packages, package, seen, waiting) && waiting <= rest + {name} && rest <= waiting
    requires name in waiting && name != package
    ensures Explored(packages, package, seen + {name}, rest + Get(rev, name))
  {
    hide Reaches, Links;
    ReachesSource(packages, name, package);
    forall x | x in Get(rev, name) ensures Reaches(packages, x, package) {
      ReachesThrough(packages, x, name, package);
    }
  }

  /** The worklist: exactly the packages that depend on `package`, on any graph. */
  method FindDependents(packages: seq<Package>, package: string) returns (out: seq<string>)
    ensures Distinct(out)
    ensures forall q :: q in out <==> DependsOn(packages, q, package)
  {
    hide Links, Reaches, Explored, Reverses, Get, Names, DependsOn;
    var rev := BuildReverse(packages);
    var seen: set<string> := {};
    var stack := Listing(Get(rev, package));
    out := [];
    ExploreStart(packages, rev, package);
    assert Elements(stack) == Get(rev, package);
    while stack != []
      invariant Distinct(out) && (forall x :: x in out <==> x in seen)
      invariant Explored(packages, package, seen, Elements(stack))
      decreases |Names(packages) - seen|, |stack|
    {
      var name := stack[|stack| - 1];
      ghost var waiting := Elements(stack);
      stack := stack[..|stack| - 1];
      ghost var rest := Elements(stack);
      assert name in waiting && rest <= waiting <= rest + {name};
      if name in seen || name == package || name == BENCH {
        ExploreSkip(packages, package, seen, waiting, name, rest);
        continue;
      }
      ExploreVisit(packages, rev, package, seen, waiting, name, rest);
      seen := seen + {name};
      out := out + [name];
      var more := Listing(Get(rev, name));
      stack := stack + more;
      assert Elements(stack) == rest + Get(rev, name);
      SeenGrows(packages, package, seen, Elements(stack), name);
    }
    assert Elements(stack) == {};
    AllFound(packages, package, seen);
  }

  lemma SeenGrows(packages: seq<Package>, package: string, seen: set<string>, waiting: set<string>, name: string)
    requires Explored(packages, package, seen, waiting) && name in seen
    ensures Names(packages) - seen < Names(packages) - (seen - {name})
    ensures |Names(packages) - seen| < |Names(packages) - (seen - {name})|
  {
    assert name in Names(packages) - (seen - {name});
    assert Names(packages) - seen == Names(packages) - (seen - {name}) - {name};
  }

  lemma AllFound(packages: seq<Package>, package: string, seen: set<string>)
    requires Explored(packages, package, seen, {})
    ensures forall q :: q in seen <==> DependsOn(packages, q, package)
  {
    hide Reaches;
    forall q | DependsOn(packages, q, package) ensures q in seen {
      ClosedHoldsReaching(packages, seen + {package}, q, package);
    }
  }

  // ----- sorted output

  /** Python's order on strings, by code point. */
  predicate Leq(a: string, b: string) {
    a == "" || (b != "" && (a[0] < b[0] || (a[0] == b[0] && Leq(a[1..], b[1..]))))
  }

  lemma {:induction false} LeqTotal(a: string, b: string)
    ensures Leq(a, b) || Leq(b, a)
    ensures Leq(a, b) && Leq(b, a) ==> a == b
  {
    if a != "" && b != "" && a[0] == b[0] {
      LeqTotal(a[1..], b[1..]);
      assert a == [a[0]] + a[1..] && b == [b[0]] + b[1..];
    }
  }

  lemma {:induction false} LeqTransitive(a: string, b: string, c: string)
    requires Leq(a, b) && Leq(b, c)
    ensures Leq(a, c)
  {
    if a != "" && a[0] == b[0] && b[0] == c[0] {
      LeqTransitive(a[1..], b[1..], c[1..]);
    }
  }

  /** Strictly ascending: sorted and without duplicates. */
  predicate Ascending(s: seq<string>) {
    forall i, j :: 0 <= i < j < |s| ==> Leq(s[i], s[j]) && s[i] != s[j]
  }

  method Insert(s: seq<string>, x: string) returns (r: seq<string>)
    requires Ascending(s) && x !in s
    ensures Ascending(r) && forall y :: y in r <==> y in s || y == x
  {
    hide Leq;
    var i := 0;
    while i < |s| && Leq(s[i], x)
      invariant 0 <= i <= |s| && forall k :: 0 <= k < i ==> Leq(s[k], x)
    {
      i := i + 1;
    }
    forall k | i <= k < |s| ensures Leq(x, s[k]) {
      LeqTotal(x, s[i]);
      if k > i {
        LeqTransitive(x, s[i], s[k]);
      }
    }
    r := s[..i] + [x] + s[i..];
  }

  /** `dependents`: the packages that link `package` through normal or dev dependencies,
      directly or not, on a path that avoids the bench, in ascending order. */
  method SortedDependents(packages: seq<Package>, package: string) returns (out: seq<string>)
    ensures Ascending(out)
    ensures forall q :: q in out <==> DependsOn(packages, q, package)
  {
    hide Leq, DependsOn;
    var found := FindDependents(packages, package);
    out := [];
    for i := 0 to |found|
      invariant Ascending(out) && forall y :: y in out <==> y in found[..i]
    {
      assert found[i] !in found[..i];
      assert found[..i + 1] == found[..i] + [found[i]];
      out := Insert(out, found[i]);
    }
    assert found[..|found|] == found;
  }
}
