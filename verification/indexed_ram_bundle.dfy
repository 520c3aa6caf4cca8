/** The indexed RAM bundle builder of the module-graph output stage: splitting
    the modules into the eagerly executed startup section and the lazily
    loaded deferred modules, assembling the startup code, and the depth-first
    dependency traversal (`subtree`) that RAM groups are built from.

    The binary table layout, the grouping itself and the source map are
    built by collaborators that are not part of this model. */
module IndexedRamBundle {
  import opened Wrappers
  import opened Seqs

  type Id = int

  datatype File = File(path: string, code: string)

  datatype Dependency = Dependency(path: string)

  /** A module of the module graph: its dependencies and its file. */
  datatype Module = Module(dependencies: seq<Dependency>, file: File)

  /** The record the table-and-contents builder consumes. */
  datatype ModuleTransport = ModuleTransport(
    code: string,
    dependencies: seq<Dependency>,
    id: Id,
    name: string,
    sourcePath: string)

  /** The module a transport was made from: the transport keeps the whole
      module apart from its id, which `idForPath` adds. */
  function ModuleOf(t: ModuleTransport): Module
  {
    Module(t.dependencies, File(t.sourcePath, t.code))
  }

  /** `toModuleTransport`: nothing of the module is lost, the transport is
      named after the module's path, and it carries the id `idForPath`
      assigns to the module's file. */
  function ToModuleTransport(m: Module, idForPath: File -> Id): (t: ModuleTransport)
    ensures ModuleOf(t) == m
    ensures t.name == t.sourcePath
    ensures t.id == idForPath(m.file)
  {
    ModuleTransport(m.file.code, m.dependencies, idForPath(m.file), m.file.path, m.file.path)
  }

  /** `getModuleCode`: the code any transport of the module carries. */
  function GetModuleCode(m: Module): (code: string)
    ensures forall t :: ModuleOf(t) == m ==> code == t.code
  {
    m.file.code
  }

  // ---------------------------------------------------------------------
  // partition

  function IsPreloaded(preloadedModules: set<string>): Module -> bool
  {
    (m: Module) => m.file.path in preloadedModules
  }

  function IsNotPreloaded(preloadedModules: set<string>): Module -> bool
  {
    (m: Module) => m.file.path !in preloadedModules
  }

  /** Each module goes to `startup` when its path is preloaded and to
      `deferred` otherwise; both keep the input order. */
  method Partition(modules: seq<Module>, preloadedModules: set<string>)
    returns (startup: seq<Module>, deferred: seq<Module>)
    ensures startup == Filter(modules, IsPreloaded(preloadedModules))
    ensures deferred == Filter(modules, IsNotPreloaded(preloadedModules))
    ensures multiset(startup) + multiset(deferred) == multiset(modules)
    ensures |startup| + |deferred| == |modules|
    ensures forall m :: m in startup ==> m.file.path in preloadedModules
    ensures forall m :: m in deferred ==> m.file.path !in preloadedModules
  {
    startup, deferred := [], [];
    for i := 0 to |modules|
      invariant startup == Filter(modules[..i], IsPreloaded(preloadedModules))
      invariant deferred == Filter(modules[..i], IsNotPreloaded(preloadedModules))
    {
      FilterSnoc(modules, i, IsPreloaded(preloadedModules));
      FilterSnoc(modules, i, IsNotPreloaded(preloadedModules));
      if modules[i].file.path in preloadedModules {
        startup := startup + [modules[i]];
      } else {
        deferred := deferred + [modules[i]];
      }
    }
    assert modules[..|modules|] == modules;
    FilterComplement(modules, IsPreloaded(preloadedModules), IsNotPreloaded(preloadedModules));
  }

  function Transports(ms: seq<Module>, idForPath: File -> Id): (r: seq<ModuleTransport>)
    ensures |r| == |ms|
    ensures forall i :: 0 <= i < |ms| ==> r[i] == ToModuleTransport(ms[i], idForPath)
  {
    seq(|ms|, i requires 0 <= i < |ms| => ToModuleTransport(ms[i], idForPath))
  }

  // ---------------------------------------------------------------------
  // startup section of asIndexedRamBundle

  function Codes(ms: seq<Module>): (r: seq<string>)
    ensures |r| == |ms|
    ensures forall i :: 0 <= i < |ms| ==> r[i] == GetModuleCode(ms[i])
  {
    seq(|ms|, i requires 0 <= i < |ms| => GetModuleCode(ms[i]))
  }

  /** The part of `asIndexedRamBundle` that precedes the (not modelled)
      table builder: the startup list is the preloaded modules followed by
      the require calls, the startup code places each of their codes, in
      that order, one newline apart, and the deferred modules become
      transports in input order. */
  method AssembleStartup(
    modules: seq<Module>,
    preloadedModules: set<string>,
    requireCalls: seq<Module>,
    idForPath: File -> Id)
    returns (startupModules: seq<Module>, startupCode: string, deferredModules: seq<ModuleTransport>)
    ensures startupModules == Filter(modules, IsPreloaded(preloadedModules)) + requireCalls
    ensures LaidOut(startupCode, Codes(startupModules), '\n')
    ensures |deferredModules| + |startupModules| == |modules| + |requireCalls|
    ensures |deferredModules| == |Filter(modules, IsNotPreloaded(preloadedModules))|
    ensures deferredModules == Transports(Filter(modules, IsNotPreloaded(preloadedModules)), idForPath)
    ensures forall i :: 0 <= i < |deferredModules| ==>
      var d := Filter(modules, IsNotPreloaded(preloadedModules))[i];
      && d.file.path !in preloadedModules
      && ModuleOf(deferredModules[i]) == d
      && deferredModules[i].name == d.file.path
      && deferredModules[i].id == idForPath(d.file)
  {
    var startup, deferred := Partition(modules, preloadedModules);
    startupModules := startup + requireCalls;
    var codes := Codes(startupModules);
    startupCode := Join(codes, '\n');
    deferredModules := Transports(deferred, idForPath);
    JoinLaidOut(codes, '\n');
  }

  // ---------------------------------------------------------------------
  // subtree

  datatype Fault = MissingDependency(path: string)

  /** What one traversal produced: the ids yielded, in order, and the shared
      `seen` set as the traversal left it. */
  datatype Visit = Visit(ids: seq<Id>, seen: set<Id>)

  function AllIds(byPath: map<string, ModuleTransport>): set<Id>
  {
    set p | p in byPath :: byPath[p].id
  }

  lemma CardinalityMono<T>(a: set<T>, b: set<T>)
    requires a <= b
    ensures |a| <= |b|
  {
    assert b == a + (b - a);
  }

  /** Adding a fresh id of the lookup to `seen` shrinks the number of ids
      still to visit. */
  lemma MeasureDrops(byPath: map<string, ModuleTransport>, seen: set<Id>, x: Id, later: set<Id>)
    requires x in AllIds(byPath) && x !in seen
    requires seen + {x} <= later
    ensures |AllIds(byPath) - later| < |AllIds(byPath) - seen|
  {
    var all := AllIds(byPath);
    assert all - later <= (all - seen) - {x};
    CardinalityMono(all - later, (all - seen) - {x});
  }

  /** `v` continues a traversal that started from `seen`: it yielded each
      id at most once, only ids of the lookup that were not yet seen, and
      added exactly those to `seen`. */
  ghost predicate Extends(byPath: map<string, ModuleTransport>, seen: set<Id>, v: Visit)
  {
    && v.seen == seen + Elems(v.ids)
    && Distinct(v.ids)
    && Elems(v.ids) !! seen
    && Elems(v.ids) <= AllIds(byPath)
  }

  /** Yielding `x`, then the nested traversal, then the rest of the loop
      continues the traversal. */
  lemma CombineVisits(byPath: map<string, ModuleTransport>, seen: set<Id>, x: Id, inner: Visit, rest: Visit)
    requires x in AllIds(byPath) && x !in seen
    requires Extends(byPath, seen + {x}, inner)
    requires Extends(byPath, inner.seen, rest)
    ensures Extends(byPath, seen, Visit([x] + inner.ids + rest.ids, rest.seen))
  {
    assert Elems([x]) == {x};
    DistinctConcat([x], inner.ids);
    DistinctConcat([x] + inner.ids, rest.ids);
  }

  /** The loop of `subtree` over `deps`, with the shared set `seen`. The
      nested `subtree(dependency, …, seen)` is
      `Deps(dependency.dependencies, byPath, seen + {dependency.id})`.
      A dependency path missing from the lookup throws before `seen` is
      consulted. Termination: every descent adds a new id of the lookup to
      `seen`. */
  function Deps(deps: seq<Dependency>, byPath: map<string, ModuleTransport>, seen: set<Id>): (r: Result<Visit, Fault>)
    ensures r.Success? ==> Extends(byPath, seen, r.value)
    decreases |AllIds(byPath) - seen|, |deps|
  {
    if |deps| == 0 then Success(Visit([], seen))
    else if deps[0].path !in byPath then Failure(MissingDependency(deps[0].path))
    else
      var dep := byPath[deps[0].path];
      if dep.id in seen then Deps(deps[1..], byPath, seen)
      else
        MeasureDrops(byPath, seen, dep.id, seen + {dep.id});
        match Deps(dep.dependencies, byPath, seen + {dep.id})
        case Failure(e) => Failure(e)
        case Success(inner) =>
          MeasureDrops(byPath, seen, dep.id, inner.seen);
          match Deps(deps[1..], byPath, inner.seen)
          case Failure(e) => Failure(e)
          case Success(rest) =>
            CombineVisits(byPath, seen, dep.id, inner, rest);
            Success(Visit([dep.id] + inner.ids + rest.ids, rest.seen))
  }

  /** `subtree(head, byPath, seen)`: the head's id joins `seen` before any
      dependency is looked at. */
  function Subtree(head: ModuleTransport, byPath: map<string, ModuleTransport>, seen: set<Id>): (r: Result<Visit, Fault>)
    ensures r.Success? ==> head.id !in r.value.ids
    ensures r.Success? ==> Distinct(r.value.ids)
    ensures r.Success? ==> Elems(r.value.ids) !! seen
  {
    var r := Deps(head.dependencies, byPath, seen + {head.id});
    assert r.Success? ==> head.id !in Elems(r.value.ids);
    r
  }

  // ---------------------------------------------------------------------
  // reachability

  function DepPaths(deps: seq<Dependency>): set<string>
  {
    set d | d in deps :: d.path
  }

  /** `ps` is a chain of dependency paths starting at one of `deps`, each
      resolved by the lookup, each the dependency of the one before. */
  ghost predicate IsWalk(byPath: map<string, ModuleTransport>, deps: seq<Dependency>, ps: seq<string>)
  {
    && |ps| > 0
    && ps[0] in DepPaths(deps)
    && (forall i :: 0 <= i < |ps| ==> ps[i] in byPath)
    && (forall i :: 1 <= i < |ps| ==> ps[i] in DepPaths(byPath[ps[i - 1]].dependencies))
  }

  ghost predicate ReachableFrom(byPath: map<string, ModuleTransport>, deps: seq<Dependency>, id: Id)
  {
    exists ps :: IsWalk(byPath, deps, ps) && byPath[ps[|ps| - 1]].id == id
  }

  /** Every dependency path of the head, and of every module reachable from
      it, is resolved by the lookup. */
  ghost predicate Resolves(byPath: map<string, ModuleTransport>, head: ModuleTransport)
  {
    && DepPaths(head.dependencies) <= byPath.Keys
    && forall ps :: IsWalk(byPath, head.dependencies, ps) ==>
         DepPaths(byPath[ps[|ps| - 1]].dependencies) <= byPath.Keys
  }

  /** Module ids identify modules within the lookup. */
  ghost predicate IdsUnique(byPath: map<string, ModuleTransport>)
  {
    forall p, q :: p in byPath && q in byPath && byPath[p].id == byPath[q].id ==> byPath[p] == byPath[q]
  }

  /** The head is the lookup's module for its id, if the lookup has one. */
  ghost predicate HeadConsistent(byPath: map<string, ModuleTransport>, head: ModuleTransport)
  {
    forall p :: p in byPath && byPath[p].id == head.id ==> byPath[p] == head
  }

  lemma WalkPrepend(byPath: map<string, ModuleTransport>, deps: seq<Dependency>, ps: seq<string>)
    requires |deps| > 0 && deps[0].path in byPath
    requires IsWalk(byPath, byPath[deps[0].path].dependencies, ps)
    ensures IsWalk(byPath, deps, [deps[0].path] + ps)
  {
    var qs := [deps[0].path] + ps;
    assert deps[0] in deps;
    forall i | 1 <= i < |qs|
      ensures qs[i] in DepPaths(byPath[qs[i - 1]].dependencies)
    {
      if i > 1 {
        assert qs[i] == ps[i - 1] && qs[i - 1] == ps[i - 2];
      }
    }
  }

  lemma WalkWiden(byPath: map<string, ModuleTransport>, deps: seq<Dependency>, ps: seq<string>)
    requires |deps| > 0
    requires IsWalk(byPath, deps[1..], ps)
    ensures IsWalk(byPath, deps, ps)
  {
    var d :| d in deps[1..] && d.path == ps[0];
    assert d in deps;
  }

  /** Soundness: every id yielded is reached from `deps` along a walk. */
  lemma {:induction false} DepsSound(deps: seq<Dependency>, byPath: map<string, ModuleTransport>, seen: set<Id>)
    requires Deps(deps, byPath, seen).Success?
    ensures forall y :: y in Deps(deps, byPath, seen).value.ids ==> ReachableFrom(byPath, deps, y)
    decreases |AllIds(byPath) - seen|, |deps|
  {
    var r := Deps(deps, byPath, seen);
    if |deps| > 0 {
      var dep := byPath[deps[0].path];
      if dep.id in seen {
        DepsSound(deps[1..], byPath, seen);
        forall y | y in r.value.ids ensures ReachableFrom(byPath, deps, y) {
          var ps :| IsWalk(byPath, deps[1..], ps) && byPath[ps[|ps| - 1]].id == y;
          WalkWiden(byPath, deps, ps);
        }
      } else {
        MeasureDrops(byPath, seen, dep.id, seen + {dep.id});
        var inner := Deps(dep.dependencies, byPath, seen + {dep.id}).value;
        MeasureDrops(byPath, seen, dep.id, inner.seen);
        var rest := Deps(deps[1..], byPath, inner.seen).value;
        DepsSound(dep.dependencies, byPath, seen + {dep.id});
        DepsSound(deps[1..], byPath, inner.seen);
        assert r.value.ids == [dep.id] + inner.ids + rest.ids;
        SoundStep(byPath, deps, inner.ids, rest.ids);
      }
    }
  }

  /** A fresh first dependency, the ids reached below it and those reached
      from the remaining dependencies are all reached from `deps`. */
  lemma SoundStep(byPath: map<string, ModuleTransport>, deps: seq<Dependency>, innerIds: seq<Id>, restIds: seq<Id>)
    requires |deps| > 0 && deps[0].path in byPath
    requires forall y :: y in innerIds ==> ReachableFrom(byPath, byPath[deps[0].path].dependencies, y)
    requires forall y :: y in restIds ==> ReachableFrom(byPath, deps[1..], y)
    ensures forall y :: y in [byPath[deps[0].path].id] + innerIds + restIds ==> ReachableFrom(byPath, deps, y)
  {
    var dep := byPath[deps[0].path];
    forall y | y in [dep.id] + innerIds + restIds ensures ReachableFrom(byPath, deps, y) {
      if y == dep.id {
        assert deps[0] in deps;
        assert IsWalk(byPath, deps, [deps[0].path]);
      } else if y in innerIds {
        var ps :| IsWalk(byPath, dep.dependencies, ps) && byPath[ps[|ps| - 1]].id == y;
        WalkPrepend(byPath, deps, ps);
        var qs := [deps[0].path] + ps;
        assert qs[|qs| - 1] == ps[|ps| - 1];
      } else {
        assert y in restIds;
        var ps :| IsWalk(byPath, deps[1..], ps) && byPath[ps[|ps| - 1]].id == y;
        WalkWiden(byPath, deps, ps);
      }
    }
  }

  /** The set a traversal leaves behind is closed: each of `deps`, and each
      dependency of every module whose id it yielded, resolves to an id in
      the final `seen`. */
  ghost predicate ClosedAfter(byPath: map<string, ModuleTransport>, deps: seq<Dependency>, v: Visit)
  {
    && (forall d :: d in deps ==> d.path in byPath && byPath[d.path].id in v.seen)
    && (forall p, d :: p in byPath && byPath[p].id in v.ids && d in byPath[p].dependencies ==>
          d.path in byPath && byPath[d.path].id in v.seen)
  }

  lemma {:induction false} DepsClosed(deps: seq<Dependency>, byPath: map<string, ModuleTransport>, seen: set<Id>)
    requires IdsUnique(byPath)
    requires Deps(deps, byPath, seen).Success?
    ensures ClosedAfter(byPath, deps, Deps(deps, byPath, seen).value)
    decreases |AllIds(byPath) - seen|, |deps|
  {
    var r := Deps(deps, byPath, seen).value;
    if |deps| > 0 {
      var dep := byPath[deps[0].path];
      if dep.id in seen {
        DepsClosed(deps[1..], byPath, seen);
        forall d | d in deps ensures d.path in byPath && byPath[d.path].id in r.seen {
          if d != deps[0] {
            assert d in deps[1..];
          }
        }
      } else {
        MeasureDrops(byPath, seen, dep.id, seen + {dep.id});
        var inner := Deps(dep.dependencies, byPath, seen + {dep.id}).value;
        MeasureDrops(byPath, seen, dep.id, inner.seen);
        var rest := Deps(deps[1..], byPath, inner.seen).value;
        DepsClosed(dep.dependencies, byPath, seen + {dep.id});
        DepsClosed(deps[1..], byPath, inner.seen);
        assert r == Visit([dep.id] + inner.ids + rest.ids, rest.seen);
        ClosedStep(byPath, deps, inner, rest);
      }
    }
  }

  /** Closure of the two recursive visits, a fresh first dependency
      included, gives closure of the combined visit. */
  lemma ClosedStep(byPath: map<string, ModuleTransport>, deps: seq<Dependency>, inner: Visit, rest: Visit)
    requires IdsUnique(byPath)
    requires |deps| > 0 && deps[0].path in byPath
    requires byPath[deps[0].path].id in inner.seen && inner.seen <= rest.seen
    requires ClosedAfter(byPath, byPath[deps[0].path].dependencies, inner)
    requires ClosedAfter(byPath, deps[1..], rest)
    ensures ClosedAfter(byPath, deps, Visit([byPath[deps[0].path].id] + inner.ids + rest.ids, rest.seen))
  {
    var dep := byPath[deps[0].path];
    var ids := [dep.id] + inner.ids + rest.ids;
    forall d | d in deps ensures d.path in byPath && byPath[d.path].id in rest.seen {
      if d != deps[0] {
        assert d in deps[1..];
      }
    }
    forall p, d | p in byPath && byPath[p].id in ids && d in byPath[p].dependencies
      ensures d.path in byPath && byPath[d.path].id in rest.seen
    {
      if byPath[p].id == dep.id {
        assert byPath[p] == dep;
      } else if byPath[p].id in inner.ids {
      } else {
        assert byPath[p].id in rest.ids;
      }
    }
  }

  /** Every walk from a closed traversal stays inside its final `seen`. */
  lemma WalkStaysSeen(byPath: map<string, ModuleTransport>, head: ModuleTransport, v: Visit, ps: seq<string>)
    requires HeadConsistent(byPath, head)
    requires head.id in v.seen && v.seen == {head.id} + Elems(v.ids)
    requires ClosedAfter(byPath, head.dependencies, v)
    requires IsWalk(byPath, head.dependencies, ps)
    ensures forall i :: 0 <= i < |ps| ==> byPath[ps[i]].id in v.seen
  {
    var i := 0;
    while i < |ps|
      invariant 0 <= i <= |ps|
      invariant forall k :: 0 <= k < i ==> byPath[ps[k]].id in v.seen
    {
      if i == 0 {
        var d :| d in head.dependencies && d.path == ps[0];
      } else {
        var prev := byPath[ps[i - 1]];
        assert ps[i] in DepPaths(prev.dependencies);
        var d :| d in prev.dependencies && d.path == ps[i];
        if prev.id == head.id {
          assert prev == head;
        } else {
          assert prev.id in v.ids;
        }
      }
      i := i + 1;
    }
  }

  /** The traversal of a head with no prior `seen` set, when it does not
      throw, ids each id reachable from the head, other than the head's
      own, exactly once; and it throws exactly when some dependency path of
      the head or of a module reachable from it is missing from the lookup. */
  lemma SubtreeYieldsReachable(head: ModuleTransport, byPath: map<string, ModuleTransport>)
    requires IdsUnique(byPath)
    requires HeadConsistent(byPath, head)
    ensures Subtree(head, byPath, {}).Success? <==> Resolves(byPath, head)
    ensures Subtree(head, byPath, {}).Success? ==>
      var ys := Subtree(head, byPath, {}).value.ids;
      && Distinct(ys)
      && head.id !in ys
      && forall id :: id in ys <==> id != head.id && ReachableFrom(byPath, head.dependencies, id)
  {
    var r := Subtree(head, byPath, {});
    assert {} + {head.id} == {head.id};
    if r.Success? {
      var v := r.value;
      DepsSound(head.dependencies, byPath, {head.id});
      DepsClosed(head.dependencies, byPath, {head.id});
      forall id | id != head.id && ReachableFrom(byPath, head.dependencies, id)
        ensures id in v.ids
      {
        var ps :| IsWalk(byPath, head.dependencies, ps) && byPath[ps[|ps| - 1]].id == id;
        WalkStaysSeen(byPath, head, v, ps);
      }
      forall ps | IsWalk(byPath, head.dependencies, ps)
        ensures DepPaths(byPath[ps[|ps| - 1]].dependencies) <= byPath.Keys
      {
        WalkStaysSeen(byPath, head, v, ps);
        var last := byPath[ps[|ps| - 1]];
        if last.id == head.id {
          assert last == head;
        } else {
          assert last.id in v.ids;
        }
      }
      forall p | p in DepPaths(head.dependencies) ensures p in byPath {
        var d :| d in head.dependencies && d.path == p;
      }
    } else {
      SubtreeFault(head, byPath, {});
    }
  }

  /** A missing dependency path found by the traversal is one of `deps` or
      a dependency of a module reached from them. */
  lemma {:induction false} DepsFault(deps: seq<Dependency>, byPath: map<string, ModuleTransport>, seen: set<Id>)
    requires Deps(deps, byPath, seen).Failure?
    ensures var p := Deps(deps, byPath, seen).error.path;
      && p !in byPath
      && (p in DepPaths(deps) ||
          exists ps :: IsWalk(byPath, deps, ps) && p in DepPaths(byPath[ps[|ps| - 1]].dependencies))
    decreases |AllIds(byPath) - seen|, |deps|
  {
    var p := Deps(deps, byPath, seen).error.path;
    assert deps[0] in deps;
    if deps[0].path in byPath {
      var dep := byPath[deps[0].path];
      if dep.id in seen {
        DepsFault(deps[1..], byPath, seen);
        if p in DepPaths(deps[1..]) {
          var d :| d in deps[1..] && d.path == p;
          assert d in deps;
        } else {
          var ps :| IsWalk(byPath, deps[1..], ps) && p in DepPaths(byPath[ps[|ps| - 1]].dependencies);
          WalkWiden(byPath, deps, ps);
        }
      } else {
        MeasureDrops(byPath, seen, dep.id, seen + {dep.id});
        var innerR := Deps(dep.dependencies, byPath, seen + {dep.id});
        if innerR.Failure? {
          DepsFault(dep.dependencies, byPath, seen + {dep.id});
          if p in DepPaths(dep.dependencies) {
            assert IsWalk(byPath, deps, [deps[0].path]);
          } else {
            var ps :| IsWalk(byPath, dep.dependencies, ps) && p in DepPaths(byPath[ps[|ps| - 1]].dependencies);
            WalkPrepend(byPath, deps, ps);
            var qs := [deps[0].path] + ps;
            assert qs[|qs| - 1] == ps[|ps| - 1];
          }
        } else {
          MeasureDrops(byPath, seen, dep.id, innerR.value.seen);
          DepsFault(deps[1..], byPath, innerR.value.seen);
          if p in DepPaths(deps[1..]) {
            var d :| d in deps[1..] && d.path == p;
            assert d in deps;
          } else {
            var ps :| IsWalk(byPath, deps[1..], ps) && p in DepPaths(byPath[ps[|ps| - 1]].dependencies);
            WalkWiden(byPath, deps, ps);
          }
        }
      }
    }
  }

  lemma SubtreeFault(head: ModuleTransport, byPath: map<string, ModuleTransport>, seen: set<Id>)
    requires Subtree(head, byPath, seen).Failure?
    ensures Subtree(head, byPath, seen).error.path !in byPath
    ensures !Resolves(byPath, head)
  {
    DepsFault(head.dependencies, byPath, seen + {head.id});
  }

  /** Runs `b` after a successful visit `va`, from the `seen` set it left. */
  function Then(ra: Result<Visit, Fault>, b: seq<Dependency>, byPath: map<string, ModuleTransport>): Result<Visit, Fault>
  {
    match ra
    case Failure(e) => Failure(e)
    case Success(va) =>
      match Deps(b, byPath, va.seen)
      case Failure(e) => Failure(e)
      case Success(vb) => Success(Visit(va.ids + vb.ids, vb.seen))
  }

  /** Dependencies are visited in list order: the traversal of `a + b` is
      the traversal of `a` followed by that of `b` from the `seen` set `a`
      left behind, and a fault in `a` stops it before `b` is looked at. */
  lemma {:induction false} DepsAppend(a: seq<Dependency>, b: seq<Dependency>, byPath: map<string, ModuleTransport>, seen: set<Id>)
    ensures Deps(a + b, byPath, seen) == Then(Deps(a, byPath, seen), b, byPath)
    decreases |a|
  {
    if |a| == 0 {
      assert a + b == b;
      var rb := Deps(b, byPath, seen);
      if rb.Success? {
        assert [] + rb.value.ids == rb.value.ids;
      }
    } else {
      assert (a + b)[0] == a[0];
      assert (a + b)[1..] == a[1..] + b;
      if a[0].path in byPath {
        var dep := byPath[a[0].path];
        if dep.id in seen {
          DepsAppend(a[1..], b, byPath, seen);
        } else {
          var ri := Deps(dep.dependencies, byPath, seen + {dep.id});
          if ri.Success? {
            DepsAppend(a[1..], b, byPath, ri.value.seen);
            var rr := Deps(a[1..], byPath, ri.value.seen);
            if rr.Success? {
              var rb := Deps(b, byPath, rr.value.seen);
              if rb.Success? {
                assert [dep.id] + ri.value.ids + (rr.value.ids + rb.value.ids)
                    == ([dep.id] + ri.value.ids + rr.value.ids) + rb.value.ids;
              }
            }
          }
        }
      }
    }
  }

  /** Pre-order: a dependency not yet seen is yielded before everything
      below it, and the dependencies below it come before the next one. */
  lemma DepsFirstYield(d: Dependency, rest: seq<Dependency>, byPath: map<string, ModuleTransport>, seen: set<Id>)
    requires d.path in byPath && byPath[d.path].id !in seen
    requires Deps([d] + rest, byPath, seen).Success?
    ensures var dep := byPath[d.path];
      var inner := Deps(dep.dependencies, byPath, seen + {dep.id});
      && inner.Success?
      && Deps([d] + rest, byPath, seen).value.ids[..1 + |inner.value.ids|] == [dep.id] + inner.value.ids
  {
    DepsAppend([d], rest, byPath, seen);
    assert ([d] + rest)[1..] == rest;
  }
}
