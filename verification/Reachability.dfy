/**
 The module reachability check: a worklist over the import graph of a package
 (scripts/ci/check_module_reachability.py). Paths are already resolved.
 */
module Reachability {

  // A Python file of the package: its directory below the package root and its stem.
  datatype Path = Path(dir: string, stem: string)

  const INIT := "__init__"

  const EXPERIMENTAL: set<string> := {"actor_runtime", "terminal_agent", "toolsets", "agent_audit", "models"}

  // The files that exist, the local module names each imports, and the candidate entry points.
  datatype Tree = Tree(files: set<Path>, imports: Path -> set<string>, roots: seq<Path>)

  predicate TopLevel(p: Path) { p.dir == "" && p.stem != INIT }

  function PackageFiles(t: Tree, name: string): set<Path> { set f | f in t.files && f.dir == name }

  // What importing `name` makes reachable: its module file, and its whole package if it is one.
  function Targets(t: Tree, name: string): set<Path> {
    (if Path("", name) in t.files then {Path("", name)} else {})
    + (if Path(name, INIT) in t.files then {Path(name, INIT)} + PackageFiles(t, name) else {})
  }

  // The file imports the other: as a top-level module of that name, or as a file of the package of that
  // name, which is one if it has an __init__ file.
  ghost predicate Edge(t: Tree, p: Path, q: Path) {
    && q in t.files
    && exists name ::
         && name in t.imports(p)
         && (q == Path("", name) || (q.dir == name && Path(name, "__init__") in t.files))
  }

  lemma EdgeTargets(t: Tree, p: Path, q: Path)
    ensures Edge(t, p, q) <==> exists name :: name in t.imports(p) && q in Targets(t, name)
  {}

  // A trail of imports from an entry point.
  ghost predicate Trail(t: Tree, trail: seq<Path>) {
    && trail != [] && trail[0] in t.roots && trail[0] in t.files
    && forall i :: 0 <= i < |trail| - 1 ==> Edge(t, trail[i], trail[i + 1])
  }

  // The reflexive-transitive closure of the existing entry points under imports.
  ghost predicate Reachable(t: Tree, p: Path) { exists trail :: Trail(t, trail) && trail[|trail| - 1] == p }

  // ----- The worklist

  method Push(queue: seq<Path>, paths: set<Path>) returns (more: seq<Path>)
    ensures forall p :: p in more <==> p in queue || p in paths
  {
    more := queue;
    var left := paths;
    while left != {}
      invariant left <= paths
      invariant forall p :: p in more <==> p in queue || p in paths - left
      decreases left
    {
      var p :| p in left;
      more := more + [p];
      left := left - {p};
    }
  }

  method PushImports(t: Tree, queue: seq<Path>, path: Path) returns (more: seq<Path>)
    ensures forall p :: p in more <==> p in queue || Edge(t, path, p)
  {
    more := queue;
    var left := t.imports(path);
    while left != {}
      invariant left <= t.imports(path)
      invariant forall p :: p in more <==>
                p in queue || exists name :: name in t.imports(path) - left && p in Targets(t, name)
      decreases left
    {
      var name :| name in left;
      ghost var before := more;
      more := Push(more, Targets(t, name));
      left := left - {name};
      forall p ensures p in more <==> p in queue || exists n :: n in t.imports(path) - left && p in Targets(t, n) {
        if p in Targets(t, name) {
          assert name in t.imports(path) - left;
        }
      }
    }
    forall p ensures p in more <==> p in queue || Edge(t, path, p) {
      EdgeTargets(t, path, p);
    }
  }

  // Every file in the worklist or behind it is reachable, and nothing reachable is lost.
  ghost predicate Sweeping(t: Tree, queue: seq<Path>, seen: set<Path>) {
    && seen <= t.files
    && (forall p :: p in seen || (p in queue && p in t.files) ==> Reachable(t, p))
    && (forall p :: p in t.roots && p in t.files ==> p in seen || p in queue)
    && (forall p, q :: p in seen && Edge(t, p, q) ==> q in seen || q in queue)
  }

  lemma EdgeExists(t: Tree, p: Path, q: Path)
    requires Edge(t, p, q)
    ensures q in t.files
  {}

  lemma EdgeReachable(t: Tree, p: Path, q: Path)
    requires Reachable(t, p) && Edge(t, p, q)
    ensures Reachable(t, q)
  {
    var trail :| Trail(t, trail) && trail[|trail| - 1] == p;
    var longer := trail + [q];
    forall i | 0 <= i < |longer| - 1 ensures Edge(t, longer[i], longer[i + 1]) {
      if i < |trail| - 1 { assert Edge(t, trail[i], trail[i + 1]); }
    }
    assert Trail(t, longer) && longer[|longer| - 1] == q;
  }

  lemma SweepStart(t: Tree)
    ensures Sweeping(t, t.roots, {})
  {
    forall p | p in t.roots && p in t.files ensures Reachable(t, p) {
      assert Trail(t, [p]);
      assert [p][|[p]| - 1] == p;
    }
  }

  lemma SweepStep(t: Tree, queue: seq<Path>, seen: set<Path>, path: Path, more: seq<Path>)
    requires Sweeping(t, queue + [path], seen) && path in t.files
    requires forall p :: p in more <==> p in queue || Edge(t, path, p)
    ensures Sweeping(t, more, seen + {path})
  {
    assert path in queue + [path] && Reachable(t, path);
    forall p | p in more && p in t.files ensures Reachable(t, p) {
      if p in queue { assert p in queue + [path]; } else { EdgeReachable(t, path, p); }
    }
    forall p, q | p in seen + {path} && Edge(t, p, q) ensures q in seen + {path} || q in more {
      if p in seen { assert q in seen || q in queue + [path]; }
    }
    forall p | p in t.roots && p in t.files ensures p in seen + {path} || p in more {
      assert p in seen || p in queue + [path];
    }
  }

  lemma SweepSkip(t: Tree, queue: seq<Path>, seen: set<Path>, path: Path)
    requires Sweeping(t, queue + [path], seen) && (path in seen || path !in t.files)
    ensures Sweeping(t, queue, seen)
  {
    forall p | p in queue && p in t.files ensures Reachable(t, p) { assert p in queue + [path]; }
    forall p, q | p in seen && Edge(t, p, q) ensures q in seen || q in queue {
      EdgeExists(t, p, q);
      assert q in seen || q in queue + [path];
    }
    forall p | p in t.roots && p in t.files ensures p in seen || p in queue {
      assert p in seen || p in queue + [path];
    }
  }

  // With an empty worklist the files seen are exactly the reachable ones.
  lemma SweepEnd(t: Tree, seen: set<Path>)
    requires Sweeping(t, [], seen)
    ensures forall p :: p in seen <==> Reachable(t, p)
  {
    forall p | Reachable(t, p) ensures p in seen {
      var trail :| Trail(t, trail) && trail[|trail| - 1] == p;
      TrailSeen(t, seen, trail, |trail| - 1);
    }
  }

  lemma {:induction false} TrailSeen(t: Tree, seen: set<Path>, trail: seq<Path>, i: nat)
    requires Sweeping(t, [], seen) && Trail(t, trail) && i < |trail|
    ensures trail[i] in seen
  {
    if i > 0 {
      TrailSeen(t, seen, trail, i - 1);
      assert Edge(t, trail[i - 1], trail[i]);
    }
  }

  function Stems(files: set<Path>): set<string> { set f | f in files && TopLevel(f) :: f.stem }

  lemma StemsAre(files: set<Path>, name: string)
    ensures name in Stems(files) <==> name != INIT && Path("", name) in files
  {
    if name != INIT && Path("", name) in files {
      assert TopLevel(Path("", name));
    }
  }

  lemma StemsStep(files: set<Path>, f: Path)
    ensures Stems(files + {f}) == if TopLevel(f) then Stems(files) + {f.stem} else Stems(files)
  {}

  lemma UnseenShrinks(files: set<Path>, seen: set<Path>, f: Path)
    requires f in files && f !in seen
    ensures |files - (seen + {f})| < |files - seen|
  {
    assert files - (seen + {f}) == (files - seen) - {f};
  }

  lemma SplitLast(queue: seq<Path>)
    requires queue != []
    ensures queue == queue[..|queue| - 1] + [queue[|queue| - 1]]
  {}

  // A new file: its stem if it is a top-level module.
  method Note(seen: set<Path>, reach: set<string>, path: Path) returns (now: set<string>)
    requires reach == Stems(seen)
    ensures now == Stems(seen + {path})
  {
    StemsStep(seen, path);
    now := if TopLevel(path) then reach + {path.stem} else reach;
  }

  // Takes one path off the worklist; a new file enters with everything it imports.
  method Visit(t: Tree, queue: seq<Path>, seen: set<Path>, reach: set<string>)
    returns (more: seq<Path>, seen': set<Path>, reach': set<string>)
    requires queue != [] && Sweeping(t, queue, seen) && reach == Stems(seen)
    ensures Sweeping(t, more, seen') && reach' == Stems(seen')
    ensures |t.files - seen'| < |t.files - seen| || (seen' == seen && |more| < |queue|)
  {
    var path := queue[|queue| - 1];
    var rest := queue[..|queue| - 1];
    SplitLast(queue);
    if path in seen || path !in t.files {
      SweepSkip(t, rest, seen, path);
      return rest, seen, reach;
    }
    UnseenShrinks(t.files, seen, path);
    more := PushImports(t, rest, path);
    SweepStep(t, rest, seen, path, more);
    seen' := seen + {path};
    reach' := Note(seen, reach, path);
  }

  // Terminates although a file may be queued many times, with exactly the reachable modules.
  method ReachableTopLevel(t: Tree) returns (reach: set<string>)
    ensures forall name :: name in reach <==> name != INIT && Reachable(t, Path("", name))
  {
    var queue := t.roots;
    var seen: set<Path> := {};
    reach := {};
    SweepStart(t);
    while queue != []
      invariant Sweeping(t, queue, seen)
      invariant reach == Stems(seen)
      decreases |t.files - seen|, |queue|
    {
      queue, seen, reach := Visit(t, queue, seen, reach);
    }
    SweepEnd(t, seen);
    forall name ensures name in reach <==> name != INIT && Reachable(t, Path("", name)) {
      StemsAre(seen, name);
    }
  }

  // The check passes exactly when every top-level module is reachable from an entry point or
  // declared experimental.
  method CheckModules(t: Tree) returns (unmanaged: set<string>)
    ensures unmanaged == {} <==>
              forall name :: Path("", name) in t.files && name != INIT ==>
                Reachable(t, Path("", name)) || name in EXPERIMENTAL
    ensures forall name :: name in unmanaged <==>
              Path("", name) in t.files && name != INIT && !Reachable(t, Path("", name)) && name !in EXPERIMENTAL
  {
    var top := Stems(t.files);
    var reach := ReachableTopLevel(t);
    unmanaged := top - reach - EXPERIMENTAL;
    forall name ensures name in top <==> name != INIT && Path("", name) in t.files {
      StemsAre(t.files, name);
    }
  }
}
