/**
  The check that a published plugin-SDK entry is self-contained: a worklist over the files it
  imports, directly or not, in a graph that may have cycles.
 */
module ImportGraph {
  import opened Options

  type Path = string
  type Specifier = string

  /** A file of the installed package; `specifiers` is absent when its source does not parse. */
  datatype File = File(isRegular: bool, size: nat, specifiers: Option<seq<Specifier>>)

  /** The installed package, with the parts of path handling that are foreign to this code. */
  datatype Package = Package(
    files: map<Path, File>,
    maxBytes: nat,
    candidates: (Path, Specifier) -> seq<Path>,  // the spellings tried for a relative import, in order
    inDist: Path -> bool)

  datatype Problem =
    | MissingEntry
    | InvalidArtifact(path: Path)
    | Unparsable(path: Path)
    | ImportsZod(path: Path, specifier: Specifier)

  predicate IsZod(specifier: Specifier) { specifier == "zod" || "zod/" <= specifier }

  /** The package itself or anything below it. */
  lemma ZodSpecifiers(specifier: Specifier)
    ensures IsZod(specifier) <==> specifier == "zod" || exists rest: string :: specifier == "zod/" + rest
  {
    if "zod/" <= specifier {
      assert specifier == "zod/" + specifier[4..];
    }
  }

  predicate IsInstalled(pkg: Package, path: Path) { pkg.inDist(path) && path in pkg.files }

  function FirstInstalled(pkg: Package, candidates: seq<Path>): (r: Option<Path>)
    ensures r.Some? ==> exists k :: 0 <= k < |candidates| && r.value == candidates[k] && IsInstalled(pkg, candidates[k])
                                    && forall j :: 0 <= j < k ==> !IsInstalled(pkg, candidates[j])
    ensures r.None? ==> forall k :: 0 <= k < |candidates| ==> !IsInstalled(pkg, candidates[k])
  {
    if candidates == [] then None
    else if IsInstalled(pkg, candidates[0]) then Some(candidates[0])
    else FirstInstalled(pkg, candidates[1..])
  }

  /** The file a relative import resolves to inside `dist`, if any. */
  function Resolve(pkg: Package, importer: Path, specifier: Specifier): (r: Option<Path>)
    ensures r.Some? ==> r.value in pkg.files
    ensures r.Some? ==> "." <= specifier && var tried := pkg.candidates(importer, specifier);
              exists k :: 0 <= k < |tried| && r.value == tried[k] && IsInstalled(pkg, tried[k])
                          && forall j :: 0 <= j < k ==> !IsInstalled(pkg, tried[j])
    ensures r.None? && "." <= specifier ==>
              forall k :: 0 <= k < |pkg.candidates(importer, specifier)| ==> !IsInstalled(pkg, pkg.candidates(importer, specifier)[k])
  {
    if "." <= specifier then FirstInstalled(pkg, pkg.candidates(importer, specifier)) else None
  }

  /** An import edge. */
  ghost predicate Imports(pkg: Package, from: Path, to: Path) {
    && from in pkg.files && pkg.files[from].specifiers.Some?
    && exists k :: 0 <= k < |pkg.files[from].specifiers.value|
                   && Resolve(pkg, from, pkg.files[from].specifiers.value[k]) == Some(to)
  }

  ghost predicate IsTrail(pkg: Package, trail: seq<Path>, from: Path, to: Path) {
    && |trail| > 0 && trail[0] == from && trail[|trail| - 1] == to
    && forall k :: 0 <= k < |trail| - 1 ==> Imports(pkg, trail[k], trail[k + 1])
  }

  ghost predicate Reachable(pkg: Package, from: Path, to: Path) {
    exists trail :: IsTrail(pkg, trail, from, to)
  }

  /** Present, regular, small enough, parsable, and free of zod imports. */
  predicate Healthy(pkg: Package, path: Path) {
    && path in pkg.files
    && pkg.files[path].isRegular && pkg.files[path].size <= pkg.maxBytes
    && pkg.files[path].specifiers.Some?
    && forall k :: 0 <= k < |pkg.files[path].specifiers.value| ==> !IsZod(pkg.files[path].specifiers.value[k])
  }

  /** The problem is real: it is one of a file the entry reaches. */
  ghost predicate Explains(pkg: Package, entry: Path, problem: Problem) {
    match problem
    case MissingEntry => entry !in pkg.files
    case InvalidArtifact(path) =>
      && Reachable(pkg, entry, path) && path in pkg.files
      && (!pkg.files[path].isRegular || pkg.files[path].size > pkg.maxBytes)
    case Unparsable(path) => Reachable(pkg, entry, path) && path in pkg.files && pkg.files[path].specifiers.None?
    case ImportsZod(path, specifier) =>
      && Reachable(pkg, entry, path) && path in pkg.files && pkg.files[path].specifiers.Some?
      && specifier in pkg.files[path].specifiers.value && IsZod(specifier)
  }

  lemma ReachSelf(pkg: Package, entry: Path)
    ensures Reachable(pkg, entry, entry)
  {
    assert IsTrail(pkg, [entry], entry, entry);
  }

  lemma ReachStep(pkg: Package, entry: Path, from: Path, to: Path)
    requires Reachable(pkg, entry, from) && Imports(pkg, from, to)
    ensures Reachable(pkg, entry, to)
  {
    var trail :| IsTrail(pkg, trail, entry, from);
    var longer := trail + [to];
    forall k | 0 <= k < |longer| - 1 ensures Imports(pkg, longer[k], longer[k + 1]) {
      if k < |trail| - 1 {
        assert longer[k] == trail[k] && longer[k + 1] == trail[k + 1];
      } else {
        assert longer[k] == from && longer[k + 1] == to;
      }
    }
    assert IsTrail(pkg, longer, entry, to);
  }

  /** A set that holds the entry and is closed under imports holds everything reachable. */
  lemma {:induction false} ClosedHoldsReachable(pkg: Package, closed: set<Path>, trail: seq<Path>, entry: Path, to: Path)
    requires entry in closed && IsTrail(pkg, trail, entry, to)
    requires forall p, q :: p in closed && Imports(pkg, p, q) ==> q in closed
    ensures to in closed
    decreases |trail|
  {
    if |trail| > 1 {
      var shorter := trail[..|trail| - 1];
      assert forall k :: 0 <= k < |shorter| - 1 ==> Imports(pkg, trail[k], trail[k + 1]);
      assert IsTrail(pkg, shorter, entry, shorter[|shorter| - 1]);
      ClosedHoldsReachable(pkg, closed, shorter, entry, shorter[|shorter| - 1]);
      assert Imports(pkg, trail[|trail| - 2], trail[|trail| - 1]);
    }
  }

  /** Everything pending or visited is reachable; visited files are healthy and their imports are known. */
  ghost predicate Explored(pkg: Package, entry: Path, visited: set<Path>, pending: seq<Path>) {
    && (forall p :: p in pending ==> Reachable(pkg, entry, p) && (p == entry || p in pkg.files))
    && (forall p :: p in visited ==> Reachable(pkg, entry, p) && Healthy(pkg, p))
    && (forall p, q :: p in visited && Imports(pkg, p, q) ==> q in visited || q in pending)
    && (entry in visited || entry in pending)
  }

  lemma ExploredAll(pkg: Package, entry: Path, visited: set<Path>)
    requires Explored(pkg, entry, visited, [])
    ensures forall p :: Reachable(pkg, entry, p) ==> Healthy(pkg, p)
  {
    forall p | Reachable(pkg, entry, p) ensures Healthy(pkg, p) {
      var trail :| IsTrail(pkg, trail, entry, p);
      ClosedHoldsReachable(pkg, visited, trail, entry, p);
    }
  }

  /** The imports of one file: either a zod import, or the files to visit next on top of the pending ones. */
  method ScanSpecifiers(pkg: Package, path: Path, specifiers: seq<Specifier>, pending: seq<Path>)
    returns (zod: Option<Specifier>, next: seq<Path>)
    ensures zod.Some? <==> exists k :: 0 <= k < |specifiers| && IsZod(specifiers[k])
    ensures zod.Some? ==> zod.value in specifiers && IsZod(zod.value)
    ensures zod.None? ==> forall p :: p in next <==>
              p in pending || exists k :: 0 <= k < |specifiers| && Resolve(pkg, path, specifiers[k]) == Some(p)
  {
    next := pending;
    for i := 0 to |specifiers|
      invariant forall k :: 0 <= k < i ==> !IsZod(specifiers[k])
      invariant forall p :: p in next <==>
                  p in pending || exists k :: 0 <= k < i && Resolve(pkg, path, specifiers[k]) == Some(p)
    {
      if IsZod(specifiers[i]) {
        return Some(specifiers[i]), next;
      }
      var resolved := Resolve(pkg, path, specifiers[i]);
      if resolved.Some? {
        next := next + [resolved.value];
      }
    }
    zod := None;
  }

  lemma VisitKeepsExplored(
    pkg: Package, entry: Path, visited: set<Path>, pending: seq<Path>, path: Path, next: seq<Path>)
    requires Explored(pkg, entry, visited, pending + [path]) && Healthy(pkg, path)
    requires forall p :: p in next <==> p in pending || Imports(pkg, path, p)
    ensures Explored(pkg, entry, visited + {path}, next)
  {
    assert path in pending + [path];
    forall p | p in next ensures Reachable(pkg, entry, p) && (p == entry || p in pkg.files) {
      if p in pending {
        assert p in pending + [path];
      } else {
        ReachStep(pkg, entry, path, p);
      }
    }
    forall p, q | p in visited + {path} && Imports(pkg, p, q) ensures q in visited + {path} || q in next {
      if p in visited && q !in visited {
        assert q in pending + [path];
      }
    }
    if entry !in visited {
      assert entry in pending + [path];
    }
  }

  /** The check terminates on every package, however its imports loop, and reports nothing exactly when every
      file the entry reaches is healthy; what it reports is one real problem. */
  method CollectZodArtifactErrors(pkg: Package, entry: Path) returns (problems: seq<Problem>)
    requires entry != "" && "" !in pkg.files
    ensures problems == [] <==> forall p :: Reachable(pkg, entry, p) ==> Healthy(pkg, p)
    ensures |problems| <= 1 && forall problem :: problem in problems ==> Explains(pkg, entry, problem)
  {
    var pending := [entry];
    var visited: set<Path> := {};
    ReachSelf(pkg, entry);
    while |pending| > 0
      invariant Explored(pkg, entry, visited, pending)
      decreases pkg.files.Keys + {entry} - visited, |pending|
    {
      var path := pending[|pending| - 1];
      ghost var before := pending;
      pending := pending[..|pending| - 1];
      assert before == pending + [path];
      if path == "" || path in visited {
        assert path in before;
        continue;
      }
      assert path in before && Reachable(pkg, entry, path);
      if path !in pkg.files {
        return [MissingEntry];
      }
      var file := pkg.files[path];
      if !file.isRegular || file.size > pkg.maxBytes {
        return [InvalidArtifact(path)];
      }
      if file.specifiers.None? {
        return [Unparsable(path)];
      }
      var zod, next := ScanSpecifiers(pkg, path, file.specifiers.value, pending);
      if zod.Some? {
        return [ImportsZod(path, zod.value)];
      }
      VisitKeepsExplored(pkg, entry, visited, pending, path, next);
      visited := visited + {path};
      pending := next;
    }
    assert pending == [];
    ExploredAll(pkg, entry, visited);
    problems := [];
  }
}
