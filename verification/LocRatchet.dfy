/**
  The TypeScript size ratchet: a change may not add an oversized production file, push one
  over the limit, or grow one that is already over it.  Which files count as
  production is an arbitrary policy.
 */
module LocRatchet {
  import opened Options
  import opened Text
  import opened Sorting

  type Path = string

  /** A tree: its files and their contents. */
  type Tree = map<Path, string>

  type Policy = Path -> bool

  /** Other letters, such as M for modified and T for a changed type, are treated alike. */
  datatype Status = Added | Deleted | Renamed | Copied | Other(letter: char)

  datatype DiffEntry = DiffEntry(status: Status, path: Path, previousPath: Option<Path>)

  datatype ChangedFile = ChangedFile(entry: DiffEntry, baseLines: Option<nat>, lines: nat)

  datatype Reason = NewFile | CrossedLimit | Grew

  datatype Violation = Violation(file: ChangedFile, reason: Reason)

  function Newlines(content: string): nat {
    if content == "" then 0 else Newlines(content[..|content| - 1]) + (if content[|content| - 1] == '\n' then 1 else 0)
  }

  /** The pieces between newlines, without an empty last one. */
  function PhysicalLines(content: string): nat {
    if content == "" then 0
    else if content[|content| - 1] == '\n' then Newlines(content)
    else Newlines(content) + 1
  }

  // ----- one change

  /** The path whose base content a changed file is compared with. */
  function BasePath(isProduction: Policy, e: DiffEntry): Option<Path> {
    if e.status.Renamed? && e.previousPath.Some? && e.previousPath.value != "" && isProduction(e.previousPath.value)
    then e.previousPath
    else if !e.status.Added? && !e.status.Copied? then Some(e.path)
    else None
  }

  function BaseLines(isProduction: Policy, base: Tree, e: DiffEntry): Option<nat> {
    var path := BasePath(isProduction, e);
    if path.Some? && path.value != "" && path.value in base then Some(PhysicalLines(base[path.value])) else None
  }

  predicate MatchesScope(path: Path, scopes: seq<Path>) {
    exists i :: 0 <= i < |scopes| && (path == scopes[i] || scopes[i] + "/" <= path)
  }

  /** The path is in one of the scopes; without scopes every path is. */
  predicate InScope(path: Path, scopes: seq<Path>) { scopes == [] || MatchesScope(path, scopes) }

  /** An entry is in scope by its path or by its previous one. */
  predicate EntryInScope(e: DiffEntry, scopes: seq<Path>) {
    InScope(e.path, scopes) || (e.previousPath.Some? && MatchesScope(e.previousPath.value, scopes))
  }

  predicate IsChecked(isProduction: Policy, scopes: seq<Path>, e: DiffEntry) {
    !e.status.Deleted? && EntryInScope(e, scopes) && isProduction(e.path)
  }

  /** The production files of the scopes. */
  function Scoped(isProduction: Policy, scopes: seq<Path>): Policy { p => isProduction(p) && InScope(p, scopes) }

  function Judge(lines: nat, baseLines: Option<nat>, maxLines: nat): Option<Reason> {
    if lines <= maxLines then None
    else if baseLines.None? then Some(NewFile)
    else if baseLines.value <= maxLines then Some(CrossedLimit)
    else if lines > baseLines.value then Some(Grew)
    else None
  }

  /** No checked file of the change is a violation. */
  ghost predicate Accepted(isProduction: Policy, scopes: seq<Path>, maxLines: nat, base: Tree, current: Tree, diff: seq<DiffEntry>) {
    forall k :: 0 <= k < |diff| && IsChecked(isProduction, scopes, diff[k]) ==>
      diff[k].path in current
      && Judge(PhysicalLines(current[diff[k].path]), BaseLines(isProduction, base, diff[k]), maxLines).None?
  }

  ghost predicate HasEntry(diff: seq<DiffEntry>, path: Path) { exists k :: 0 <= k < |diff| && diff[k].path == path }

  /** A diff with rename and copy detection, as a list: one entry per path, a source for every rename, no two renames from one
      source, and a source that has an entry of its own is reported as an addition or a copy. */
  ghost predicate IsDiff(diff: seq<DiffEntry>) {
    && (forall j, k :: 0 <= j < k < |diff| ==> diff[j].path != diff[k].path)
    && (forall k :: 0 <= k < |diff| && diff[k].status.Renamed? ==> diff[k].previousPath.Some? && diff[k].previousPath.value != "")
    && (forall j, k | 0 <= j < |diff| && 0 <= k < |diff| && diff[k].status.Renamed? ::
          diff[k].previousPath == Some(diff[j].path) ==> diff[j].status.Added? || diff[j].status.Copied?)
    && (forall j, k | 0 <= j < k < |diff| && diff[j].status.Renamed? && diff[k].status.Renamed? ::
          diff[j].previousPath != diff[k].previousPath)
  }

  /** What is relied on about a diff of two trees. */
  ghost predicate Faithful(base: Tree, current: Tree, diff: seq<DiffEntry>) {
    && IsDiff(diff) && "" !in base
    // every file without an entry is unchanged
    && (forall p :: p in current && !HasEntry(diff, p) ==> p in base && base[p] == current[p])
    // a path is reported as deleted exactly when it is gone
    && (forall k :: 0 <= k < |diff| ==> (diff[k].status.Deleted? <==> diff[k].path !in current))
    // a rename leads from a file of the base to a new path, and a source that is still there has an entry
    && (forall k :: 0 <= k < |diff| && diff[k].status.Renamed? ==>
          && diff[k].path !in base && diff[k].previousPath.value in base
          && (diff[k].previousPath.value in current ==> HasEntry(diff, diff[k].previousPath.value)))
  }

  /** The entry renames a production file from outside the scopes to a production file inside. */
  predicate MovesIn(isProduction: Policy, scopes: seq<Path>, e: DiffEntry) {
    && e.status.Renamed? && e.previousPath.Some?
    && isProduction(e.previousPath.value) && !InScope(e.previousPath.value, scopes)
    && isProduction(e.path) && InScope(e.path, scopes)
  }

  ghost predicate StaysInScope(isProduction: Policy, scopes: seq<Path>, diff: seq<DiffEntry>) {
    forall k :: 0 <= k < |diff| ==> !MovesIn(isProduction, scopes, diff[k])
  }

  /** Every production file that the diff leaves in place has its entry in scope. */
  ghost predicate IsCovered(isProduction: Policy, scopes: seq<Path>, diff: seq<DiffEntry>) {
    forall k :: 0 <= k < |diff| && !diff[k].status.Deleted? && isProduction(diff[k].path) ==> EntryInScope(diff[k], scopes)
  }

  // ----- the potential

  predicate IsOversized(isProduction: Policy, maxLines: nat, tree: Tree, p: Path) {
    p in tree && isProduction(p) && PhysicalLines(tree[p]) > maxLines
  }

  function Oversized(isProduction: Policy, maxLines: nat, tree: Tree): set<Path> {
    set p | p in tree && IsOversized(isProduction, maxLines, tree, p)
  }

  function Excess(maxLines: nat, tree: Tree, p: Path): nat {
    if p in tree && PhysicalLines(tree[p]) > maxLines then PhysicalLines(tree[p]) - maxLines else 0
  }

  ghost function Sum(weight: Path -> nat, paths: set<Path>): nat {
    if paths == {} then 0
    else
      var p :| p in paths;
      weight(p) + Sum(weight, paths - {p})
  }

  ghost function TotalExcess(isProduction: Policy, maxLines: nat, tree: Tree): nat {
    Sum(p => Excess(maxLines, tree, p), Oversized(isProduction, maxLines, tree))
  }

  lemma {:induction false} SumRemove(weight: Path -> nat, paths: set<Path>, p: Path)
    requires p in paths
    ensures Sum(weight, paths) == weight(p) + Sum(weight, paths - {p})
    decreases paths
  {
    var q :| q in paths && Sum(weight, paths) == weight(q) + Sum(weight, paths - {q});
    if p != q {
      SumRemove(weight, paths - {q}, p);
      SumRemove(weight, paths - {p}, q);
      assert paths - {q} - {p} == paths - {p} - {q};
    }
  }

  /** An injection that does not lose weight bounds both the number and the sum. */
  lemma {:induction false} InjectionBounds(xs: set<Path>, ys: set<Path>, f: map<Path, Path>, wx: Path -> nat, wy: Path -> nat)
    requires xs <= f.Keys && forall x :: x in xs ==> f[x] in ys && wx(x) <= wy(f[x])
    requires forall x, x' :: x in xs && x' in xs && x != x' ==> f[x] != f[x']
    ensures |xs| <= |ys| && Sum(wx, xs) <= Sum(wy, ys)
    decreases xs
  {
    if xs != {} {
      var x :| x in xs;
      InjectionBounds(xs - {x}, ys - {f[x]}, f, wx, wy);
      SumRemove(wx, xs, x);
      SumRemove(wy, ys, f[x]);
      assert |xs - {x}| == |xs| - 1 && |ys - {f[x]}| == |ys| - 1;
    }
  }

  /** The base file an oversized file comes from. */
  ghost function Origin(isProduction: Policy, diff: seq<DiffEntry>, p: Path): Path {
    if HasEntry(diff, p) then
      var k :| 0 <= k < |diff| && diff[k].path == p;
      var path := BasePath(isProduction, diff[k]);
      if path.Some? then path.value else p
    else p
  }

  lemma OriginOfEntry(isProduction: Policy, base: Tree, current: Tree, diff: seq<DiffEntry>, k: nat)
    requires Faithful(base, current, diff) && k < |diff|
    ensures Origin(isProduction, diff, diff[k].path)
         == (var path := BasePath(isProduction, diff[k]); if path.Some? then path.value else diff[k].path)
  {
    assert HasEntry(diff, diff[k].path);
  }

  /** An oversized file of an accepted change comes from a base file that was at least as large. */
  lemma OriginIsLarger(isProduction: Policy, scopes: seq<Path>, maxLines: nat, base: Tree, current: Tree, diff: seq<DiffEntry>, p: Path)
    requires Faithful(base, current, diff) && Accepted(isProduction, scopes, maxLines, base, current, diff)
    requires StaysInScope(isProduction, scopes, diff) && IsOversized(Scoped(isProduction, scopes), maxLines, current, p)
    ensures var q := Origin(isProduction, diff, p);
            IsOversized(Scoped(isProduction, scopes), maxLines, base, q) && Excess(maxLines, current, p) <= Excess(maxLines, base, q)
  {
    if HasEntry(diff, p) {
      var k :| 0 <= k < |diff| && diff[k].path == p;
      OriginOfEntry(isProduction, base, current, diff, k);
      assert IsChecked(isProduction, scopes, diff[k]);
    }
  }

  /** Where an oversized file of an accepted change comes from: itself, or the source of its rename. */
  lemma OriginShape(isProduction: Policy, scopes: seq<Path>, maxLines: nat, base: Tree, current: Tree, diff: seq<DiffEntry>, p: Path)
    requires Faithful(base, current, diff) && Accepted(isProduction, scopes, maxLines, base, current, diff)
    requires IsOversized(Scoped(isProduction, scopes), maxLines, current, p)
    ensures var q := Origin(isProduction, diff, p);
            || (q == p && forall k :: 0 <= k < |diff| && diff[k].path == p ==> diff[k].status.Other?)
            || (exists k :: 0 <= k < |diff| && diff[k].path == p && diff[k].status.Renamed? && diff[k].previousPath == Some(q))
  {
    if HasEntry(diff, p) {
      var k :| 0 <= k < |diff| && diff[k].path == p;
      OriginOfEntry(isProduction, base, current, diff, k);
      assert IsChecked(isProduction, scopes, diff[k]);
      assert forall j :: 0 <= j < |diff| && diff[j].path == p ==> j == k;
    }
  }

  lemma OriginsDiffer(isProduction: Policy, scopes: seq<Path>, maxLines: nat, base: Tree, current: Tree, diff: seq<DiffEntry>, p: Path, p': Path)
    requires Faithful(base, current, diff) && Accepted(isProduction, scopes, maxLines, base, current, diff)
    requires IsOversized(Scoped(isProduction, scopes), maxLines, current, p) && IsOversized(Scoped(isProduction, scopes), maxLines, current, p') && p != p'
    ensures Origin(isProduction, diff, p) != Origin(isProduction, diff, p')
  {
    OriginShape(isProduction, scopes, maxLines, base, current, diff, p);
    OriginShape(isProduction, scopes, maxLines, base, current, diff, p');
  }

  /** An accepted change with a faithful diff, none of whose renames brings a production file into the scopes, increases neither
      the number of oversized production files of the scopes nor their total excess over the limit. */
  lemma AcceptedNeverWorsens(
    isProduction: Policy, scopes: seq<Path>, maxLines: nat, base: Tree, current: Tree, diff: seq<DiffEntry>)
    requires Faithful(base, current, diff) && Accepted(isProduction, scopes, maxLines, base, current, diff) && StaysInScope(isProduction, scopes, diff)
    ensures NoWorse(Scoped(isProduction, scopes), maxLines, current, base)
  {
    var policy := Scoped(isProduction, scopes);
    var xs, ys := Oversized(policy, maxLines, current), Oversized(policy, maxLines, base);
    var wx, wy := p => Excess(maxLines, current, p), p => Excess(maxLines, base, p);
    var f := map p | p in xs :: Origin(isProduction, diff, p);
    forall p | p in xs ensures f[p] in ys && wx(p) <= wy(f[p]) {
      OriginIsLarger(isProduction, scopes, maxLines, base, current, diff, p);
    }
    forall p, p' | p in xs && p' in xs && p != p' ensures f[p] != f[p'] {
      OriginsDiffer(isProduction, scopes, maxLines, base, current, diff, p, p');
    }
    InjectionBounds(xs, ys, f, wx, wy);
  }

  /** A history of changes that each passed the ratchet. */
  ghost predicate History(isProduction: Policy, scopes: seq<Path>, maxLines: nat, trees: seq<Tree>, diffs: seq<seq<DiffEntry>>) {
    && |trees| == |diffs| + 1
    && forall k :: 0 <= k < |diffs| ==>
         && Faithful(trees[k], trees[k + 1], diffs[k]) && StaysInScope(isProduction, scopes, diffs[k])
         && Accepted(isProduction, scopes, maxLines, trees[k], trees[k + 1], diffs[k])
  }

  /** One measure is no worse than another. */
  ghost predicate NoWorse(isProduction: Policy, maxLines: nat, later: Tree, earlier: Tree) {
    && |Oversized(isProduction, maxLines, later)| <= |Oversized(isProduction, maxLines, earlier)|
    && TotalExcess(isProduction, maxLines, later) <= TotalExcess(isProduction, maxLines, earlier)
  }

  lemma {:induction false} ChainNoWorse(isProduction: Policy, maxLines: nat, trees: seq<Tree>, j: nat, k: nat)
    requires forall i :: 0 <= i < |trees| - 1 ==> NoWorse(isProduction, maxLines, trees[i + 1], trees[i])
    requires j <= k < |trees|
    ensures NoWorse(isProduction, maxLines, trees[k], trees[j])
    decreases k - j
  {
    if j < k {
      ChainNoWorse(isProduction, maxLines, trees, j + 1, k);
    }
  }

  /** Over every history of accepted changes both measures of the scopes only ever go down. */
  lemma ScopedRatchetHolds(
    isProduction: Policy, scopes: seq<Path>, maxLines: nat, trees: seq<Tree>, diffs: seq<seq<DiffEntry>>, j: nat, k: nat)
    requires History(isProduction, scopes, maxLines, trees, diffs) && j <= k < |trees|
    ensures NoWorse(Scoped(isProduction, scopes), maxLines, trees[k], trees[j])
  {
    forall i | 0 <= i < |trees| - 1 ensures NoWorse(Scoped(isProduction, scopes), maxLines, trees[i + 1], trees[i]) {
      AcceptedNeverWorsens(isProduction, scopes, maxLines, trees[i], trees[i + 1], diffs[i]);
    }
    ChainNoWorse(Scoped(isProduction, scopes), maxLines, trees, j, k);
  }

  /** Without scopes, over every history of accepted changes neither the number of oversized production files nor their total
      excess over the limit ever increases. */
  lemma RatchetHolds(isProduction: Policy, maxLines: nat, trees: seq<Tree>, diffs: seq<seq<DiffEntry>>, j: nat, k: nat)
    requires History(isProduction, [], maxLines, trees, diffs) && j <= k < |trees|
    ensures |Oversized(isProduction, maxLines, trees[k])| <= |Oversized(isProduction, maxLines, trees[j])|
    ensures TotalExcess(isProduction, maxLines, trees[k]) <= TotalExcess(isProduction, maxLines, trees[j])
  {
    ScopedRatchetHolds(isProduction, [], maxLines, trees, diffs, j, k);
    forall tree: Tree ensures Oversized(Scoped(isProduction, []), maxLines, tree) == Oversized(isProduction, maxLines, tree) { }
  }

  // ----- exactly when scopes are safe

  /** Every accepted change with this diff, whatever the trees and the limit, keeps both measures of the scopes. */
  ghost predicate KeepsScopes(isProduction: Policy, scopes: seq<Path>, diff: seq<DiffEntry>) {
    forall maxLines: nat, base: Tree, current: Tree ::
      Faithful(base, current, diff) && Accepted(isProduction, scopes, maxLines, base, current, diff) ==>
        NoWorse(Scoped(isProduction, scopes), maxLines, current, base)
  }

  /** The same for the measures of the whole tree. */
  ghost predicate KeepsTree(isProduction: Policy, scopes: seq<Path>, diff: seq<DiffEntry>) {
    forall maxLines: nat, base: Tree, current: Tree ::
      Faithful(base, current, diff) && Accepted(isProduction, scopes, maxLines, base, current, diff) ==>
        NoWorse(isProduction, maxLines, current, base)
  }

  function Content(isLong: bool): string { if isLong then "x" else "" }

  /** Trees for a diff in which all files are empty, except that `path` and its source have one line. */
  ghost predicate IsWitness(diff: seq<DiffEntry>, source: Option<Path>, path: Path, base: Tree, current: Tree) {
    && "" !in base && (forall p :: p in base ==> base[p] == Content(source == Some(p)))
    && (forall p :: p in current ==> HasEntry(diff, p) && current[p] == Content(p == path))
    && (forall k :: 0 <= k < |diff| ==> (diff[k].status.Deleted? <==> diff[k].path !in current))
    && (forall k :: 0 <= k < |diff| && diff[k].status.Renamed? ==>
          diff[k].previousPath.Some? && diff[k].path !in base && diff[k].previousPath.value in base)
  }

  lemma WitnessTrees(diff: seq<DiffEntry>, source: Option<Path>, path: Path) returns (base: Tree, current: Tree)
    requires IsDiff(diff)
    ensures IsWitness(diff, source, path, base, current)
  {
    var sources := RenameSources(diff);
    var targets := RemainingPaths(diff);
    base := map p | p in sources :: Content(source == Some(p));
    current := map p | p in targets :: Content(p == path);
  }

  lemma RenameSources(diff: seq<DiffEntry>) returns (sources: set<Path>)
    requires IsDiff(diff)
    ensures "" !in sources
    ensures forall k :: 0 <= k < |diff| && diff[k].status.Renamed? ==> diff[k].path !in sources && diff[k].previousPath.value in sources
  {
    sources := set k | 0 <= k < |diff| && diff[k].status.Renamed? && diff[k].previousPath.Some? :: diff[k].previousPath.value;
  }

  lemma RemainingPaths(diff: seq<DiffEntry>) returns (targets: set<Path>)
    requires IsDiff(diff)
    ensures forall p :: p in targets ==> HasEntry(diff, p)
    ensures forall k :: 0 <= k < |diff| ==> (diff[k].status.Deleted? <==> diff[k].path !in targets)
  {
    targets := set k | 0 <= k < |diff| && !diff[k].status.Deleted? :: diff[k].path;
  }

  lemma WitnessIsFaithful(diff: seq<DiffEntry>, source: Option<Path>, path: Path, base: Tree, current: Tree)
    requires IsDiff(diff) && IsWitness(diff, source, path, base, current)
    ensures Faithful(base, current, diff)
  {
  }

  /** Files without lines are accepted. */
  lemma WitnessIsAccepted(
    isProduction: Policy, scopes: seq<Path>, diff: seq<DiffEntry>, source: Option<Path>, path: Path, base: Tree, current: Tree)
    requires IsWitness(diff, source, path, base, current)
    requires forall k :: 0 <= k < |diff| && diff[k].path == path && IsChecked(isProduction, scopes, diff[k]) ==>
               BaseLines(isProduction, base, diff[k]) == Some(1)
    ensures Accepted(isProduction, scopes, 0, base, current, diff)
  {
    forall k | 0 <= k < |diff| && IsChecked(isProduction, scopes, diff[k])
      ensures diff[k].path in current && PhysicalLines(current[diff[k].path]) == if diff[k].path == path then 1 else 0 { }
  }

  lemma WitnessIsWorse(policy: Policy, diff: seq<DiffEntry>, source: Option<Path>, path: Path, base: Tree, current: Tree)
    requires IsWitness(diff, source, path, base, current) && path in current && policy(path)
    requires source.Some? ==> !policy(source.value)
    ensures !NoWorse(policy, 0, current, base)
  {
    assert Oversized(policy, 0, base) == {};
    assert path in Oversized(policy, 0, current);
  }

  /** A rename that brings a production file into the scopes can worsen their measures. */
  lemma MovingInWorsensScope(isProduction: Policy, scopes: seq<Path>, diff: seq<DiffEntry>, m: nat) returns (base: Tree, current: Tree)
    requires IsDiff(diff) && m < |diff| && MovesIn(isProduction, scopes, diff[m])
    ensures Faithful(base, current, diff) && Accepted(isProduction, scopes, 0, base, current, diff)
    ensures !NoWorse(Scoped(isProduction, scopes), 0, current, base)
  {
    var source, path := diff[m].previousPath, diff[m].path;
    base, current := WitnessTrees(diff, source, path);
    WitnessIsFaithful(diff, source, path, base, current);
    assert PhysicalLines("x") == 1 by { assert "x"[..0] == ""; }
    assert BaseLines(isProduction, base, diff[m]) == Some(1);
    WitnessIsAccepted(isProduction, scopes, diff, source, path, base, current);
    WitnessIsWorse(Scoped(isProduction, scopes), diff, source, path, base, current);
  }

  /** A production file whose entry is out of scope can worsen the measures of the whole tree. */
  lemma ScopesLetOthersWorsen(isProduction: Policy, scopes: seq<Path>, diff: seq<DiffEntry>, m: nat) returns (base: Tree, current: Tree)
    requires IsDiff(diff) && m < |diff|
    requires !diff[m].status.Deleted? && isProduction(diff[m].path) && !EntryInScope(diff[m], scopes)
    ensures Faithful(base, current, diff) && Accepted(isProduction, scopes, 0, base, current, diff)
    ensures !NoWorse(isProduction, 0, current, base)
  {
    base, current := WitnessTrees(diff, None, diff[m].path);
    WitnessIsFaithful(diff, None, diff[m].path, base, current);
    WitnessIsAccepted(isProduction, scopes, diff, None, diff[m].path, base, current);
    WitnessIsWorse(isProduction, diff, None, diff[m].path, base, current);
  }

  /** The scopes' measures are kept by every accepted change with this diff if and only if no rename brings a production file
      into the scopes from a production path outside. */
  lemma ScopesAreKeptExactly(isProduction: Policy, scopes: seq<Path>, diff: seq<DiffEntry>)
    requires IsDiff(diff)
    ensures KeepsScopes(isProduction, scopes, diff) <==> StaysInScope(isProduction, scopes, diff)
  {
    if StaysInScope(isProduction, scopes, diff) {
      forall maxLines: nat, base: Tree, current: Tree
        | Faithful(base, current, diff) && Accepted(isProduction, scopes, maxLines, base, current, diff)
        ensures NoWorse(Scoped(isProduction, scopes), maxLines, current, base)
      {
        AcceptedNeverWorsens(isProduction, scopes, maxLines, base, current, diff);
      }
    } else {
      var m :| 0 <= m < |diff| && MovesIn(isProduction, scopes, diff[m]);
      var base, current := MovingInWorsensScope(isProduction, scopes, diff, m);
    }
  }

  lemma CoveredIsUnscoped(isProduction: Policy, scopes: seq<Path>, maxLines: nat, base: Tree, current: Tree, diff: seq<DiffEntry>)
    requires IsCovered(isProduction, scopes, diff) && Faithful(base, current, diff)
    requires Accepted(isProduction, scopes, maxLines, base, current, diff)
    ensures NoWorse(isProduction, maxLines, current, base)
  {
    assert forall k :: 0 <= k < |diff| ==> (IsChecked(isProduction, [], diff[k]) <==> IsChecked(isProduction, scopes, diff[k]));
    AcceptedNeverWorsens(isProduction, [], maxLines, base, current, diff);
    forall tree: Tree ensures Oversized(Scoped(isProduction, []), maxLines, tree) == Oversized(isProduction, maxLines, tree) { }
  }

  /** The measures of the whole tree are kept by every accepted change with this diff if and only if every production file
      that it leaves in place has its entry in scope. */
  lemma TreeIsKeptExactly(isProduction: Policy, scopes: seq<Path>, diff: seq<DiffEntry>)
    requires IsDiff(diff)
    ensures KeepsTree(isProduction, scopes, diff) <==> IsCovered(isProduction, scopes, diff)
  {
    if IsCovered(isProduction, scopes, diff) {
      forall maxLines: nat, base: Tree, current: Tree
        | Faithful(base, current, diff) && Accepted(isProduction, scopes, maxLines, base, current, diff)
        ensures NoWorse(isProduction, maxLines, current, base)
      {
        CoveredIsUnscoped(isProduction, scopes, maxLines, base, current, diff);
      }
    } else {
      var m :| 0 <= m < |diff| && !diff[m].status.Deleted? && isProduction(diff[m].path) && !EntryInScope(diff[m], scopes);
      var base, current := ScopesLetOthersWorsen(isProduction, scopes, diff, m);
    }
  }

  // ----- exactly what is accepted

  /** The path is a requested one, or lies in a requested directory. */
  ghost predicate IsRequested(path: Path, scopes: seq<Path>) {
    exists scope :: scope in scopes && (path == scope || exists rest: string :: path == scope + "/" + rest)
  }

  lemma RequestedExactly(path: Path, scopes: seq<Path>)
    ensures MatchesScope(path, scopes) <==> IsRequested(path, scopes)
  {
    if i :| 0 <= i < |scopes| && (path == scopes[i] || scopes[i] + "/" <= path) {
      assert scopes[i] in scopes;
      if path != scopes[i] {
        assert path == scopes[i] + "/" + path[|scopes[i]| + 1..];
      }
    }
    if scope :| scope in scopes && (path == scope || exists rest: string :: path == scope + "/" + rest) {
      var i :| 0 <= i < |scopes| && scopes[i] == scope;
    }
  }

  /** The file of the base that a changed file may be as long as: the production file it was renamed from, or else the one at its
      own path, unless it is an addition or a copy. */
  predicate IsComparable(isProduction: Policy, e: DiffEntry, q: Path) {
    var isMoved := e.status.Renamed? && e.previousPath.Some? && e.previousPath.value != "" && isProduction(e.previousPath.value);
    q != "" && if isMoved then e.previousPath == Some(q) else q == e.path && !e.status.Added? && !e.status.Copied?
  }

  /** The file is within the limit, or no longer than a comparable one of the base. */
  ghost predicate IsAcceptable(isProduction: Policy, maxLines: nat, base: Tree, current: Tree, e: DiffEntry) {
    && e.path in current
    && (PhysicalLines(current[e.path]) <= maxLines
        || exists q :: IsComparable(isProduction, e, q) && q in base && PhysicalLines(current[e.path]) <= PhysicalLines(base[q]))
  }

  lemma JudgedExactly(isProduction: Policy, maxLines: nat, base: Tree, current: Tree, e: DiffEntry)
    requires e.path in current
    ensures Judge(PhysicalLines(current[e.path]), BaseLines(isProduction, base, e), maxLines).None?
        <==> IsAcceptable(isProduction, maxLines, base, current, e)
  {
    var path := BasePath(isProduction, e);
    forall q ensures IsComparable(isProduction, e, q) <==> path == Some(q) && q != "" { }
  }

  /** A change is accepted if and only if every production file it leaves in place, and that is requested by its path or by the
      one it was moved from, is acceptable. */
  lemma AcceptedExactly(isProduction: Policy, scopes: seq<Path>, maxLines: nat, base: Tree, current: Tree, diff: seq<DiffEntry>)
    ensures Accepted(isProduction, scopes, maxLines, base, current, diff) <==>
              forall k :: 0 <= k < |diff| && !diff[k].status.Deleted? && isProduction(diff[k].path)
                          && (scopes == [] || IsRequested(diff[k].path, scopes)
                              || (diff[k].previousPath.Some? && IsRequested(diff[k].previousPath.value, scopes))) ==>
                IsAcceptable(isProduction, maxLines, base, current, diff[k])
  {
    forall k | 0 <= k < |diff|
      ensures IsChecked(isProduction, scopes, diff[k]) <==>
                !diff[k].status.Deleted? && isProduction(diff[k].path)
                && (scopes == [] || IsRequested(diff[k].path, scopes)
                    || (diff[k].previousPath.Some? && IsRequested(diff[k].previousPath.value, scopes)))
      ensures IsAcceptable(isProduction, maxLines, base, current, diff[k]) <==>
                diff[k].path in current
                && Judge(PhysicalLines(current[diff[k].path]), BaseLines(isProduction, base, diff[k]), maxLines).None?
    {
      RequestedExactly(diff[k].path, scopes);
      if diff[k].previousPath.Some? {
        RequestedExactly(diff[k].previousPath.value, scopes);
      }
      if diff[k].path in current {
        JudgedExactly(isProduction, maxLines, base, current, diff[k]);
      }
    }
  }

  /** Lines that each end with a newline. */
  function Terminated(lines: seq<string>): string {
    if lines == [] then "" else Terminated(lines[..|lines| - 1]) + lines[|lines| - 1] + "\n"
  }

  lemma {:induction false} NewlinesAppend(a: string, b: string)
    ensures Newlines(a + b) == Newlines(a) + Newlines(b)
  {
    if b == "" {
      assert a + b == a;
    } else {
      assert (a + b)[..|a + b| - 1] == a + b[..|b| - 1];
      NewlinesAppend(a, b[..|b| - 1]);
    }
  }

  lemma {:induction false} NewlinesOfLine(line: string)
    requires Lacks(line, '\n')
    ensures Newlines(line) == 0
  {
    if line != "" {
      NewlinesOfLine(line[..|line| - 1]);
    }
  }

  lemma {:induction false} NewlinesOfLines(lines: seq<string>)
    requires forall k :: 0 <= k < |lines| ==> Lacks(lines[k], '\n')
    ensures Newlines(Terminated(lines)) == |lines|
  {
    if lines != [] {
      var init, last := lines[..|lines| - 1], lines[|lines| - 1];
      NewlinesOfLines(init);
      NewlinesAppend(Terminated(init) + last, "\n");
      NewlinesAppend(Terminated(init), last);
      NewlinesOfLine(last);
      assert Newlines("\n") == 1 by { assert "\n"[..0] == ""; }
    }
  }

  /** Lines are counted as an editor counts them, whether or not the last one ends with a newline. */
  lemma LinesAreCounted(lines: seq<string>, last: string)
    requires Lacks(last, '\n') && forall k :: 0 <= k < |lines| ==> Lacks(lines[k], '\n')
    ensures PhysicalLines(Terminated(lines) + last) == |lines| + if last == "" then 0 else 1
  {
    NewlinesOfLines(lines);
    NewlinesAppend(Terminated(lines), last);
    NewlinesOfLine(last);
    assert last == "" ==> Terminated(lines) + last == Terminated(lines);
  }

  // ----- untracked files of a worktree

  /** A path with an entry of the diff, looked up as the source does: the last index counts. */
  function IndexOfPath(diff: seq<DiffEntry>, path: Path): (k: Option<nat>)
    ensures k.None? <==> forall i :: 0 <= i < |diff| ==> diff[i].path != path
    ensures k.Some? ==> k.value < |diff| && diff[k.value].path == path
  {
    if diff == [] then None
    else if diff[|diff| - 1].path == path then Some(|diff| - 1)
    else IndexOfPath(diff[..|diff| - 1], path)
  }

  /** `entries` is the diff with the untracked files worked in. */
  ghost predicate IsFixUp(diff: seq<DiffEntry>, untracked: seq<Path>, entries: seq<DiffEntry>) {
    && |diff| <= |entries|
    && (forall i :: 0 <= i < |diff| ==>
          entries[i] == if diff[i].status.Deleted? && diff[i].path in untracked
                        then DiffEntry(Other('M'), diff[i].path, None) else diff[i])
    && (forall i :: |diff| <= i < |entries| ==>
          entries[i].status.Added? && entries[i].path in untracked && IndexOfPath(diff, entries[i].path).None?)
    && (forall p :: p in untracked ==> HasEntry(entries, p))
    && (forall j, k :: 0 <= j < k < |entries| ==> entries[j].path != entries[k].path)
  }

  /** Entries that keep the paths of others have entries for the same paths. */
  lemma KeepsPaths(before: seq<DiffEntry>, after: seq<DiffEntry>, seen: seq<Path>)
    requires |before| <= |after| && forall k :: 0 <= k < |before| ==> after[k].path == before[k].path
    requires forall p :: p in seen ==> HasEntry(before, p)
    ensures forall p :: p in seen ==> HasEntry(after, p)
  {
    forall p | p in seen ensures HasEntry(after, p) {
      var k :| 0 <= k < |before| && before[k].path == p;
      assert after[k].path == p;
    }
  }

  lemma {:induction false} FixUpAdds(diff: seq<DiffEntry>, seen: seq<Path>, entries: seq<DiffEntry>, path: Path)
    requires IsFixUp(diff, seen, entries) && path !in seen && IndexOfPath(diff, path).None?
    ensures IsFixUp(diff, seen + [path], entries + [DiffEntry(Added, path, None)])
  {
    var after := entries + [DiffEntry(Added, path, None)];
    KeepsPaths(entries, after, seen);
    assert after[|entries|].path == path;
  }

  lemma {:induction false} FixUpRevives(diff: seq<DiffEntry>, seen: seq<Path>, entries: seq<DiffEntry>, path: Path, index: nat)
    requires IsFixUp(diff, seen, entries) && path !in seen && IndexOfPath(diff, path) == Some(index)
    ensures IsFixUp(diff, seen + [path], entries[index := if entries[index].status.Deleted? then DiffEntry(Other('M'), path, None)
                                                         else entries[index]])
  {
    var after := entries[index := if entries[index].status.Deleted? then DiffEntry(Other('M'), path, None) else entries[index]];
    KeepsPaths(entries, after, seen);
    assert after[index].path == path;
  }

  /** Untracked files are additions, except that one recreated at a deleted path is a modification. */
  method AddUntracked(diff: seq<DiffEntry>, untracked: seq<Path>) returns (entries: seq<DiffEntry>)
    requires forall j, k :: 0 <= j < k < |diff| ==> diff[j].path != diff[k].path
    requires forall j, k :: 0 <= j < k < |untracked| ==> untracked[j] != untracked[k]
    ensures IsFixUp(diff, untracked, entries)
  {
    entries := diff;
    for u := 0 to |untracked|
      invariant IsFixUp(diff, untracked[..u], entries) == true  // the comparison keeps the predicate whole
    {
      var path := untracked[u];
      PrefixSnoc(untracked, u);
      var index := IndexOfPath(diff, path);
      if index.None? {
        FixUpAdds(diff, untracked[..u], entries, path);
        entries := entries + [DiffEntry(Added, path, None)];
      } else {
        FixUpRevives(diff, untracked[..u], entries, path, index.value);
        entries := entries[index.value := if entries[index.value].status.Deleted? then DiffEntry(Other('M'), path, None)
                                          else entries[index.value]];
      }
    }
    assert untracked[..|untracked|] == untracked;
  }

  /** A diff that is faithful for the tracked files becomes faithful for the whole worktree, so that the ratchet also
      holds for uncommitted work. */
  lemma FixUpIsFaithful(
    base: Tree, tracked: Tree, diff: seq<DiffEntry>, untracked: seq<Path>, worktree: Tree, entries: seq<DiffEntry>)
    requires Faithful(base, tracked, diff) && IsFixUp(diff, untracked, entries)
    requires forall p :: p in worktree <==> p in tracked || p in untracked
    requires forall p :: p in tracked ==> p !in untracked && worktree[p] == tracked[p]
    ensures Faithful(base, worktree, entries)
  {
    FixUpIsDiff(diff, untracked, entries);
    forall p | HasEntry(diff, p) ensures HasEntry(entries, p) {
      var k :| 0 <= k < |diff| && diff[k].path == p;
      assert entries[k].path == p;
    }
    forall k | 0 <= k < |entries| && entries[k].status.Renamed?
      ensures k < |diff| && entries[k] == diff[k]
    { }
    forall k | 0 <= k < |entries| && entries[k].status.Renamed?
      ensures entries[k].previousPath.Some?
              && (entries[k].previousPath.value in worktree ==> HasEntry(entries, entries[k].previousPath.value))
    {
      var q := diff[k].previousPath.value;
      if q in tracked {
        var j :| 0 <= j < |diff| && diff[j].path == q;
        assert entries[j].path == q;
      }
    }
  }

  lemma FixUpIsDiff(diff: seq<DiffEntry>, untracked: seq<Path>, entries: seq<DiffEntry>)
    requires IsDiff(diff) && IsFixUp(diff, untracked, entries)
    ensures IsDiff(entries)
  {
    forall k | 0 <= k < |entries| && entries[k].status.Renamed? ensures k < |diff| && entries[k] == diff[k] { }
    forall j, k | 0 <= j < |entries| && 0 <= k < |entries| && entries[k].status.Renamed?
      ensures entries[k].previousPath == Some(entries[j].path) ==> entries[j].status.Added? || entries[j].status.Copied?
    {
      if j < |diff| && diff[k].previousPath == Some(diff[j].path) {
        assert diff[j].status.Added? || diff[j].status.Copied?;
      }
    }
  }

  // ----- the code

  function Measured(isProduction: Policy, base: Tree, current: Tree, e: DiffEntry): ChangedFile
    requires e.path in current
  {
    ChangedFile(e, BaseLines(isProduction, base, e), PhysicalLines(current[e.path]))
  }

  /** The checked files of a change, in the order of the diff. */
  function MeasuredFiles(isProduction: Policy, scopes: seq<Path>, base: Tree, current: Tree, diff: seq<DiffEntry>): seq<ChangedFile>
    requires forall k :: 0 <= k < |diff| && IsChecked(isProduction, scopes, diff[k]) ==> diff[k].path in current
  {
    if diff == [] then []
    else
      var last := diff[|diff| - 1];
      MeasuredFiles(isProduction, scopes, base, current, diff[..|diff| - 1])
      + (if IsChecked(isProduction, scopes, last) then [Measured(isProduction, base, current, last)] else [])
  }

  lemma {:induction false} MeasuredFilesHold(
    isProduction: Policy, scopes: seq<Path>, base: Tree, current: Tree, diff: seq<DiffEntry>, f: ChangedFile)
    requires forall k :: 0 <= k < |diff| && IsChecked(isProduction, scopes, diff[k]) ==> diff[k].path in current
    ensures f in MeasuredFiles(isProduction, scopes, base, current, diff) <==> (exists k ::
              0 <= k < |diff| && IsChecked(isProduction, scopes, diff[k]) && f == Measured(isProduction, base, current, diff[k]))
  {
    if diff != [] {
      var init, last := diff[..|diff| - 1], diff[|diff| - 1];
      MeasuredFilesHold(isProduction, scopes, base, current, init, f);
      assert forall k :: 0 <= k < |init| ==> init[k] == diff[k];
    }
  }

  /** The files in the order of their paths. */
  function ByPath(le: (Path, Path) -> bool): (ChangedFile, ChangedFile) -> bool {
    (a: ChangedFile, b: ChangedFile) => le(a.entry.path, b.entry.path)
  }

  /** The most lines first, and then in the order of the paths. */
  function WorstFirst(le: (Path, Path) -> bool): (Violation, Violation) -> bool {
    (a: Violation, b: Violation) =>
      a.file.lines > b.file.lines || (a.file.lines == b.file.lines && le(a.file.entry.path, b.file.entry.path))
  }

  function Violations(files: seq<ChangedFile>, maxLines: nat): seq<Violation> {
    if files == [] then []
    else
      var last := files[|files| - 1];
      var reason := Judge(last.lines, last.baseLines, maxLines);
      Violations(files[..|files| - 1], maxLines) + (if reason.Some? then [Violation(last, reason.value)] else [])
  }

  lemma {:induction false} ViolationsHold(files: seq<ChangedFile>, maxLines: nat, v: Violation)
    ensures v in Violations(files, maxLines) <==> v.file in files && Judge(v.file.lines, v.file.baseLines, maxLines) == Some(v.reason)
  {
    if files != [] {
      ViolationsHold(files[..|files| - 1], maxLines, v);
      assert files == files[..|files| - 1] + [files[|files| - 1]];
    }
  }

  lemma ByPathIsOrder(le: (Path, Path) -> bool)
    requires IsTotal(le) && IsTransitive(le)
    ensures IsTotal(ByPath(le)) && IsTransitive(ByPath(le))
  {
    forall x: ChangedFile, y: ChangedFile ensures ByPath(le)(x, y) || ByPath(le)(y, x) {
      assert le(x.entry.path, y.entry.path) || le(y.entry.path, x.entry.path);
    }
    forall x: ChangedFile, y: ChangedFile, z: ChangedFile | ByPath(le)(x, y) && ByPath(le)(y, z) ensures ByPath(le)(x, z) {
      assert le(x.entry.path, y.entry.path) && le(y.entry.path, z.entry.path);
    }
  }

  lemma WorstFirstIsOrder(le: (Path, Path) -> bool)
    requires IsTotal(le) && IsTransitive(le)
    ensures IsTotal(WorstFirst(le)) && IsTransitive(WorstFirst(le))
  {
    forall x: Violation, y: Violation ensures WorstFirst(le)(x, y) || WorstFirst(le)(y, x) {
      assert le(x.file.entry.path, y.file.entry.path) || le(y.file.entry.path, x.file.entry.path);
    }
    forall x: Violation, y: Violation, z: Violation | WorstFirst(le)(x, y) && WorstFirst(le)(y, z) ensures WorstFirst(le)(x, z) {
      if x.file.lines == z.file.lines {
        assert le(x.file.entry.path, y.file.entry.path) && le(y.file.entry.path, z.file.entry.path);
      }
    }
  }

  /** The report lists the files in path order and the violations worst first, and loses none. */
  lemma ReportsAreOrdered(le: (Path, Path) -> bool, files: seq<ChangedFile>, violations: seq<Violation>)
    requires IsTotal(le) && IsTransitive(le)
    ensures var sorted := Sort(files, ByPath(le));
            multiset(sorted) == multiset(files) && forall i, j :: 0 <= i < j < |sorted| ==> le(sorted[i].entry.path, sorted[j].entry.path)
    ensures var sorted := Sort(violations, WorstFirst(le));
            multiset(sorted) == multiset(violations)
            && forall i, j :: 0 <= i < j < |sorted| ==>
                 || sorted[i].file.lines > sorted[j].file.lines
                 || (sorted[i].file.lines == sorted[j].file.lines && le(sorted[i].file.entry.path, sorted[j].file.entry.path))
  {
    ByPathIsOrder(le);
    WorstFirstIsOrder(le);
    SortOrders(files, ByPath(le));
    SortPermutes(files, ByPath(le));
    SortOrders(violations, WorstFirst(le));
    SortPermutes(violations, WorstFirst(le));
    var a, b := Sort(files, ByPath(le)), Sort(violations, WorstFirst(le));
    assert forall i, j :: 0 <= i < j < |a| ==> ByPath(le)(a[i], a[j]);
    assert forall i, j :: 0 <= i < j < |b| ==> WorstFirst(le)(b[i], b[j]);
  }

  /** The reason says what is wrong: a new file over the limit, a file that went over it, or one over it that grew. */
  lemma ReasonIsReal(file: ChangedFile, maxLines: nat, reason: Reason)
    requires Judge(file.lines, file.baseLines, maxLines) == Some(reason)
    ensures file.lines > maxLines && (reason == NewFile <==> file.baseLines.None?)
    ensures reason == CrossedLimit ==> file.baseLines.Some? && file.baseLines.value <= maxLines
    ensures reason == Grew ==> file.baseLines.Some? && maxLines < file.baseLines.value < file.lines
  {
  }

  /** The checked files, measured, in path order; `le` is the order of the locale. */
  method CollectChangedFiles(isProduction: Policy, scopes: seq<Path>, base: Tree, current: Tree, diff: seq<DiffEntry>,
                             le: (Path, Path) -> bool)
    returns (files: seq<ChangedFile>)
    requires forall k :: 0 <= k < |diff| && IsChecked(isProduction, scopes, diff[k]) ==> diff[k].path in current
    ensures files == Sort(MeasuredFiles(isProduction, scopes, base, current, diff), ByPath(le))
    ensures forall f :: f in files <==> (exists k ::
              0 <= k < |diff| && IsChecked(isProduction, scopes, diff[k]) && f == Measured(isProduction, base, current, diff[k]))
  {
    var measured: seq<ChangedFile> := [];
    for i := 0 to |diff|
      invariant measured == MeasuredFiles(isProduction, scopes, base, current, diff[..i])
    {
      PrefixSnoc(diff, i);
      var entry := diff[i];
      if entry.status.Deleted? || !EntryInScope(entry, scopes) || !isProduction(entry.path) {
        continue;
      }
      measured := measured + [Measured(isProduction, base, current, entry)];
    }
    assert diff[..|diff|] == diff;
    files := Sort(measured, ByPath(le));
    SortPermutes(measured, ByPath(le));
    SameMembers(files, measured);
    forall f: ChangedFile ensures f in measured <==> (exists k ::
              0 <= k < |diff| && IsChecked(isProduction, scopes, diff[k]) && f == Measured(isProduction, base, current, diff[k])) {
      MeasuredFilesHold(isProduction, scopes, base, current, diff, f);
    }
  }

  /** The violations among the files, worst first. */
  method FindViolations(files: seq<ChangedFile>, maxLines: nat, le: (Path, Path) -> bool) returns (violations: seq<Violation>)
    ensures violations == Sort(Violations(files, maxLines), WorstFirst(le))
    ensures forall v :: v in violations <==> v.file in files && Judge(v.file.lines, v.file.baseLines, maxLines) == Some(v.reason)
  {
    var found: seq<Violation> := [];
    for i := 0 to |files|
      invariant found == Violations(files[..i], maxLines)
    {
      PrefixSnoc(files, i);
      var file := files[i];
      if file.lines <= maxLines {
        continue;
      }
      if file.baseLines.None? {
        found := found + [Violation(file, NewFile)];
      } else if file.baseLines.value <= maxLines {
        found := found + [Violation(file, CrossedLimit)];
      } else if file.lines > file.baseLines.value {
        found := found + [Violation(file, Grew)];
      }
    }
    assert files[..|files|] == files;
    violations := Sort(found, WorstFirst(le));
    SortPermutes(found, WorstFirst(le));
    SameMembers(violations, found);
    forall v: Violation ensures v in found <==> v.file in files && Judge(v.file.lines, v.file.baseLines, maxLines) == Some(v.reason) {
      ViolationsHold(files, maxLines, v);
    }
  }

  /** The whole check passes exactly the changes that the ratchet theorems are about. */
  method CheckRatchet(isProduction: Policy, scopes: seq<Path>, maxLines: nat, base: Tree, current: Tree, diff: seq<DiffEntry>,
                      le: (Path, Path) -> bool)
    returns (ok: bool)
    requires forall k :: 0 <= k < |diff| && IsChecked(isProduction, scopes, diff[k]) ==> diff[k].path in current
    ensures ok <==> Accepted(isProduction, scopes, maxLines, base, current, diff)
  {
    var files := CollectChangedFiles(isProduction, scopes, base, current, diff, le);
    var violations := FindViolations(files, maxLines, le);
    ok := violations == [];
    SortPermutes(Violations(files, maxLines), WorstFirst(le));
    NoViolationsExactly(files, maxLines);
    forall k | 0 <= k < |diff| && IsChecked(isProduction, scopes, diff[k]) ensures Measured(isProduction, base, current, diff[k]) in files { }
  }

  lemma {:induction false} NoViolationsExactly(files: seq<ChangedFile>, maxLines: nat)
    ensures Violations(files, maxLines) == [] <==> forall f :: f in files ==> Judge(f.lines, f.baseLines, maxLines).None?
  {
    if files != [] {
      NoViolationsExactly(files[..|files| - 1], maxLines);
      assert files == files[..|files| - 1] + [files[|files| - 1]];
    }
  }
}
