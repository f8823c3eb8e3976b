/**
  When ids are stable: the exact condition on the hash, the candidates and the previous entries under which every
  known identity keeps its id.
 */
module NativeIdStability {
  import opened Options
  import opened Text
  import opened Sorting
  import opened Counting
  import opened NativeIds

  // ----- stems

  /** The ids made from a base, in the order in which they are tried. */
  function Stem(base: string, r: nat): string
    requires r >= 1
  {
    if r == 1 then base else Suffixed(base, r)
  }

  lemma StemInjective(base: string, p: nat, q: nat)
    requires p >= 1 && q >= 1 && Stem(base, p) == Stem(base, q)
    ensures p == q
  {
    if p > 1 && q > 1 {
      SuffixInjective(base, p, q);
    } else {
      assert |Suffixed(base, p)| > |base| && |Suffixed(base, q)| > |base|;
    }
  }

  lemma {:induction false} FreeIdIsFirst(seen: set<string>, base: string, k: nat) returns (t: nat)
    requires k >= 2 && forall j :: 2 <= j < k ==> Suffixed(base, j) in seen
    ensures t >= k && FreeId(seen, base, k) == Suffixed(base, t) && forall j :: 2 <= j < t ==> Suffixed(base, j) in seen
    decreases |seen| + 2 - k
  {
    TakenSuffixesFit(seen, base, k);
    if Suffixed(base, k) in seen {
      TakenSuffixesFit(seen, base, k + 1);
      t := FreeIdIsFirst(seen, base, k + 1);
    } else {
      t := k;
    }
  }

  /** An identity without a previous id gets the first stem that is free. */
  lemma PicksFirstStem(seen: set<string>, previousId: Option<string>, base: string) returns (t: nat)
    requires previousId.None? || previousId.value == ""
    ensures t >= 1 && PickId(seen, previousId, base) == Stem(base, t)
    ensures forall s :: 1 <= s < t ==> Stem(base, s) in seen
  {
    if base in seen {
      t := FreeIdIsFirst(seen, base, 2);
    } else {
      t := 1;
    }
  }

  // ----- an assignment, index by index

  function IdsBefore(out: seq<Entry>, k: nat): set<string>
    requires k <= |out|
  {
    set j | 0 <= j < k :: out[j].id
  }

  /** Each entry picks its id when those before it have theirs, and all ids differ. */
  ghost predicate IsAssignment(hash: Hash, previous: seq<Entry>, sorted: seq<Candidate>, out: seq<Entry>) {
    && |out| == |sorted|
    && (forall j, k :: 0 <= j < k < |out| ==> out[j].id != out[k].id)
    && forall k :: 0 <= k < |out| ==>
         out[k].id == PickId(IdsBefore(out, k), PreviousId(previous, Identity(sorted[k])), BaseId(hash, sorted[k]))
  }

  lemma {:induction false} AssignAt(hash: Hash, previous: seq<Entry>, sorted: seq<Candidate>, seen: set<string>, k: nat)
    requires k < |sorted|
    ensures var out := AssignFrom(hash, previous, sorted, seen);
            out[k].id == PickId(seen + IdsBefore(out, k), PreviousId(previous, Identity(sorted[k])), BaseId(hash, sorted[k]))
  {
    var id := PickId(seen, PreviousId(previous, Identity(sorted[0])), BaseId(hash, sorted[0]));
    var out, rest := AssignFrom(hash, previous, sorted, seen), AssignFrom(hash, previous, sorted[1..], seen + {id});
    assert out == [Entry(sorted[0], id)] + rest;
    if k == 0 {
      assert seen + IdsBefore(out, 0) == seen;
    } else {
      AssignAt(hash, previous, sorted[1..], seen + {id}, k - 1);
      IdsBeforeCons(Entry(sorted[0], id), rest, k);
      assert seen + {id} + IdsBefore(rest, k - 1) == seen + IdsBefore(out, k);
    }
  }

  lemma IdsBeforeCons(first: Entry, rest: seq<Entry>, k: nat)
    requires 1 <= k <= |rest| + 1
    ensures IdsBefore([first] + rest, k) == {first.id} + IdsBefore(rest, k - 1)
  {
    var out := [first] + rest;
    forall id | id in {first.id} + IdsBefore(rest, k - 1) ensures id in IdsBefore(out, k) {
      if id == first.id {
        assert out[0].id == id;
      } else {
        var j :| 0 <= j < k - 1 && rest[j].id == id;
        assert out[j + 1].id == id;
      }
    }
  }

  lemma AssignIsAssignment(hash: Hash, candidates: seq<Candidate>, previous: seq<Entry>)
    ensures IsAssignment(hash, previous, Sort(Unique(candidates), CandidateLe), Assign(hash, candidates, previous))
  {
    var sorted, out := Sort(Unique(candidates), CandidateLe), Assign(hash, candidates, previous);
    AssignedIds(hash, previous, sorted, {});
    forall k | 0 <= k < |out|
      ensures out[k].id == PickId(IdsBefore(out, k), PreviousId(previous, Identity(sorted[k])), BaseId(hash, sorted[k]))
    {
      AssignAt(hash, previous, sorted, {}, k);
      assert {} + IdsBefore(out, k) == IdsBefore(out, k);
    }
  }

  /** A new entry has the first stem of its base that no entry before it has. */
  lemma NewStem(hash: Hash, previous: seq<Entry>, sorted: seq<Candidate>, out: seq<Entry>, j: nat) returns (t: nat)
    requires IsAssignment(hash, previous, sorted, out) && j < |out| && !IsOld(previous, sorted[j])
    ensures t >= 1 && out[j].id == Stem(BaseId(hash, sorted[j]), t)
    ensures forall s :: 1 <= s < t ==> Stem(BaseId(hash, sorted[j]), s) in IdsBefore(out, j)
  {
    t := PicksFirstStem(IdsBefore(out, j), PreviousId(previous, Identity(sorted[j])), BaseId(hash, sorted[j]));
  }

  // ----- the condition

  /** The positions before `k` of new identities with this base. */
  function NewBefore(hash: Hash, previous: seq<Entry>, sorted: seq<Candidate>, base: string, k: nat): set<nat> {
    set j: nat | j < k && j < |sorted| && !IsOld(previous, sorted[j]) && BaseId(hash, sorted[j]) == base
  }

  ghost predicate IsOldId(previous: seq<Entry>, sorted: seq<Candidate>, id: string) {
    exists m :: 0 <= m < |sorted| && IsOld(previous, sorted[m]) && OldId(previous, sorted[m]) == id
  }

  /** The stems below the r-th that are no known identity's id. */
  ghost function FreeBelow(previous: seq<Entry>, sorted: seq<Candidate>, base: string, r: nat): set<nat> {
    set s: nat | 1 <= s < r && !IsOldId(previous, sorted, Stem(base, s))
  }

  /** Known identities have different ids, and wherever one of these ids is a stem of some base, the new identities with that
      base that sort before it find room among the earlier stems. */
  ghost predicate RoomRemains(hash: Hash, previous: seq<Entry>, sorted: seq<Candidate>) {
    && (forall j, k | 0 <= j < k < |sorted| && IsOld(previous, sorted[j]) && IsOld(previous, sorted[k]) ::
          OldId(previous, sorted[j]) != OldId(previous, sorted[k]))
    && (forall k: nat, base: string, r: nat | k < |sorted| && r >= 1 && IsOld(previous, sorted[k]) ::
          OldId(previous, sorted[k]) == Stem(base, r) ==>
            |NewBefore(hash, previous, sorted, base, k)| <= |FreeBelow(previous, sorted, base, r)|)
  }

  ghost predicate KeptBefore(previous: seq<Entry>, sorted: seq<Candidate>, out: seq<Entry>, k: nat)
    requires k <= |sorted| == |out|
  {
    forall j :: 0 <= j < k && IsOld(previous, sorted[j]) ==> out[j].id == OldId(previous, sorted[j])
  }

  /** Different bases have no stem in common. */
  ghost predicate StemsApart(hash: Hash, sorted: seq<Candidate>) {
    forall j, k, p: nat, q: nat | 0 <= j < |sorted| && 0 <= k < |sorted| && p >= 1 && q >= 1 ::
      Stem(BaseId(hash, sorted[j]), p) == Stem(BaseId(hash, sorted[k]), q) ==> BaseId(hash, sorted[j]) == BaseId(hash, sorted[k])
  }

  // ----- room is needed

  ghost function StemIndex(base: string, id: string): nat {
    if exists t: nat :: t >= 1 && id == Stem(base, t) then (var t: nat :| t >= 1 && id == Stem(base, t); t) else 0
  }

  lemma NotBefore(out: seq<Entry>, j: nat, k: nat)
    requires j <= k < |out| && forall i, m :: 0 <= i < m < |out| ==> out[i].id != out[m].id
    ensures out[k].id !in IdsBefore(out, j)
  {
  }

  lemma NewIdIsNotOld(hash: Hash, previous: seq<Entry>, sorted: seq<Candidate>, out: seq<Entry>, j: nat)
    requires IsAssignment(hash, previous, sorted, out) && KeptBefore(previous, sorted, out, |sorted|)
    requires j < |sorted| && !IsOld(previous, sorted[j])
    ensures !IsOldId(previous, sorted, out[j].id)
  {
    forall m | 0 <= m < |sorted| && IsOld(previous, sorted[m]) ensures OldId(previous, sorted[m]) != out[j].id {
      assert m != j && out[m].id == OldId(previous, sorted[m]);
    }
  }

  /** When all known ids are kept, a new entry before a known id that is a stem of its base has an earlier, free stem. */
  lemma NewStemIsFree(hash: Hash, previous: seq<Entry>, sorted: seq<Candidate>, out: seq<Entry>,
                      j: nat, k: nat, r: nat)
    requires IsAssignment(hash, previous, sorted, out) && KeptBefore(previous, sorted, out, |sorted|)
    requires j < k < |sorted| && !IsOld(previous, sorted[j]) && IsOld(previous, sorted[k]) && r >= 1
    requires OldId(previous, sorted[k]) == Stem(BaseId(hash, sorted[j]), r)
    ensures var base := BaseId(hash, sorted[j]);
            var t := StemIndex(base, out[j].id);
            t in FreeBelow(previous, sorted, base, r) && out[j].id == Stem(base, t)
  {
    var base := BaseId(hash, sorted[j]);
    var t := NewStem(hash, previous, sorted, out, j);
    var u := StemIndex(base, out[j].id);
    StemInjective(base, t, u);
    StemBelow(out, base, j, t, k, r);
    NewIdIsNotOld(hash, previous, sorted, out, j);
  }

  lemma StemBelow(out: seq<Entry>, base: string, j: nat, t: nat, k: nat, r: nat)
    requires j < k < |out| && forall i, m :: 0 <= i < m < |out| ==> out[i].id != out[m].id
    requires t >= 1 && r >= 1 && out[j].id == Stem(base, t) && out[k].id == Stem(base, r)
    requires forall s :: 1 <= s < t ==> Stem(base, s) in IdsBefore(out, j)
    ensures t < r
  {
    NotBefore(out, j, k);
  }

  lemma KeptNeedsRoom(hash: Hash, previous: seq<Entry>, sorted: seq<Candidate>, out: seq<Entry>,
                      k: nat, base: string, r: nat)
    requires IsAssignment(hash, previous, sorted, out) && KeptBefore(previous, sorted, out, |sorted|)
    requires k < |sorted| && r >= 1 && IsOld(previous, sorted[k]) && OldId(previous, sorted[k]) == Stem(base, r)
    ensures |NewBefore(hash, previous, sorted, base, k)| <= |FreeBelow(previous, sorted, base, r)|
  {
    var news := NewBefore(hash, previous, sorted, base, k);
    var f := map j | j in news :: StemIndex(base, out[j].id);
    forall j | j in news ensures f[j] in FreeBelow(previous, sorted, base, r) && out[j].id == Stem(base, f[j]) {
      NewStemIsFree(hash, previous, sorted, out, j, k, r);
    }
    forall i, j | i in news && j in news && i != j ensures f[i] != f[j] {
      assert out[i].id != out[j].id;
    }
    InjectionCounts(news, FreeBelow(previous, sorted, base, r), f);
  }

  // ----- room is enough

  ghost function HolderOf(out: seq<Entry>, id: string): nat
    requires exists i: nat :: i < |out| && out[i].id == id
  {
    var i: nat :| i < |out| && out[i].id == id; i
  }

  lemma KeptIsOldId(previous: seq<Entry>, sorted: seq<Candidate>, out: seq<Entry>, i: nat)
    requires i < |sorted| == |out| && (IsOld(previous, sorted[i]) ==> out[i].id == OldId(previous, sorted[i]))
    ensures IsOld(previous, sorted[i]) ==> IsOldId(previous, sorted, out[i].id)
  {
  }

  /** Who holds a free stem that an entry had to skip: a new identity with the same base. */
  lemma HolderIsNew(hash: Hash, previous: seq<Entry>, sorted: seq<Candidate>, out: seq<Entry>, j: nat, s: nat)
    requires IsAssignment(hash, previous, sorted, out) && StemsApart(hash, sorted)
    requires j < |sorted| && KeptBefore(previous, sorted, out, j) && s >= 1
    requires Stem(BaseId(hash, sorted[j]), s) in IdsBefore(out, j) && !IsOldId(previous, sorted, Stem(BaseId(hash, sorted[j]), s))
    ensures var base := BaseId(hash, sorted[j]);
            && (exists i: nat :: i < |out| && out[i].id == Stem(base, s))
            && HolderOf(out, Stem(base, s)) in NewBefore(hash, previous, sorted, base, j)
            && out[HolderOf(out, Stem(base, s))].id == Stem(base, s)
  {
    var base := BaseId(hash, sorted[j]);
    var i: nat :| i < j && out[i].id == Stem(base, s);
    assert HolderOf(out, Stem(base, s)) == i;
    KeptIsOldId(previous, sorted, out, i);
    var t := NewStem(hash, previous, sorted, out, i);
    assert Stem(BaseId(hash, sorted[i]), t) == Stem(BaseId(hash, sorted[j]), s);
  }

  /** A new entry that takes the r-th stem of its base has filled all free stems below with new entries before it. */
  lemma TakingFillsRoom(hash: Hash, previous: seq<Entry>, sorted: seq<Candidate>, out: seq<Entry>, j: nat, r: nat)
    requires IsAssignment(hash, previous, sorted, out) && StemsApart(hash, sorted)
    requires j < |sorted| && KeptBefore(previous, sorted, out, j) && r >= 1
    requires !IsOld(previous, sorted[j]) && out[j].id == Stem(BaseId(hash, sorted[j]), r)
    ensures var base := BaseId(hash, sorted[j]);
            |FreeBelow(previous, sorted, base, r)| <= |NewBefore(hash, previous, sorted, base, j)|
  {
    var base := BaseId(hash, sorted[j]);
    var t := NewStem(hash, previous, sorted, out, j);
    StemInjective(base, t, r);
    var free := FreeBelow(previous, sorted, base, r);
    forall s | s in free
      ensures (exists i: nat :: i < |out| && out[i].id == Stem(base, s))
           && HolderOf(out, Stem(base, s)) in NewBefore(hash, previous, sorted, base, j)
           && out[HolderOf(out, Stem(base, s))].id == Stem(base, s)
    {
      HolderIsNew(hash, previous, sorted, out, j, s);
    }
    var f := map s | s in free :: HolderOf(out, Stem(base, s));
    forall s, s' | s in free && s' in free && s != s' ensures f[s] != f[s'] {
      if f[s] == f[s'] {
        StemInjective(base, s, s');
      }
    }
    InjectionCounts(free, NewBefore(hash, previous, sorted, base, j), f);
  }

  /** A known identity keeps its id exactly if no entry before it was given that id. */
  lemma UntakenIsKept(hash: Hash, previous: seq<Entry>, sorted: seq<Candidate>, out: seq<Entry>, k: nat)
    requires IsAssignment(hash, previous, sorted, out) && k < |sorted| && IsOld(previous, sorted[k])
    ensures out[k].id == OldId(previous, sorted[k]) <==> OldId(previous, sorted[k]) !in IdsBefore(out, k)
  {
  }

  /** With room, the next known identity finds its id untaken and keeps it. */
  lemma RoomKeepsNext(hash: Hash, previous: seq<Entry>, sorted: seq<Candidate>, out: seq<Entry>, k: nat)
    requires IsAssignment(hash, previous, sorted, out) && StemsApart(hash, sorted) && RoomRemains(hash, previous, sorted)
    requires k < |sorted| && IsOld(previous, sorted[k]) && KeptBefore(previous, sorted, out, k)
    ensures out[k].id == OldId(previous, sorted[k])
  {
    UntakenIsKept(hash, previous, sorted, out, k);
    if OldId(previous, sorted[k]) in IdsBefore(out, k) {
      var j: nat :| j < k && out[j].id == OldId(previous, sorted[k]);
      assert !IsOld(previous, sorted[j]);
      var base := BaseId(hash, sorted[j]);
      var r := NewStem(hash, previous, sorted, out, j);
      TakingFillsRoom(hash, previous, sorted, out, j, r);
      ProperSubsetCounts(NewBefore(hash, previous, sorted, base, j), NewBefore(hash, previous, sorted, base, k), j);
    }
  }

  /** The first known identity that loses its id. */
  lemma {:induction false} FirstLost(previous: seq<Entry>, sorted: seq<Candidate>, out: seq<Entry>, n: nat) returns (k: nat)
    requires n <= |sorted| == |out| && !KeptBefore(previous, sorted, out, n)
    ensures k < n && KeptBefore(previous, sorted, out, k)
    ensures IsOld(previous, sorted[k]) && out[k].id != OldId(previous, sorted[k])
  {
    if KeptBefore(previous, sorted, out, n - 1) {
      k := n - 1;
    } else {
      k := FirstLost(previous, sorted, out, n - 1);
    }
  }

  lemma RoomKeeps(hash: Hash, previous: seq<Entry>, sorted: seq<Candidate>, out: seq<Entry>)
    requires IsAssignment(hash, previous, sorted, out) && StemsApart(hash, sorted) && RoomRemains(hash, previous, sorted)
    ensures KeptBefore(previous, sorted, out, |sorted|)
  {
    if !KeptBefore(previous, sorted, out, |sorted|) {
      var k := FirstLost(previous, sorted, out, |sorted|);
      RoomKeepsNext(hash, previous, sorted, out, k);
    }
  }

  lemma KeptExactly(hash: Hash, previous: seq<Entry>, sorted: seq<Candidate>, out: seq<Entry>)
    requires IsAssignment(hash, previous, sorted, out) && StemsApart(hash, sorted)
    ensures KeptBefore(previous, sorted, out, |sorted|) <==> RoomRemains(hash, previous, sorted)
  {
    if RoomRemains(hash, previous, sorted) {
      RoomKeeps(hash, previous, sorted, out);
    } else if KeptBefore(previous, sorted, out, |sorted|) {
      forall k: nat, base: string, r: nat | k < |sorted| && r >= 1 && IsOld(previous, sorted[k]) && OldId(previous, sorted[k]) == Stem(base, r)
        ensures |NewBefore(hash, previous, sorted, base, k)| <= |FreeBelow(previous, sorted, base, r)|
      {
        KeptNeedsRoom(hash, previous, sorted, out, k, base, r);
      }
    }
  }

  // ----- for the hash of the code, whose digests have no dots

  /** Surfaces and digests are free of dots, as the surface names and hexadecimal digits are. */
  ghost predicate IsDotFree(hash: Hash, candidates: seq<Candidate>) {
    forall c :: c in candidates ==> Lacks(c.surface, '.') && Lacks(hash(Identity(c)), '.')
  }

  lemma {:induction false} StemShape(hash: Hash, c: Candidate, p: nat)
    requires p >= 1
    ensures Stem(BaseId(hash, c), p)
         == "native." + (c.surface + ['.'] + (hash(Identity(c)) + (if p == 1 then "" else "." + Decimal(p))))
  {
  }

  lemma DottedDiffers(a: string, b: string, c: string)
    requires Lacks(a, '.')
    ensures a != b + ("." + c)
  {
    assert (b + ("." + c))[|b|] == '.';
  }

  /** The digest, with or without a suffix, is told apart. */
  lemma DigestRead(a: string, p: nat, b: string, q: nat)
    requires Lacks(a, '.') && Lacks(b, '.') && p >= 1 && q >= 1
    requires a + (if p == 1 then "" else "." + Decimal(p)) == b + (if q == 1 then "" else "." + Decimal(q))
    ensures a == b
  {
    if p == 1 && q == 1 {
      assert a + "" == a && b + "" == b;
    } else if p == 1 {
      assert a + "" == a;
      DottedDiffers(a, b, Decimal(q));
    } else if q == 1 {
      assert b + "" == b;
      DottedDiffers(b, a, Decimal(p));
    } else {
      AppendAssociates(a, ".", Decimal(p));
      AppendAssociates(b, ".", Decimal(q));
      SplitAtFirst('.', a, Decimal(p), b, Decimal(q));
    }
  }

  lemma SameStemSameBase(hash: Hash, x: Candidate, p: nat, y: Candidate, q: nat)
    requires Lacks(x.surface, '.') && Lacks(hash(Identity(x)), '.') && Lacks(y.surface, '.') && Lacks(hash(Identity(y)), '.')
    requires p >= 1 && q >= 1 && Stem(BaseId(hash, x), p) == Stem(BaseId(hash, y), q)
    ensures BaseId(hash, x) == BaseId(hash, y)
  {
    StemShape(hash, x, p);
    StemShape(hash, y, q);
    var a := hash(Identity(x)) + (if p == 1 then "" else "." + Decimal(p));
    var b := hash(Identity(y)) + (if q == 1 then "" else "." + Decimal(q));
    CutPrefix("native.", x.surface + ['.'] + a, y.surface + ['.'] + b);
    SplitAtFirst('.', x.surface, a, y.surface, b);
    DigestRead(hash(Identity(x)), p, hash(Identity(y)), q);
  }

  lemma DotFreeStemsApart(hash: Hash, candidates: seq<Candidate>)
    requires IsDotFree(hash, candidates)
    ensures StemsApart(hash, Sort(Unique(candidates), CandidateLe))
  {
    var sorted := Sort(Unique(candidates), CandidateLe);
    SortedIsDistinct(candidates);
    UniqueIsDistinct(candidates);
    forall j, k, p: nat, q: nat | 0 <= j < |sorted| && 0 <= k < |sorted| && p >= 1 && q >= 1
         && Stem(BaseId(hash, sorted[j]), p) == Stem(BaseId(hash, sorted[k]), q)
      ensures BaseId(hash, sorted[j]) == BaseId(hash, sorted[k])
    {
      assert sorted[j] in sorted && sorted[k] in sorted;
      SameStemSameBase(hash, sorted[j], p, sorted[k], q);
    }
  }

  /** Every known identity keeps its id if and only if the known ids differ and, before each of them that is the r-th
      stem of some base, there are at most as many new identities with that base as stems below the r-th that are no
      known identity's id. */
  lemma IdsAreKeptExactly(hash: Hash, candidates: seq<Candidate>, previous: seq<Entry>)
    requires IsDotFree(hash, candidates)
    ensures var sorted, out := Sort(Unique(candidates), CandidateLe), Assign(hash, candidates, previous);
            |out| == |sorted|
            && ((forall k :: 0 <= k < |out| && IsOld(previous, sorted[k]) ==>
                   out[k].candidate == sorted[k] && out[k].id == OldId(previous, sorted[k]))
                <==> RoomRemains(hash, previous, sorted))
  {
    var sorted, out := Sort(Unique(candidates), CandidateLe), Assign(hash, candidates, previous);
    AssignKeepsSorted(hash, candidates, previous);
    AssignIsAssignment(hash, candidates, previous);
    DotFreeStemsApart(hash, candidates);
    KeptExactly(hash, previous, sorted, out);
  }
}
