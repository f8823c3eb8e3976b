/**
  Stable ids for native strings.  An entry keeps the id its identity (surface, path and
  source text) had before; a new identity gets an id made from a hash, with a numeric suffix
  when that id is taken.  The hash function is arbitrary.
 */
module NativeIds {
  import opened Options
  import opened Text
  import opened Sorting

  datatype Candidate = Candidate(surface: string, path: string, line: int, kind: string, source: string)

  datatype Entry = Entry(candidate: Candidate, id: string)

  type Hash = string -> string

  function Identity(c: Candidate): string { c.surface + "\0" + c.path + "\0" + c.source }

  predicate CandidateLe(a: Candidate, b: Candidate) {
    if a.surface != b.surface then StringLe(a.surface, b.surface)
    else if a.path != b.path then StringLe(a.path, b.path)
    else if a.line != b.line then a.line < b.line
    else if a.kind != b.kind then StringLe(a.kind, b.kind)
    else StringLe(a.source, b.source)
  }

  /** `map.set(identity, candidate)`: a known identity keeps its place and takes the new value. */
  function Put(unique: seq<Candidate>, c: Candidate): seq<Candidate> {
    if unique == [] then [c]
    else if Identity(unique[0]) == Identity(c) then [c] + unique[1..]
    else [unique[0]] + Put(unique[1..], c)
  }

  function Unique(candidates: seq<Candidate>): seq<Candidate> {
    if candidates == [] then [] else Put(Unique(candidates[..|candidates| - 1]), candidates[|candidates| - 1])
  }

  /** The id an identity had; the last of several entries counts. */
  function PreviousId(previous: seq<Entry>, identity: string): Option<string> {
    if previous == [] then None
    else if Identity(previous[|previous| - 1].candidate) == identity then Some(previous[|previous| - 1].id)
    else PreviousId(previous[..|previous| - 1], identity)
  }

  function BaseId(hash: Hash, c: Candidate): string { "native." + c.surface + "." + hash(Identity(c)) }

  function Suffixed(base: string, k: nat): string { base + "." + Decimal(k) }

  // ----- the suffix search terminates

  lemma SuffixInjective(base: string, j: nat, k: nat)
    requires Suffixed(base, j) == Suffixed(base, k)
    ensures j == k
  {
    assert Suffixed(base, j)[|base| + 1..] == Decimal(j) && Suffixed(base, k)[|base| + 1..] == Decimal(k);
    DecimalInjective(j, k);
  }

  /** If the suffixes 2 to k - 1 are all taken, at least k - 2 ids are taken. */
  lemma {:induction false} TakenSuffixesFit(seen: set<string>, base: string, k: nat)
    requires k >= 2 && forall j :: 2 <= j < k ==> Suffixed(base, j) in seen
    ensures k - 2 <= |seen|
    decreases k
  {
    if k > 2 {
      var last := Suffixed(base, k - 1);
      forall j | 2 <= j < k - 1 ensures Suffixed(base, j) in seen - {last} {
        if Suffixed(base, j) == last {
          SuffixInjective(base, j, k - 1);
        }
      }
      TakenSuffixesFit(seen - {last}, base, k - 1);
    }
  }

  /** The first free suffix from `k` on. */
  function FreeId(seen: set<string>, base: string, k: nat): (id: string)
    requires k >= 2 && forall j :: 2 <= j < k ==> Suffixed(base, j) in seen
    ensures id !in seen && exists j :: j >= 2 && id == Suffixed(base, j)
    decreases |seen| + 2 - k
  {
    TakenSuffixesFit(seen, base, k);
    if Suffixed(base, k) in seen then
      TakenSuffixesFit(seen, base, k + 1);
      FreeId(seen, base, k + 1)
    else Suffixed(base, k)
  }

  function PickId(seen: set<string>, previousId: Option<string>, base: string): (id: string)
    ensures id !in seen
  {
    if previousId.Some? && previousId.value != "" && previousId.value !in seen then previousId.value
    else if base !in seen then base
    else FreeId(seen, base, 2)
  }

  function AssignFrom(hash: Hash, previous: seq<Entry>, sorted: seq<Candidate>, seen: set<string>): (entries: seq<Entry>)
    ensures |entries| == |sorted|
  {
    if sorted == [] then []
    else
      var id := PickId(seen, PreviousId(previous, Identity(sorted[0])), BaseId(hash, sorted[0]));
      [Entry(sorted[0], id)] + AssignFrom(hash, previous, sorted[1..], seen + {id})
  }

  function Assign(hash: Hash, candidates: seq<Candidate>, previous: seq<Entry>): seq<Entry> {
    AssignFrom(hash, previous, Sort(Unique(candidates), CandidateLe), {})
  }

  // ----- distinct ids and identities

  lemma {:induction false} AssignedIds(hash: Hash, previous: seq<Entry>, sorted: seq<Candidate>, seen: set<string>)
    ensures var out := AssignFrom(hash, previous, sorted, seen);
            && (forall k :: 0 <= k < |out| ==> out[k].candidate == sorted[k] && out[k].id != "" && out[k].id !in seen)
            && (forall j, k :: 0 <= j < k < |out| ==> out[j].id != out[k].id)
  {
    if sorted != [] {
      var id := PickId(seen, PreviousId(previous, Identity(sorted[0])), BaseId(hash, sorted[0]));
      var rest := AssignFrom(hash, previous, sorted[1..], seen + {id});
      AssignedIds(hash, previous, sorted[1..], seen + {id});
      var out := AssignFrom(hash, previous, sorted, seen);
      assert out == [Entry(sorted[0], id)] + rest;
      forall k | 1 <= k < |out| ensures out[k] == rest[k - 1] && sorted[k] == sorted[1..][k - 1] { }
    }
  }

  ghost predicate DistinctIdentities(candidates: seq<Candidate>) {
    forall j, k :: 0 <= j < k < |candidates| ==> Identity(candidates[j]) != Identity(candidates[k])
  }

  lemma {:induction false} PutMembers(unique: seq<Candidate>, c: Candidate)
    ensures forall x :: x in Put(unique, c) ==> x == c || x in unique
    ensures c in Put(unique, c)
    ensures forall x :: x in unique && Identity(x) != Identity(c) ==> x in Put(unique, c)
  {
    if unique != [] {
      assert unique == [unique[0]] + unique[1..];
      if Identity(unique[0]) == Identity(c) {
        assert Put(unique, c)[0] == c;
      } else {
        PutMembers(unique[1..], c);
        assert Put(unique, c)[0] == unique[0] && Put(unique, c)[1..] == Put(unique[1..], c);
      }
    }
  }

  lemma {:induction false} PutKeepsDistinct(unique: seq<Candidate>, c: Candidate)
    requires DistinctIdentities(unique)
    ensures DistinctIdentities(Put(unique, c))
  {
    if unique != [] && Identity(unique[0]) != Identity(c) {
      var tail := unique[1..];
      PutKeepsDistinct(tail, c);
      PutMembers(tail, c);
      var rest := Put(tail, c);
      forall k | 0 <= k < |rest| ensures Identity(rest[k]) != Identity(unique[0]) {
        assert rest[k] in rest;
        if rest[k] in tail {
          var m :| 0 <= m < |tail| && tail[m] == rest[k];
          assert tail[m] == unique[m + 1];
        }
      }
    }
  }

  lemma {:induction false} UniqueIsDistinct(candidates: seq<Candidate>)
    ensures DistinctIdentities(Unique(candidates))
    ensures forall x :: x in Unique(candidates) ==> x in candidates
  {
    if candidates != [] {
      var init, last := candidates[..|candidates| - 1], candidates[|candidates| - 1];
      UniqueIsDistinct(init);
      PutKeepsDistinct(Unique(init), last);
      PutMembers(Unique(init), last);
      assert candidates == init + [last];
    }
  }

  /** The entry that stands for an identity. */
  lemma {:induction false} UniqueStandIn(candidates: seq<Candidate>, x: Candidate) returns (y: Candidate)
    requires x in candidates
    ensures y in Unique(candidates) && Identity(y) == Identity(x)
  {
    var init, last := candidates[..|candidates| - 1], candidates[|candidates| - 1];
    assert candidates == init + [last];
    PutMembers(Unique(init), last);
    if Identity(x) == Identity(last) {
      y := last;
    } else {
      y := UniqueStandIn(init, x);
    }
  }

  /** A list whose elements are told apart by identity stays so in any order. */
  lemma DistinctInAnyOrder(xs: seq<Candidate>, ys: seq<Candidate>)
    requires DistinctIdentities(xs) && multiset(xs) == multiset(ys)
    ensures DistinctIdentities(ys)
  {
    forall j, k | 0 <= j < k < |ys| ensures Identity(ys[j]) != Identity(ys[k]) {
      if Identity(ys[j]) == Identity(ys[k]) {
        SameMembers(xs, ys);
        assert ys[j] in xs && ys[k] in xs;
        var a :| 0 <= a < |xs| && xs[a] == ys[j];
        var b :| 0 <= b < |xs| && xs[b] == ys[k];
        assert a == b;
        assert ys == ys[..k] + [ys[k]] + ys[k + 1..];
        assert ys[j] in ys[..k];
        OnceInMultiset(xs, a);
      }
    }
  }

  lemma OnceInMultiset(xs: seq<Candidate>, a: nat)
    requires DistinctIdentities(xs) && a < |xs|
    ensures multiset(xs)[xs[a]] == 1
  {
    assert xs == xs[..a] + [xs[a]] + xs[a + 1..];
    assert xs[a] !in xs[..a] && xs[a] !in xs[a + 1..];
  }

  lemma SortedIsDistinct(candidates: seq<Candidate>)
    ensures var sorted := Sort(Unique(candidates), CandidateLe);
            && DistinctIdentities(sorted)
            && (forall x :: x in sorted <==> x in Unique(candidates))
  {
    UniqueIsDistinct(candidates);
    var unique := Unique(candidates);
    SortPermutes(unique, CandidateLe);
    DistinctInAnyOrder(unique, Sort(unique, CandidateLe));
    SameMembers(Sort(unique, CandidateLe), unique);
  }

  /** Entries told apart both by identity and by a non-empty id. */
  ghost predicate IsRegistry(entries: seq<Entry>) {
    && (forall j, k :: 0 <= j < k < |entries| ==> entries[j].id != entries[k].id)
    && (forall j, k :: 0 <= j < k < |entries| ==> Identity(entries[j].candidate) != Identity(entries[k].candidate))
    && (forall k :: 0 <= k < |entries| ==> entries[k].id != "")
  }

  ghost predicate HasIdentity(entries: seq<Entry>, c: Candidate) {
    exists k :: 0 <= k < |entries| && Identity(entries[k].candidate) == Identity(c)
  }

  /** For any hash and any previous entries: the assigned ids are pairwise distinct and not empty. */
  lemma IdsAreDistinct(hash: Hash, candidates: seq<Candidate>, previous: seq<Entry>)
    ensures IsRegistry(Assign(hash, candidates, previous))
  {
    SortedIsDistinct(candidates);
    var sorted := Sort(Unique(candidates), CandidateLe);
    AssignedIds(hash, previous, sorted, {});
    var out := Assign(hash, candidates, previous);
    assert forall k :: 0 <= k < |out| ==> out[k].candidate == sorted[k];
  }

  lemma AssignKeepsSorted(hash: Hash, candidates: seq<Candidate>, previous: seq<Entry>)
    ensures var sorted, out := Sort(Unique(candidates), CandidateLe), Assign(hash, candidates, previous);
            |out| == |sorted| && forall k :: 0 <= k < |out| ==> out[k].candidate == sorted[k]
  {
    AssignedIds(hash, previous, Sort(Unique(candidates), CandidateLe), {});
  }

  /** Every entry is one of the input. */
  lemma AssignedIsCandidate(hash: Hash, candidates: seq<Candidate>, previous: seq<Entry>, k: nat)
    requires k < |Assign(hash, candidates, previous)|
    ensures Assign(hash, candidates, previous)[k].candidate in candidates
  {
    AssignKeepsSorted(hash, candidates, previous);
    SortedIsDistinct(candidates);
    UniqueIsDistinct(candidates);
    var sorted := Sort(Unique(candidates), CandidateLe);
    assert sorted[k] in sorted;
  }

  /** Every identity of the input has an entry. */
  lemma EveryIdentityIsAssigned(hash: Hash, candidates: seq<Candidate>, previous: seq<Entry>, x: Candidate)
    requires x in candidates
    ensures HasIdentity(Assign(hash, candidates, previous), x)
  {
    AssignKeepsSorted(hash, candidates, previous);
    SortedIsDistinct(candidates);
    var sorted := Sort(Unique(candidates), CandidateLe);
    var y := UniqueStandIn(candidates, x);
    var k :| 0 <= k < |sorted| && sorted[k] == y;
    assert Identity(Assign(hash, candidates, previous)[k].candidate) == Identity(x);
  }

  // ----- which candidate stands for an identity, which id it gets, and in which order

  /** The candidate that counts for an identity: the last one with it. */
  ghost predicate IsLastOf(candidates: seq<Candidate>, m: nat) {
    m < |candidates| && forall n :: m < n < |candidates| ==> Identity(candidates[n]) != Identity(candidates[m])
  }

  lemma UniqueSnoc(init: seq<Candidate>, last: Candidate, x: Candidate)
    requires x in Put(Unique(init), last) && x != last
    ensures x in Unique(init) && Identity(x) != Identity(last)
  {
    UniqueIsDistinct(init);
    PutMembers(Unique(init), last);
    PutKeepsDistinct(Unique(init), last);
    TwoOfIdentity(Put(Unique(init), last), x, last);
  }

  lemma LastOfSnoc(init: seq<Candidate>, last: Candidate, m: nat)
    requires IsLastOf(init, m) && Identity(init[m]) != Identity(last)
    ensures IsLastOf(init + [last], m)
  {
  }

  lemma {:induction false} UniqueTakesLast(candidates: seq<Candidate>, x: Candidate) returns (m: nat)
    requires x in Unique(candidates)
    ensures IsLastOf(candidates, m) && candidates[m] == x
  {
    var init, last := candidates[..|candidates| - 1], candidates[|candidates| - 1];
    assert candidates == init + [last];
    if x == last {
      m := |init|;
    } else {
      UniqueSnoc(init, last, x);
      m := UniqueTakesLast(init, x);
      LastOfSnoc(init, last, m);
    }
  }

  lemma TwoOfIdentity(unique: seq<Candidate>, x: Candidate, y: Candidate)
    requires DistinctIdentities(unique) && x in unique && y in unique && x != y
    ensures Identity(x) != Identity(y)
  {
    var j :| 0 <= j < |unique| && unique[j] == x;
    var k :| 0 <= k < |unique| && unique[k] == y;
    assert j < k || k < j;
  }

  /** Every entry carries the last candidate of its identity, with its line and kind. */
  lemma EntryIsLastCandidate(hash: Hash, candidates: seq<Candidate>, previous: seq<Entry>, k: nat) returns (m: nat)
    requires k < |Assign(hash, candidates, previous)|
    ensures IsLastOf(candidates, m) && Assign(hash, candidates, previous)[k].candidate == candidates[m]
  {
    AssignKeepsSorted(hash, candidates, previous);
    SortedIsDistinct(candidates);
    var sorted := Sort(Unique(candidates), CandidateLe);
    assert sorted[k] in sorted;
    m := UniqueTakesLast(candidates, sorted[k]);
  }

  lemma CandidateLeIsOrder()
    ensures IsTotal(CandidateLe) && IsTransitive(CandidateLe)
  {
    forall a, b ensures CandidateLe(a, b) || CandidateLe(b, a) {
      CandidateLeTotal(a, b);
    }
    forall a, b, c | CandidateLe(a, b) && CandidateLe(b, c) ensures CandidateLe(a, c) {
      CandidateLeTransitive(a, b, c);
    }
  }

  lemma CandidateLeTotal(a: Candidate, b: Candidate)
    ensures CandidateLe(a, b) || CandidateLe(b, a)
  {
    StringLeTotal(a.surface, b.surface);
    StringLeTotal(a.path, b.path);
    StringLeTotal(a.kind, b.kind);
    StringLeTotal(a.source, b.source);
  }

  lemma StringLeStrict(a: string, b: string, c: string)
    requires a != b && StringLe(a, b) && StringLe(b, c)
    ensures a != c && StringLe(a, c)
  {
    StringLeTransitive(a, b, c);
    if a == c {
      StringLeAntisymmetric(a, b);
    }
  }

  lemma CandidateLeTransitive(a: Candidate, b: Candidate, c: Candidate)
    requires CandidateLe(a, b) && CandidateLe(b, c)
    ensures CandidateLe(a, c)
  {
    if a.surface != b.surface {
      if b.surface != c.surface {
        StringLeStrict(a.surface, b.surface, c.surface);
      }
    } else if b.surface == c.surface {
      if a.path != b.path {
        if b.path != c.path {
          StringLeStrict(a.path, b.path, c.path);
        }
      } else if b.path == c.path && a.line == b.line == c.line {
        if a.kind != b.kind {
          if b.kind != c.kind {
            StringLeStrict(a.kind, b.kind, c.kind);
          }
        } else if b.kind == c.kind {
          StringLeTransitive(a.source, b.source, c.source);
        }
      }
    }
  }

  /** Entries come by surface, then path, then line, then kind, then source. */
  predicate ComesFirst(a: Candidate, b: Candidate) {
    && StringLe(a.surface, b.surface)
    && (a.surface == b.surface ==> StringLe(a.path, b.path))
    && (a.surface == b.surface && a.path == b.path ==> a.line <= b.line)
    && (a.surface == b.surface && a.path == b.path && a.line == b.line ==> StringLe(a.kind, b.kind))
    && (a.surface == b.surface && a.path == b.path && a.line == b.line && a.kind == b.kind ==> StringLe(a.source, b.source))
  }

  lemma CandidateLeComesFirst(a: Candidate, b: Candidate)
    requires CandidateLe(a, b)
    ensures ComesFirst(a, b)
  {
    StringLeTotal(a.surface, a.surface);
    StringLeTotal(a.path, a.path);
    StringLeTotal(a.kind, a.kind);
  }

  lemma EntriesAreOrdered(hash: Hash, candidates: seq<Candidate>, previous: seq<Entry>, j: nat, k: nat)
    requires j < k < |Assign(hash, candidates, previous)|
    ensures ComesFirst(Assign(hash, candidates, previous)[j].candidate, Assign(hash, candidates, previous)[k].candidate)
  {
    AssignKeepsSorted(hash, candidates, previous);
    CandidateLeIsOrder();
    SortOrders(Unique(candidates), CandidateLe);
    CandidateLeComesFirst(Assign(hash, candidates, previous)[j].candidate, Assign(hash, candidates, previous)[k].candidate);
  }

  /** The last previous entry of an identity had this id. */
  ghost predicate HadId(previous: seq<Entry>, c: Candidate, id: string) {
    exists p :: 0 <= p < |previous| && Identity(previous[p].candidate) == Identity(c) && previous[p].id == id
                && forall q :: p < q < |previous| ==> Identity(previous[q].candidate) != Identity(c)
  }

  lemma {:induction false} PreviousIdIsLast(previous: seq<Entry>, c: Candidate, id: string)
    ensures PreviousId(previous, Identity(c)) == Some(id) <==> HadId(previous, c, id)
  {
    if previous != [] {
      var n := |previous| - 1;
      var init := previous[..n];
      PreviousIdIsLast(init, c, id);
      if Identity(previous[n].candidate) != Identity(c) {
        if p :| 0 <= p < |init| && Identity(init[p].candidate) == Identity(c) && init[p].id == id
                && forall q :: p < q < |init| ==> Identity(init[q].candidate) != Identity(c) {
          assert previous[p] == init[p];
        }
        if p :| 0 <= p < |previous| && Identity(previous[p].candidate) == Identity(c) && previous[p].id == id
                && forall q :: p < q < |previous| ==> Identity(previous[q].candidate) != Identity(c) {
          assert init[p] == previous[p];
        }
      }
    }
  }

  /** The id for an entry when these ids are in use: the one its identity had before if that is free, else the one made from the
      hash if that is free, else that one with the first free suffix from 2 on. */
  ghost predicate IsIdFor(hash: Hash, previous: seq<Entry>, c: Candidate, used: set<string>, id: string) {
    var base := "native." + c.surface + "." + hash(c.surface + "\0" + c.path + "\0" + c.source);
    if exists before :: HadId(previous, c, before) && before != "" && before !in used then HadId(previous, c, id)
    else if base !in used then id == base
    else id !in used && exists n :: n >= 2 && id == base + "." + Decimal(n) && forall m :: 2 <= m < n ==> base + "." + Decimal(m) in used
  }

  lemma {:induction false} FreeIdIsFirst(seen: set<string>, base: string, k: nat) returns (n: nat)
    requires k >= 2 && forall j :: 2 <= j < k ==> Suffixed(base, j) in seen
    ensures n >= 2 && FreeId(seen, base, k) == Suffixed(base, n) && forall m :: 2 <= m < n ==> Suffixed(base, m) in seen
    decreases |seen| + 2 - k
  {
    TakenSuffixesFit(seen, base, k);
    if Suffixed(base, k) in seen {
      TakenSuffixesFit(seen, base, k + 1);
      n := FreeIdIsFirst(seen, base, k + 1);
    } else {
      n := k;
    }
  }

  lemma PickedIsIdFor(hash: Hash, previous: seq<Entry>, c: Candidate, used: set<string>)
    ensures IsIdFor(hash, previous, c, used, PickId(used, PreviousId(previous, Identity(c)), BaseId(hash, c)))
  {
    var before, base := PreviousId(previous, Identity(c)), BaseId(hash, c);
    forall id ensures before == Some(id) <==> HadId(previous, c, id) {
      PreviousIdIsLast(previous, c, id);
    }
    if !(before.Some? && before.value != "" && before.value !in used) && base in used {
      var n := FreeIdIsFirst(used, base, 2);
      assert forall m :: Suffixed(base, m) == base + "." + Decimal(m);
    }
  }

  /** The ids of the first entries. */
  function UsedIds(entries: seq<Entry>): set<string> { set k | 0 <= k < |entries| :: entries[k].id }

  lemma {:induction false} AssignedFrom(hash: Hash, previous: seq<Entry>, sorted: seq<Candidate>, seen: set<string>, k: nat)
    requires k < |sorted|
    ensures var out := AssignFrom(hash, previous, sorted, seen);
            out[k].candidate == sorted[k]
            && out[k].id == PickId(seen + UsedIds(out[..k]), PreviousId(previous, Identity(sorted[k])), BaseId(hash, sorted[k]))
    decreases k
  {
    var out := AssignFrom(hash, previous, sorted, seen);
    if k == 0 {
      assert seen + UsedIds(out[..0]) == seen;
    } else {
      var rest := AssignFrom(hash, previous, sorted[1..], seen + {out[0].id});
      AssignedFrom(hash, previous, sorted[1..], seen + {out[0].id}, k - 1);
      UsedIdsCons(out[0], rest[..k - 1]);
      assert out[..k] == [out[0]] + rest[..k - 1];
      assert seen + {out[0].id} + UsedIds(rest[..k - 1]) == seen + UsedIds(out[..k]);
    }
  }

  lemma UsedIdsCons(first: Entry, rest: seq<Entry>)
    ensures UsedIds([first] + rest) == {first.id} + UsedIds(rest)
  {
    var all := [first] + rest;
    assert all[0] == first && forall k :: 0 <= k < |rest| ==> all[k + 1] == rest[k];
  }

  /** Every entry gets the id for it, given the ids of the entries before it. */
  lemma AssignedIdExactly(hash: Hash, candidates: seq<Candidate>, previous: seq<Entry>, k: nat)
    requires k < |Assign(hash, candidates, previous)|
    ensures var out := Assign(hash, candidates, previous);
            IsIdFor(hash, previous, out[k].candidate, UsedIds(out[..k]), out[k].id)
  {
    var sorted, out := Sort(Unique(candidates), CandidateLe), Assign(hash, candidates, previous);
    AssignKeepsSorted(hash, candidates, previous);
    AssignedFrom(hash, previous, sorted, {}, k);
    assert {} + UsedIds(out[..k]) == UsedIds(out[..k]);
    PickedIsIdFor(hash, previous, out[k].candidate, UsedIds(out[..k]));
  }

  // ----- stability

  /** The entry's identity had an id before. */
  predicate IsOld(previous: seq<Entry>, c: Candidate) {
    PreviousId(previous, Identity(c)).Some? && PreviousId(previous, Identity(c)).value != ""
  }

  function OldId(previous: seq<Entry>, c: Candidate): string
    requires IsOld(previous, c)
  {
    PreviousId(previous, Identity(c)).value
  }

  /** The id is the base id or one of its suffixed forms. */
  ghost predicate IsStemmed(base: string, id: string) { id == base || exists k :: k >= 2 && id == Suffixed(base, k) }

  /** Old ids are told apart, and no new identity's hash id could be mistaken for one of them. */
  ghost predicate NoCollisions(hash: Hash, previous: seq<Entry>, candidates: seq<Candidate>) {
    && (forall x, y | x in candidates && y in candidates && IsOld(previous, x) && IsOld(previous, y) ::
          Identity(x) != Identity(y) ==> OldId(previous, x) != OldId(previous, y))
    && (forall x, y | x in candidates && y in candidates && !IsOld(previous, x) && IsOld(previous, y) ::
          !IsStemmed(BaseId(hash, x), OldId(previous, y)))
  }

  lemma {:induction false} OldIdsAreKeptFrom(hash: Hash, previous: seq<Entry>, sorted: seq<Candidate>, seen: set<string>)
    requires DistinctIdentities(sorted) && NoCollisions(hash, previous, sorted)
    requires forall c :: c in sorted && IsOld(previous, c) ==> OldId(previous, c) !in seen
    ensures var out := AssignFrom(hash, previous, sorted, seen);
            forall k :: 0 <= k < |out| && IsOld(previous, sorted[k]) ==> out[k].id == OldId(previous, sorted[k])
  {
    if sorted != [] {
      var c, tail := sorted[0], sorted[1..];
      var id := PickId(seen, PreviousId(previous, Identity(c)), BaseId(hash, c));
      assert forall x :: x in tail ==> x in sorted;
      forall x | x in tail && IsOld(previous, x) ensures OldId(previous, x) !in seen + {id} { }
      OldIdsAreKeptFrom(hash, previous, tail, seen + {id});
      var out, rest := AssignFrom(hash, previous, sorted, seen), AssignFrom(hash, previous, tail, seen + {id});
      assert out == [Entry(c, id)] + rest;
      forall k | 1 <= k < |out| ensures out[k] == rest[k - 1] && sorted[k] == tail[k - 1] { }
    }
  }

  /** As long as no hash collides with an id in use, every known identity keeps its id when new entries appear. */
  lemma KnownIdentitiesKeepIds(hash: Hash, candidates: seq<Candidate>, previous: seq<Entry>, k: nat)
    requires NoCollisions(hash, previous, candidates) && k < |Assign(hash, candidates, previous)|
    requires IsOld(previous, Assign(hash, candidates, previous)[k].candidate)
    ensures Assign(hash, candidates, previous)[k].id == OldId(previous, Assign(hash, candidates, previous)[k].candidate)
  {
    SortedIsDistinct(candidates);
    UniqueIsDistinct(candidates);
    var sorted := Sort(Unique(candidates), CandidateLe);
    AssignedIds(hash, previous, sorted, {});
    OldIdsAreKeptFrom(hash, previous, sorted, {});
  }

  lemma {:induction false} PreviousIdOf(previous: seq<Entry>, k: nat)
    requires k < |previous| && IsRegistry(previous)
    ensures PreviousId(previous, Identity(previous[k].candidate)) == Some(previous[k].id)
    decreases |previous|
  {
    if k < |previous| - 1 {
      PreviousIdOf(previous[..|previous| - 1], k);
    }
  }

  lemma RegisteredIsOld(registry: seq<Entry>, x: Candidate) returns (i: nat)
    requires IsRegistry(registry) && HasIdentity(registry, x)
    ensures i < |registry| && Identity(registry[i].candidate) == Identity(x)
    ensures IsOld(registry, x) && OldId(registry, x) == registry[i].id
  {
    i :| 0 <= i < |registry| && Identity(registry[i].candidate) == Identity(x);
    PreviousIdOf(registry, i);
  }

  lemma RegistryHasNoCollisions(hash: Hash, registry: seq<Entry>, again: seq<Candidate>)
    requires IsRegistry(registry) && forall x :: x in again ==> HasIdentity(registry, x)
    ensures NoCollisions(hash, registry, again)
  {
    forall x, y | x in again && y in again
      ensures IsOld(registry, x) && IsOld(registry, y)
      ensures Identity(x) != Identity(y) ==> OldId(registry, x) != OldId(registry, y)
    {
      var i := RegisteredIsOld(registry, x);
      var j := RegisteredIsOld(registry, y);
    }
  }

  /** Assigning again from a registry, for any list whose identities all occur in it, with any lines, kinds and
      order and any hash, gives each identity its registered id. */
  lemma ReassigningIsStable(hash: Hash, again: seq<Candidate>, registry: seq<Entry>, j: nat, k: nat)
    requires IsRegistry(registry) && forall x :: x in again ==> HasIdentity(registry, x)
    requires j < |registry| && k < |Assign(hash, again, registry)|
    requires Identity(registry[j].candidate) == Identity(Assign(hash, again, registry)[k].candidate)
    ensures registry[j].id == Assign(hash, again, registry)[k].id
  {
    RegistryHasNoCollisions(hash, registry, again);
    PreviousIdOf(registry, j);
    KnownIdentitiesKeepIds(hash, again, registry, k);
  }

  /** So two successive inventories agree on every identity of the second that the first had. */
  lemma InventoriesAgree(
    hash: Hash, candidates: seq<Candidate>, previous: seq<Entry>, again: seq<Candidate>, j: nat, k: nat)
    requires forall x :: x in again ==> exists y :: y in candidates && Identity(y) == Identity(x)
    requires j < |Assign(hash, candidates, previous)|
    requires k < |Assign(hash, again, Assign(hash, candidates, previous))|
    requires Identity(Assign(hash, candidates, previous)[j].candidate)
          == Identity(Assign(hash, again, Assign(hash, candidates, previous))[k].candidate)
    ensures Assign(hash, candidates, previous)[j].id == Assign(hash, again, Assign(hash, candidates, previous))[k].id
  {
    var registry := Assign(hash, candidates, previous);
    IdsAreDistinct(hash, candidates, previous);
    forall x | x in again ensures HasIdentity(registry, x) {
      var y :| y in candidates && Identity(y) == Identity(x);
      EveryIdentityIsAssigned(hash, candidates, previous, y);
    }
    ReassigningIsStable(hash, again, registry, j, k);
  }

  lemma TwoSorted(newer: Candidate, older: Candidate)
    requires Identity(newer) != Identity(older) && CandidateLe(newer, older)
    ensures Sort(Unique([newer, older]), CandidateLe) == [newer, older]
  {
    assert [newer, older][..1] == [newer] && [newer][..0] == [];
    assert Unique([newer]) == [newer];
    assert [newer][1..] == [] && Put([newer], older) == [newer] + Put([], older);
    assert [newer, older][1..] == [older] && [older][1..] == [];
    assert Sort([older], CandidateLe) == [older];
  }

  /** Without that condition stability fails, for every hash: a new entry whose hash id is in use, and which sorts first,
      takes it. */
  lemma CollisionTakesId(hash: Hash, newer: Candidate, older: Candidate)
    requires Identity(newer) != Identity(older) && CandidateLe(newer, older)
    ensures var previous := [Entry(older, BaseId(hash, newer))];
            var out := Assign(hash, [newer, older], previous);
            && IsOld(previous, older) && !IsOld(previous, newer)
            && |out| == 2 && out[0] == Entry(newer, OldId(previous, older))
            && out[1].candidate == older && out[1].id != OldId(previous, older)
  {
    var base := BaseId(hash, newer);
    var previous := [Entry(older, base)];
    assert |base| >= |"native."|;
    assert PreviousId(previous, Identity(newer)) == None by { assert previous[..0] == []; }
    assert PreviousId(previous, Identity(older)) == Some(base);
    TwoSorted(newer, older);
    AssignedIds(hash, previous, [newer, older], {});
  }

  // ----- the code

  method AssignNativeI18nIds(hash: Hash, candidates: seq<Candidate>, previous: seq<Entry>) returns (entries: seq<Entry>)
    ensures entries == Assign(hash, candidates, previous)
  {
    var unique: seq<Candidate> := [];
    for i := 0 to |candidates|
      invariant unique == Unique(candidates[..i])
    {
      PrefixSnoc(candidates, i);
      unique := Put(unique, candidates[i]);
    }
    assert candidates[..|candidates|] == candidates;
    var sorted := Sort(unique, CandidateLe);
    var seen: set<string> := {};
    entries := [];
    for i := 0 to |sorted|
      invariant Assign(hash, candidates, previous) == entries + AssignFrom(hash, previous, sorted[i..], seen)
    {
      assert sorted[i..][0] == sorted[i] && sorted[i..][1..] == sorted[i + 1..];
      var id := FindId(seen, PreviousId(previous, Identity(sorted[i])), BaseId(hash, sorted[i]));
      seen := seen + {id};
      entries := entries + [Entry(sorted[i], id)];
    }
    assert sorted[|sorted|..] == [];
  }

  method FindId(seen: set<string>, previousId: Option<string>, base: string) returns (id: string)
    ensures id == PickId(seen, previousId, base)
  {
    id := if previousId.Some? && previousId.value != "" && previousId.value !in seen then previousId.value else base;
    var suffix := 2;
    while id in seen
      invariant suffix >= 2 && forall j :: 2 <= j < suffix ==> Suffixed(base, j) in seen || Suffixed(base, j) == id
      invariant id in seen ==> forall j :: 2 <= j < suffix ==> Suffixed(base, j) in seen
      invariant PickId(seen, previousId, base) == if id in seen then FreeId(seen, base, suffix) else id
      decreases |seen| + 2 - suffix
    {
      TakenSuffixesFit(seen, base, suffix);
      id := Suffixed(base, suffix);
      suffix := suffix + 1;
    }
  }
}
