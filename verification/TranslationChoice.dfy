/**
  Choosing one translation among several for the same source.  The Android and the Apple
  scripts each have their own selector; both are shown to make the same choice.
 */
module TranslationChoice {
  import opened Sorting

  type Tally = seq<(string, nat)>

  /** `counts.set(value, (counts.get(value) ?? 0) + 1)` on an insertion-ordered map. */
  function Bump(tally: Tally, value: string): Tally {
    if tally == [] then [(value, 1)]
    else if tally[0].0 == value then [(value, tally[0].1 + 1)] + tally[1..]
    else [tally[0]] + Bump(tally[1..], value)
  }

  function Tallied(values: seq<string>): Tally {
    if values == [] then [] else Bump(Tallied(values[..|values| - 1]), values[|values| - 1])
  }

  // ----- the two comparisons

  predicate AndroidLe(a: (string, nat), b: (string, nat)) {
    a.1 > b.1 || (a.1 == b.1 && StringLe(a.0, b.0))
  }

  function Penalty(source: string, value: string): nat { if value == source then 1 else 0 }

  predicate AppleLe(source: string, a: (string, nat), b: (string, nat)) {
    || Penalty(source, a.0) < Penalty(source, b.0)
    || (Penalty(source, a.0) == Penalty(source, b.0) && AndroidLe(a, b))
  }

  function Without(values: seq<string>, source: string): seq<string> {
    if values == [] then []
    else Without(values[..|values| - 1], source) + (if values[|values| - 1] != source then [values[|values| - 1]] else [])
  }

  function AndroidChoice(source: string, values: seq<string>): string {
    var translated := Without(values, source);
    var candidates := if |translated| > 0 then translated else values;
    var sorted := Sort(Tallied(candidates), AndroidLe);
    if sorted == [] then "" else sorted[0].0
  }

  function AppleChoice(source: string, values: seq<string>): string {
    var sorted := Sort(Tallied(values), (a: (string, nat), b: (string, nat)) => AppleLe(source, a, b));
    if sorted == [] then source else sorted[0].0
  }

  // ----- what the best translation is

  /** `x` is at least as good as `y`: not the source if `y` is not, more frequent, smaller text. */
  predicate AsGood(source: string, counts: multiset<string>, x: string, y: string) {
    AppleLe(source, (x, counts[x]), (y, counts[y]))
  }

  /** The best value of a non-empty multiset of candidates. */
  ghost predicate Best(source: string, counts: multiset<string>, x: string) {
    x in counts && forall y :: y in counts ==> AsGood(source, counts, x, y)
  }

  lemma BestIsUnique(source: string, counts: multiset<string>, x: string, y: string)
    requires Best(source, counts, x) && Best(source, counts, y)
    ensures x == y
  {
    assert AsGood(source, counts, x, y) && AsGood(source, counts, y, x);
    StringLeAntisymmetric(x, y);
  }

  // ----- the tally counts

  /** The count of a value in a tally, zero when absent. */
  function Counted(tally: Tally, value: string): nat {
    if tally == [] then 0 else if tally[0].0 == value then tally[0].1 else Counted(tally[1..], value)
  }

  /** No value has two entries, and no entry is zero. */
  ghost predicate Proper(tally: Tally) {
    && (forall j, k :: 0 <= j < k < |tally| ==> tally[j].0 != tally[k].0)
    && (forall k :: 0 <= k < |tally| ==> tally[k].1 > 0)
  }

  lemma {:induction false} CountedIsEntry(tally: Tally, e: (string, nat))
    requires Proper(tally)
    ensures e in tally <==> e.1 > 0 && Counted(tally, e.0) == e.1
  {
    if tally != [] {
      CountedIsEntry(tally[1..], e);
    }
  }

  lemma {:induction false} BumpAddsNoOther(tally: Tally, value: string, other: string)
    requires other != value && forall k :: 0 <= k < |tally| ==> tally[k].0 != other
    ensures forall k :: 0 <= k < |Bump(tally, value)| ==> Bump(tally, value)[k].0 != other
  {
    if tally != [] && tally[0].0 != value {
      BumpAddsNoOther(tally[1..], value, other);
    }
  }

  lemma {:induction false} BumpKeepsProper(tally: Tally, value: string)
    requires Proper(tally)
    ensures Proper(Bump(tally, value))
  {
    if tally != [] && tally[0].0 != value {
      BumpKeepsProper(tally[1..], value);
      BumpAddsNoOther(tally[1..], value, tally[0].0);
    }
  }

  lemma {:induction false} BumpCounts(tally: Tally, value: string, x: string)
    ensures Counted(Bump(tally, value), x) == Counted(tally, x) + (if x == value then 1 else 0)
  {
    if tally != [] && tally[0].0 != value {
      BumpCounts(tally[1..], value, x);
      assert Bump(tally, value)[1..] == Bump(tally[1..], value);
    } else if tally != [] {
      assert Bump(tally, value)[1..] == tally[1..];
    }
  }

  /** The tally holds each value with its multiplicity. */
  lemma {:induction false} TallyIsMultiset(values: seq<string>)
    ensures Proper(Tallied(values))
    ensures forall x :: Counted(Tallied(values), x) == multiset(values)[x]
  {
    if values != [] {
      var init, last := values[..|values| - 1], values[|values| - 1];
      TallyIsMultiset(init);
      BumpKeepsProper(Tallied(init), last);
      assert values == init + [last];
      forall x ensures Counted(Tallied(values), x) == multiset(values)[x] {
        BumpCounts(Tallied(init), last, x);
      }
    }
  }

  lemma TallyEntries(values: seq<string>, e: (string, nat))
    ensures e in Tallied(values) <==> e.0 in multiset(values) && e.1 == multiset(values)[e.0]
  {
    TallyIsMultiset(values);
    CountedIsEntry(Tallied(values), e);
  }

  // ----- both selectors find the best candidate

  lemma AndroidLeIsOrder()
    ensures IsTotal(AndroidLe) && IsTransitive(AndroidLe)
  {
    forall a, b ensures AndroidLe(a, b) || AndroidLe(b, a) { StringLeTotal(a.0, b.0); }
    forall a, b, c | AndroidLe(a, b) && AndroidLe(b, c) ensures AndroidLe(a, c) {
      if a.1 == b.1 == c.1 {
        StringLeTransitive(a.0, b.0, c.0);
      }
    }
  }

  lemma AppleLeIsOrder(source: string)
    ensures var le := (a: (string, nat), b: (string, nat)) => AppleLe(source, a, b); IsTotal(le) && IsTransitive(le)
  {
    AndroidLeIsOrder();
    assert forall a, b :: AndroidLe(a, b) || AndroidLe(b, a);
    assert forall a, b, c :: AndroidLe(a, b) && AndroidLe(b, c) ==> AndroidLe(a, c);
  }

  lemma AppleFindsBest(source: string, values: seq<string>)
    requires values != []
    ensures Best(source, multiset(values), AppleChoice(source, values))
  {
    var counts, tally := multiset(values), Tallied(values);
    var le := (a: (string, nat), b: (string, nat)) => AppleLe(source, a, b);
    AppleLeIsOrder(source);
    TallyEntries(values, (values[0], counts[values[0]]));
    SortFirst(tally, le);
    var first := Sort(tally, le)[0];
    TallyEntries(values, first);
    forall y | y in counts ensures AsGood(source, counts, first.0, y) {
      TallyEntries(values, (y, counts[y]));
      assert le(first, (y, counts[y]));
    }
  }

  lemma {:induction false} WithoutCounts(values: seq<string>, source: string, x: string)
    ensures multiset(Without(values, source))[x] == if x == source then 0 else multiset(values)[x]
  {
    if values != [] {
      var init, last := values[..|values| - 1], values[|values| - 1];
      WithoutCounts(init, source, x);
      assert values == init + [last];
    }
  }

  lemma AndroidFindsBest(source: string, values: seq<string>)
    requires values != []
    ensures Best(source, multiset(values), AndroidChoice(source, values))
  {
    var counts := multiset(values);
    var translated := Without(values, source);
    var candidates := if |translated| > 0 then translated else values;
    forall x ensures multiset(translated)[x] == if x == source then 0 else counts[x] {
      WithoutCounts(values, source, x);
    }
    AndroidLeIsOrder();
    TallyEntries(candidates, (candidates[0], multiset(candidates)[candidates[0]]));
    SortFirst(Tallied(candidates), AndroidLe);
    var first := Sort(Tallied(candidates), AndroidLe)[0];
    TallyEntries(candidates, first);
    assert translated == [] ==> forall y :: y in counts ==> multiset(translated)[y] == 0;
    forall y | y in counts ensures AsGood(source, counts, first.0, y) {
      if y in multiset(candidates) {
        TallyEntries(candidates, (y, multiset(candidates)[y]));
        assert AndroidLe(first, (y, multiset(candidates)[y]));
      }
    }
  }

  /** For every non-empty candidate list both selectors choose the same translation; on the empty list they agree
      only if the source is empty. */
  lemma SelectorsAgree(source: string, values: seq<string>)
    ensures AndroidChoice(source, values) == AppleChoice(source, values) <==> values != [] || source == ""
  {
    if values != [] {
      AndroidFindsBest(source, values);
      AppleFindsBest(source, values);
      BestIsUnique(source, multiset(values), AndroidChoice(source, values), AppleChoice(source, values));
    }
  }

  /** The choice does not depend on the order of the candidates. */
  lemma ChoiceIgnoresOrder(source: string, values: seq<string>, permuted: seq<string>)
    requires multiset(values) == multiset(permuted)
    ensures AppleChoice(source, values) == AppleChoice(source, permuted)
    ensures AndroidChoice(source, values) == AndroidChoice(source, permuted)
  {
    assert |multiset(values)| == |multiset(permuted)|;
    if values != [] {
      AppleFindsBest(source, values);
      AppleFindsBest(source, permuted);
      BestIsUnique(source, multiset(values), AppleChoice(source, values), AppleChoice(source, permuted));
      SelectorsAgree(source, values);
      SelectorsAgree(source, permuted);
    }
  }

  /** The choice is a candidate, and it is the untranslated source only when there is nothing else. */
  lemma SourceOnlyAsLastResort(source: string, values: seq<string>)
    requires values != []
    ensures AppleChoice(source, values) in values
    ensures AppleChoice(source, values) == source <==> forall x :: x in values ==> x == source
  {
    AppleFindsBest(source, values);
    var choice := AppleChoice(source, values);
    assert forall x :: x in values <==> x in multiset(values);
    forall x | x in values && choice == source ensures x == source {
      assert AsGood(source, multiset(values), choice, x);
    }
  }

  /** The text is offered, no other translation is offered more often, and of those offered as often it is the least; the
      source counts only when nothing else is offered. */
  ghost predicate IsMostFrequent(source: string, values: seq<string>, choice: string) {
    && choice in values
    && (choice == source ==> forall x :: x in values ==> x == source)
    && forall x :: x in values && x != source ==>
         && multiset(values)[x] <= multiset(values)[choice]
         && (multiset(values)[x] == multiset(values)[choice] ==> StringLe(choice, x))
  }

  /** Both selectors choose a most frequent translation, the least of them. */
  lemma ChoiceIsMostFrequent(source: string, values: seq<string>)
    requires values != []
    ensures IsMostFrequent(source, values, AndroidChoice(source, values))
    ensures IsMostFrequent(source, values, AppleChoice(source, values))
  {
    SelectorsAgree(source, values);
    SourceOnlyAsLastResort(source, values);
    AppleFindsBest(source, values);
    var choice := AppleChoice(source, values);
    forall x | x in values && x != source
      ensures multiset(values)[x] <= multiset(values)[choice]
           && (multiset(values)[x] == multiset(values)[choice] ==> StringLe(choice, x))
    {
      assert x in multiset(values) && AsGood(source, multiset(values), choice, x);
    }
  }

  // ----- the code

  method Count(values: seq<string>) returns (tally: Tally)
    ensures tally == Tallied(values)
  {
    tally := [];
    for i := 0 to |values|
      invariant tally == Tallied(values[..i])
    {
      assert values[..i + 1][..i] == values[..i];
      tally := Bump(tally, values[i]);
    }
    assert values[..|values|] == values;
  }

  method SelectDeterministicTranslation(source: string, values: seq<string>) returns (choice: string)
    ensures choice == AndroidChoice(source, values)
  {
    var translated: seq<string> := [];
    for i := 0 to |values|
      invariant translated == Without(values[..i], source)
    {
      assert values[..i + 1][..i] == values[..i];
      if values[i] != source {
        translated := translated + [values[i]];
      }
    }
    assert values[..|values|] == values;
    var counts := Count(if |translated| > 0 then translated else values);
    var sorted := Sort(counts, AndroidLe);
    choice := if sorted == [] then "" else sorted[0].0;
  }

  method ChooseTranslation(source: string, translations: seq<string>) returns (choice: string)
    ensures choice == AppleChoice(source, translations)
  {
    var counts := Count(translations);
    var sorted := Sort(counts, (a: (string, nat), b: (string, nat)) => AppleLe(source, a, b));
    choice := if sorted == [] then source else sorted[0].0;
  }
}
