/** Greedy batching of translation items under an item limit and a character budget. */
module Batching {
  import opened Text

  const MAX_BATCH_ITEMS: nat := 20

  datatype Item = Item(key: string, text: string)

  /** The size estimate of a prompt: 2 characters of brackets and 8 of punctuation per item. */
  function EstimateBatchChars(items: seq<Item>): nat {
    if items == [] then 2
    else EstimateBatchChars(items[..|items| - 1]) + |items[|items| - 1].key| + |items[|items| - 1].text| + 8
  }

  /** What the loop adds up: 2 plus the estimate of each item on its own, brackets included. */
  function CountedChars(items: seq<Item>): nat {
    if items == [] then 2
    else CountedChars(items[..|items| - 1]) + EstimateBatchChars([items[|items| - 1]])
  }

  /** A batch the loop may emit: a single item always, more only within the limits. */
  predicate Fits(batch: seq<Item>, budget: real) {
    0 < |batch| <= MAX_BATCH_ITEMS && (|batch| == 1 || CountedChars(batch) as real <= budget)
  }

  /** A split of `items` into consecutive batches that each fit. */
  predicate IsSplit(batches: seq<seq<Item>>, items: seq<Item>, budget: real) {
    Flatten(batches) == items && forall b :: 0 <= b < |batches| ==> Fits(batches[b], budget)
  }

  /** No batch could have taken the first item of the next one. */
  ghost predicate Saturated(batches: seq<seq<Item>>, budget: real) {
    forall b, c :: 0 <= b < c < |batches| && c == b + 1 && batches[c] != [] ==> !Fits(batches[b] + batches[c][..1], budget)
  }

  // ----- sizes

  lemma {:induction false} CountedAppend(a: seq<Item>, b: seq<Item>)
    ensures CountedChars(a + b) == CountedChars(a) + CountedChars(b) - 2
  {
    if b == [] {
      assert a + b == a;
    } else {
      assert (a + b)[..|a + b| - 1] == a + b[..|b| - 1];
      CountedAppend(a, b[..|b| - 1]);
    }
  }

  lemma {:induction false} CountedAtLeastTwo(a: seq<Item>)
    ensures CountedChars(a) >= 2
  {
    if a != [] {
      CountedAtLeastTwo(a[..|a| - 1]);
    }
  }

  /** The count the loop keeps exceeds the estimate by two characters per item. */
  lemma {:induction false} CountedSpare(items: seq<Item>)
    ensures CountedChars(items) == EstimateBatchChars(items) + 2 * |items|
  {
    if items != [] {
      var last := items[|items| - 1];
      CountedSpare(items[..|items| - 1]);
      assert EstimateBatchChars([last]) == 2 + |last.key| + |last.text| + 8 by { assert [last][..0] == []; }
    }
  }

  function Texts(items: seq<Item>): string {
    if items == [] then "" else Texts(items[..|items| - 1]) + items[|items| - 1].key + items[|items| - 1].text
  }

  /** The estimate is two characters, all keys and texts, and eight characters per item. */
  lemma {:induction false} EstimateCountsTexts(items: seq<Item>)
    ensures EstimateBatchChars(items) == 2 + |Texts(items)| + 8 * |items|
  {
    if items != [] {
      EstimateCountsTexts(items[..|items| - 1]);
    }
  }

  /** Any non-empty consecutive part of a batch that fits also fits. */
  lemma PartFits(a: seq<Item>, b: seq<Item>, c: seq<Item>, budget: real)
    requires Fits(a + b + c, budget) && b != []
    ensures Fits(b, budget)
  {
    CountedAppend(a + b, c);
    CountedAppend(a, b);
    CountedAtLeastTwo(a);
    CountedAtLeastTwo(c);
  }

  // ----- optimality

  lemma DropPast<T>(a: seq<T>, b: seq<T>, c: seq<T>, k: nat)
    requires k <= |b|
    ensures (a + (b + c))[|a| + k..] == b[k..] + c
  {
  }

  lemma FlattenEmpty(batches: seq<seq<Item>>, budget: real)
    requires forall b :: 0 <= b < |batches| ==> Fits(batches[b], budget)
    ensures Flatten(batches) == [] <==> batches == []
  {
    if batches != [] {
      assert Fits(batches[0], budget);
    }
  }

  /** Greedy stays ahead: another split that still has to cover `behind` before the greedy batches needs
      at least as many batches as the greedy one has left. */
  lemma {:induction false} GreedyStaysAhead(greedy: seq<seq<Item>>, behind: seq<Item>, other: seq<seq<Item>>, budget: real)
    requires forall b :: 0 <= b < |greedy| ==> Fits(greedy[b], budget)
    requires Saturated(greedy, budget)
    requires IsSplit(other, behind + Flatten(greedy), budget)
    ensures |greedy| <= |other|
    decreases |other|
  {
    FlattenEmpty(greedy, budget);
    FlattenEmpty(other, budget);
    if greedy != [] {
      assert Fits(greedy[0], budget) && Fits(other[0], budget);
      var first, rest := other[0], other[1..];
      var all := behind + Flatten(greedy);
      assert all[..|first|] == first && all[|first|..] == Flatten(rest);
      if |first| <= |behind| {
        DropWithin(behind, Flatten(greedy), |first|);
        GreedyStaysAhead(greedy, behind[|first|..], rest, budget);
      } else {
        FirstEndsInGreedy(greedy, behind, first, budget);
        var taken := |first| - |behind|;
        assert Flatten(greedy) == greedy[0] + Flatten(greedy[1..]);
        DropPast(behind, greedy[0], Flatten(greedy[1..]), taken);
        SaturatedTail(greedy, budget);
        GreedyStaysAhead(greedy[1..], greedy[0][taken..], rest, budget);
      }
    }
  }

  lemma SaturatedTail(greedy: seq<seq<Item>>, budget: real)
    requires greedy != [] && Saturated(greedy, budget)
    ensures Saturated(greedy[1..], budget)
  {
    var tail := greedy[1..];
    forall b, c | 0 <= b < c < |tail| && c == b + 1 && tail[c] != [] ensures !Fits(tail[b] + tail[c][..1], budget) {
      assert tail[b] == greedy[b + 1] && tail[c] == greedy[c + 1];
    }
  }

  /** A batch that starts no later than the greedy one ends no later than it. */
  lemma FirstEndsInGreedy(greedy: seq<seq<Item>>, behind: seq<Item>, first: seq<Item>, budget: real)
    requires greedy != [] && Saturated(greedy, budget) && Fits(first, budget)
    requires forall b :: 0 <= b < |greedy| ==> Fits(greedy[b], budget)
    requires first <= behind + Flatten(greedy)
    ensures |first| <= |behind| + |greedy[0]|
  {
    if |first| > |behind| + |greedy[0]| {
      SecondStarts(greedy, budget);
      var next := greedy[1][..1];
      OverlappingPart(behind, greedy[0], next, Flatten(greedy[1..])[1..], first);
      PartFits(behind, greedy[0] + next, first[|behind| + |greedy[0]| + 1..], budget);
    }
  }

  /** What follows the first batch starts with the second one's first item. */
  lemma {:induction false} SecondStarts(greedy: seq<seq<Item>>, budget: real)
    requires forall b :: 0 <= b < |greedy| ==> Fits(greedy[b], budget)
    requires greedy != [] && Flatten(greedy) != greedy[0]
    ensures |greedy| > 1 && greedy[1] != []
    ensures Flatten(greedy) == greedy[0] + (greedy[1][..1] + Flatten(greedy[1..])[1..])
  {
    var tail := greedy[1..];
    assert Flatten(greedy) == greedy[0] + Flatten(tail);
    FlattenEmpty(tail, budget);
    assert greedy[0] + [] == greedy[0];
    assert greedy[1] == tail[0] && Fits(greedy[1], budget);
    assert Flatten(tail) == Flatten(tail)[..1] + Flatten(tail)[1..] && Flatten(tail)[..1] == tail[0][..1];
  }

  lemma OverlappingPart<T>(a: seq<T>, b: seq<T>, c: seq<T>, d: seq<T>, first: seq<T>)
    requires first <= a + (b + (c + d)) && |first| >= |a| + |b| + |c|
    ensures first == a + (b + c) + first[|a| + |b| + |c|..]
  {
    var k := |a| + |b| + |c|;
    assert first[..k] == (a + (b + (c + d)))[..k] == a + (b + c);
  }

  // ----- the loop

  /** Appending an item the batch has no room for makes it unfit. */
  lemma Overflows(current: seq<Item>, item: Item, budget: real)
    requires 0 < |current| <= MAX_BATCH_ITEMS
    requires (CountedChars(current) + EstimateBatchChars([item])) as real > budget || |current| == MAX_BATCH_ITEMS
    ensures !Fits(current + [item], budget)
  {
    assert (current + [item])[..|current|] == current;
  }

  lemma SaturatedSnoc(batches: seq<seq<Item>>, current: seq<Item>, item: Item, budget: real)
    requires Saturated(batches + [current], budget) && !Fits(current + [item], budget)
    ensures Saturated(batches + [current] + [[item]], budget)
  {
    var before, after := batches + [current], batches + [current] + [[item]];
    forall b, c | 0 <= b < c < |after| && c == b + 1 && after[c] != [] ensures !Fits(after[b] + after[c][..1], budget) {
      if c < |before| {
        assert after[b] == before[b] && after[c] == before[c];
      } else {
        assert after[b] == current && after[c][..1] == [item];
      }
    }
  }

  lemma SaturatedGrow(batches: seq<seq<Item>>, current: seq<Item>, item: Item, budget: real)
    requires Saturated(batches + [current], budget) && current != []
    ensures Saturated(batches + [current + [item]], budget)
  {
    var before, after := batches + [current], batches + [current + [item]];
    forall b, c | 0 <= b < c < |after| && c == b + 1 && after[c] != [] ensures !Fits(after[b] + after[c][..1], budget) {
      assert after[b] == before[b] && after[c][..1] == before[c][..1];
    }
  }

  /** The state of the loop after the items in `seen`. */
  ghost predicate Greedy(batches: seq<seq<Item>>, current: seq<Item>, seen: seq<Item>, budget: real) {
    && Flatten(batches) + current == seen
    && (current == [] ==> batches == [])
    && (current != [] ==> Fits(current, budget))
    && (forall b :: 0 <= b < |batches| ==> Fits(batches[b], budget))
    && Saturated(batches + [current], budget)
  }

  lemma GreedyNewBatch(batches: seq<seq<Item>>, current: seq<Item>, seen: seq<Item>, item: Item, budget: real)
    requires Greedy(batches, current, seen, budget) && current != []
    requires !Fits(current + [item], budget)
    ensures Greedy(batches + [current], [item], seen + [item], budget)
  {
    SaturatedSnoc(batches, current, item, budget);
    FlattenSnoc(batches, current);
  }

  lemma GreedyGrow(batches: seq<seq<Item>>, current: seq<Item>, seen: seq<Item>, item: Item, budget: real)
    requires Greedy(batches, current, seen, budget)
    requires Fits(current + [item], budget)
    ensures Greedy(batches, current + [item], seen + [item], budget)
  {
    if current != [] {
      SaturatedGrow(batches, current, item, budget);
    }
    assert Flatten(batches) + (current + [item]) == seen + [item];
  }

  /** The finished batches are a split, and a smallest one. */
  lemma GreedyIsOptimal(batches: seq<seq<Item>>, current: seq<Item>, result: seq<seq<Item>>, items: seq<Item>,
                        budget: real)
    requires Greedy(batches, current, items, budget)
    requires if current == [] then result == batches else result == batches + [current]
    ensures IsSplit(result, items, budget)
    ensures forall other :: IsSplit(other, items, budget) ==> |result| <= |other|
  {
    if current != [] {
      FlattenSnoc(batches, current);
    }
    assert [] + Flatten(result) == items;
    forall other | IsSplit(other, items, budget) ensures |result| <= |other| {
      GreedyStaysAhead(result, [], other, budget);
    }
  }

  lemma CountedSnoc(current: seq<Item>, item: Item)
    ensures CountedChars(current + [item]) == CountedChars(current) + EstimateBatchChars([item])
  {
    assert (current + [item])[..|current|] == current;
  }

  lemma GreedyStep(batches: seq<seq<Item>>, current: seq<Item>, seen: seq<Item>, item: Item, budget: real, full: bool)
    requires Greedy(batches, current, seen, budget)
    requires full <==> (current != [] && (CountedChars(current) + EstimateBatchChars([item])) as real > budget)
                       || |current| >= MAX_BATCH_ITEMS
    ensures full ==> Greedy(batches + [current], [] + [item], seen + [item], budget)
    ensures !full ==> Greedy(batches, current + [item], seen + [item], budget)
  {
    CountedSnoc(current, item);
    if full {
      Overflows(current, item, budget);
      GreedyNewBatch(batches, current, seen, item, budget);
      assert [] + [item] == [item];
    } else {
      GreedyGrow(batches, current, seen, item, budget);
    }
  }

  /** The batches concatenate to the items, each fits, and no split of the items into batches that fit has fewer. */
  method BuildTranslationBatches(items: seq<Item>, budget: real) returns (batches: seq<seq<Item>>)
    ensures IsSplit(batches, items, budget)
    ensures forall other :: IsSplit(other, items, budget) ==> |batches| <= |other|
  {
    var filled, current := FillBatches(items, budget);
    batches := if |current| > 0 then filled + [current] else filled;
    GreedyIsOptimal(filled, current, batches, items, budget);
  }

  /** The loop: all batches but the last, and the last, which may be empty. */
  method FillBatches(items: seq<Item>, budget: real) returns (batches: seq<seq<Item>>, current: seq<Item>)
    ensures Greedy(batches, current, items, budget)
  {
    batches, current := [], [];
    var currentChars := 2;
    for i := 0 to |items|
      invariant currentChars == CountedChars(current)
      invariant Greedy(batches, current, items[..i], budget) == true  // the comparison keeps the predicate whole
    {
      var item := items[i];
      var itemChars := EstimateBatchChars([item]);
      var wouldOverflow := |current| > 0 && (currentChars + itemChars) as real > budget;
      var reachedMaxItems := |current| >= MAX_BATCH_ITEMS;
      PrefixSnoc(items, i);
      GreedyStep(batches, current, items[..i], item, budget, wouldOverflow || reachedMaxItems);
      if wouldOverflow || reachedMaxItems {
        batches := batches + [current];
        current := [];
        currentChars := 2;
      }
      CountedSnoc(current, item);
      current := current + [item];
      currentChars := currentChars + itemChars;
    }
    assert items[..|items|] == items;
  }

  /** A batch of several items that fits leaves two characters per item over its estimate. */
  lemma FittingBatchHasSpare(batch: seq<Item>, budget: real)
    requires Fits(batch, budget) && |batch| > 1
    ensures (EstimateBatchChars(batch) + 2 * |batch|) as real <= budget
  {
    CountedSpare(batch);
  }
}
