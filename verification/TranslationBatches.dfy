/** Greedy batching of translation items (`estimateBatchChars`, `buildTranslationBatches`). */
module TranslationBatches {
  const MAX_BATCH_ITEMS := 20

  datatype Item = Item(key: string, text: string)

  type Batch = seq<Item>

  function ItemsChars(items: Batch): nat {
    if items == [] then 0
    else |items[0].key| + |items[0].text| + 8 + ItemsChars(items[1..])
  }

  function EstimateBatchChars(items: Batch): nat { 2 + ItemsChars(items) }

  /** The running count of the loop: each item is estimated as a batch of its own, brackets included. */
  function RunningChars(items: Batch): nat {
    if items == [] then 2
    else RunningChars(items[..|items| - 1]) + EstimateBatchChars([items[|items| - 1]])
  }

  /** The budget is any positive number; a batch may exceed it only by holding a single item. */
  predicate Fits(batch: Batch, budget: real) {
    && 1 <= |batch| <= MAX_BATCH_ITEMS
    && (|batch| == 1 || RunningChars(batch) as real <= budget)
  }

  function Flatten(batches: seq<Batch>): Batch {
    if batches == [] then [] else batches[0] + Flatten(batches[1..])
  }

  /** A split of `items` into consecutive batches that all fit. */
  ghost predicate Admissible(batches: seq<Batch>, items: Batch, budget: real) {
    Flatten(batches) == items && forall b | b in batches :: Fits(b, budget)
  }

  /** No batch could have taken the first item of the next one. */
  ghost predicate Maximal(batches: seq<Batch>, budget: real) {
    forall k :: 0 < k < |batches| && batches[k] != [] ==> !Fits(batches[k - 1] + [batches[k][0]], budget)
  }

  // ------------------------------------------------------------------ counting characters

  lemma {:induction false} ItemsCharsAppend(a: Batch, b: Batch)
    ensures ItemsChars(a + b) == ItemsChars(a) + ItemsChars(b)
  {
    if a == [] {
      assert a + b == b;
    } else {
      ItemsCharsAppend(a[1..], b);
      assert (a + b)[1..] == a[1..] + b;
    }
  }

  /** The estimate is 2 for the brackets, and for every item 8 more than its key and its text have characters. */
  lemma EstimateGrows(items: Batch, item: Item)
    ensures EstimateBatchChars([]) == 2
    ensures EstimateBatchChars(items + [item]) == EstimateBatchChars(items) + |item.key| + |item.text| + 8
  {
    ItemsCharsAppend(items, [item]);
    assert [item][1..] == [];
  }

  /** The running count exceeds the estimate of the batch by two for every item. */
  lemma {:induction false} RunningCharsIsEstimate(batch: Batch)
    ensures RunningChars(batch) == EstimateBatchChars(batch) + 2 * |batch|
  {
    if batch != [] {
      var front, last := batch[..|batch| - 1], batch[|batch| - 1];
      RunningCharsIsEstimate(front);
      ItemsCharsAppend(front, [last]);
      assert front + [last] == batch;
    }
  }

  /** What a batch may hold, in terms of its estimate. */
  lemma FitsIff(batch: Batch, budget: real)
    ensures Fits(batch, budget) <==>
            1 <= |batch| <= 20 && (|batch| == 1 || (EstimateBatchChars(batch) + 2 * |batch|) as real <= budget)
  {
    RunningCharsIsEstimate(batch);
  }

  /** A batch of several items is really smaller than the budget, by two characters an item. */
  lemma FittingBatchUndershoots(batch: Batch, budget: real)
    requires Fits(batch, budget) && |batch| > 1
    ensures EstimateBatchChars(batch) as real <= budget - (2 * |batch|) as real
  {
    RunningCharsIsEstimate(batch);
  }

  /** Whatever remains of a fitting batch after items leave it at either end fits too. */
  lemma PartFits(batch: Batch, from: nat, to: nat, budget: real)
    requires Fits(batch, budget) && from < to <= |batch|
    ensures Fits(batch[from..to], budget)
  {
    var part := batch[from..to];
    ItemsCharsAppend(batch[..from], part);
    ItemsCharsAppend(batch[..from] + part, batch[to..]);
    assert batch[..from] + part + batch[to..] == batch;
    RunningCharsIsEstimate(batch);
    RunningCharsIsEstimate(part);
  }

  // ------------------------------------------------------------------ greedy is optimal

  lemma {:induction false} FlattenAppend(a: seq<Batch>, b: seq<Batch>)
    ensures Flatten(a + b) == Flatten(a) + Flatten(b)
  {
    if a == [] {
      assert a + b == b;
    } else {
      assert (a + b)[0] == a[0] && (a + b)[1..] == a[1..] + b;
      assert Flatten(a + b) == a[0] + Flatten(a[1..] + b) && Flatten(a) == a[0] + Flatten(a[1..]);
      hide Flatten;
      FlattenAppend(a[1..], b);
    }
  }

  /** A greedy batch that starts inside another admissible batch `o` does not stop before `o` does. */
  lemma GreedyBatchReaches(g: Batch, later: Batch, o: Batch, rest: Batch, ahead: nat, budget: real)
    requires Fits(o, budget) && o <= rest && ahead <= |rest|
    requires rest[ahead..] == g + later && g != []
    requires later != [] ==> !Fits(g + [later[0]], budget)
    ensures ahead + |g| >= |o|
  {
    if ahead + |g| < |o| {
      var tail := rest[ahead..];
      assert forall k | 0 <= k <= |g| :: o[ahead + k] == rest[ahead + k] == tail[k];
      assert g + [later[0]] == o[ahead..ahead + |g| + 1];
      PartFits(o, ahead, ahead + |g| + 1, budget);
    }
  }

  /**
   * Greedy stays ahead.  `rest` is what another admissible split still has to cover; greedy has already
   * covered its first `ahead` items.  Then greedy needs no more batches than the other split.
   */
  lemma {:induction false} GreedyStaysAhead(greedy: seq<Batch>, other: seq<Batch>, rest: Batch, ahead: nat,
                                            budget: real)
    requires ahead <= |rest|
    requires Admissible(greedy, rest[ahead..], budget) && Maximal(greedy, budget)
    requires Admissible(other, rest, budget)
    ensures |greedy| <= |other|
    decreases |other|
  {
    if greedy != [] {
      assert Fits(greedy[0], budget) && Flatten(greedy) != [];
      assert other != [];
      var g, o := greedy[0], other[0];
      var restG, restO := greedy[1..], other[1..];
      assert Fits(g, budget) && Fits(o, budget);
      if restG != [] {
        assert Fits(restG[0], budget) && restG[0] == greedy[1];
      }
      GreedyBatchReaches(g, Flatten(restG), o, rest, ahead, budget);
      var gap := ahead + |g| - |o|;
      hide Fits;
      assert rest[|o|..] == Flatten(restO);
      assert rest[|o|..][gap..] == rest[ahead..][|g|..] == Flatten(restG);
      assert Maximal(restG, budget) by {
        assert forall k :: 0 < k < |restG| ==> restG[k] == greedy[k + 1] && restG[k - 1] == greedy[k];
      }
      GreedyStaysAhead(restG, restO, rest[|o|..], gap, budget);
    }
  }

  lemma MaximalIsOptimal(batches: seq<Batch>, items: Batch, budget: real)
    requires Admissible(batches, items, budget) && Maximal(batches, budget)
    ensures forall other :: Admissible(other, items, budget) ==> |batches| <= |other|
  {
    forall other | Admissible(other, items, budget) ensures |batches| <= |other| {
      assert items[0..] == items;
      GreedyStaysAhead(batches, other, items, 0, budget);
    }
  }

  /** What the loop knows after some items: `current` is the batch under construction. */
  ghost predicate Building(batches: seq<Batch>, current: Batch, items: Batch, budget: real) {
    && Flatten(batches) + current == items
    && (forall b | b in batches :: Fits(b, budget))
    && Maximal(batches, budget)
    && (current == [] ==> batches == [])
    && (current != [] ==> Fits(current, budget))
    && (current != [] && batches != [] ==> !Fits(batches[|batches| - 1] + [current[0]], budget))
  }

  lemma BatchGrows(batches: seq<Batch>, current: Batch, items: Batch, item: Item, budget: real)
    requires Building(batches, current, items, budget) && Fits(current + [item], budget)
    ensures Building(batches, current + [item], items + [item], budget)
  {
    assert Flatten(batches) + (current + [item]) == Flatten(batches) + current + [item];
  }

  lemma BatchFlushed(batches: seq<Batch>, current: Batch, items: Batch, budget: real)
    requires Building(batches, current, items, budget) && current != []
    ensures Admissible(batches + [current], items, budget) && Maximal(batches + [current], budget)
  {
    FlattenAppend(batches, [current]);
    assert Flatten([current]) == current + Flatten([]) == current;
  }

  lemma NextBatch(batches: seq<Batch>, current: Batch, items: Batch, item: Item, budget: real)
    requires Building(batches, current, items, budget) && current != [] && !Fits(current + [item], budget)
    ensures Building(batches + [current], [item], items + [item], budget)
  {
    BatchFlushed(batches, current, items, budget);
  }

  lemma FitsWhenRoom(current: Batch, item: Item, budget: real)
    ensures RunningChars(current + [item]) == RunningChars(current) + EstimateBatchChars([item])
    ensures Fits(current + [item], budget) <==>
            && |current| < MAX_BATCH_ITEMS
            && (current == [] || (RunningChars(current) + EstimateBatchChars([item])) as real <= budget)
  {
    assert (current + [item])[..|current|] == current;
  }

  /** The batches cover the items in order, all fit, and no other split into fitting batches is shorter. */
  method BuildTranslationBatches(items: Batch, budget: real) returns (batches: seq<Batch>)
    ensures Admissible(batches, items, budget)
    ensures forall k :: 0 <= k < |batches| && |batches[k]| > 1 ==>
                      EstimateBatchChars(batches[k]) as real <= budget - (2 * |batches[k]|) as real
    ensures forall other :: Admissible(other, items, budget) ==> |batches| <= |other|
  {
    hide Fits, RunningChars, EstimateBatchChars, Maximal, Flatten;
    batches := [];
    var current: Batch := [];
    var currentChars := 2;
    EmptyBuild(budget);
    for i := 0 to |items|
      invariant Building(batches, current, items[..i], budget)
      invariant currentChars == RunningChars(current)
    {
      var item := items[i];
      var itemChars := EstimateBatchChars([item]);
      var wouldOverflow := |current| > 0 && (currentChars + itemChars) as real > budget;
      var reachedMaxItems := |current| >= MAX_BATCH_ITEMS;
      assert items[..i + 1] == items[..i] + [item];
      FitsWhenRoom(current, item, budget);
      if wouldOverflow || reachedMaxItems {
        NextBatch(batches, current, items[..i], item, budget);
        EmptyBuild(budget);
        FitsWhenRoom([], item, budget);
        batches := batches + [current];
        current := [];
        currentChars := 2;
        assert [] + [item] == [item];
      } else {
        BatchGrows(batches, current, items[..i], item, budget);
      }
      current := current + [item];
      currentChars := currentChars + itemChars;
    }
    assert items[..|items|] == items;
    if |current| > 0 {
      BatchFlushed(batches, current, items, budget);
      batches := batches + [current];
    } else {
      EmptyBuild(budget);
    }
    MaximalIsOptimal(batches, items, budget);
    forall k | 0 <= k < |batches| && |batches[k]| > 1
      ensures EstimateBatchChars(batches[k]) as real <= budget - (2 * |batches[k]|) as real
    {
      FittingBatchUndershoots(batches[k], budget);
    }
  }

  lemma EmptyBuild(budget: real)
    ensures Building([], [], [], budget) && RunningChars([]) == 2 && Maximal([], budget)
    ensures Flatten([]) == []
  {
  }
}
