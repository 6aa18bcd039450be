/** The in-memory store under a memory limit: what eviction may take away, and that it takes away nothing else. */
module LimitedStore {
  import opened Base
  import opened TtlMap
  import opened Recency
  import opened ShardedTable

  // ---- One shard -------------------------------------------------------------------------------

  lemma WholeFits(o: Order, max: int)
    requires Total(o) <= max
    ensures IsLongestFit(o, o, max)
  {
  }

  /** Under a limit every operation does what it does without one and then keeps the longest most-recent-first
      prefix that fits. */
  lemma StepIsLongestFit(c: Codec, o: Order, max: int, op: Op, now: Time)
    requires max > 0 && Distinct(o) && Total(o) <= max
    ensures IsLongestFit(Step(c, o, max, op, now), Step(c, o, 0, op, now), max)
  {
    if op.Set? || op.Incr? {
      EvictionIsLongestFit(Step(c, o, 0, op, now), max);
      if op.Incr? && IncrRec(c, LiveIn(o, op.key, now), op.delta, op.ttl, now).None? {
        WholeFits(o, max);
      }
    } else {
      StepWithinBudget(c, o, max, op, now);
      WholeFits(Step(c, o, max, op, now), max);
    }
  }

  // ---- All shards ------------------------------------------------------------------------------

  ghost predicate WithinLimit(orders: Orders, max: int) {
    forall i :: 0 <= i < |orders| ==> Total(orders[i]) <= max
  }

  /** The same for every shard of the store. */
  lemma StoreStepIsLongestFit(c: Codec, l: Layout, orders: Orders, max: int, op: Op, now: Time, i: nat)
    requires max > 0 && Placed(l, orders) && WithinLimit(orders, max) && i < l.shards
    ensures IsLongestFit(StoreStep(c, l, orders, max, op, now)[i], StoreStep(c, l, orders, 0, op, now)[i], max)
  {
    if op.Sweep? || l.Index(op.key) == i {
      StepIsLongestFit(c, orders[i], max, op, now);
    } else {
      WholeFits(orders[i], max);
    }
  }

  /** And at every step of every run. */
  lemma RunIsLongestFit(c: Codec, l: Layout, max: int, run: seq<Call>, op: Op, now: Time, i: nat)
    requires max > 0 && i < l.shards
    ensures StoreAll(c, l, max, run + [Call(op, now)])
         == StoreStep(c, l, StoreAll(c, l, max, run), max, op, now)
    ensures IsLongestFit(StoreAll(c, l, max, run + [Call(op, now)])[i],
                         StoreStep(c, l, StoreAll(c, l, max, run), 0, op, now)[i], max)
  {
    var longer := run + [Call(op, now)];
    assert longer[..|longer| - 1] == run;
    EveryShardWithinBudget(c, l, max, run);
    StoreStepIsLongestFit(c, l, StoreAll(c, l, max, run), max, op, now, i);
  }

  // ---- As tables -------------------------------------------------------------------------------

  /** What t has under k, u has too. */
  ghost predicate Within(t: Table, u: Table, k: string) {
    k in t ==> k in u && t[k] == u[k]
  }

  lemma PrefixTable(r: Order, o: Order, k: string)
    requires r <= o && Distinct(o)
    ensures Within(TableOf(r), TableOf(o), k)
  {
    TableLookup(r, k);
    TableLookup(o, k);
    if Has(r, k) {
      var i := IndexOf(r, k);
      assert o[i] == r[i];
      ItemOfUnique(o, o[i]);
    }
  }

  /** A limit takes from the contents only what eviction drops: records of the shard just written to, and only if
      that shard would not fit; it never adds, changes or keeps anything. */
  lemma LimitOnlyEvicts(c: Codec, l: Layout, orders: Orders, max: int, op: Op, now: Time, k: string)
    requires max > 0 && Placed(l, orders) && WithinLimit(orders, max)
    ensures var kept, all := StoreTable(StoreStep(c, l, orders, max, op, now)), Mem(c, StoreTable(orders), op, now).0;
      && Within(kept, all, k)
      && (k in all && k !in kept ==>
            && (op.Set? || op.Incr?) && l.Index(k) == l.Index(op.key) < l.shards
            && Total(StoreStep(c, l, orders, 0, op, now)[l.Index(k)]) > max)
  {
    var free, r, i := StoreStep(c, l, orders, 0, op, now), StoreStep(c, l, orders, max, op, now), l.Index(k);
    StorePlaced(c, l, orders, 0, op, now);
    StorePlaced(c, l, orders, max, op, now);
    StoreStepIsMem(c, l, orders, 0, op, now);
    StoreLookup(l, free, k);
    StoreLookup(l, r, k);
    StoreStepIsLongestFit(c, l, orders, max, op, now, i);
    PrefixTable(r[i], free[i], k);
    OnlyWritesEvict(c, l, orders, max, op, now, i);
  }

  lemma OnlyWritesEvict(c: Codec, l: Layout, orders: Orders, max: int, op: Op, now: Time, i: nat)
    requires max > 0 && Placed(l, orders) && WithinLimit(orders, max) && i < l.shards
    ensures var r, free := StoreStep(c, l, orders, max, op, now)[i], StoreStep(c, l, orders, 0, op, now)[i];
      r == free || ((op.Set? || op.Incr?) && l.Index(op.key) == i && Total(free) > max)
  {
  }

  // ---- Whole runs against the reference --------------------------------------------------------

  function SpecAfter(c: Codec, run: seq<Call>): (t: Table) {
    if run == [] then map[]
    else Spec(c, SpecAfter(c, run[..|run| - 1]), run[|run| - 1].op, run[|run| - 1].now).0
  }

  /** The run does not increment k. */
  ghost predicate NoIncr(run: seq<Call>, k: string) {
    forall i :: 0 <= i < |run| ==> !(run[i].op.Incr? && run[i].op.key == k)
  }

  lemma MemWithinSpec(c: Codec, t: Table, u: Table, op: Op, now: Time, k: string)
    requires Within(t, u, k) && !(op.Incr? && op.key == k)
    ensures Within(Mem(c, t, op, now).0, Spec(c, u, op, now).0, k)
  {
  }

  lemma StoreWithinMem(c: Codec, l: Layout, orders: Orders, max: int, op: Op, now: Time, k: string)
    requires Placed(l, orders) && (max > 0 ==> WithinLimit(orders, max))
    ensures Within(StoreTable(StoreStep(c, l, orders, max, op, now)), Mem(c, StoreTable(orders), op, now).0, k)
  {
    if max > 0 {
      LimitOnlyEvicts(c, l, orders, max, op, now, k);
    } else {
      StoreStepIsMem(c, l, orders, max, op, now);
    }
  }

  lemma {:induction false} RunPlaced(c: Codec, l: Layout, max: int, run: seq<Call>)
    ensures Placed(l, StoreAll(c, l, max, run))
    ensures max > 0 ==> WithinLimit(StoreAll(c, l, max, run), max)
  {
    if max > 0 {
      EveryShardWithinBudget(c, l, max, run);
    } else if run != [] {
      var last := |run| - 1;
      RunPlaced(c, l, max, run[..last]);
      StorePlaced(c, l, StoreAll(c, l, max, run[..last]), max, run[last].op, run[last].now);
    }
  }

  /** The store never lies: whatever its limit and whatever it evicted, what it holds of a key that the run does not
      increment is what the reference map holds. */
  lemma {:induction false} NeverStale(c: Codec, l: Layout, max: int, run: seq<Call>, k: string)
    requires NoIncr(run, k)
    ensures Within(StoreTable(StoreAll(c, l, max, run)), SpecAfter(c, run), k)
  {
    if run == [] {
      RunPlaced(c, l, max, run);
      StoreLookup(l, StoreAll(c, l, max, run), k);
    } else {
      var last := |run| - 1;
      var before, op, now := StoreAll(c, l, max, run[..last]), run[last].op, run[last].now;
      NeverStale(c, l, max, run[..last], k);
      RunPlaced(c, l, max, run[..last]);
      StoreWithinMem(c, l, before, max, op, now, k);
      MemWithinSpec(c, StoreTable(before), SpecAfter(c, run[..last]), op, now, k);
    }
  }

  /** So its Get answers what the reference answers, or misses. */
  lemma GetHitsOrMisses(c: Codec, l: Layout, max: int, run: seq<Call>, k: string, now: Time)
    requires NoIncr(run, k)
    ensures var answer := StoreAnswer(c, l, StoreAll(c, l, max, run), Get(k), now);
      answer == Spec(c, SpecAfter(c, run), Get(k), now).1 || answer == Value(None)
  {
    NeverStale(c, l, max, run, k);
    RunPlaced(c, l, max, run);
    StoreAnswerIsMem(c, l, StoreAll(c, l, max, run), Get(k), now);
  }
}
