/** Many shards as one store: where a key lives, what all shards hold together, and the memory budget. */
module ShardedTable {
  import opened Base
  import opened TtlMap
  import opened Recency

  // ---- Shard selection -------------------------------------------------------------------------

  /** Bitwise and of non-negative integers. */
  function And(x: nat, y: nat): (r: nat) {
    if x == 0 || y == 0 then 0
    else (if x % 2 == 1 && y % 2 == 1 then 1 else 0) + 2 * And(x / 2, y / 2)
  }

  lemma {:induction false} AndAtMost(x: nat, y: nat)
    ensures And(x, y) <= y
  {
    if x != 0 && y != 0 {
      AndAtMost(x / 2, y / 2);
    }
  }

  /** How a store finds the shard of a key: hash and mask, as computed from the shard count. */
  datatype Layout = Layout(hash: string -> uint32, shards: pos)
  {
    /** `uint32(numShards - 1)` */
    function Mask(): (m: nat)
      ensures m < shards
    {
      (shards - 1) % 0x1_0000_0000
    }

    function Index(key: string): (i: nat) {
      And(hash(key), Mask())
    }
  }

  /** The mask always selects an existing shard. */
  lemma IndexInRange(l: Layout, key: string)
    ensures l.Index(key) < l.shards
  {
    AndAtMost(l.hash(key), l.Mask());
  }

  // ---- All shards together ---------------------------------------------------------------------

  type Orders = seq<Order>

  /** Every shard is well formed and holds only keys that hash to it. */
  ghost predicate Placed(l: Layout, orders: Orders) {
    && |orders| == l.shards
    && forall i :: 0 <= i < |orders| ==> WellFormed(orders[i]) && InShard(l, orders[i], i)
  }

  ghost predicate InShard(l: Layout, o: Order, i: nat) {
    forall x :: x in o ==> l.Index(x.key) == i
  }

  function StoreStep(c: Codec, l: Layout, orders: Orders, max: int, op: Op, now: Time): (r: Orders)
    requires |orders| == l.shards
    ensures |r| == |orders|
  {
    if op.Sweep? then seq(|orders|, i requires 0 <= i < |orders| => Step(c, orders[i], max, Sweep, now))
    else
      IndexInRange(l, op.key);
      orders[l.Index(op.key) := Step(c, orders[l.Index(op.key)], max, op, now)]
  }

  lemma StepInShard(c: Codec, l: Layout, o: Order, i: nat, max: int, op: Op, now: Time)
    requires InShard(l, o, i)
    requires op.Sweep? || l.Index(op.key) == i
    ensures InShard(l, Step(c, o, max, op, now), i)
  {
    var r := Step(c, o, max, op, now);
    if !op.Sweep? {
      DropMembers(o, {op.key});
    } else {
      DropMembers(o, DeadKeys(o, now));
    }
    forall x | x in r
      ensures x in o || x.key == op.key
    {
      StepOrigin(c, o, max, op, now, x);
    }
  }

  lemma StepOrigin(c: Codec, o: Order, max: int, op: Op, now: Time, x: Item)
    requires x in Step(c, o, max, op, now)
    ensures x in o || (!op.Sweep? && x.key == op.key)
  {
    if op.Sweep? {
      DropMembers(o, DeadKeys(o, now));
    } else {
      DropMembers(o, {op.key});
      if op.Set? {
        FrontOrigin(o, MakeItem(op.key, Rec(op.value, DeadlineFor(op.ttl, now))), max, x);
      } else if op.Incr? {
        var inc := IncrRec(c, LiveIn(o, op.key, now), op.delta, op.ttl, now);
        if inc.Some? { FrontOrigin(o, MakeItem(op.key, inc.value.0), max, x); }
      }
    }
  }

  lemma FrontOrigin(o: Order, y: Item, max: int, x: Item)
    requires x in Evicted(Front(o, y), max)
    ensures x in o || x == y
  {
    DropMembers(o, {y.key});
    var f := Front(o, y);
    var i :| 0 <= i < |Evicted(f, max)| && Evicted(f, max)[i] == x;
    assert f[i] == x;
  }

  /** Every operation keeps every key in its hashed shard and every shard well formed. */
  lemma StorePlaced(c: Codec, l: Layout, orders: Orders, max: int, op: Op, now: Time)
    requires Placed(l, orders)
    ensures Placed(l, StoreStep(c, l, orders, max, op, now))
  {
    var r := StoreStep(c, l, orders, max, op, now);
    forall i | 0 <= i < |r|
      ensures WellFormed(r[i]) && InShard(l, r[i], i)
    {
      StepWellFormed(c, orders[i], max, op, now);
      if op.Sweep? || l.Index(op.key) == i {
        StepInShard(c, l, orders[i], i, max, op, now);
      }
    }
  }

  // ---- One table -------------------------------------------------------------------------------

  /** All shards as one map. */
  function StoreTable(orders: Orders): (t: Table) {
    if orders == [] then map[] else TableOf(orders[0]) + StoreTable(orders[1..])
  }

  /** Shards from some index on, each holding only its own keys. */
  ghost predicate PlacedFrom(l: Layout, orders: Orders, base: nat) {
    forall i :: 0 <= i < |orders| ==> InShard(l, orders[i], base + i)
  }

  lemma PlacedTail(l: Layout, orders: Orders, base: nat)
    requires PlacedFrom(l, orders, base) && orders != []
    ensures InShard(l, orders[0], base) && PlacedFrom(l, orders[1..], base + 1)
  {
    assert InShard(l, orders[0], base + 0);
    forall i | 0 <= i < |orders[1..]|
      ensures InShard(l, orders[1..][i], base + 1 + i)
    {
      assert orders[1..][i] == orders[i + 1];
      assert InShard(l, orders[i + 1], base + (i + 1));
    }
  }

  /** The record of k where it can only be: in the shard of its index, if that is among these. */
  function RecAt(l: Layout, orders: Orders, base: nat, k: string): (r: Option<Rec>) {
    var i := l.Index(k) - base;
    if 0 <= i < |orders| && Has(orders[i], k) then Some(ItemOf(orders[i], k).rec) else None
  }

  lemma {:induction false} LookupFrom(l: Layout, orders: Orders, base: nat, k: string)
    requires PlacedFrom(l, orders, base)
    ensures (if k in StoreTable(orders) then Some(StoreTable(orders)[k]) else None) == RecAt(l, orders, base, k)
  {
    if orders != [] {
      PlacedTail(l, orders, base);
      LookupFrom(l, orders[1..], base + 1, k);
      TableLookup(orders[0], k);
      if Has(orders[0], k) {
        assert ItemOf(orders[0], k) in orders[0];
      }
      assert RecAt(l, orders, base, k) == if l.Index(k) == base
        then (if Has(orders[0], k) then Some(ItemOf(orders[0], k).rec) else None)
        else RecAt(l, orders[1..], base + 1, k);
    }
  }

  /** A key is in the store exactly if it is in its own shard. */
  lemma StoreLookup(l: Layout, orders: Orders, k: string)
    requires Placed(l, orders)
    ensures l.Index(k) < |orders|
    ensures k in StoreTable(orders) <==> k in TableOf(orders[l.Index(k)])
    ensures k in StoreTable(orders) ==> StoreTable(orders)[k] == TableOf(orders[l.Index(k)])[k]
  {
    IndexInRange(l, k);
    LookupFrom(l, orders, 0, k);
    TableLookup(orders[l.Index(k)], k);
  }

  /** With no budget the sharded store is the one table of the in-memory store: same contents ... */
  lemma StoreStepIsMem(c: Codec, l: Layout, orders: Orders, max: int, op: Op, now: Time)
    requires Placed(l, orders) && max <= 0
    ensures StoreTable(StoreStep(c, l, orders, max, op, now)) == Mem(c, StoreTable(orders), op, now).0
  {
    forall k
      ensures SameAt(StoreTable(StoreStep(c, l, orders, max, op, now)), Mem(c, StoreTable(orders), op, now).0, k)
    {
      StoreStepAtKey(c, l, orders, max, op, now, k);
    }
    SameEverywhere(StoreTable(StoreStep(c, l, orders, max, op, now)), Mem(c, StoreTable(orders), op, now).0);
  }

  ghost predicate SameAt(t: Table, u: Table, k: string) {
    (k in t <==> k in u) && (k in t ==> t[k] == u[k])
  }

  lemma SameEverywhere(t: Table, u: Table)
    requires forall k :: SameAt(t, u, k)
    ensures t == u
  {
    forall k
      ensures k in t <==> k in u
      ensures k in t ==> t[k] == u[k]
    {
      assert SameAt(t, u, k);
    }
  }

  lemma StoreStepAtKey(c: Codec, l: Layout, orders: Orders, max: int, op: Op, now: Time, k: string)
    requires Placed(l, orders) && max <= 0
    ensures SameAt(StoreTable(StoreStep(c, l, orders, max, op, now)), Mem(c, StoreTable(orders), op, now).0, k)
  {
    var r, i := StoreStep(c, l, orders, max, op, now), l.Index(k);
    StorePlaced(c, l, orders, max, op, now);
    StoreLookup(l, orders, k);
    StoreLookup(l, r, k);
    if op.Sweep? {
      StepIsMem(c, orders[i], max, op, now);
      MemSweepAtKey(c, TableOf(orders[i]), StoreTable(orders), now, k);
    } else {
      IndexInRange(l, op.key);
      if i == l.Index(op.key) {
        StepIsMem(c, orders[i], max, op, now);
      }
      MemAtKey(c, TableOf(orders[i]), StoreTable(orders), op, now, k);
    }
  }

  lemma MemSweepAtKey(c: Codec, s: Table, t: Table, now: Time, k: string)
    requires (k in s <==> k in t) && (k in s ==> s[k] == t[k])
    ensures k in Mem(c, s, Sweep, now).0 <==> k in Mem(c, t, Sweep, now).0
    ensures k in Mem(c, s, Sweep, now).0 ==> Mem(c, s, Sweep, now).0[k] == Mem(c, t, Sweep, now).0[k]
  {
  }

  /** A single-key operation treats k alike in two tables that agree on k and on its own key. */
  lemma MemAtKey(c: Codec, s: Table, t: Table, op: Op, now: Time, k: string)
    requires !op.Sweep?
    requires (k in s <==> k in t) && (k in s ==> s[k] == t[k])
    ensures k == op.key ==> (k in Mem(c, s, op, now).0 <==> k in Mem(c, t, op, now).0)
    ensures k == op.key && k in Mem(c, s, op, now).0 ==> Mem(c, s, op, now).0[k] == Mem(c, t, op, now).0[k]
    ensures k != op.key ==> (k in Mem(c, t, op, now).0 <==> k in t)
    ensures k != op.key && k in t ==> Mem(c, t, op, now).0[k] == t[k]
    ensures k != op.key ==> (k in Mem(c, s, op, now).0 <==> k in s)
    ensures k != op.key && k in s ==> Mem(c, s, op, now).0[k] == s[k]
  {
  }

  // ---- Totals ----------------------------------------------------------------------------------

  function TotalBytes(orders: Orders): (n: nat) {
    if orders == [] then 0 else Total(orders[0]) + TotalBytes(orders[1..])
  }

  function TotalItems(orders: Orders): (n: nat) {
    if orders == [] then 0 else |orders[0]| + TotalItems(orders[1..])
  }

  function TotalDead(orders: Orders, now: Time): (n: nat) {
    if orders == [] then 0 else |DeadKeys(orders[0], now)| + TotalDead(orders[1..], now)
  }

  lemma {:induction false} CountFrom(l: Layout, orders: Orders, base: nat, now: Time)
    requires PlacedFrom(l, orders, base)
    requires forall i :: 0 <= i < |orders| ==> Distinct(orders[i])
    ensures |StoreTable(orders)| == TotalItems(orders)
    ensures |ExpiredKeys(StoreTable(orders), now)| == TotalDead(orders, now)
  {
    if orders != [] {
      PlacedTail(l, orders, base);
      CountFrom(l, orders[1..], base + 1, now);
      HeadDisjoint(l, orders, base);
      DisjointUnion(TableOf(orders[0]), StoreTable(orders[1..]), now);
      TableCount(orders[0]);
      DeadKeysTable(orders[0], now);
    }
  }

  lemma HeadDisjoint(l: Layout, orders: Orders, base: nat)
    requires PlacedFrom(l, orders, base) && orders != []
    ensures forall k :: k in TableOf(orders[0]) ==> k !in StoreTable(orders[1..])
  {
    forall k | k in TableOf(orders[0])
      ensures k !in StoreTable(orders[1..])
    {
      HeadKeyNotInTail(l, orders, base, k);
    }
  }

  lemma HeadKeyNotInTail(l: Layout, orders: Orders, base: nat, k: string)
    requires PlacedFrom(l, orders, base) && orders != [] && k in TableOf(orders[0])
    ensures k !in StoreTable(orders[1..])
  {
    PlacedTail(l, orders, base);
    TableLookup(orders[0], k);
    assert ItemOf(orders[0], k) in orders[0];
    LookupFrom(l, orders[1..], base + 1, k);
  }

  lemma DisjointUnion(a: Table, b: Table, now: Time)
    requires forall k :: k in a ==> k !in b
    ensures |a + b| == |a| + |b|
    ensures |ExpiredKeys(a + b, now)| == |ExpiredKeys(a, now)| + |ExpiredKeys(b, now)|
  {
    DisjointCount(a, b);
    var x, y := ExpiredKeys(a, now), ExpiredKeys(b, now);
    ExpiredUnion(a, b, now);
    assert x !! y;
    assert |x + y| == |x| + |y|;
  }

  lemma ExpiredUnion(a: Table, b: Table, now: Time)
    requires forall k :: k in a ==> k !in b
    ensures ExpiredKeys(a + b, now) == ExpiredKeys(a, now) + ExpiredKeys(b, now)
  {
  }

  lemma DisjointCount(a: Table, b: Table)
    requires forall k :: k in a ==> k !in b
    ensures |a + b| == |a| + |b|
  {
    assert a.Keys !! b.Keys;
    assert |a.Keys + b.Keys| == |a.Keys| + |b.Keys|;
    assert (a + b).Keys == a.Keys + b.Keys;
    assert |(a + b).Keys| == |a + b| && |a.Keys| == |a| && |b.Keys| == |b|;
  }

  lemma TableCount(o: Order)
    requires Distinct(o)
    ensures |TableOf(o)| == |o|
  {
    CountKeys(o);
    forall k
      ensures k in TableOf(o) <==> k in Keys(o)
    {
      TableLookup(o, k);
    }
    assert TableOf(o).Keys == Keys(o);
  }

  /** Len, the sum over shards, is the number of distinct keys; a sweep's total is the number of expired ones. */
  lemma StoreCounts(l: Layout, orders: Orders, now: Time)
    requires Placed(l, orders)
    ensures TotalItems(orders) == |StoreTable(orders)|
    ensures TotalDead(orders, now) == |ExpiredKeys(StoreTable(orders), now)|
  {
    CountFrom(l, orders, 0, now);
  }

  function StoreAnswer(c: Codec, l: Layout, orders: Orders, op: Op, now: Time): (r: Reply)
    requires |orders| == l.shards
  {
    if op.Sweep? then Swept(TotalDead(orders, now))
    else
      IndexInRange(l, op.key);
      Answer(c, orders[l.Index(op.key)], op, now)
  }

  /** ... and same answers. */
  lemma StoreAnswerIsMem(c: Codec, l: Layout, orders: Orders, op: Op, now: Time)
    requires Placed(l, orders)
    ensures StoreAnswer(c, l, orders, op, now) == Mem(c, StoreTable(orders), op, now).1
  {
    if op.Sweep? {
      StoreCounts(l, orders, now);
    } else {
      StoreLookup(l, orders, op.key);
      AnswerIsMem(c, orders[l.Index(op.key)], op, now);
      MemReplyAtKey(c, TableOf(orders[l.Index(op.key)]), StoreTable(orders), op, now);
    }
  }

  lemma MemReplyAtKey(c: Codec, s: Table, t: Table, op: Op, now: Time)
    requires !op.Sweep?
    requires (op.key in s <==> op.key in t) && (op.key in s ==> s[op.key] == t[op.key])
    ensures Mem(c, s, op, now).1 == Mem(c, t, op, now).1
  {
  }

  // ---- The memory budget -----------------------------------------------------------------------

  /** The per-shard limit computed by `New`: int64 arithmetic, truncating division, 0 for "no limit". */
  function PerShardMax(maxMemoryMB: nat, numShards: nat): (n: int)
    requires numShards > 0
  {
    if maxMemoryMB > 0 then TruncDiv(Wrap64(maxMemoryMB * 1024 * 1024), numShards) else 0
  }

  /** Go's `/` rounds toward zero. */
  function TruncDiv(a: int, n: int): int
    requires n > 0
  {
    if a >= 0 then a / n else -((-a) / n)
  }

  lemma {:induction false} BytesBounded(orders: Orders, max: int)
    requires max > 0
    requires forall i :: 0 <= i < |orders| ==> Total(orders[i]) <= max
    ensures TotalBytes(orders) <= |orders| * max
  {
    if orders != [] {
      var tail := orders[1..];
      assert forall i :: 0 <= i < |tail| ==> tail[i] == orders[i + 1];
      BytesBounded(tail, max);
      assert |orders| * max == |tail| * max + max;
    }
  }

  function StoreAll(c: Codec, l: Layout, max: int, run: seq<Call>): (r: Orders)
    ensures |r| == l.shards
  {
    if run == [] then seq(l.shards, _ => [])
    else StoreStep(c, l, StoreAll(c, l, max, run[..|run| - 1]), max, run[|run| - 1].op, run[|run| - 1].now)
  }

  lemma {:induction false} EveryShardWithinBudget(c: Codec, l: Layout, max: int, run: seq<Call>)
    requires max > 0
    ensures Placed(l, StoreAll(c, l, max, run))
    ensures forall i :: 0 <= i < l.shards ==> Total(StoreAll(c, l, max, run)[i]) <= max
  {
    if run != [] {
      var last := |run| - 1;
      var before := StoreAll(c, l, max, run[..last]);
      EveryShardWithinBudget(c, l, max, run[..last]);
      StorePlaced(c, l, before, max, run[last].op, run[last].now);
      forall i | 0 <= i < l.shards
        ensures Total(StoreAll(c, l, max, run)[i]) <= max
      {
        StepWithinBudget(c, before[i], max, run[last].op, run[last].now);
      }
    }
  }

  lemma BudgetSplits(maxMemoryMB: nat, n: nat)
    requires n > 0 && PerShardMax(maxMemoryMB, n) > 0
    ensures n * PerShardMax(maxMemoryMB, n) <= maxMemoryMB * 1024 * 1024
  {
    var w := Wrap64(maxMemoryMB * 1024 * 1024);
    QuotientSign(w, n);
    assert n * (w / n) <= w;
  }

  /** Short of overflow the shards share the whole budget but for less than a byte each. */
  lemma BudgetIsShared(maxMemoryMB: nat, n: nat)
    requires n > 0 && IsInt64(maxMemoryMB * 1024 * 1024)
    ensures n * PerShardMax(maxMemoryMB, n) <= maxMemoryMB * 1024 * 1024 < n * (PerShardMax(maxMemoryMB, n) + 1)
  {
    var bytes := maxMemoryMB * 1024 * 1024;
    assert bytes == n * (bytes / n) + bytes % n;
  }

  lemma QuotientSign(w: int, n: nat)
    requires n > 0
    ensures TruncDiv(w, n) > 0 ==> w > 0 && TruncDiv(w, n) == w / n
  {
  }

  /** Over any run the store never accounts for more bytes than MaxMemoryMB allows,
      whenever the configuration leaves each shard a positive budget. */
  lemma GlobalBudget(c: Codec, l: Layout, maxMemoryMB: nat, run: seq<Call>)
    requires PerShardMax(maxMemoryMB, l.shards) > 0
    ensures TotalBytes(StoreAll(c, l, PerShardMax(maxMemoryMB, l.shards), run)) <= maxMemoryMB * 1024 * 1024
  {
    var max := PerShardMax(maxMemoryMB, l.shards);
    EveryShardWithinBudget(c, l, max, run);
    BytesBounded(StoreAll(c, l, max, run), max);
    BudgetSplits(maxMemoryMB, l.shards);
  }

  /** Every run of the store stays within MaxMemoryMB, by its own accounting. */
  ghost predicate KeepsBudget(c: Codec, l: Layout, maxMemoryMB: nat) {
    forall run :: TotalBytes(StoreAll(c, l, PerShardMax(maxMemoryMB, l.shards), run)) <= maxMemoryMB * 1024 * 1024
  }

  lemma {:induction false} ShardWithinTotal(orders: Orders, i: nat)
    requires i < |orders|
    ensures Total(orders[i]) <= TotalBytes(orders)
  {
    if i > 0 {
      ShardWithinTotal(orders[1..], i - 1);
    }
  }

  /** A shard without a budget takes a value of any length. */
  lemma OneSetExceeds(c: Codec, l: Layout, max: int, bytes: nat) returns (run: seq<Call>)
    requires max <= 0
    ensures TotalBytes(StoreAll(c, l, max, run)) > bytes
  {
    var call := Call(Set("", seq(bytes, _ => 0), 0), 0);
    run := [call];
    assert run[..0] == [];
    var empty := seq(l.shards, _ => []);
    assert StoreAll(c, l, max, run[..0]) == empty;
    var after := StoreStep(c, l, empty, max, call.op, call.now);
    assert StoreAll(c, l, max, run) == after;
    IndexInRange(l, "");
    var i := l.Index("");
    OneItem(c, max, call);
    ShardWithinTotal(after, i);
  }

  lemma OneItem(c: Codec, max: int, call: Call)
    requires max <= 0 && call.op.Set?
    ensures Total(Step(c, [], max, call.op, call.now)) > |call.op.value|
  {
    var o := Step(c, [], max, call.op, call.now);
    assert |o| == 1 && o[1..] == [];
  }

  /** The store keeps within MaxMemoryMB over every run exactly if the configuration leaves each shard a positive
      budget: otherwise a shard has no limit at all. */
  lemma KeepsBudgetIff(c: Codec, l: Layout, maxMemoryMB: nat)
    ensures KeepsBudget(c, l, maxMemoryMB) <==> PerShardMax(maxMemoryMB, l.shards) > 0
  {
    if PerShardMax(maxMemoryMB, l.shards) > 0 {
      forall run
        ensures TotalBytes(StoreAll(c, l, PerShardMax(maxMemoryMB, l.shards), run)) <= maxMemoryMB * 1024 * 1024
      {
        GlobalBudget(c, l, maxMemoryMB, run);
      }
    } else {
      var run := OneSetExceeds(c, l, PerShardMax(maxMemoryMB, l.shards), maxMemoryMB * 1024 * 1024);
    }
  }

  /** Short of int64 overflow, the budget is positive exactly when there are no more shards than bytes. */
  lemma BudgetPositiveIff(maxMemoryMB: nat, n: nat)
    requires n > 0 && IsInt64(maxMemoryMB * 1024 * 1024)
    ensures PerShardMax(maxMemoryMB, n) > 0 <==> n <= maxMemoryMB * 1024 * 1024
  {
    DivPositiveIff(maxMemoryMB * 1024 * 1024, n);
  }

  lemma DivPositiveIff(w: nat, n: nat)
    requires n > 0
    ensures w / n > 0 <==> n <= w
  {
    var q := w / n;
    assert w == n * q + w % n;
    if q > 0 {
      assert n * q >= n;
    }
  }

  // ---- Whole runs against the reference --------------------------------------------------------

  function StoreTrace(c: Codec, l: Layout, orders: Orders, run: seq<Call>): (replies: seq<Reply>)
    requires |orders| == l.shards
    decreases |run|
  {
    if run == [] then []
    else
      var op, now := run[0].op, run[0].now;
      Shown(op, StoreAnswer(c, l, orders, op, now)) + StoreTrace(c, l, StoreStep(c, l, orders, 0, op, now), run[1..])
  }

  lemma {:induction false} StoreTraceIsMem(c: Codec, l: Layout, orders: Orders, run: seq<Call>)
    requires Placed(l, orders)
    ensures StoreTrace(c, l, orders, run) == MemTrace(c, StoreTable(orders), run)
    decreases |run|
  {
    if run != [] {
      var op, now := run[0].op, run[0].now;
      StoreStepIsMem(c, l, orders, 0, op, now);
      StorePlaced(c, l, orders, 0, op, now);
      StoreAnswerIsMem(c, l, orders, op, now);
      StoreTraceIsMem(c, l, StoreStep(c, l, orders, 0, op, now), run[1..]);
    }
  }

  /** With no memory limit the sharded LRU store, sweeps included, answers every run as the reference
      map of keys to values and deadlines does. */
  lemma ShardedStoreRefinesSpec(c: Codec, l: Layout, orders: Orders, run: seq<Call>, from: Time)
    requires Placed(l, orders) && Timely(run, from)
    ensures StoreTrace(c, l, orders, run) == SpecTrace(c, StoreTable(orders), run)
  {
    StoreTraceIsMem(c, l, orders, run);
    StoreRefinesSpec(c, StoreTable(orders), StoreTable(orders), run, from);
  }
}
