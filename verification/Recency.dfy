/** The contents of one shard as a sequence of items, most recently used first, and what each
    operation does to that sequence. */
module Recency {
  import opened Base
  import opened TtlMap

  datatype Item = Item(key: string, rec: Rec, size: nat)
  type Order = seq<Item>

  /** `EstimateSize`: key and value bytes plus a fixed overhead. */
  function EstimateSize(key: string, value: Bytes): (n: nat)
    ensures n >= 184
  {
    |key| + |value| + 184
  }

  function Total(o: Order): (n: nat) {
    if o == [] then 0 else o[0].size + Total(o[1..])
  }

  ghost predicate Distinct(o: Order) {
    forall i, j :: 0 <= i < j < |o| ==> o[i].key != o[j].key
  }

  ghost predicate Sized(o: Order) {
    forall i :: 0 <= i < |o| ==> o[i].size == EstimateSize(o[i].key, o[i].rec.value)
  }

  ghost predicate WellFormed(o: Order) {
    Distinct(o) && Sized(o)
  }

  predicate Has(o: Order, k: string) {
    exists i :: 0 <= i < |o| && o[i].key == k
  }

  function IndexOf(o: Order, k: string): (i: nat)
    requires Has(o, k)
    ensures i < |o| && o[i].key == k
    ensures forall j :: 0 <= j < i ==> o[j].key != k
  {
    if o[0].key == k then 0
    else
      assert Has(o[1..], k) by {
        var i :| 0 <= i < |o| && o[i].key == k;
        assert o[1..][i - 1].key == k;
      }
      1 + IndexOf(o[1..], k)
  }

  function ItemOf(o: Order, k: string): (x: Item)
    requires Has(o, k)
    ensures x in o && x.key == k
  {
    o[IndexOf(o, k)]
  }

  /** The order without the items of these keys. */
  function Drop(o: Order, gone: set<string>): (r: Order) {
    if o == [] then [] else (if o[0].key in gone then [] else [o[0]]) + Drop(o[1..], gone)
  }

  /** Evict from the back until the total fits; a limit of 0 or less is no limit. */
  function Evicted(o: Order, max: int): (r: Order)
    ensures r <= o
  {
    if max <= 0 || Total(o) <= max || o == [] then o
    else
      assert o[..|o| - 1] <= o;
      Evicted(o[..|o| - 1], max)
  }

  function Front(o: Order, x: Item): (r: Order) {
    [x] + Drop(o, {x.key})
  }

  function MakeItem(key: string, rec: Rec): (x: Item) {
    Item(key, rec, EstimateSize(key, rec.value))
  }

  function DeadKeys(o: Order, now: Time): (r: set<string>) {
    set x | x in o && Expired(x.rec, now) :: x.key
  }

  function ReapedOrder(o: Order, k: string, now: Time): (r: Order) {
    if Has(o, k) && Expired(ItemOf(o, k).rec, now) then Drop(o, {k}) else o
  }

  /** What an operation leaves of the order. */
  function Step(c: Codec, o: Order, max: int, op: Op, now: Time): (r: Order) {
    match op
    case Get(k) =>
      if Has(o, k) && !Expired(ItemOf(o, k).rec, now) then Front(o, ItemOf(o, k)) else ReapedOrder(o, k, now)
    case Set(k, v, ttl) => Evicted(Front(o, MakeItem(k, Rec(v, DeadlineFor(ttl, now)))), max)
    case Delete(k) => Drop(o, {k})
    case Exists(k) => ReapedOrder(o, k, now)
    case TTL(k) => ReapedOrder(o, k, now)
    case Incr(k, delta, ttl) =>
      (match IncrRec(c, LiveIn(o, k, now), delta, ttl, now)
       case None => o
       case Some(p) => Evicted(Front(o, MakeItem(k, p.0)), max))
    case Sweep => Drop(o, DeadKeys(o, now))
    case ExistsPeek(_) => o
    case TTLPeek(_) => o
    case Reap(k) => ReapedOrder(o, k, now)
  }

  function LiveIn(o: Order, k: string, now: Time): (r: Option<Rec>) {
    if Has(o, k) && !Expired(ItemOf(o, k).rec, now) then Some(ItemOf(o, k).rec) else None
  }

  /** What an operation answers. */
  function Answer(c: Codec, o: Order, op: Op, now: Time): (r: Reply) {
    match op
    case Get(k) => Value(if LiveIn(o, k, now).Some? then Some(LiveIn(o, k, now).value.value) else None)
    case Set(_, _, _) => Done
    case Delete(k) => Flag(Has(o, k))
    case Exists(k) => Flag(LiveIn(o, k, now).Some?)
    case ExistsPeek(k) => Flag(LiveIn(o, k, now).Some?)
    case TTL(k) => TTLReply(LiveIn(o, k, now), now)
    case TTLPeek(k) => TTLReply(LiveIn(o, k, now), now)
    case Incr(k, delta, ttl) =>
      var inc := IncrRec(c, LiveIn(o, k, now), delta, ttl, now);
      if inc.Some? then Counter(inc.value.1) else Failed
    case Sweep => Swept(|DeadKeys(o, now)|)
    case Reap(_) => Done
  }

  // ---- Sequence facts --------------------------------------------------------------------------

  lemma {:induction false} DropMembers(o: Order, gone: set<string>)
    ensures forall x :: x in Drop(o, gone) <==> x in o && x.key !in gone
  {
    if o != [] {
      DropMembers(o[1..], gone);
      assert o == [o[0]] + o[1..];
    }
  }

  lemma {:induction false} DropDistinct(o: Order, gone: set<string>)
    requires Distinct(o)
    ensures Distinct(Drop(o, gone))
  {
    if o != [] {
      var tail := o[1..];
      assert forall k :: 0 <= k < |tail| ==> tail[k] == o[k + 1];
      DropDistinct(tail, gone);
      DropMembers(tail, gone);
      if o[0].key !in gone {
        DistinctCons(o[0], Drop(tail, gone));
      } else {
        assert Drop(o, gone) == Drop(tail, gone);
      }
    }
  }

  lemma DistinctCons(x: Item, o: Order)
    requires Distinct(o)
    requires forall y :: y in o ==> y.key != x.key
    ensures Distinct([x] + o)
  {
    var r := [x] + o;
    assert forall k :: 0 < k < |r| ==> r[k] == o[k - 1] && r[k] in o;
  }

  lemma HasIff(o: Order, k: string)
    ensures Has(o, k) <==> exists x :: x in o && x.key == k
  {
    if Has(o, k) {
      assert ItemOf(o, k) in o;
    }
    if x :| x in o && x.key == k {
      var i :| 0 <= i < |o| && o[i] == x;
      assert o[i].key == k;
    }
  }

  lemma ItemOfUnique(o: Order, x: Item)
    requires Distinct(o) && x in o
    ensures Has(o, x.key) && ItemOf(o, x.key) == x
  {
    var i :| 0 <= i < |o| && o[i] == x;
    assert o[i].key == x.key;
    assert IndexOf(o, x.key) == i;
  }

  lemma {:induction false} DropAbsent(o: Order, gone: set<string>)
    requires forall x :: x in o ==> x.key !in gone
    ensures Drop(o, gone) == o
  {
    if o != [] {
      DropAbsent(o[1..], gone);
      assert o == [o[0]] + o[1..];
    }
  }

  lemma {:induction false} DropDrop(o: Order, a: set<string>, b: set<string>)
    ensures Drop(Drop(o, a), b) == Drop(o, a + b)
  {
    if o != [] {
      var d := Drop(o[1..], a);
      DropDrop(o[1..], a, b);
      assert ([o[0]] + d)[1..] == d && [] + d == d;
    }
  }

  lemma DistinctTail(o: Order)
    requires Distinct(o) && o != []
    ensures Distinct(o[1..]) && forall x :: x in o[1..] ==> x.key != o[0].key
  {
    var tail := o[1..];
    forall x | x in tail
      ensures x.key != o[0].key
    {
      var k :| 0 <= k < |tail| && tail[k] == x;
      assert x == o[k + 1];
    }
  }

  /** Dropping the key at position i takes out exactly that position. */
  lemma {:induction false} DropAt(o: Order, i: nat)
    requires Distinct(o) && i < |o|
    ensures Drop(o, {o[i].key}) == o[..i] + o[i + 1..]
  {
    var tail := o[1..];
    DistinctTail(o);
    if i == 0 {
      DropAbsent(tail, {o[0].key});
      assert o[..0] + o[1..] == tail;
    } else {
      assert tail[i - 1] == o[i];
      DropAt(tail, i - 1);
      WithoutAt(o, i);
      assert o[0].key != o[i].key;
    }
  }

  lemma {:induction false} TotalAppend(a: Order, b: Order)
    ensures Total(a + b) == Total(a) + Total(b)
  {
    if a == [] {
      assert a + b == b;
    } else {
      assert (a + b)[1..] == a[1..] + b;
      TotalAppend(a[1..], b);
    }
  }

  lemma {:induction false} TotalWithout(o: Order, i: nat)
    requires i < |o|
    ensures Total(o[..i] + o[i + 1..]) == Total(o) - o[i].size
  {
    var tail := o[1..];
    if i == 0 {
      assert o[..0] + o[1..] == tail;
    } else {
      TotalWithout(tail, i - 1);
      assert tail[i - 1] == o[i];
      WithoutAt(o, i);
      TotalCons(o[0], tail[..i - 1] + tail[i..]);
    }
  }

  lemma TotalCons(x: Item, o: Order)
    ensures Total([x] + o) == x.size + Total(o)
  {
    assert ([x] + o)[1..] == o;
  }

  /** Taking out one item takes out its bytes. */
  lemma DropOne(o: Order, i: nat)
    requires WellFormed(o) && i < |o|
    ensures WellFormed(Drop(o, {o[i].key}))
    ensures Total(Drop(o, {o[i].key})) == Total(o) - o[i].size
  {
    DropWellFormed(o, {o[i].key});
    DropAt(o, i);
    TotalWithout(o, i);
  }

  /** Putting in a new item. */
  lemma Newcomer(o: Order, x: Item)
    requires WellFormed(o) && !Has(o, x.key) && x.size == EstimateSize(x.key, x.rec.value)
    ensures WellFormed([x] + o)
    ensures Total([x] + o) == x.size + Total(o)
  {
    HasIff(o, x.key);
    DistinctCons(x, o);
    assert ([x] + o)[1..] == o;
  }

  /** Taking out the oldest item. */
  lemma LastOut(o: Order)
    requires WellFormed(o) && o != []
    ensures WellFormed(o[..|o| - 1])
    ensures Total(o[..|o| - 1]) == Total(o) - o[|o| - 1].size
  {
    var n := |o| - 1;
    PrefixWellFormed(o[..n], o);
    TotalWithout(o, n);
    assert o[..n] + o[n + 1..] == o[..n];
  }

  lemma PrefixWellFormed(r: Order, o: Order)
    requires r <= o && WellFormed(o)
    ensures WellFormed(r)
  {
  }

  lemma FrontWellFormed(o: Order, x: Item)
    requires WellFormed(o) && x.size == EstimateSize(x.key, x.rec.value)
    ensures WellFormed(Front(o, x))
  {
    DropWellFormed(o, {x.key});
    DropMembers(o, {x.key});
    DistinctCons(x, Drop(o, {x.key}));
    var f := Front(o, x);
    assert forall i :: 0 < i < |f| ==> f[i] == Drop(o, {x.key})[i - 1];
  }

  lemma DropWellFormed(o: Order, gone: set<string>)
    requires WellFormed(o)
    ensures WellFormed(Drop(o, gone))
  {
    DropDistinct(o, gone);
    DropMembers(o, gone);
    var d := Drop(o, gone);
    forall i | 0 <= i < |d|
      ensures d[i].size == EstimateSize(d[i].key, d[i].rec.value)
    {
      assert d[i] in o;
    }
  }

  lemma StepWellFormed(c: Codec, o: Order, max: int, op: Op, now: Time)
    requires WellFormed(o)
    ensures WellFormed(Step(c, o, max, op, now))
  {
    match op
    case Get(k) =>
      if Has(o, k) {
        var x := ItemOf(o, k);
        DropWellFormed(o, {k});
        FrontWellFormed(o, x);
      }
    case Set(k, v, ttl) =>
      var x := MakeItem(k, Rec(v, DeadlineFor(ttl, now)));
      FrontWellFormed(o, x);
      PrefixWellFormed(Evicted(Front(o, x), max), Front(o, x));
    case Incr(k, delta, ttl) =>
      var inc := IncrRec(c, LiveIn(o, k, now), delta, ttl, now);
      if inc.Some? {
        var x := MakeItem(k, inc.value.0);
        FrontWellFormed(o, x);
        PrefixWellFormed(Evicted(Front(o, x), max), Front(o, x));
      }
    case Delete(k) => DropWellFormed(o, {k});
    case Exists(k) => DropWellFormed(o, {k});
    case TTL(k) => DropWellFormed(o, {k});
    case Reap(k) => DropWellFormed(o, {k});
    case Sweep => DropWellFormed(o, DeadKeys(o, now));
    case ExistsPeek(_) =>
    case TTLPeek(_) =>
  }

  // ---- Eviction --------------------------------------------------------------------------------

  /** r is the longest most-recent-first prefix of o whose total fits. */
  ghost predicate IsLongestFit(r: Order, o: Order, max: int) {
    && r <= o
    && Total(r) <= max
    && forall n :: 0 <= n <= |o| && Total(o[..n]) <= max ==> n <= |r|
  }

  /** Eviction keeps exactly the longest recency prefix that fits the budget. */
  lemma {:induction false} EvictionIsLongestFit(o: Order, max: int)
    requires max > 0
    ensures IsLongestFit(Evicted(o, max), o, max)
  {
    if Total(o) > max && o != [] {
      var shorter := o[..|o| - 1];
      EvictionIsLongestFit(shorter, max);
      forall n | 0 <= n <= |o| && Total(o[..n]) <= max
        ensures n <= |Evicted(o, max)|
      {
        assert o[..|o|] == o;
        assert n < |o|;
        assert o[..n] == shorter[..n];
      }
    }
  }

  /** A new entry survives its own Set exactly when it fits the budget alone; otherwise the shard is emptied. */
  lemma NewEntrySurvivesIff(o: Order, x: Item, max: int)
    requires max > 0
    ensures x.size <= max <==> Evicted(Front(o, x), max) != [] && Evicted(Front(o, x), max)[0] == x
    ensures x.size > max ==> Evicted(Front(o, x), max) == []
  {
    var f := Front(o, x);
    EvictionIsLongestFit(f, max);
    assert f[..1] == [x];
    assert [x][1..] == [];
    assert Total([x]) == x.size + Total([]);
    var r := Evicted(f, max);
    if r != [] {
      assert r[0] == x && Total(r) >= x.size;
    }
  }

  // ---- The budget over whole runs --------------------------------------------------------------

  function StepAll(c: Codec, o: Order, max: int, run: seq<Call>): (r: Order) {
    if run == [] then o
    else Step(c, StepAll(c, o, max, run[..|run| - 1]), max, run[|run| - 1].op, run[|run| - 1].now)
  }

  lemma {:induction false} DropShrinks(o: Order, gone: set<string>)
    ensures Total(Drop(o, gone)) <= Total(o)
  {
    if o != [] {
      DropShrinks(o[1..], gone);
      TotalAppend(if o[0].key in gone then [] else [o[0]], Drop(o[1..], gone));
      assert [o[0]][1..] == [];
    }
  }

  lemma {:induction false} DropOneShrinks(o: Order, i: nat)
    requires Distinct(o) && i < |o|
    ensures Total(Front(o, o[i])) == Total(o)
  {
    DropAt(o, i);
    TotalWithout(o, i);
    TotalAppend([o[i]], Drop(o, {o[i].key}));
    assert [o[i]][1..] == [];
    assert Total([o[i]]) == o[i].size + Total([]);
  }

  lemma StepWithinBudget(c: Codec, o: Order, max: int, op: Op, now: Time)
    requires max > 0 && Distinct(o) && Total(o) <= max
    ensures Total(Step(c, o, max, op, now)) <= max
  {
    match op
    case Get(k) =>
      DropShrinks(o, {k});
      if Has(o, k) { DropOneShrinks(o, IndexOf(o, k)); }
    case Set(k, v, ttl) => EvictionIsLongestFit(Front(o, MakeItem(k, Rec(v, DeadlineFor(ttl, now)))), max);
    case Incr(k, delta, ttl) =>
      var inc := IncrRec(c, LiveIn(o, k, now), delta, ttl, now);
      if inc.Some? { EvictionIsLongestFit(Front(o, MakeItem(k, inc.value.0)), max); }
    case Delete(k) => DropShrinks(o, {k});
    case Exists(k) => DropShrinks(o, {k});
    case TTL(k) => DropShrinks(o, {k});
    case Reap(k) => DropShrinks(o, {k});
    case Sweep => DropShrinks(o, DeadKeys(o, now));
    case ExistsPeek(_) =>
    case TTLPeek(_) =>
  }

  /** A shard with a positive budget never accounts for more than it, over any run. */
  lemma {:induction false} RunWithinBudget(c: Codec, max: int, run: seq<Call>)
    requires max > 0
    ensures WellFormed(StepAll(c, [], max, run))
    ensures Total(StepAll(c, [], max, run)) <= max
  {
    if run != [] {
      var last := |run| - 1;
      RunWithinBudget(c, max, run[..last]);
      StepWellFormed(c, StepAll(c, [], max, run[..last]), max, run[last].op, run[last].now);
      StepWithinBudget(c, StepAll(c, [], max, run[..last]), max, run[last].op, run[last].now);
    }
  }

  // ---- The order is the order of last use ------------------------------------------------------

  /** The key an operation marks as just used, if any: a Set, a Get that hits, an Incr that succeeds. */
  function Touched(c: Codec, o: Order, op: Op, now: Time): (k: Option<string>) {
    match op
    case Set(k, _, _) => Some(k)
    case Get(k) => if LiveIn(o, k, now).Some? then Some(k) else None
    case Incr(k, delta, ttl) => if IncrRec(c, LiveIn(o, k, now), delta, ttl, now).Some? then Some(k) else None
    case _ => None
  }

  /** The keys in the order in which a run used them. */
  function Uses(c: Codec, o: Order, max: int, run: seq<Call>): (log: seq<string>) {
    if run == [] then []
    else
      var before := run[..|run| - 1];
      var t := Touched(c, StepAll(c, o, max, before), run[|run| - 1].op, run[|run| - 1].now);
      Uses(c, o, max, before) + if t.Some? then [t.value] else []
  }

  /** The last index of k in the log, -1 if it never occurs. */
  function LastUse(log: seq<string>, k: string): (i: int)
    ensures -1 <= i < |log|
    ensures i >= 0 ==> log[i] == k
    ensures forall j :: i < j < |log| ==> log[j] != k
  {
    if log == [] then -1
    else if log[|log| - 1] == k then |log| - 1
    else LastUse(log[..|log| - 1], k)
  }

  ghost predicate OrderedByUse(o: Order, log: seq<string>) {
    && (forall i :: 0 <= i < |o| ==> o[i].key in log)
    && (forall i, j :: 0 <= i < j < |o| ==> LastUse(log, o[i].key) > LastUse(log, o[j].key))
  }

  lemma LastUseSnoc(log: seq<string>, x: string, k: string)
    ensures LastUse(log + [x], k) == if k == x then |log| else LastUse(log, k)
  {
    assert (log + [x])[..|log|] == log;
  }

  lemma OrderedCons(x: Item, o: Order, log: seq<string>)
    requires OrderedByUse(o, log) && x.key in log
    requires forall y :: y in o ==> LastUse(log, x.key) > LastUse(log, y.key)
    ensures OrderedByUse([x] + o, log)
  {
    var r := [x] + o;
    assert forall k :: 0 < k < |r| ==> r[k] == o[k - 1] && r[k] in o;
  }

  lemma OrderedTail(o: Order, log: seq<string>)
    requires OrderedByUse(o, log) && o != []
    ensures OrderedByUse(o[1..], log)
    ensures forall y :: y in o[1..] ==> LastUse(log, o[0].key) > LastUse(log, y.key)
  {
    assert forall k :: 0 <= k < |o[1..]| ==> o[1..][k] == o[k + 1];
  }

  lemma {:induction false} DropOrdered(o: Order, gone: set<string>, log: seq<string>)
    requires OrderedByUse(o, log)
    ensures OrderedByUse(Drop(o, gone), log)
  {
    if o != [] {
      OrderedTail(o, log);
      DropOrdered(o[1..], gone, log);
      DropMembers(o[1..], gone);
      if o[0].key !in gone {
        OrderedCons(o[0], Drop(o[1..], gone), log);
      } else {
        assert Drop(o, gone) == Drop(o[1..], gone);
      }
    }
  }

  lemma OrderedAfterUse(o: Order, log: seq<string>, k: string)
    requires OrderedByUse(o, log)
    requires forall y :: y in o ==> y.key != k
    ensures OrderedByUse(o, log + [k])
    ensures forall y :: y in o ==> LastUse(log + [k], y.key) < |log|
  {
    forall i | 0 <= i < |o|
      ensures LastUse(log + [k], o[i].key) == LastUse(log, o[i].key)
      ensures o[i].key in log + [k]
    {
      assert o[i] in o;
      LastUseSnoc(log, k, o[i].key);
    }
  }

  lemma FrontOrdered(o: Order, x: Item, log: seq<string>)
    requires OrderedByUse(o, log)
    ensures OrderedByUse(Front(o, x), log + [x.key])
  {
    DropOrdered(o, {x.key}, log);
    DropMembers(o, {x.key});
    OrderedAfterUse(Drop(o, {x.key}), log, x.key);
    LastUseSnoc(log, x.key, x.key);
    assert (log + [x.key])[|log|] == x.key;
    OrderedCons(x, Drop(o, {x.key}), log + [x.key]);
  }

  lemma PrefixOrdered(r: Order, o: Order, log: seq<string>)
    requires r <= o && OrderedByUse(o, log)
    ensures OrderedByUse(r, log)
  {
  }

  lemma InsertOrdered(o: Order, x: Item, max: int, log: seq<string>)
    requires OrderedByUse(o, log)
    ensures OrderedByUse(Evicted(Front(o, x), max), log + [x.key])
  {
    FrontOrdered(o, x, log);
    PrefixOrdered(Evicted(Front(o, x), max), Front(o, x), log + [x.key]);
  }

  lemma GetOrdered(c: Codec, o: Order, max: int, k: string, now: Time, log: seq<string>)
    requires OrderedByUse(o, log)
    ensures var t := Touched(c, o, Get(k), now);
      OrderedByUse(Step(c, o, max, Get(k), now), log + if t.Some? then [t.value] else [])
  {
    assert log + [] == log;
    DropOrdered(o, {k}, log);
    if Has(o, k) { FrontOrdered(o, ItemOf(o, k), log); }
  }

  lemma IncrOrdered(c: Codec, o: Order, max: int, k: string, delta: int, ttl: Time, now: Time, log: seq<string>)
    requires OrderedByUse(o, log)
    ensures var t := Touched(c, o, Incr(k, delta, ttl), now);
      OrderedByUse(Step(c, o, max, Incr(k, delta, ttl), now), log + if t.Some? then [t.value] else [])
  {
    assert log + [] == log;
    var inc := IncrRec(c, LiveIn(o, k, now), delta, ttl, now);
    if inc.Some? { InsertOrdered(o, MakeItem(k, inc.value.0), max, log); }
  }

  /** The operations that use no entry only drop some. */
  lemma QuietOrdered(c: Codec, o: Order, max: int, op: Op, now: Time, log: seq<string>)
    requires OrderedByUse(o, log) && !op.Get? && !op.Set? && !op.Incr?
    ensures OrderedByUse(Step(c, o, max, op, now), log)
  {
    if op.Sweep? {
      DropOrdered(o, DeadKeys(o, now), log);
    } else {
      DropOrdered(o, {op.key}, log);
    }
  }

  lemma StepOrdered(c: Codec, o: Order, max: int, op: Op, now: Time, log: seq<string>)
    requires OrderedByUse(o, log)
    ensures var t := Touched(c, o, op, now);
      OrderedByUse(Step(c, o, max, op, now), log + if t.Some? then [t.value] else [])
  {
    match op
    case Get(k) => GetOrdered(c, o, max, k, now, log);
    case Set(k, v, ttl) => InsertOrdered(o, MakeItem(k, Rec(v, DeadlineFor(ttl, now))), max, log);
    case Incr(k, delta, ttl) => IncrOrdered(c, o, max, k, delta, ttl, now, log);
    case _ =>
      QuietOrdered(c, o, max, op, now, log);
      assert log + [] == log;
  }

  /** Over any run the shard lists its keys by the time of their last Set, Get hit or Incr, latest first. */
  lemma {:induction false} RunOrderedByUse(c: Codec, max: int, run: seq<Call>)
    ensures OrderedByUse(StepAll(c, [], max, run), Uses(c, [], max, run))
  {
    if run != [] {
      var last := |run| - 1;
      RunOrderedByUse(c, max, run[..last]);
      StepOrdered(c, StepAll(c, [], max, run[..last]), max, run[last].op, run[last].now,
                  Uses(c, [], max, run[..last]));
    }
  }

  // ---- As a table ------------------------------------------------------------------------------

  function Keys(o: Order): (r: set<string>) {
    set x | x in o :: x.key
  }

  lemma {:induction false} CountKeys(o: Order)
    requires Distinct(o)
    ensures |Keys(o)| == |o|
  {
    if o != [] {
      var tail := o[1..];
      assert forall k :: 0 <= k < |tail| ==> tail[k] == o[k + 1];
      CountKeys(tail);
      assert o[0].key !in Keys(tail);
      assert Keys(o) == Keys(tail) + {o[0].key};
    }
  }

  function TableOf(o: Order): (t: Table) {
    map k | k in Keys(o) && Has(o, k) :: ItemOf(o, k).rec
  }

  lemma TableLookup(o: Order, k: string)
    ensures k in TableOf(o) <==> Has(o, k)
    ensures k in TableOf(o) <==> k in Keys(o)
    ensures Has(o, k) ==> TableOf(o)[k] == ItemOf(o, k).rec
  {
    HasIff(o, k);
  }

  lemma DropTable(o: Order, gone: set<string>)
    requires Distinct(o)
    ensures TableOf(Drop(o, gone)) == TableOf(o) - gone
  {
    var d := Drop(o, gone);
    DropMembers(o, gone);
    DropDistinct(o, gone);
    forall k
      ensures k in TableOf(d) <==> k in TableOf(o) - gone
      ensures k in TableOf(d) ==> TableOf(d)[k] == TableOf(o)[k]
    {
      TableLookup(o, k);
      TableLookup(d, k);
      HasIff(o, k);
      HasIff(d, k);
      if Has(d, k) { ItemOfUnique(o, ItemOf(d, k)); }
    }
  }

  lemma FrontDistinct(o: Order, x: Item)
    requires Distinct(o)
    ensures Distinct(Front(o, x))
  {
    DropMembers(o, {x.key});
    DropDistinct(o, {x.key});
    DistinctCons(x, Drop(o, {x.key}));
  }

  lemma FrontLookup(o: Order, x: Item, k: string)
    requires Distinct(o)
    ensures Has(Front(o, x), k) <==> k == x.key || Has(o, k)
    ensures Has(Front(o, x), k) ==> ItemOf(Front(o, x), k) == if k == x.key then x else ItemOf(o, k)
  {
    var f := Front(o, x);
    FrontDistinct(o, x);
    DropMembers(o, {x.key});
    HasIff(f, k);
    HasIff(o, k);
    assert f[0] == x;
    if k == x.key {
      ItemOfUnique(f, x);
    } else if Has(o, k) {
      assert ItemOf(o, k) in f;
      ItemOfUnique(f, ItemOf(o, k));
    }
  }

  lemma FrontTable(o: Order, x: Item)
    requires Distinct(o)
    ensures TableOf(Front(o, x)) == TableOf(o)[x.key := x.rec]
  {
    var f := Front(o, x);
    forall k
      ensures k in TableOf(f) <==> k == x.key || k in TableOf(o)
      ensures k in TableOf(f) ==> TableOf(f)[k] == if k == x.key then x.rec else TableOf(o)[k]
    {
      TableLookup(f, k);
      TableLookup(o, k);
      FrontLookup(o, x, k);
    }
  }

  lemma LiveTable(o: Order, k: string, now: Time)
    ensures LiveIn(o, k, now) == Live(TableOf(o), k, now)
  {
    TableLookup(o, k);
  }

  lemma ReapedTable(o: Order, k: string, now: Time)
    requires Distinct(o)
    ensures TableOf(ReapedOrder(o, k, now)) == Reaped(TableOf(o), k, now)
  {
    TableLookup(o, k);
    DropTable(o, {k});
  }

  lemma PromotedTable(o: Order, k: string)
    requires Distinct(o) && Has(o, k)
    ensures TableOf(Front(o, ItemOf(o, k))) == TableOf(o)
  {
    TableLookup(o, k);
    FrontTable(o, ItemOf(o, k));
  }

  lemma GetIsMem(c: Codec, o: Order, max: int, k: string, now: Time)
    requires max <= 0 && Distinct(o)
    ensures TableOf(Step(c, o, max, Get(k), now)) == Mem(c, TableOf(o), Get(k), now).0
  {
    TableLookup(o, k);
    ReapedTable(o, k, now);
    if Has(o, k) { PromotedTable(o, k); }
  }

  lemma IncrIsMem(c: Codec, o: Order, max: int, k: string, delta: int, ttl: Time, now: Time)
    requires max <= 0 && Distinct(o)
    ensures TableOf(Step(c, o, max, Incr(k, delta, ttl), now)) == Mem(c, TableOf(o), Incr(k, delta, ttl), now).0
  {
    LiveTable(o, k, now);
    var inc := IncrRec(c, Live(TableOf(o), k, now), delta, ttl, now);
    IncrTable(o, max, k, inc);
    assert Step(c, o, max, Incr(k, delta, ttl), now)
        == if inc.Some? then Evicted(Front(o, MakeItem(k, inc.value.0)), max) else o;
  }

  /** What Incr makes of the table, given the record it stores if any. */
  lemma IncrTable(o: Order, max: int, k: string, inc: Option<(Rec, int)>)
    requires max <= 0 && Distinct(o)
    ensures TableOf(if inc.Some? then Evicted(Front(o, MakeItem(k, inc.value.0)), max) else o)
         == if inc.Some? then TableOf(o)[k := inc.value.0] else TableOf(o)
  {
    if inc.Some? { FrontTable(o, MakeItem(k, inc.value.0)); }
  }

  /** Without a budget the shard is the table of the in-memory store: same contents after every operation. */
  lemma StepIsMem(c: Codec, o: Order, max: int, op: Op, now: Time)
    requires max <= 0 && Distinct(o)
    ensures TableOf(Step(c, o, max, op, now)) == Mem(c, TableOf(o), op, now).0
  {
    match op
    case Get(k) => GetIsMem(c, o, max, k, now);
    case Set(k, v, ttl) => FrontTable(o, MakeItem(k, Rec(v, DeadlineFor(ttl, now))));
    case Incr(k, delta, ttl) => IncrIsMem(c, o, max, k, delta, ttl, now);
    case Delete(k) => DropTable(o, {k});
    case Exists(k) => ReapedTable(o, k, now);
    case TTL(k) => ReapedTable(o, k, now);
    case Reap(k) => ReapedTable(o, k, now);
    case Sweep =>
      DropTable(o, DeadKeys(o, now));
      DeadKeysTable(o, now);
    case ExistsPeek(_) =>
    case TTLPeek(_) =>
  }

  /** A shard answers every operation, budget or not, as the table of its contents does. */
  lemma AnswerIsMem(c: Codec, o: Order, op: Op, now: Time)
    requires Distinct(o)
    ensures Answer(c, o, op, now) == Mem(c, TableOf(o), op, now).1
  {
    if op.Sweep? {
      DeadKeysTable(o, now);
    } else {
      LiveTable(o, op.key, now);
      TableLookup(o, op.key);
    }
  }

  lemma DeadKeysTable(o: Order, now: Time)
    requires Distinct(o)
    ensures DeadKeys(o, now) == ExpiredKeys(TableOf(o), now)
  {
    forall k
      ensures k in DeadKeys(o, now) <==> k in ExpiredKeys(TableOf(o), now)
    {
      TableLookup(o, k);
      if Has(o, k) {
        assert ItemOf(o, k) in o;
      }
      if k in DeadKeys(o, now) {
        var x :| x in o && Expired(x.rec, now) && x.key == k;
        ItemOfUnique(o, x);
      }
    }
  }
}
