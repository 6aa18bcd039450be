/** The in-memory store object: a fixed row of shards, a key always served by the same one. */
module MemoryStore {
  import opened Base
  import opened TtlMap
  import opened Recency
  import opened ShardedTable
  import opened ShardStore

  class MemoryStore {
    const layout: Layout
    const shards: seq<Shard>
    const perShardMax: int
    ghost var Repr: set<object>

    /** The store owns its shards, and they share nothing. */
    ghost predicate Owned()
      reads this, Repr
    {
      && this in Repr
      && (forall i :: 0 <= i < |shards| ==> shards[i] in Repr && shards[i].repr <= Repr && this !in shards[i].repr)
      && (forall i, j :: 0 <= i < j < |shards| ==> shards[i].repr !! shards[j].repr)
    }

    ghost predicate Valid()
      reads this, Repr
    {
      && Owned() && |shards| == layout.shards
      && (forall i :: 0 <= i < |shards| ==> shards[i].Valid() && shards[i].MaxSize == perShardMax)
    }

    /** The contents of every shard. */
    ghost function View(): (orders: Orders)
      reads shards, set s | s in shards :: s.lru
      ensures |orders| == |shards|
      ensures forall i :: 0 <= i < |shards| ==> orders[i] == shards[i].View()
    {
      Views(shards)
    }

    constructor (layout: Layout, perShardMax: int)
      ensures Valid() && this.layout == layout && this.perShardMax == perShardMax
      ensures fresh(Repr)
      ensures View() == seq(layout.shards, _ => [])
    {
      var made, all := makeShards(layout.shards, perShardMax);
      this.layout := layout;
      this.perShardMax := perShardMax;
      shards := made;
      Repr := {this} + all;
    }

    static method makeShards(n: nat, max: int) returns (made: seq<Shard>, ghost all: set<object>)
      ensures |made| == n && fresh(all)
      ensures forall i :: 0 <= i < n ==> made[i] in all && made[i].repr <= all
      ensures forall i :: 0 <= i < n ==> made[i].Valid() && made[i].MaxSize == max && made[i].View() == []
      ensures forall i, j :: 0 <= i < j < n ==> made[i].repr !! made[j].repr
    {
      made, all := [], {};
      while |made| < n
        invariant |made| <= n && fresh(all)
        invariant forall i :: 0 <= i < |made| ==> made[i] in all && made[i].repr <= all
        invariant forall i :: 0 <= i < |made| ==> made[i].Valid() && made[i].MaxSize == max && made[i].View() == []
        invariant forall i, j :: 0 <= i < j < |made| ==> made[i].repr !! made[j].repr
        decreases n - |made|
      {
        var s := new Shard(max);
        made := made + [s];
        all := all + s.repr;
      }
    }

    /** An operation on shard i, seen from the store. */
    twostate lemma OneShardStep(i: nat)
      requires i < |shards|
      requires old(Valid()) && shards[i].Valid()
      requires Repr == old(Repr) + shards[i].repr
      requires fresh(shards[i].repr - old(shards[i].repr))
      requires forall j :: 0 <= j < |shards| && j != i ==> forall o :: o in old(shards[j].repr) ==> unchanged(o)
      ensures Valid()
      ensures fresh(Repr - old(Repr))
      ensures shards[i].repr == old(shards[i].repr) ==> Repr == old(Repr)
      ensures View() == old(View())[i := shards[i].View()]
    {
      forall j | 0 <= j < |shards| && j != i
        ensures shards[j].repr == old(shards[j].repr)
        ensures shards[j].Valid()
        ensures shards[j].View() == old(shards[j].View())
        ensures shards[j].repr !! shards[i].repr
      {
        assert shards[j] in old(shards[j].repr) && shards[j].lru in old(shards[j].repr);
        assert old(shards[j].Valid());
      }
      SameOrders(View(), old(View())[i := shards[i].View()]);
    }

    method Get(c: Codec, key: string, now: Time) returns (val: Option<Bytes>)
      requires Valid()
      modifies Repr
      ensures Valid() && Repr == old(Repr)
      ensures View() == StoreStep(c, layout, old(View()), perShardMax, TtlMap.Get(key), now)
      ensures Value(val) == StoreAnswer(c, layout, old(View()), TtlMap.Get(key), now)
    {
      IndexInRange(layout, key);
      var i := layout.Index(key);
      val := shards[i].Get(c, key, now);
      Repr := Repr + shards[i].repr;
      OneShardStep(i);
    }

    method Set(c: Codec, key: string, value: Bytes, ttl: Time, now: Time)
      requires Valid()
      modifies Repr
      ensures Valid() && fresh(Repr - old(Repr))
      ensures View() == StoreStep(c, layout, old(View()), perShardMax, TtlMap.Set(key, value, ttl), now)
    {
      IndexInRange(layout, key);
      var i := layout.Index(key);
      shards[i].Set(c, key, value, ttl, now);
      Repr := Repr + shards[i].repr;
      OneShardStep(i);
    }

    method Delete(c: Codec, key: string, now: Time) returns (ok: bool)
      requires Valid()
      modifies Repr
      ensures Valid() && Repr == old(Repr)
      ensures View() == StoreStep(c, layout, old(View()), perShardMax, TtlMap.Delete(key), now)
      ensures Flag(ok) == StoreAnswer(c, layout, old(View()), TtlMap.Delete(key), now)
    {
      IndexInRange(layout, key);
      var i := layout.Index(key);
      ok := shards[i].Delete(c, key, now);
      Repr := Repr + shards[i].repr;
      OneShardStep(i);
    }

    method Exists(c: Codec, key: string, now: Time) returns (ok: bool)
      requires Valid()
      modifies Repr
      ensures Valid() && Repr == old(Repr)
      ensures View() == StoreStep(c, layout, old(View()), perShardMax, TtlMap.Exists(key), now)
      ensures Flag(ok) == StoreAnswer(c, layout, old(View()), TtlMap.Exists(key), now)
    {
      IndexInRange(layout, key);
      var i := layout.Index(key);
      ok := shards[i].Exists(c, key, now);
      Repr := Repr + shards[i].repr;
      OneShardStep(i);
    }

    method TTL(c: Codec, key: string, now: Time) returns (left: Time)
      requires Valid()
      modifies Repr
      ensures Valid() && Repr == old(Repr)
      ensures View() == StoreStep(c, layout, old(View()), perShardMax, TtlMap.TTL(key), now)
      ensures Remaining(left) == StoreAnswer(c, layout, old(View()), TtlMap.TTL(key), now)
    {
      IndexInRange(layout, key);
      var i := layout.Index(key);
      left := shards[i].TTL(c, key, now);
      Repr := Repr + shards[i].repr;
      OneShardStep(i);
    }

    method Incr(c: Codec, key: string, delta: int, defaultTTL: Time, now: Time) returns (res: Option<int>)
      requires Valid()
      modifies Repr
      ensures Valid() && fresh(Repr - old(Repr))
      ensures View() == StoreStep(c, layout, old(View()), perShardMax, TtlMap.Incr(key, delta, defaultTTL), now)
      ensures (if res.Some? then Counter(res.value) else Failed)
           == StoreAnswer(c, layout, old(View()), TtlMap.Incr(key, delta, defaultTTL), now)
    {
      IndexInRange(layout, key);
      var i := layout.Index(key);
      res := shards[i].Incr(c, key, delta, defaultTTL, now);
      Repr := Repr + shards[i].repr;
      OneShardStep(i);
    }

    method DeleteExpired(c: Codec, now: Time) returns (total: nat)
      requires Valid()
      modifies Repr
      ensures Valid() && Repr == old(Repr)
      ensures View() == StoreStep(c, layout, old(View()), perShardMax, Sweep, now)
      ensures Swept(total) == StoreAnswer(c, layout, old(View()), Sweep, now)
    {
      ghost var before := View();
      total := sweepShards(c, now, before);
      AllSwept(c, before, now);
    }

    /** Once every shard is swept, the store is. */
    lemma AllSwept(c: Codec, before: Orders, now: Time)
      requires SweptTo(c, perShardMax, before, View(), |shards|, now) && |shards| == layout.shards
      ensures before[..|shards|] == before
      ensures View() == StoreStep(c, layout, before, perShardMax, Sweep, now)
    {
      SameOrders(View(), StoreStep(c, layout, before, perShardMax, Sweep, now));
    }

    /** The loop over the shards. */
    method sweepShards(c: Codec, now: Time, ghost before: Orders) returns (total: nat)
      requires Valid() && before == View()
      modifies Repr
      ensures Valid() && Repr == old(Repr) && SweptTo(c, perShardMax, before, View(), |shards|, now)
      ensures total == TotalDead(before[..|shards|], now)
    {
      total := 0;
      var i := 0;
      while i < |shards|
        invariant 0 <= i <= |shards|
        invariant Valid()
        invariant Repr == old(Repr)
        invariant SweptTo(c, perShardMax, before, View(), i, now)
        invariant total == TotalDead(before[..i], now)
      {
        assert shards[i] in shards && shards[i] in shards[i].repr && shards[i].lru in shards[i].repr;
        var n := sweepShard(c, i, now, before);
        total := total + n;
        i := i + 1;
      }
    }

    method sweepShard(c: Codec, i: nat, now: Time, ghost before: Orders) returns (n: nat)
      requires Valid() && i < |shards| && SweptTo(c, perShardMax, before, View(), i, now)
      modifies this, shards[i], shards[i].lru
      ensures Valid() && Repr == old(Repr)
      ensures SweptTo(c, perShardMax, before, View(), i + 1, now)
      ensures TotalDead(before[..i + 1], now) == TotalDead(before[..i], now) + n
    {
      DeadSnoc(before, i, now);
      ghost var view := View();
      assert view[i] == before[i];
      n := shards[i].DeleteExpired(c, now);
      Repr := Repr + shards[i].repr;
      OneShardStep(i);
      SweptNext(c, perShardMax, before, view, View(), i, now);
    }

    method Len() returns (n: nat)
      requires Valid()
      ensures n == TotalItems(View())
    {
      ghost var view := View();
      n := 0;
      var i := 0;
      while i < |shards|
        invariant 0 <= i <= |shards|
        invariant n == TotalItems(view[..i])
      {
        var m := shards[i].Len();
        assert m == |view[i]|;
        ItemsSnoc(view, i);
        n := n + m;
        i := i + 1;
      }
      assert view[..|shards|] == view;
    }
  }

  /** The first i shards are swept, the others as before. */
  ghost predicate SweptTo(c: Codec, max: int, before: Orders, view: Orders, i: nat, now: Time) {
    && |before| == |view| && i <= |view|
    && forall j :: 0 <= j < |view| ==> view[j] == if j < i then Step(c, before[j], max, Sweep, now) else before[j]
  }

  lemma SweptNext(c: Codec, max: int, before: Orders, view: Orders, next: Orders, i: nat, now: Time)
    requires SweptTo(c, max, before, view, i, now) && i < |view|
    requires next == view[i := Step(c, before[i], max, Sweep, now)]
    ensures SweptTo(c, max, before, next, i + 1, now)
  {
  }

  lemma SameOrders(a: Orders, b: Orders)
    requires |a| == |b| && forall i :: 0 <= i < |a| ==> a[i] == b[i]
    ensures a == b
  {
  }

  lemma {:induction false} DeadSnoc(orders: Orders, i: nat, now: Time)
    requires i < |orders|
    ensures TotalDead(orders[..i + 1], now) == TotalDead(orders[..i], now) + |DeadKeys(orders[i], now)|
  {
    var tail := orders[1..];
    assert orders[..i + 1][1..] == tail[..i];
    if i > 0 {
      DeadSnoc(tail, i - 1, now);
      assert orders[..i][1..] == tail[..i - 1];
    }
  }

  lemma {:induction false} ItemsSnoc(orders: Orders, i: nat)
    requires i < |orders|
    ensures TotalItems(orders[..i + 1]) == TotalItems(orders[..i]) + |orders[i]|
  {
    var tail := orders[1..];
    assert orders[..i + 1][1..] == tail[..i];
    if i > 0 {
      ItemsSnoc(tail, i - 1);
      assert orders[..i][1..] == tail[..i - 1];
    }
  }

  ghost function Views(shards: seq<Shard>): (orders: Orders)
    reads shards, set s | s in shards :: s.lru
    ensures |orders| == |shards|
    ensures forall i :: 0 <= i < |shards| ==> orders[i] == shards[i].View()
  {
    if shards == [] then [] else Views(shards[..|shards| - 1]) + [shards[|shards| - 1].View()]
  }
}
