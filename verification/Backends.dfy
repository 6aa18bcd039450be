/** The two storage backends side by side, the in-memory one with its shards and recency lists. */
module Backends {
  import opened TtlMap
  import opened ShardedTable
  import opened PebbleStore

  /** All replies of the sharded in-memory store without a memory limit. */
  function StoreReplies(c: Codec, l: Layout, orders: Orders, run: seq<Call>): (replies: seq<Reply>)
    requires |orders| == l.shards
    decreases |run|
  {
    if run == [] then []
    else
      [StoreAnswer(c, l, orders, run[0].op, run[0].now)]
      + StoreReplies(c, l, StoreStep(c, l, orders, 0, run[0].op, run[0].now), run[1..])
  }

  lemma {:induction false} ShardedReplies(c: Codec, l: Layout, orders: Orders, run: seq<Call>)
    requires Placed(l, orders)
    ensures StoreReplies(c, l, orders, run) == MemReplies(c, StoreTable(orders), run)
    decreases |run|
  {
    if run != [] {
      var op, now := run[0].op, run[0].now;
      StoreAnswerIsMem(c, l, orders, op, now);
      StoreStepIsMem(c, l, orders, 0, op, now);
      StorePlaced(c, l, orders, 0, op, now);
      ShardedReplies(c, l, StoreStep(c, l, orders, 0, op, now), run[1..]);
    }
  }

  /** Memory and disk are interchangeable: from the same contents, any run that keeps off the parting steps
      gets the same reply to every operation from the sharded LRU store and from the database. */
  lemma MemoryEqualsDisk(c: Codec, l: Layout, orders: Orders, db: Db, run: seq<Call>)
    requires Placed(l, orders) && StoreTable(orders) == Tabled(db)
    requires AllAgreeable(c, db, run)
    ensures StoreReplies(c, l, orders, run) == PebTrace(c, db, run)
  {
    ShardedReplies(c, l, orders, run);
    BackendsAgree(c, db, run);
  }
}
