/** What the in-memory store without a limit is asked for and answers, in terms of the calls made on it alone. */
module StoreAnswers {
  import opened Base
  import opened TtlMap
  import opened Recency
  import opened ShardedTable
  import opened LimitedStore

  /** Clock readings do not go backwards, up to now. */
  ghost predicate UpTo(run: seq<Call>, now: Time) {
    && (forall i, j :: 0 <= i < j < |run| ==> run[i].now <= run[j].now)
    && (forall i :: 0 <= i < |run| ==> run[i].now <= now)
  }

  /** At any later time the store shows what the reference map shows. */
  lemma {:induction false} LooksLikeSpec(c: Codec, l: Layout, max: int, run: seq<Call>, now: Time)
    requires max <= 0 && UpTo(run, now)
    ensures SameLive(SpecAfter(c, run), StoreTable(StoreAll(c, l, max, run)), now)
  {
    RunPlaced(c, l, max, run);
    if run == [] {
      forall k
        ensures Live(SpecAfter(c, run), k, now) == Live(StoreTable(StoreAll(c, l, max, run)), k, now)
      {
        StoreLookup(l, StoreAll(c, l, max, run), k);
      }
    } else {
      var before, last := run[..|run| - 1], run[|run| - 1];
      var orders := StoreAll(c, l, max, before);
      RunPlaced(c, l, max, before);
      LooksLikeSpec(c, l, max, before, last.now);
      StepAgrees(c, SpecAfter(c, before), StoreTable(orders), last.op, last.now);
      StoreStepIsMem(c, l, orders, max, last.op, last.now);
      SameLiveLater(SpecAfter(c, run), StoreTable(StoreAll(c, l, max, run)), last.now, now);
    }
  }

  lemma LooksLikeSpecAt(c: Codec, l: Layout, max: int, run: seq<Call>, k: string, now: Time)
    requires max <= 0 && UpTo(run, now)
    ensures Live(SpecAfter(c, run), k, now) == Live(StoreTable(StoreAll(c, l, max, run)), k, now)
  {
    LooksLikeSpec(c, l, max, run, now);
  }

  predicate Writes(op: Op, k: string) {
    (op.Set? || op.Delete? || op.Incr?) && op.key == k
  }

  /** The index of the last call that writes k, -1 if there is none. */
  function LastWrite(run: seq<Call>, k: string): (i: int)
    ensures -1 <= i < |run| && (i >= 0 ==> Writes(run[i].op, k))
  {
    if run == [] then -1
    else
      var last := |run| - 1;
      if Writes(run[last].op, k) then last else LastWrite(run[..last], k)
  }

  /** The table holds what the last write of k left there. */
  ghost predicate Stands(run: seq<Call>, k: string, t: Table)
    requires var i := LastWrite(run, k); i >= 0 ==> !run[i].op.Incr?
  {
    var i := LastWrite(run, k);
    if i < 0 || run[i].op.Delete? then k !in t
    else
      var op := run[i].op;
      k in t && t[k] == Rec(op.value, if op.ttl <= 0 then None else Some(run[i].now + op.ttl))
  }

  lemma {:induction false} LastWriteStands(c: Codec, run: seq<Call>, k: string)
    requires var i := LastWrite(run, k); i >= 0 ==> !run[i].op.Incr?
    ensures Stands(run, k, SpecAfter(c, run))
  {
    if run != [] && !Writes(run[|run| - 1].op, k) {
      LastWriteStands(c, run[..|run| - 1], k);
    }
  }

  /** The record the last Set of k left, if no Delete followed and its time to live, if any, has not run out. */
  function Standing(run: seq<Call>, k: string, now: Time): (r: Option<Rec>)
    requires var i := LastWrite(run, k); i >= 0 ==> !run[i].op.Incr?
  {
    var i := LastWrite(run, k);
    if i < 0 || run[i].op.Delete? then None
    else
      var op := run[i].op;
      if op.ttl <= 0 then Some(Rec(op.value, None))
      else if now <= run[i].now + op.ttl then Some(Rec(op.value, Some(run[i].now + op.ttl)))
      else None
  }

  lemma StandingIsLive(run: seq<Call>, k: string, t: Table, now: Time)
    requires var i := LastWrite(run, k); i >= 0 ==> !run[i].op.Incr?
    requires Stands(run, k, t)
    ensures Live(t, k, now) == Standing(run, k, now)
  {
  }

  lemma StandingShows(c: Codec, l: Layout, max: int, run: seq<Call>, k: string, now: Time)
    requires max <= 0 && UpTo(run, now) && var i := LastWrite(run, k); i >= 0 ==> !run[i].op.Incr?
    ensures Live(StoreTable(StoreAll(c, l, max, run)), k, now) == Standing(run, k, now)
  {
    LastWriteStands(c, run, k);
    StandingIsLive(run, k, SpecAfter(c, run), now);
    LooksLikeSpecAt(c, l, max, run, k, now);
  }

  /** After any run Get answers the value of the last Set that no Delete followed, while it lasts; Exists that there
      is one; TTL the time it has left, -1 for ever and 0 for nothing. For a key that no Incr came to since. */
  lemma LastWriteAnswers(c: Codec, l: Layout, max: int, run: seq<Call>, op: Op, now: Time)
    requires max <= 0 && UpTo(run, now) && (op.Get? || op.Exists? || op.TTL?)
    requires var i := LastWrite(run, op.key); i >= 0 ==> !run[i].op.Incr?
    ensures var r := Standing(run, op.key, now);
      StoreAnswer(c, l, StoreAll(c, l, max, run), op, now)
      == match op
         case Get(_) => Value(if r.Some? then Some(r.value.value) else None)
         case Exists(_) => Flag(r.Some?)
         case TTL(_) =>
           Remaining(if r.None? then 0 else if r.value.deadline.None? then -1 else r.value.deadline.value - now)
  {
    StandingShows(c, l, max, run, op.key, now);
    RunPlaced(c, l, max, run);
    StoreAnswerIsMem(c, l, StoreAll(c, l, max, run), op, now);
  }
}
