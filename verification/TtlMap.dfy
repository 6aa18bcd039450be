/** The abstract cache: a map from keys to values with deadlines, in three forms.

    - `Spec` is the reference: it never drops anything on its own and looks at deadlines only when asked.
    - `Mem` is what the in-memory store does to its table: expired records go when met or swept.
    - Runs compare the two over whole histories, with sweeps wherever one likes. */
module TtlMap {
  import opened Base

  datatype Rec = Rec(value: Bytes, deadline: Option<Time>)
  type Table = map<string, Rec>

  /** The integer serializer used by counters; decoding can fail on foreign bytes. */
  datatype Codec = Codec(enc: int -> Bytes, dec: Bytes -> Option<int>)

  datatype Op =
    | Get(key: string)
    | Set(key: string, value: Bytes, ttl: Time)
    | Delete(key: string)
    | Exists(key: string)
    | TTL(key: string)
    | Incr(key: string, delta: int, ttl: Time)
    | Sweep
      // The critical sections of Exists and TTL, which take the lock twice:
    | ExistsPeek(key: string)
    | TTLPeek(key: string)
    | Reap(key: string)

  datatype Reply =
    | Value(found: Option<Bytes>)
    | Flag(yes: bool)
    | Remaining(ttl: Time)
    | Counter(n: int)
    | Failed
    | Swept(count: nat)
    | Done

  predicate Expired(r: Rec, now: Time) {
    r.deadline.Some? && now > r.deadline.value
  }

  function DeadlineFor(ttl: Time, now: Time): (d: Option<Time>) {
    if ttl > 0 then Some(now + ttl) else None
  }

  /** The record a key shows at time now. */
  function Live(t: Table, k: string, now: Time): (r: Option<Rec>) {
    if k in t && !Expired(t[k], now) then Some(t[k]) else None
  }

  function TTLReply(r: Option<Rec>, now: Time): Reply {
    match r
    case None => Remaining(0)
    case Some(rec) => Remaining(if rec.deadline.None? then -1 else rec.deadline.value - now)
  }

  /** The deadline a counter keeps across Incr: its own, except that one falling due right now is dropped. */
  function KeptDeadline(d: Option<Time>, now: Time): Option<Time> {
    if d.Some? && d.value > now then d else None
  }

  function IncrRec(c: Codec, r: Option<Rec>, delta: int, ttl: Time, now: Time): (res: Option<(Rec, int)>) {
    match r
    case None => var n := Wrap64(0 + delta); Some((Rec(c.enc(n), DeadlineFor(ttl, now)), n))
    case Some(rec) =>
      match c.dec(rec.value)
      case None => None
      case Some(cur) => var n := Wrap64(cur + delta); Some((Rec(c.enc(n), KeptDeadline(rec.deadline, now)), n))
  }

  // ---- Reference -------------------------------------------------------------------------------

  function Spec(c: Codec, t: Table, op: Op, now: Time): (r: (Table, Reply)) {
    match op
    case Get(k) => (t, Value(if Live(t, k, now).Some? then Some(t[k].value) else None))
    case Set(k, v, ttl) => (t[k := Rec(v, DeadlineFor(ttl, now))], Done)
    case Delete(k) => (t - {k}, Flag(k in t))
    case Exists(k) => (t, Flag(Live(t, k, now).Some?))
    case ExistsPeek(k) => (t, Flag(Live(t, k, now).Some?))
    case TTL(k) => (t, TTLReply(Live(t, k, now), now))
    case TTLPeek(k) => (t, TTLReply(Live(t, k, now), now))
    case Incr(k, delta, ttl) =>
      (match IncrRec(c, Live(t, k, now), delta, ttl, now)
       case None => (t, Failed)
       case Some(p) => (t[k := p.0], Counter(p.1)))
    case Sweep => (t, Done)
    case Reap(_) => (t, Done)
  }

  // ---- The table of the in-memory store --------------------------------------------------------

  function Reaped(t: Table, k: string, now: Time): (r: Table) {
    if k in t && Expired(t[k], now) then t - {k} else t
  }

  function ExpiredKeys(t: Table, now: Time): set<string> {
    set k | k in t && Expired(t[k], now)
  }

  function Mem(c: Codec, t: Table, op: Op, now: Time): (r: (Table, Reply)) {
    match op
    case Get(k) => (Reaped(t, k, now), Value(if Live(t, k, now).Some? then Some(t[k].value) else None))
    case Set(k, v, ttl) => (t[k := Rec(v, DeadlineFor(ttl, now))], Done)
    case Delete(k) => (t - {k}, Flag(k in t))
    case Exists(k) => (Reaped(t, k, now), Flag(Live(t, k, now).Some?))
    case ExistsPeek(k) => (t, Flag(Live(t, k, now).Some?))
    case TTL(k) => (Reaped(t, k, now), TTLReply(Live(t, k, now), now))
    case TTLPeek(k) => (t, TTLReply(Live(t, k, now), now))
    case Incr(k, delta, ttl) =>
      (match IncrRec(c, Live(t, k, now), delta, ttl, now)
       case None => (t, Failed)
       case Some(p) => (t[k := p.0], Counter(p.1)))
    case Sweep => (t - ExpiredKeys(t, now), Swept(|ExpiredKeys(t, now)|))
    case Reap(k) => (Reaped(t, k, now), Done)
  }

  // ---- Runs ------------------------------------------------------------------------------------

  datatype Call = Call(op: Op, now: Time)

  predicate IsSweep(op: Op) {
    op.Sweep? || op.Reap?
  }

  /** What a client sees of a reply: nothing of a sweep, and not whether Delete met a dead record. */
  function Shown(op: Op, r: Reply): seq<Reply> {
    if IsSweep(op) then [] else if op.Delete? then [Done] else [r]
  }

  /** Clock readings do not go backwards. */
  predicate Timely(run: seq<Call>, from: Time) {
    run == [] || (from <= run[0].now && Timely(run[1..], run[0].now))
  }

  function SpecTrace(c: Codec, t: Table, run: seq<Call>): (replies: seq<Reply>)
    decreases |run|
  {
    if run == [] then []
    else var (t', r) := Spec(c, t, run[0].op, run[0].now); Shown(run[0].op, r) + SpecTrace(c, t', run[1..])
  }

  function MemTrace(c: Codec, t: Table, run: seq<Call>): (replies: seq<Reply>)
    decreases |run|
  {
    if run == [] then []
    else var (t', r) := Mem(c, t, run[0].op, run[0].now); Shown(run[0].op, r) + MemTrace(c, t', run[1..])
  }

  function WithoutSweeps(run: seq<Call>): seq<Call> {
    if run == [] then []
    else (if IsSweep(run[0].op) then [] else [run[0]]) + WithoutSweeps(run[1..])
  }

  /** Two tables look the same at time now and therefore at any later time. */
  ghost predicate SameLive(s: Table, t: Table, now: Time) {
    forall k :: Live(s, k, now) == Live(t, k, now)
  }

  lemma SameLiveLater(s: Table, t: Table, now: Time, later: Time)
    requires SameLive(s, t, now) && now <= later
    ensures SameLive(s, t, later)
  {
    forall k
      ensures Live(s, k, later) == Live(t, k, later)
    {
      assert Live(s, k, now) == Live(t, k, now);
    }
  }

  /** Dropping expired records of any keys is invisible. */
  lemma ReapInvisible(t: Table, gone: set<string>, now: Time)
    requires gone <= ExpiredKeys(t, now)
    ensures SameLive(t, t - gone, now)
  {
  }

  lemma SweepInvisible(t: Table, now: Time)
    ensures SameLive(t, t - ExpiredKeys(t, now), now)
  {
    ReapInvisible(t, ExpiredKeys(t, now), now);
  }

  /** One step of the store answers like the reference and stays indistinguishable from it. */
  lemma StepAgrees(c: Codec, s: Table, t: Table, op: Op, now: Time)
    requires SameLive(s, t, now)
    ensures SameLive(Spec(c, s, op, now).0, Mem(c, t, op, now).0, now)
    ensures Shown(op, Spec(c, s, op, now).1) == Shown(op, Mem(c, t, op, now).1)
  {
    if op.Sweep? {
      SweepInvisible(t, now);
    } else {
      assert Live(s, op.key, now) == Live(t, op.key, now);
      forall j
        ensures Live(Spec(c, s, op, now).0, j, now) == Live(Mem(c, t, op, now).0, j, now)
      {
        assert Live(s, j, now) == Live(t, j, now);
      }
    }
  }

  lemma {:induction false} StoreRefinesSpec(c: Codec, s: Table, t: Table, run: seq<Call>, from: Time)
    requires Timely(run, from) && SameLive(s, t, from)
    ensures MemTrace(c, t, run) == SpecTrace(c, s, run)
    decreases |run|
  {
    if run != [] {
      var op, now := run[0].op, run[0].now;
      SameLiveLater(s, t, from, now);
      StepAgrees(c, s, t, op, now);
      StoreRefinesSpec(c, Spec(c, s, op, now).0, Mem(c, t, op, now).0, run[1..], now);
    }
  }

  lemma {:induction false} SpecIgnoresSweeps(c: Codec, t: Table, run: seq<Call>)
    ensures SpecTrace(c, t, run) == SpecTrace(c, t, WithoutSweeps(run))
    decreases |run|
  {
    if run != [] {
      SpecIgnoresSweeps(c, Spec(c, t, run[0].op, run[0].now).0, run[1..]);
      WithoutSweepsCons(run);
    }
  }

  lemma WithoutSweepsCons(run: seq<Call>)
    requires run != []
    ensures IsSweep(run[0].op) ==> WithoutSweeps(run) == WithoutSweeps(run[1..])
    ensures !IsSweep(run[0].op) ==>
      var w := WithoutSweeps(run); w != [] && w[0] == run[0] && w[1..] == WithoutSweeps(run[1..])
  {
  }

  lemma {:induction false} TimelyWithoutSweeps(run: seq<Call>, from: Time)
    requires Timely(run, from)
    ensures Timely(WithoutSweeps(run), from)
    decreases |run|
  {
    if run != [] {
      TimelyWithoutSweeps(run[1..], run[0].now);
      WithoutSweepsCons(run);
    }
  }

  /** Sweeping is free: with DeleteExpired (and single-key reaps) put in or taken out anywhere,
      every Get, Exists, TTL and Incr of a run answers the same. */
  lemma SweepsAreFree(c: Codec, t: Table, run: seq<Call>, from: Time)
    requires Timely(run, from)
    ensures MemTrace(c, t, run) == MemTrace(c, t, WithoutSweeps(run))
  {
    StoreRefinesSpec(c, t, t, run, from);
    SpecIgnoresSweeps(c, t, run);
    TimelyWithoutSweeps(run, from);
    StoreRefinesSpec(c, t, t, WithoutSweeps(run), from);
  }

  // ---- Exists and TTL take the lock twice ------------------------------------------------------

  /** The run with every two-phase Exists and TTL replaced by its atomic form at the first phase. */
  function Atomic(run: seq<Call>): seq<Call> {
    if run == [] then []
    else
      var op := run[0].op;
      var atomic := if op.ExistsPeek? then Exists(op.key) else if op.TTLPeek? then TTL(op.key) else op;
      [Call(atomic, run[0].now)] + Atomic(run[1..])
  }

  lemma {:induction false} AtomicSpec(c: Codec, t: Table, run: seq<Call>, from: Time)
    requires Timely(run, from)
    ensures SpecTrace(c, t, Atomic(run)) == SpecTrace(c, t, run)
    ensures Timely(Atomic(run), from)
    decreases |run|
  {
    if run != [] {
      AtomicSpec(c, Spec(c, t, run[0].op, run[0].now).0, run[1..], run[0].now);
      assert Atomic(run)[1..] == Atomic(run[1..]);
    }
  }

  /** Double-checked expiry: a run in which Exists and TTL read in one critical section and drop the
      record in a later one, with anything in between (a fresh Set of the same key included), answers
      like the run in which each of them happens at once, at its first read. */
  lemma TwoPhaseIsAtomic(c: Codec, t: Table, run: seq<Call>, from: Time)
    requires Timely(run, from)
    ensures MemTrace(c, t, run) == MemTrace(c, t, WithoutSweeps(Atomic(run)))
  {
    AtomicSpec(c, t, run, from);
    StoreRefinesSpec(c, t, t, run, from);
    StoreRefinesSpec(c, t, t, Atomic(run), from);
    SweepsAreFree(c, t, Atomic(run), from);
  }

  /** The second critical section drops its key only if the record there now is expired, and no other key ever. */
  lemma ReapDropsOnlyExpired(c: Codec, t: Table, k: string, j: string, now: Time)
    ensures j in Mem(c, t, Reap(k), now).0 <==> j in t && !(j == k && Expired(t[j], now))
    ensures j in Mem(c, t, Reap(k), now).0 ==> Mem(c, t, Reap(k), now).0[j] == t[j]
  {
  }

  // ---- Counters --------------------------------------------------------------------------------

  lemma WrapAdd(a: int, b: int)
    ensures Wrap64(Wrap64(a) + b) == Wrap64(a + b)
  {
    var k := (Wrap64(a) - a) / 0x1_0000_0000_0000_0000;
    assert Wrap64(a) == a + 0x1_0000_0000_0000_0000 * k;
    WholeTurns(a + b + 0x8000_0000_0000_0000, k);
  }

  lemma WholeTurns(x: int, k: int)
    ensures (x + 0x1_0000_0000_0000_0000 * k) % 0x1_0000_0000_0000_0000 == x % 0x1_0000_0000_0000_0000
  {
  }

  function MemAfter(c: Codec, t: Table, run: seq<Call>): (Table, Reply) {
    if run == [] then (t, Done)
    else Mem(c, MemAfter(c, t, run[..|run| - 1]).0, run[|run| - 1].op, run[|run| - 1].now)
  }

  /** The deltas applied to k in a run. */
  function DeltaSum(run: seq<Call>, k: string): int {
    if run == [] then 0
    else
      var op := run[|run| - 1].op;
      DeltaSum(run[..|run| - 1], k) + if op.Incr? && op.key == k then op.delta else 0
  }

  /** What a counter that only ever saw increments without expiry holds. */
  ghost predicate Holds(c: Codec, t: Table, k: string, sum: int) {
    if k in t then t[k] == Rec(c.enc(Wrap64(sum)), None) else sum == 0
  }

  predicate OnlyCounts(op: Op, k: string) {
    op.Sweep? || op.key != k || (!op.Set? && !op.Delete? && (op.Incr? ==> op.ttl <= 0))
  }

  /** The run does nothing to k but read it and increment it without expiry. */
  ghost predicate AllCount(run: seq<Call>, k: string) {
    forall i :: 0 <= i < |run| ==> OnlyCounts(run[i].op, k)
  }

  /** Decoding undoes encoding, for every int64. */
  ghost predicate RoundTrips(c: Codec) {
    forall n :: IsInt64(n) ==> c.dec(c.enc(n)) == Some(n)
  }

  lemma CountStep(c: Codec, t: Table, op: Op, now: Time, k: string, sum: int)
    requires RoundTrips(c) && Holds(c, t, k, sum) && OnlyCounts(op, k)
    ensures var mine := op.Incr? && op.key == k;
      && Holds(c, Mem(c, t, op, now).0, k, if mine then sum + op.delta else sum)
      && (mine ==> Mem(c, t, op, now).1 == Counter(Wrap64(sum + op.delta)))
  {
    if op.Incr? && op.key == k {
      WrapAdd(sum, op.delta);
      assert c.dec(c.enc(Wrap64(sum))) == Some(Wrap64(sum));
    }
  }

  /** What the last call of a run makes of the counter and answers. */
  lemma CounterStep(c: Codec, run: seq<Call>, k: string, before: Table, after: (Table, Reply))
    requires run != [] && RoundTrips(c) && OnlyCounts(run[|run| - 1].op, k)
    requires Holds(c, before, k, DeltaSum(run[..|run| - 1], k))
    requires after == Mem(c, before, run[|run| - 1].op, run[|run| - 1].now)
    ensures Holds(c, after.0, k, DeltaSum(run, k))
    ensures run[|run| - 1].op.Incr? && run[|run| - 1].op.key == k ==> after.1 == Counter(Wrap64(DeltaSum(run, k)))
  {
    CountStep(c, before, run[|run| - 1].op, run[|run| - 1].now, k, DeltaSum(run[..|run| - 1], k));
  }

  /** No increment is lost: whatever else a run does, a counter that is only ever incremented
      without expiry answers the wrapped sum of all its deltas so far. */
  lemma {:induction false} IncrementsAddUp(c: Codec, t: Table, run: seq<Call>, k: string)
    requires RoundTrips(c) && k !in t && AllCount(run, k)
    ensures Holds(c, MemAfter(c, t, run).0, k, DeltaSum(run, k))
    ensures run != [] && run[|run| - 1].op.Incr? && run[|run| - 1].op.key == k ==>
              MemAfter(c, t, run).1 == Counter(Wrap64(DeltaSum(run, k)))
  {
    if run != [] {
      var before := run[..|run| - 1];
      assert AllCount(before, k);
      IncrementsAddUp(c, t, before, k);
      CounterStep(c, run, k, MemAfter(c, t, before).0, MemAfter(c, t, run));
    }
  }
}
