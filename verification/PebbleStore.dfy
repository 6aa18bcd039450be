/** The disk store over a key-value database, and how it compares with the in-memory store. */
module PebbleStore {
  import opened Base
  import opened TtlMap
  import opened DiskFormat

  type Db = map<string, Bytes>

  predicate RawExpired(raw: Bytes, now: Time) {
    Decode(raw).1 != 0 && now > Decode(raw).1
  }

  function ExpiredRaw(db: Db, now: Time): (r: set<string>) {
    set k | k in db && RawExpired(db[k], now)
  }

  /** Drop k if it is there and expired: Get and Exists do this. */
  function Purged(db: Db, k: string, now: Time): (r: Db) {
    if k in db && RawExpired(db[k], now) then db - {k} else db
  }

  predicate Present(db: Db, k: string, now: Time) {
    k in db && !RawExpired(db[k], now)
  }

  /** The new value, the ttl it is written with, or nothing if the old bytes do not decode. */
  function IncrPlan(c: Codec, db: Db, k: string, delta: int, ttl: Time, now: Time): (r: Option<(int, Time)>) {
    if !Present(db, k, now) then Some((Wrap64(0 + delta), ttl))
    else
      var (v, nano) := Decode(db[k]);
      match c.dec(v)
      case None => None
      case Some(cur) => Some((Wrap64(cur + delta), if nano != 0 && nano - now > 0 then nano - now else 0))
  }

  /** What each operation does to the database and answers. */
  function Peb(c: Codec, db: Db, op: Op, now: Time): (r: (Db, Reply)) {
    match op
    case Get(k) => (Purged(db, k, now), Value(if Present(db, k, now) then Some(Decode(db[k]).0) else None))
    case Set(k, v, ttl) => (db[k := Encode(v, ttl, now)], Done)
    case Delete(k) => (db - {k}, Flag(k in db))
    case Exists(k) => (Purged(db, k, now), Flag(Present(db, k, now)))
    case TTL(k) =>
      if k !in db then (db, Remaining(0))
      else if Decode(db[k]).1 == 0 then (db, Remaining(-1))
      else if Decode(db[k]).1 - now <= 0 then (db - {k}, Remaining(0))
      else (db, Remaining(Decode(db[k]).1 - now))
    case Incr(k, delta, ttl) =>
      (match IncrPlan(c, db, k, delta, ttl, now)
       case None => (db, Failed)
       case Some(p) => (db[k := Encode(c.enc(p.0), p.1, now)], Counter(p.0)))
    case Sweep => (db - ExpiredRaw(db, now), Swept(|ExpiredRaw(db, now)|))
      // The disk store takes no lock twice: these are steps of the in-memory store only.
    case ExistsPeek(_) => (db, Done)
    case TTLPeek(_) => (db, Done)
    case Reap(_) => (db, Done)
  }

  predicate IsStoreOp(op: Op) {
    !op.ExistsPeek? && !op.TTLPeek? && !op.Reap?
  }

  /** What each operation adds to the item counter. */
  function CountDelta(c: Codec, db: Db, op: Op, now: Time): (n: int) {
    match op
    case Get(k) => if k in db && RawExpired(db[k], now) then -1 else 0
    case Set(k, _, _) => if k in db then 0 else 1
    case Delete(k) => if k in db then -1 else 0
    case Exists(k) => if k in db && RawExpired(db[k], now) then -1 else 0
    case TTL(k) => if k in db && Decode(db[k]).1 != 0 && Decode(db[k]).1 - now <= 0 then -1 else 0
    case Incr(k, delta, ttl) =>
      if k !in db then 1 else if RawExpired(db[k], now) then -1 else 0
    case Sweep => -|ExpiredRaw(db, now)|
    case _ => 0
  }

  class Store {
    var db: Db
    var count: int

    /** Opening a database counts its keys. */
    constructor (db: Db)
      ensures this.db == db && count == |db|
    {
      this.db := db;
      var rest := db.Keys;
      var n := 0;
      while rest != {}
        invariant n + |rest| == |db.Keys|
        decreases rest
      {
        var k :| k in rest;
        rest := rest - {k};
        n := n + 1;
      }
      count := n;
    }

    method Get(c: Codec, key: string, now: Time) returns (val: Option<Bytes>)
      modifies this
      ensures (db, Value(val)) == Peb(c, old(db), TtlMap.Get(key), now)
      ensures count == old(count) + CountDelta(c, old(db), TtlMap.Get(key), now)
    {
      if key !in db {
        return None;
      }
      var (value, expiresAt) := Decode(db[key]);
      if expiresAt != 0 && now > expiresAt {
        db := db - {key};
        count := count - 1;
        return None;
      }
      val := Some(value);
    }

    method Set(c: Codec, key: string, value: Bytes, ttl: Time, now: Time)
      modifies this
      ensures (db, Done) == Peb(c, old(db), TtlMap.Set(key, value, ttl), now)
      ensures count == old(count) + CountDelta(c, old(db), TtlMap.Set(key, value, ttl), now)
    {
      var exists_ := key in db;
      db := db[key := Encode(value, ttl, now)];
      if !exists_ {
        count := count + 1;
      }
    }

    method Delete(c: Codec, key: string, now: Time) returns (ok: bool)
      modifies this
      ensures (db, Flag(ok)) == Peb(c, old(db), TtlMap.Delete(key), now)
      ensures count == old(count) + CountDelta(c, old(db), TtlMap.Delete(key), now)
    {
      if key !in db {
        assert db - {key} == db;
        return false;
      }
      db := db - {key};
      count := count - 1;
      ok := true;
    }

    method Exists(c: Codec, key: string, now: Time) returns (ok: bool)
      modifies this
      ensures (db, Flag(ok)) == Peb(c, old(db), TtlMap.Exists(key), now)
      ensures count == old(count) + CountDelta(c, old(db), TtlMap.Exists(key), now)
    {
      if key !in db {
        return false;
      }
      var (_, expiresAt) := Decode(db[key]);
      if expiresAt != 0 && now > expiresAt {
        db := db - {key};
        count := count - 1;
        return false;
      }
      ok := true;
    }

    method TTL(c: Codec, key: string, now: Time) returns (left: Time)
      modifies this
      ensures (db, Remaining(left)) == Peb(c, old(db), TtlMap.TTL(key), now)
      ensures count == old(count) + CountDelta(c, old(db), TtlMap.TTL(key), now)
    {
      if key !in db {
        return 0;
      }
      var (_, nano) := Decode(db[key]);
      if nano == 0 {
        return -1;
      }
      left := nano - now;
      if left <= 0 {
        db := db - {key};
        count := count - 1;
        left := 0;
      }
    }

    method Incr(c: Codec, key: string, delta: int, defaultTTL: Time, now: Time) returns (res: Option<int>)
      modifies this
      ensures (db, if res.Some? then Counter(res.value) else Failed)
           == Peb(c, old(db), TtlMap.Incr(key, delta, defaultTTL), now)
      ensures count == old(count) + CountDelta(c, old(db), TtlMap.Incr(key, delta, defaultTTL), now)
    {
      var current := 0;
      var ttl := 0;
      if key in db {
        var (value, nano) := Decode(db[key]);
        if !(nano != 0 && now > nano) {
          var decoded := c.dec(value);
          if decoded.None? {
            return None;
          }
          current := decoded.value;
          if nano != 0 {
            var remaining := nano - now;
            if remaining > 0 {
              ttl := remaining;
            }
          }
        } else {
          ttl := defaultTTL;
          count := count - 1;
        }
      } else {
        ttl := defaultTTL;
      }
      current := Wrap64(current + delta);
      var encoded := Encode(c.enc(current), ttl, now);
      var existed := key in db;
      db := db[key := encoded];
      if !existed {
        count := count + 1;
      }
      res := Some(current);
    }

    method DeleteExpired(c: Codec, now: Time) returns (n: nat)
      modifies this
      ensures (db, Swept(n)) == Peb(c, old(db), Sweep, now)
      ensures count == old(count) + CountDelta(c, old(db), Sweep, now)
    {
      var expired := collectExpired(now, ExpiredRaw(db, now));
      if |expired| == 0 {
        assert ExpiredRaw(db, now) == {};
        assert db - {} == db;
        return 0;
      }
      deleteBatch(expired);
      count := count - |expired|;
      n := |expired|;
    }

    /** The test of the iterator pass on one raw record. */
    static method isDead(raw: Bytes, now: Time) returns (dead: bool)
      ensures dead == RawExpired(raw, now)
    {
      if |raw| < 8 {
        return false;
      }
      var expiresAtNano := FromUint64(FromBigEndian(raw[..8]));
      dead := expiresAtNano != 0 && now > expiresAtNano;
    }

    /** The iterator pass: the keys of the expired records, each once. */
    method collectExpired(now: Time, ghost dead: set<string>) returns (expired: seq<string>)
      requires forall k :: k in dead <==> k in db && RawExpired(db[k], now)
      ensures |expired| == |dead|
      ensures SetOf(expired) == dead
    {
      expired := [];
      var rest := db.Keys;
      HalfwayStart(dead, rest);
      while rest != {}
        invariant rest <= db.Keys && Halfway(dead, SetOf(expired), rest, |expired|)
        decreases rest
      {
        var k :| k in rest;
        HalfwayNext(dead, SetOf(expired), rest, |expired|, k);
        SetOfSnoc(expired, k);
        rest := rest - {k};
        var isExpired := isDead(db[k], now);
        if isExpired {
          expired := expired + [k];
        }
      }
      HalfwayDone(dead, SetOf(expired), |expired|);
    }

    method deleteBatch(keys: seq<string>)
      modifies this
      ensures db == old(db) - SetOf(keys) && count == old(count)
    {
      var i := 0;
      while i < |keys|
        invariant 0 <= i <= |keys|
        invariant db == old(db) - SetOf(keys[..i])
        invariant count == old(count)
      {
        RemoveNext(old(db), keys, i);
        db := db - {keys[i]};
        i := i + 1;
      }
      assert keys[..|keys|] == keys;
    }

    method Len() returns (n: int)
      ensures n == count
    {
      n := count;
    }
  }

  // ---- Against the in-memory store -------------------------------------------------------------

  /** The table a database stands for. */
  function Tabled(db: Db): (t: Table) {
    map k | k in db :: RecOf(db[k])
  }

  lemma ExpiryAgrees(db: Db, now: Time)
    ensures ExpiredRaw(db, now) == ExpiredKeys(Tabled(db), now)
    ensures forall k :: k in db ==> (RawExpired(db[k], now) <==> Expired(Tabled(db)[k], now))
  {
  }

  /** The steps on which the two stores part: TTL exactly on the deadline of its key, and a write whose
      deadline an int64 nanosecond count cannot hold. All of it is known before the call. */
  predicate Agreeable(db: Db, op: Op, now: Time) {
    match op
    case TTL(k) => !(k in db && Decode(db[k]).1 != 0 && Decode(db[k]).1 == now)
    case Set(_, _, ttl) => Faithful(ttl, now)
    case Incr(k, _, ttl) => Present(db, k, now) || Faithful(ttl, now)
    case _ => true
  }

  /** Both stores answer alike from the same contents, always. */
  lemma AnswersAgree(c: Codec, db: Db, op: Op, now: Time)
    requires IsStoreOp(op)
    ensures Peb(c, db, op, now).1 == Mem(c, Tabled(db), op, now).1
  {
    ExpiryAgrees(db, now);
  }

  /** They end with the same contents exactly on the agreeable steps. */
  lemma ContentsAgreeIff(c: Codec, db: Db, op: Op, now: Time)
    requires IsStoreOp(op)
    ensures Tabled(Peb(c, db, op, now).0) == Mem(c, Tabled(db), op, now).0 <==> Agreeable(db, op, now)
  {
    ExpiryAgrees(db, now);
    match op
    case Set(k, v, ttl) =>
      RecOfEncode(v, ttl, now);
      WriteAgrees(db, k, Encode(v, ttl, now), Rec(v, DeadlineFor(ttl, now)));
    case Incr(k, delta, ttl) => IncrAgreesIff(c, db, k, delta, ttl, now);
    case Get(k) => PurgeAgrees(db, k);
    case Exists(k) => PurgeAgrees(db, k);
    case Delete(k) => PurgeAgrees(db, k);
    case TTL(k) => PurgeAgrees(db, k);
    case Sweep => assert Tabled(db - ExpiredRaw(db, now)) == Tabled(db) - ExpiredRaw(db, now);
    case _ =>
  }

  lemma PurgeAgrees(db: Db, k: string)
    ensures Tabled(db - {k}) == Tabled(db) - {k}
    ensures k in db ==> k in Tabled(db) && k !in Tabled(db - {k})
  {
  }

  lemma WriteAgrees(db: Db, k: string, raw: Bytes, rec: Rec)
    ensures Tabled(db[k := raw]) == Tabled(db)[k := RecOf(raw)]
    ensures Tabled(db[k := raw]) == Tabled(db)[k := rec] <==> RecOf(raw) == rec
  {
    assert Tabled(db[k := raw]) == Tabled(db)[k := RecOf(raw)];
    assert Tabled(db)[k := rec][k] == rec;
  }

  lemma IncrAgreesIff(c: Codec, db: Db, k: string, delta: int, ttl: Time, now: Time)
    ensures Tabled(Peb(c, db, Incr(k, delta, ttl), now).0) == Mem(c, Tabled(db), Incr(k, delta, ttl), now).0
       <==> Agreeable(db, Incr(k, delta, ttl), now)
  {
    ExpiryAgrees(db, now);
    var plan := IncrPlan(c, db, k, delta, ttl, now);
    if plan.Some? {
      var (n, t) := plan.value;
      var raw := Encode(c.enc(n), t, now);
      RecOfEncode(c.enc(n), t, now);
      var inc := IncrRec(c, Live(Tabled(db), k, now), delta, ttl, now);
      WriteAgrees(db, k, raw, inc.value.0);
      if Present(db, k, now) {
        DecodedIsInt64(db[k]);
        assert Faithful(t, now);
      }
    }
  }

  // ---- Whole runs ------------------------------------------------------------------------------

  function PebTrace(c: Codec, db: Db, run: seq<Call>): (replies: seq<Reply>)
    decreases |run|
  {
    if run == [] then []
    else var (db', r) := Peb(c, db, run[0].op, run[0].now); [r] + PebTrace(c, db', run[1..])
  }

  /** All replies of the in-memory store, Delete flags and sweep counts included. */
  function MemReplies(c: Codec, t: Table, run: seq<Call>): (replies: seq<Reply>)
    decreases |run|
  {
    if run == [] then []
    else var (t', r) := Mem(c, t, run[0].op, run[0].now); [r] + MemReplies(c, t', run[1..])
  }

  predicate AllAgreeable(c: Codec, db: Db, run: seq<Call>)
    decreases |run|
  {
    run == [] ||
    (&& IsStoreOp(run[0].op) && Agreeable(db, run[0].op, run[0].now)
     && AllAgreeable(c, Peb(c, db, run[0].op, run[0].now).0, run[1..]))
  }

  /** Backend equivalence: over any run that keeps off the parting steps, disk and memory give the same
      reply to every operation, DeleteExpired counts and Delete flags included. */
  lemma {:induction false} BackendsAgree(c: Codec, db: Db, run: seq<Call>)
    requires AllAgreeable(c, db, run)
    ensures PebTrace(c, db, run) == MemReplies(c, Tabled(db), run)
    decreases |run|
  {
    if run != [] {
      var op, now := run[0].op, run[0].now;
      AnswersAgree(c, db, op, now);
      ContentsAgreeIff(c, db, op, now);
      BackendsAgree(c, Peb(c, db, op, now).0, run[1..]);
    }
  }

  /** The next answers of the two stores after a parting step. */
  lemma ProbeDiffers(c: Codec, db: Db, op: Op, now: Time, probe: Op)
    requires IsStoreOp(op) && !Agreeable(db, op, now) && probe == if op.TTL? then Exists(op.key) else TTL(op.key)
    ensures Peb(c, Peb(c, db, op, now).0, probe, now).1 != Mem(c, Mem(c, Tabled(db), op, now).0, probe, now).1
  {
    ExpiryAgrees(db, now);
    if op.Set? {
      RecOfEncode(op.value, op.ttl, now);
      EncodeRoundTrip(op.value, op.ttl, now);
    } else if op.Incr? {
      var n := Wrap64(0 + op.delta);
      RecOfEncode(c.enc(n), op.ttl, now);
      EncodeRoundTrip(c.enc(n), op.ttl, now);
    }
  }

  /** And it is exact: after a parting step one more question at the same instant tells the stores apart. */
  lemma PartingStepShows(c: Codec, db: Db, op: Op, now: Time) returns (probe: Op)
    requires IsStoreOp(op) && !Agreeable(db, op, now)
    ensures IsStoreOp(probe)
    ensures PebTrace(c, db, [Call(op, now), Call(probe, now)])
         != MemReplies(c, Tabled(db), [Call(op, now), Call(probe, now)])
  {
    probe := if op.TTL? then Exists(op.key) else TTL(op.key);
    ProbeDiffers(c, db, op, now, probe);
    TwoSteps(c, db, op, probe, now);
  }

  lemma TwoSteps(c: Codec, db: Db, op: Op, probe: Op, now: Time)
    ensures var run := [Call(op, now), Call(probe, now)];
      && PebTrace(c, db, run) == [Peb(c, db, op, now).1, Peb(c, Peb(c, db, op, now).0, probe, now).1]
      && MemReplies(c, Tabled(db), run)
           == [Mem(c, Tabled(db), op, now).1, Mem(c, Mem(c, Tabled(db), op, now).0, probe, now).1]
  {
    var one := [Call(probe, now)];
    assert [Call(op, now), Call(probe, now)][1..] == one && one[1..] == [];
    assert PebTrace(c, Peb(c, db, op, now).0, one) == [Peb(c, Peb(c, db, op, now).0, probe, now).1];
    assert MemReplies(c, Mem(c, Tabled(db), op, now).0, one)
        == [Mem(c, Mem(c, Tabled(db), op, now).0, probe, now).1];
  }

  // ---- Len drifts ------------------------------------------------------------------------------

  predicate ExpiredIncr(db: Db, op: Op, now: Time) {
    op.Incr? && op.key in db && RawExpired(db[op.key], now)
  }

  function PebAfter(c: Codec, db: Db, run: seq<Call>): Db {
    if run == [] then db
    else Peb(c, PebAfter(c, db, run[..|run| - 1]), run[|run| - 1].op, run[|run| - 1].now).0
  }

  function CountAfter(c: Codec, db: Db, run: seq<Call>): int {
    if run == [] then |db|
    else
      CountAfter(c, db, run[..|run| - 1])
      + CountDelta(c, PebAfter(c, db, run[..|run| - 1]), run[|run| - 1].op, run[|run| - 1].now)
  }

  /** How often a run incremented a record that had already expired. */
  function ExpiredIncrs(c: Codec, db: Db, run: seq<Call>): nat {
    if run == [] then 0
    else
      ExpiredIncrs(c, db, run[..|run| - 1])
      + if ExpiredIncr(PebAfter(c, db, run[..|run| - 1]), run[|run| - 1].op, run[|run| - 1].now) then 1 else 0
  }

  ghost predicate Counted(c: Codec, db: Db, op: Op, now: Time) {
    CountDelta(c, db, op, now) == |Peb(c, db, op, now).0| - |db| - if ExpiredIncr(db, op, now) then 1 else 0
  }

  lemma IncrCounted(c: Codec, db: Db, k: string, delta: int, ttl: Time, now: Time)
    ensures Counted(c, db, Incr(k, delta, ttl), now)
  {
    var plan := IncrPlan(c, db, k, delta, ttl, now);
    if plan.Some? {
      KeyCount(db, k, Encode(c.enc(plan.value.0), plan.value.1, now));
    }
  }

  lemma ReadCounted(c: Codec, db: Db, op: Op, now: Time)
    requires op.Get? || op.Exists? || op.TTL? || op.Delete?
    ensures Counted(c, db, op, now)
  {
    KeyCount(db, op.key, []);
  }

  lemma CountStep(c: Codec, db: Db, op: Op, now: Time)
    ensures Counted(c, db, op, now)
  {
    match op
    case Set(k, v, ttl) => KeyCount(db, k, Encode(v, ttl, now));
    case Incr(k, delta, ttl) => IncrCounted(c, db, k, delta, ttl, now);
    case Sweep => SweepCount(db, ExpiredRaw(db, now));
    case ExistsPeek(_) =>
    case TTLPeek(_) =>
    case Reap(_) =>
    case _ => ReadCounted(c, db, op, now);
  }

  lemma SweepCount(db: Db, dead: set<string>)
    requires dead <= db.Keys
    ensures |db - dead| == |db| - |dead|
  {
    assert (db - dead).Keys == db.Keys - dead;
    assert |db.Keys - dead| == |db.Keys| - |dead|;
    assert |(db - dead).Keys| == |db - dead| && |db.Keys| == |db|;
  }

  lemma KeyCount(db: Db, k: string, raw: Bytes)
    ensures |db - {k}| == |db| - if k in db then 1 else 0
    ensures |db[k := raw]| == |db| + if k in db then 0 else 1
    ensures k !in db ==> db - {k} == db
  {
    RemovedCount(db, k);
    assert db[k := raw].Keys == db.Keys + {k};
    assert |db.Keys + {k}| == |db.Keys| + if k in db.Keys then 0 else 1;
    assert |db[k := raw].Keys| == |db[k := raw]| && |db.Keys| == |db|;
  }

  lemma RemovedCount(db: Db, k: string)
    ensures |db - {k}| == |db| - if k in db then 1 else 0
  {
    assert (db - {k}).Keys == db.Keys - {k};
    assert |(db - {k}).Keys| == |db - {k}| && |db.Keys| == |db|;
  }

  /** Len is the number of stored keys less one for every Incr that met an expired record,
      so it is right exactly when no such Incr happened. */
  lemma {:induction false} LenDrift(c: Codec, db: Db, run: seq<Call>)
    ensures CountAfter(c, db, run) == |PebAfter(c, db, run)| - ExpiredIncrs(c, db, run)
    ensures CountAfter(c, db, run) == |PebAfter(c, db, run)| <==> ExpiredIncrs(c, db, run) == 0
  {
    if run != [] {
      var last := |run| - 1;
      LenDrift(c, db, run[..last]);
      CountStep(c, PebAfter(c, db, run[..last]), run[last].op, run[last].now);
    }
  }
}
