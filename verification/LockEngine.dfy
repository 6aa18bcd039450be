/** The lock engine: one node's table of held locks, as a state machine over timed calls, and as an object. */
module LockEngine {
  import opened Base

  datatype LockEntry = LockEntry(token: string, fencing: nat, expiresAt: Time, owner: string)

  datatype EngineState = EngineState(locks: map<string, LockEntry>, fencingSeq: nat)

  const FRESH: EngineState := EngineState(map[], 0)

  /** A call; Acquire carries the random token that would be generated for it. */
  datatype LockOp =
    | Acquire(key: string, ttl: Time, owner: string, token: string)
    | Release(key: string, token: string)
    | Extend(key: string, token: string, ttl: Time)
    | IsHeld(key: string)
    | ActiveLocks
    | Cleanup

  datatype LockReply =
    | Granted(token: string, fencing: nat)
    | Refused
    | Flag(yes: bool)
    | Active(live: map<string, LockEntry>)
    | Done

  predicate Expired(e: LockEntry, now: Time) {
    now > e.expiresAt
  }

  predicate Held(s: EngineState, k: string, now: Time) {
    k in s.locks && !Expired(s.locks[k], now)
  }

  predicate Holds(s: EngineState, k: string, token: string) {
    k in s.locks && s.locks[k].token == token
  }

  function LiveLocks(s: EngineState, now: Time): (m: map<string, LockEntry>) {
    map k | k in s.locks && !Expired(s.locks[k], now) :: s.locks[k]
  }

  /** `fencingSeq.Add(1)` on an atomic uint64. */
  function NextFencing(s: EngineState): (n: nat) {
    Mod64(s.fencingSeq + 1)
  }

  function EngineStep(s: EngineState, op: LockOp, now: Time): (r: (EngineState, LockReply)) {
    match op
    case Acquire(k, ttl, owner, token) =>
      if Held(s, k, now) then (s, Refused)
      else
        var n := NextFencing(s);
        (EngineState(s.locks[k := LockEntry(token, n, now + ttl, owner)], n), Granted(token, n))
    case Release(k, token) =>
      if Holds(s, k, token) then (s.(locks := s.locks - {k}), Flag(true)) else (s, Flag(false))
    case Extend(k, token, ttl) =>
      if Held(s, k, now) && Holds(s, k, token)
      then (s.(locks := s.locks[k := s.locks[k].(expiresAt := now + ttl)]), Flag(true))
      else (s, Flag(false))
    case IsHeld(k) => (s, Flag(Held(s, k, now)))
    case ActiveLocks => (s, Active(LiveLocks(s, now)))
    case Cleanup => (s.(locks := LiveLocks(s, now)), Done)
  }

  // ---- The engine object -----------------------------------------------------------------------

  class Engine {
    var locks: map<string, LockEntry>
    var fencingSeq: nat

    ghost function State(): EngineState
      reads this
    {
      EngineState(locks, fencingSeq)
    }

    constructor ()
      ensures State() == FRESH
    {
      locks, fencingSeq := map[], 0;
    }

    method Acquire(key: string, ttl: Time, owner: string, fresh_: string, now: Time)
      returns (token: string, fencing: nat, acquired: bool)
      modifies this
      ensures State() == EngineStep(old(State()), LockOp.Acquire(key, ttl, owner, fresh_), now).0
      ensures (if acquired then Granted(token, fencing) else Refused)
           == EngineStep(old(State()), LockOp.Acquire(key, ttl, owner, fresh_), now).1
    {
      if key in locks {
        var existing := locks[key];
        if !(now > existing.expiresAt) {
          return "", 0, false;
        }
      }
      fencingSeq := Mod64(fencingSeq + 1);
      locks := locks[key := LockEntry(fresh_, fencingSeq, now + ttl, owner)];
      return fresh_, fencingSeq, true;
    }

    method Release(key: string, token: string, now: Time) returns (ok: bool)
      modifies this
      ensures (State(), Flag(ok)) == EngineStep(old(State()), LockOp.Release(key, token), now)
    {
      if key !in locks {
        return false;
      }
      if locks[key].token != token {
        return false;
      }
      locks := locks - {key};
      ok := true;
    }

    method Extend(key: string, token: string, ttl: Time, now: Time) returns (ok: bool)
      modifies this
      ensures (State(), Flag(ok)) == EngineStep(old(State()), LockOp.Extend(key, token, ttl), now)
    {
      if key !in locks || now > locks[key].expiresAt {
        return false;
      }
      if locks[key].token != token {
        return false;
      }
      locks := locks[key := locks[key].(expiresAt := now + ttl)];
      ok := true;
    }

    method IsHeld(key: string, now: Time) returns (ok: bool)
      ensures (State(), Flag(ok)) == EngineStep(State(), LockOp.IsHeld(key), now)
    {
      ok := key in locks && !(now > locks[key].expiresAt);
    }

    /** The live locks, in the order the map happens to give them. */
    method ActiveLocks(now: Time) returns (result: seq<(string, LockEntry)>)
      ensures |result| == |LiveLocks(State(), now)|
      ensures forall k, e :: (k, e) in result <==> k in LiveLocks(State(), now) && LiveLocks(State(), now)[k] == e
    {
      result := collectLive(now, LiveLocks(State(), now).Keys);
      assert |LiveLocks(State(), now).Keys| == |LiveLocks(State(), now)|;
    }

    method collectLive(now: Time, ghost live: set<string>) returns (result: seq<(string, LockEntry)>)
      requires AreLive(locks, live, now)
      ensures |result| == |live|
      ensures forall k, e :: (k, e) in result <==> k in live && locks[k] == e
    {
      result := [];
      ghost var keys: seq<string> := [];
      var rest := locks.Keys;
      HalfwayStart(live, rest);
      while rest != {}
        invariant rest <= locks.Keys && Halfway(live, SetOf(keys), rest, |keys|)
        invariant Pairs(locks, keys, result)
        decreases rest
      {
        var k :| k in rest;
        HalfwayNext(live, SetOf(keys), rest, |keys|, k);
        SetOfSnoc(keys, k);
        rest := rest - {k};
        if !(now > locks[k].expiresAt) {
          PairsSnoc(locks, keys, result, k);
          result := result + [(k, locks[k])];
          keys := keys + [k];
        }
      }
      HalfwayDone(live, SetOf(keys), |keys|);
      PairsMembers(locks, keys, result, live);
    }

    /** One tick of the cleanup goroutine. */
    method CleanupTick(now: Time)
      modifies this
      ensures State() == EngineStep(old(State()), Cleanup, now).0
    {
      var rest := locks.Keys;
      ghost var all, live := locks, LiveLocks(State(), now);
      while rest != {}
        invariant rest <= all.Keys && fencingSeq == old(fencingSeq)
        invariant forall k :: k in locks <==> k in all && (k in rest || k in live)
        invariant forall k :: k in locks ==> locks[k] == all[k]
        decreases rest
      {
        var k :| k in rest;
        rest := rest - {k};
        if now > locks[k].expiresAt {
          locks := locks - {k};
        }
      }
      assert locks == live;
    }

    /** A call by some other client, or a cleanup tick. */
    method Perform(call: LockCall)
      modifies this
      ensures State() == EngineStep(old(State()), call.op, call.now).0
    {
      match call.op {
        case Acquire(k, ttl, owner, token) => var _, _, _ := Acquire(k, ttl, owner, token, call.now);
        case Release(k, token) => var _ := Release(k, token, call.now);
        case Extend(k, token, ttl) => var _ := Extend(k, token, ttl, call.now);
        case IsHeld(_) =>
        case ActiveLocks =>
        case Cleanup => CleanupTick(call.now);
      }
    }

    /** What happens on the engine while a caller waits between two attempts. */
    method Interfere(calls: seq<LockCall>)
      modifies this
      ensures State() == EngineAfter(old(State()), calls)
    {
      var i := 0;
      while i < |calls|
        invariant 0 <= i <= |calls|
        invariant State() == EngineAfter(old(State()), calls[..i])
      {
        Perform(calls[i]);
        assert calls[..i + 1][..i] == calls[..i];
        i := i + 1;
      }
      assert calls[..|calls|] == calls;
    }

    /** One attempt, after whatever the others did in the meantime. */
    method tryOnce(key: string, ttl: Time, owner: string, drawn: string, now: Time, meanwhile: seq<LockCall>)
      returns (token: string, fencing: nat, acquired: bool)
      modifies this
      ensures acquired <==> !Held(EngineAfter(old(State()), meanwhile), key, now)
      ensures !acquired ==> State() == EngineAfter(old(State()), meanwhile)
      ensures acquired ==>
        (State(), Granted(token, fencing))
        == EngineStep(EngineAfter(old(State()), meanwhile), LockOp.Acquire(key, ttl, owner, drawn), now)
    {
      Interfere(meanwhile);
      token, fencing, acquired := Acquire(key, ttl, owner, drawn, now);
    }

    /** The retry loop of Cache.Lock on the engine that serves the key, the caller's own or a remote one: one clock
        reading and one candidate token per attempt. Before attempt a, others do others[a] on this engine. A negative
        retry count makes no attempt at all. */
    method LockWithRetry(
        key: string, ttl: Time, retryCount: int, owner: string,
        tokens: seq<string>, clock: seq<Time>, others: seq<seq<LockCall>>)
      returns (res: LockResult)
      requires retryCount < |tokens| == |clock| == |others|
      modifies this
      ensures res == ErrKeyEmpty <==> key == ""
      ensures key != "" ==>
        Retried(old(State()), State(), EngineKey(key), ttl, retryCount, owner, tokens, clock, others, res)
    {
      if key == "" {
        return ErrKeyEmpty;
      }
      res := retry(EngineKey(key), ttl, retryCount, owner, tokens, clock, others);
    }

    method retry(
        lockKey: string, ttl: Time, retryCount: int, owner: string,
        tokens: seq<string>, clock: seq<Time>, others: seq<seq<LockCall>>)
      returns (res: LockResult)
      requires retryCount < |tokens| == |clock| == |others|
      modifies this
      ensures res != ErrKeyEmpty
      ensures Retried(old(State()), State(), lockKey, ttl, retryCount, owner, tokens, clock, others, res)
    {
      ghost var start := State();
      var attempt := 0;
      while attempt <= retryCount
        invariant 0 <= attempt && (attempt <= retryCount + 1 || attempt == 0)
        invariant State() == Waited(start, others, attempt)
        invariant AllHeld(start, lockKey, clock, others, attempt)
        decreases retryCount - attempt
      {
        var token, fencing, acquired := tryOnce(lockKey, ttl, owner, tokens[attempt], clock[attempt], others[attempt]);
        if acquired {
          TakenAt(start, State(), lockKey, ttl, retryCount, owner, tokens, clock, others, attempt, token, fencing);
          return Handle(lockKey, token, fencing);
        }
        attempt := attempt + 1;
      }
      NoneFree(start, lockKey, clock, others, retryCount + 1);
      res := ErrLockNotAcquired;
    }
  }

  /** What a Lock call with retries ends in: the first attempt that finds the key free takes it; if none does, only
      the others have changed anything. */
  ghost predicate Retried(
      s: EngineState, t: EngineState, k: string, ttl: Time, retryCount: int, owner: string,
      tokens: seq<string>, clock: seq<Time>, others: seq<seq<LockCall>>, res: LockResult)
    requires retryCount < |tokens| == |clock| == |others|
  {
    var a := FirstFree(s, k, clock, others, retryCount + 1);
    if a < 0 then res == ErrLockNotAcquired && t == Waited(s, others, retryCount + 1)
    else
      var r := EngineStep(Waited(s, others, a + 1), LockOp.Acquire(k, ttl, owner, tokens[a]), clock[a]);
      t == r.0 && res == Handle(k, r.1.token, r.1.fencing)
  }

  /** These are the keys of the unexpired locks. */
  ghost predicate AreLive(locks: map<string, LockEntry>, live: set<string>, now: Time) {
    forall k :: k in live <==> k in locks && !Expired(locks[k], now)
  }

  /** The entries of these keys, in their order. */
  ghost predicate Pairs(locks: map<string, LockEntry>, keys: seq<string>, pairs: seq<(string, LockEntry)>) {
    |keys| == |pairs| && forall i :: 0 <= i < |keys| ==> keys[i] in locks && pairs[i] == (keys[i], locks[keys[i]])
  }

  lemma PairsSnoc(locks: map<string, LockEntry>, keys: seq<string>, pairs: seq<(string, LockEntry)>, k: string)
    requires Pairs(locks, keys, pairs) && k in locks
    ensures Pairs(locks, keys + [k], pairs + [(k, locks[k])])
  {
  }

  lemma PairsMembers(
      locks: map<string, LockEntry>, keys: seq<string>, pairs: seq<(string, LockEntry)>, live: set<string>)
    requires Pairs(locks, keys, pairs) && SetOf(keys) == live <= locks.Keys
    ensures forall k, e :: (k, e) in pairs <==> k in live && locks[k] == e
  {
    forall k, e
      ensures (k, e) in pairs <==> k in live && locks[k] == e
    {
      if k in live && locks[k] == e {
        assert k in SetOf(keys);
        var i :| 0 <= i < |keys| && keys[i] == k;
        assert pairs[i] == (k, e);
      }
      if (k, e) in pairs {
        var i :| 0 <= i < |pairs| && pairs[i] == (k, e);
        assert keys[i] in SetOf(keys);
      }
    }
  }

  /** Lock keys live beside cache keys, under a prefix. */
  function EngineKey(key: string): (k: string) {
    "__lock:" + key
  }

  datatype LockResult = Handle(key: string, token: string, fencing: nat) | ErrKeyEmpty | ErrLockNotAcquired

  /** The engine as n rounds of other clients' calls leave it: attempts that fail change nothing. */
  function Waited(s: EngineState, others: seq<seq<LockCall>>, n: int): (t: EngineState)
    requires n <= |others|
    decreases n
  {
    if n <= 0 then s else EngineAfter(Waited(s, others, n - 1), others[n - 1])
  }

  /** The first n attempts all find the key held. */
  ghost predicate AllHeld(s: EngineState, k: string, clock: seq<Time>, others: seq<seq<LockCall>>, n: int)
    requires n <= |clock| == |others|
  {
    forall i :: 0 <= i < n ==> Held(Waited(s, others, i + 1), k, clock[i])
  }

  /** The first of n attempts that finds the key not held, -1 if there is none. */
  function FirstFree(s: EngineState, k: string, clock: seq<Time>, others: seq<seq<LockCall>>, n: int): (a: int)
    requires n <= |clock| == |others|
    ensures -1 <= a < n || a == -1
    ensures a >= 0 ==> !Held(Waited(s, others, a + 1), k, clock[a])
    ensures AllHeld(s, k, clock, others, if a < 0 then n else a)
    decreases n
  {
    if n <= 0 then -1
    else
      var earlier := FirstFree(s, k, clock, others, n - 1);
      if earlier >= 0 then earlier else if Held(Waited(s, others, n), k, clock[n - 1]) then -1 else n - 1
  }

  lemma FirstFreeIs(s: EngineState, k: string, clock: seq<Time>, others: seq<seq<LockCall>>, n: int, a: nat)
    requires a < n <= |clock| == |others|
    requires !Held(Waited(s, others, a + 1), k, clock[a]) && AllHeld(s, k, clock, others, a)
    ensures FirstFree(s, k, clock, others, n) == a
  {
  }

  /** The attempt that finds the key free is the outcome. */
  lemma TakenAt(
      s: EngineState, t: EngineState, k: string, ttl: Time, retryCount: int, owner: string,
      tokens: seq<string>, clock: seq<Time>, others: seq<seq<LockCall>>, a: nat, token: string, fencing: nat)
    requires a <= retryCount < |tokens| == |clock| == |others| && AllHeld(s, k, clock, others, a)
    requires !Held(Waited(s, others, a + 1), k, clock[a])
    requires (t, Granted(token, fencing))
          == EngineStep(Waited(s, others, a + 1), LockOp.Acquire(k, ttl, owner, tokens[a]), clock[a])
    ensures Retried(s, t, k, ttl, retryCount, owner, tokens, clock, others, Handle(k, token, fencing))
  {
    FirstFreeIs(s, k, clock, others, retryCount + 1, a);
  }

  lemma NoneFree(s: EngineState, k: string, clock: seq<Time>, others: seq<seq<LockCall>>, n: int)
    requires n <= |clock| == |others| && AllHeld(s, k, clock, others, n)
    ensures FirstFree(s, k, clock, others, n) == -1
  {
  }

  datatype LockCall = LockCall(op: LockOp, now: Time)

  function EngineAfter(s: EngineState, run: seq<LockCall>): (t: EngineState) {
    if run == [] then s
    else EngineStep(EngineAfter(s, run[..|run| - 1]), run[|run| - 1].op, run[|run| - 1].now).0
  }

  // ---- Cleanup is free -------------------------------------------------------------------------

  predicate Timely(run: seq<LockCall>, from: Time) {
    run == [] || (from <= run[0].now && Timely(run[1..], run[0].now))
  }

  /** The visible part of a reply: all of it, except that Release shows only whether it gave up a live lock. */
  function Shown(s: EngineState, call: LockCall, reply: LockReply): seq<LockReply> {
    match call.op
    case Cleanup => []
    case Release(k, token) => [Flag(Held(s, k, call.now) && Holds(s, k, token))]
    case _ => [reply]
  }

  function EngineTrace(s: EngineState, run: seq<LockCall>): (replies: seq<LockReply>)
    decreases |run|
  {
    if run == [] then []
    else
      var (t, r) := EngineStep(s, run[0].op, run[0].now);
      Shown(s, run[0], r) + EngineTrace(t, run[1..])
  }

  function WithoutCleanup(run: seq<LockCall>): seq<LockCall> {
    if run == [] then []
    else (if run[0].op.Cleanup? then [] else [run[0]]) + WithoutCleanup(run[1..])
  }

  /** Both engines hold the same under k, or nothing. */
  ghost predicate SameEntry(s: EngineState, t: EngineState, k: string, now: Time) {
    (Held(s, k, now) <==> Held(t, k, now)) && (Held(s, k, now) ==> s.locks[k] == t.locks[k])
  }

  ghost predicate SameLive(s: EngineState, t: EngineState, now: Time) {
    s.fencingSeq == t.fencingSeq && forall k :: SameEntry(s, t, k, now)
  }

  lemma SameLiveLater(s: EngineState, t: EngineState, now: Time, later: Time)
    requires SameLive(s, t, now) && now <= later
    ensures SameLive(s, t, later)
  {
    forall k
      ensures SameEntry(s, t, k, later)
    {
      assert SameEntry(s, t, k, now);
    }
  }

  lemma StepKeepsEntry(s: EngineState, t: EngineState, call: LockCall, k: string)
    requires SameLive(s, t, call.now)
    ensures SameEntry(EngineStep(s, call.op, call.now).0, EngineStep(t, call.op, call.now).0, k, call.now)
  {
    assert SameEntry(s, t, k, call.now);
  }

  /** One call on both: the same fencing token if any, and the same visible answer. */
  lemma SameAnswer(s: EngineState, t: EngineState, call: LockCall)
    requires SameLive(s, t, call.now)
    ensures EngineStep(s, call.op, call.now).0.fencingSeq == EngineStep(t, call.op, call.now).0.fencingSeq
    ensures Shown(s, call, EngineStep(s, call.op, call.now).1) == Shown(t, call, EngineStep(t, call.op, call.now).1)
  {
    if call.op.ActiveLocks? {
      SameLiveLocks(s, t, call.now);
    } else if !call.op.Cleanup? {
      assert SameEntry(s, t, call.op.key, call.now);
    }
  }

  lemma StepKeepsSameLive(s: EngineState, t: EngineState, call: LockCall)
    requires SameLive(s, t, call.now)
    ensures SameLive(EngineStep(s, call.op, call.now).0, EngineStep(t, call.op, call.now).0, call.now)
    ensures Shown(s, call, EngineStep(s, call.op, call.now).1) == Shown(t, call, EngineStep(t, call.op, call.now).1)
  {
    SameAnswer(s, t, call);
    forall k
      ensures SameEntry(EngineStep(s, call.op, call.now).0, EngineStep(t, call.op, call.now).0, k, call.now)
    {
      StepKeepsEntry(s, t, call, k);
    }
  }

  lemma SameLiveLocks(s: EngineState, t: EngineState, now: Time)
    requires SameLive(s, t, now)
    ensures LiveLocks(s, now) == LiveLocks(t, now)
  {
    forall k
      ensures k in LiveLocks(s, now) <==> k in LiveLocks(t, now)
      ensures k in LiveLocks(s, now) ==> LiveLocks(s, now)[k] == LiveLocks(t, now)[k]
    {
      assert SameEntry(s, t, k, now);
    }
  }

  lemma CleanupKeepsSameLive(s: EngineState, t: EngineState, now: Time)
    requires SameLive(s, t, now)
    ensures SameLive(EngineStep(s, Cleanup, now).0, t, now)
  {
    forall k
      ensures SameEntry(EngineStep(s, Cleanup, now).0, t, k, now)
    {
      assert SameEntry(s, t, k, now);
    }
  }

  lemma {:induction false} CleanupIsFreeFrom(s: EngineState, t: EngineState, run: seq<LockCall>, from: Time)
    requires Timely(run, from) && SameLive(s, t, from)
    ensures EngineTrace(s, run) == EngineTrace(t, WithoutCleanup(run))
    decreases |run|
  {
    if run != [] {
      var call := run[0];
      SameLiveLater(s, t, from, call.now);
      var rest := WithoutCleanup(run[1..]);
      if call.op.Cleanup? {
        CleanupKeepsSameLive(s, t, call.now);
        CleanupIsFreeFrom(EngineStep(s, call.op, call.now).0, t, run[1..], call.now);
        assert WithoutCleanup(run) == rest;
      } else {
        StepKeepsSameLive(s, t, call);
        CleanupIsFreeFrom(EngineStep(s, call.op, call.now).0, EngineStep(t, call.op, call.now).0, run[1..], call.now);
        assert WithoutCleanup(run)[1..] == rest;
      }
    }
  }

  /** Cleanup ticks put in or taken out anywhere change no answer of Acquire (fencing tokens included), Extend,
      IsHeld or ActiveLocks, and no release of a live lock. */
  lemma CleanupIsFree(s: EngineState, run: seq<LockCall>, from: Time)
    requires Timely(run, from)
    ensures EngineTrace(s, run) == EngineTrace(s, WithoutCleanup(run))
  {
    CleanupIsFreeFrom(s, s, run, from);
  }

  // ---- What cleanup does show ------------------------------------------------------------------

  /** The same run with no cleanup in it. */
  function Uncleaned(s: EngineState, run: seq<LockCall>): (t: EngineState) {
    if run == [] then s
    else
      var before, call := Uncleaned(s, run[..|run| - 1]), run[|run| - 1];
      if call.op.Cleanup? then before else EngineStep(before, call.op, call.now).0
  }

  /** It is what the run without its cleanup ticks leaves. */
  lemma {:induction false} UncleanedIsWithout(s: EngineState, run: seq<LockCall>)
    ensures Uncleaned(s, run) == EngineAfter(s, WithoutCleanup(run))
  {
    if run != [] {
      var before, call := run[..|run| - 1], run[|run| - 1];
      UncleanedIsWithout(s, before);
      assert run == before + [call];
      WithoutCleanupSnoc(before, call);
      var w := WithoutCleanup(before);
      if call.op.Cleanup? {
        assert w + [] == w;
      } else {
        assert (w + [call])[..|w|] == w;
      }
    }
  }

  lemma {:induction false} WithoutCleanupSnoc(run: seq<LockCall>, call: LockCall)
    ensures WithoutCleanup(run + [call]) == WithoutCleanup(run) + if call.op.Cleanup? then [] else [call]
  {
    if run == [] {
      assert run + [call] == [call] && [call][1..] == [];
      assert WithoutCleanup([call][1..]) == [];
    } else {
      WithoutCleanupSnoc(run[1..], call);
      var head := if run[0].op.Cleanup? then [] else [run[0]];
      var last := if call.op.Cleanup? then [] else [call];
      assert (run + [call])[0] == run[0] && (run + [call])[1..] == run[1..] + [call];
      AppendAssoc(head, WithoutCleanup(run[1..]), last);
    }
  }

  /** Clock readings do not go backwards. */
  ghost predicate InOrder(run: seq<LockCall>) {
    forall i, j :: 0 <= i < j < |run| ==> run[i].now <= run[j].now
  }

  /** This call writes the entry of k: a granted Acquire or a successful Extend. */
  predicate Writes(s: EngineState, call: LockCall, k: string) {
    match call.op
    case Acquire(k', _, _, _) => k' == k && !Held(s, k, call.now)
    case Extend(k', token, _) => k' == k && Held(s, k, call.now) && Holds(s, k, token)
    case _ => false
  }

  /** The last call of the run that wrote the entry of k, -1 if none did. */
  function LastWrite(s: EngineState, run: seq<LockCall>, k: string): (i: int)
    ensures -1 <= i < |run|
  {
    if run == [] then -1
    else
      var last := |run| - 1;
      if Writes(Uncleaned(s, run[..last]), run[last], k) then last else LastWrite(s, run[..last], k)
  }

  /** A cleanup tick found the entry of k, as it was last written, past its deadline. */
  ghost predicate CleanedAway(s: EngineState, run: seq<LockCall>, k: string, deadline: Time) {
    exists m :: LastWrite(s, run, k) < m < |run| && run[m].op.Cleanup? && run[m].now > deadline
  }

  /** Cleanup has cost the engine exactly the entries that a tick found expired; the others are the same. */
  ghost predicate Thinned(s: EngineState, run: seq<LockCall>, k: string) {
    var a, u := EngineAfter(s, run), Uncleaned(s, run);
    && a.fencingSeq == u.fencingSeq
    && (k in a.locks ==> k in u.locks && a.locks[k] == u.locks[k])
    && (k in u.locks ==> (k in a.locks <==> !CleanedAway(s, run, k, u.locks[k].expiresAt)))
  }

  lemma CleanedAwaySnoc(s: EngineState, run: seq<LockCall>, k: string, deadline: Time)
    requires run != [] && !Writes(Uncleaned(s, run[..|run| - 1]), run[|run| - 1], k)
    ensures CleanedAway(s, run, k, deadline)
       <==> CleanedAway(s, run[..|run| - 1], k, deadline)
            || (run[|run| - 1].op.Cleanup? && run[|run| - 1].now > deadline)
  {
    var last := |run| - 1;
    var before := run[..last];
    assert forall m :: 0 <= m < last ==> before[m] == run[m];
    if CleanedAway(s, before, k, deadline) {
      var m :| LastWrite(s, before, k) < m < |before| && before[m].op.Cleanup? && before[m].now > deadline;
      assert run[m].op.Cleanup? && run[m].now > deadline;
    }
    if CleanedAway(s, run, k, deadline) {
      var m :| LastWrite(s, run, k) < m < |run| && run[m].op.Cleanup? && run[m].now > deadline;
      assert m < last ==> before[m].op.Cleanup? && before[m].now > deadline;
    }
  }

  /** An entry that was cleaned away had expired, so both engines agree on what is held. */
  lemma ThinnedHeld(s: EngineState, run: seq<LockCall>, k: string, now: Time)
    requires Thinned(s, run, k) && forall i :: 0 <= i < |run| ==> run[i].now <= now
    ensures Held(EngineAfter(s, run), k, now) <==> Held(Uncleaned(s, run), k, now)
  {
  }

  lemma {:induction false} RunThinned(s: EngineState, run: seq<LockCall>, k: string)
    requires InOrder(run)
    ensures Thinned(s, run, k)
  {
    if run != [] {
      var last := |run| - 1;
      var before := run[..last];
      assert InOrder(before);
      RunThinned(s, before, k);
      if run[last].op.Acquire? || run[last].op.Extend? {
        RunThinned(s, before, run[last].op.key);
        ThinnedHeld(s, before, run[last].op.key, run[last].now);
      }
      ThinnedStep(s, run, k);
    }
  }

  /** What one call does to the entry of k on an engine and on one that lost some expired entries. */
  lemma StepThins(a: EngineState, u: EngineState, call: LockCall, k: string)
    requires a.fencingSeq == u.fencingSeq && (k in a.locks ==> k in u.locks && a.locks[k] == u.locks[k])
    requires call.op.Acquire? || call.op.Extend? ==>
      (Held(a, call.op.key, call.now) <==> Held(u, call.op.key, call.now))
    ensures var b := EngineStep(a, call.op, call.now).0;
      var v := if call.op.Cleanup? then u else EngineStep(u, call.op, call.now).0;
      && b.fencingSeq == v.fencingSeq && (k in b.locks ==> k in v.locks && b.locks[k] == v.locks[k])
      && (Writes(u, call, k) ==> k in b.locks)
      && (!Writes(u, call, k) && k in v.locks ==>
            && k in u.locks && v.locks[k] == u.locks[k]
            && (k in b.locks <==> k in a.locks && !(call.op.Cleanup? && call.now > u.locks[k].expiresAt)))
  {
  }

  lemma ThinnedStep(s: EngineState, run: seq<LockCall>, k: string)
    requires run != [] && Thinned(s, run[..|run| - 1], k)
    requires var op, now := run[|run| - 1].op, run[|run| - 1].now;
      op.Acquire? || op.Extend? ==>
        (Held(EngineAfter(s, run[..|run| - 1]), op.key, now) <==> Held(Uncleaned(s, run[..|run| - 1]), op.key, now))
    ensures Thinned(s, run, k)
  {
    var last := |run| - 1;
    var a, u := EngineAfter(s, run[..last]), Uncleaned(s, run[..last]);
    StepThins(a, u, run[last], k);
    if Writes(u, run[last], k) {
      assert LastWrite(s, run, k) == last;
    } else if k in Uncleaned(s, run).locks {
      CleanedAwaySnoc(s, run, k, u.locks[k].expiresAt);
    }
  }

  /** What Release answers; the time does not matter to it. */
  function ReleaseReply(s: EngineState, k: string, token: string): (reply: LockReply)
    ensures forall now :: EngineStep(s, Release(k, token), now).1 == reply
  {
    EngineStep(s, Release(k, token), 0).1
  }

  /** Cleanup shows in the answer of a Release exactly if, without it, the engine would still carry the caller's
      token and some tick had found that entry expired since it was last written. Then the Release that would
      have succeeded, on an expired lock, is refused. */
  lemma ReleaseDiffersIff(s: EngineState, run: seq<LockCall>, k: string, token: string)
    requires InOrder(run)
    ensures ReleaseReply(EngineAfter(s, run), k, token) != ReleaseReply(EngineAfter(s, WithoutCleanup(run)), k, token)
       <==> var u := EngineAfter(s, WithoutCleanup(run));
            Holds(u, k, token) && CleanedAway(s, run, k, u.locks[k].expiresAt)
    ensures ReleaseReply(EngineAfter(s, run), k, token) == Flag(true)
        ==> ReleaseReply(EngineAfter(s, WithoutCleanup(run)), k, token) == Flag(true)
  {
    UncleanedIsWithout(s, run);
    RunThinned(s, run, k);
  }
}
