/** The lock engines of a cluster when every call about a key reaches the same engine, given by a route. LockClients
    shows that the clients of a stable cluster make such runs; one engine alone is the case of a constant route. */
module ClusterLocks {
  import opened Base
  import opened LockEngine

  type Engines = map<string, EngineState>

  /** A call, the reading of the clock of the engine that executes it and, for the keyless ones, its node. */
  datatype Event = Event(op: LockOp, now: Time, node: string)

  function EngineAt(es: Engines, node: string): EngineState {
    if node in es then es[node] else FRESH
  }

  predicate Keyed(op: LockOp) {
    !op.ActiveLocks? && !op.Cleanup?
  }

  function Target(route: string -> string, ev: Event): string {
    if Keyed(ev.op) then route(ev.op.key) else ev.node
  }

  function ClusterStep(route: string -> string, es: Engines, ev: Event): (r: (Engines, LockReply)) {
    var n := Target(route, ev);
    var (s, reply) := EngineStep(EngineAt(es, n), ev.op, ev.now);
    (es[n := s], reply)
  }

  /** A run: its events, the engines before and after each of them, and the replies. */
  datatype History = History(route: string -> string, events: seq<Event>, states: seq<Engines>, replies: seq<LockReply>)
  {
    ghost predicate Step(j: nat)
      requires j < |events| == |replies| && |states| == |events| + 1
    {
      (states[j + 1], replies[j]) == ClusterStep(route, states[j], events[j])
    }

    /** The run of these events from engines that hold nothing. */
    ghost predicate IsRun() {
      && |replies| == |events| && |states| == |events| + 1
      && states[0] == map[]
      && forall j: nat {:trigger Step(j)} :: j < |events| ==> Step(j)
    }

    predicate IsGrant(j: nat)
      requires j < |events| == |replies|
    {
      events[j].op.Acquire? && replies[j].Granted?
    }

    /** The engine that serves key k, after j events. */
    function At(k: string, j: nat): EngineState
      requires j < |states|
    {
      EngineAt(states[j], route(k))
    }

    /** Random tokens never repeat. */
    ghost predicate FreshTokens()
      requires |events| == |replies|
    {
      forall i, j :: 0 <= i < j < |events| && IsGrant(i) && IsGrant(j) ==> events[i].op.token != events[j].op.token
    }

    /** The readings of each engine's clock do not go backwards. Different engines may have different clocks. */
    ghost predicate Monotone() {
      forall i, j :: 0 <= i < j < |events| && Target(route, events[i]) == Target(route, events[j]) ==>
        events[i].now <= events[j].now
    }

    /** The deadline of the lock granted at i as of event j: from the grant, or from its holder's last
        successful Extend. */
    function LastDeadline(i: nat, j: nat): (d: Time)
      requires i < j <= |events| == |replies| && events[i].op.Acquire?
      decreases j
    {
      if j == i + 1 then events[i].now + events[i].op.ttl
      else if Extended(i, j - 1) then events[j - 1].now + events[j - 1].op.ttl
      else LastDeadline(i, j - 1)
    }

    /** Event j is a successful Extend by the holder of grant i. */
    predicate Extended(i: nat, j: nat)
      requires i < |events| && j < |events| == |replies| && events[i].op.Acquire?
    {
      && events[j].op.Extend? && replies[j] == Flag(true)
      && events[j].op.key == events[i].op.key && events[j].op.token == events[i].op.token
    }

    /** The holder of grant i gave the lock up before event j. */
    ghost predicate ReleasedBefore(i: nat, j: nat)
      requires i < j <= |events| == |replies| && events[i].op.Acquire?
    {
      exists m :: i < m < j && events[m].op == Release(events[i].op.key, events[i].op.token) && replies[m] == Flag(true)
    }

    /** The engine of the key read its clock before event j and found it past the last deadline of grant i. */
    ghost predicate LapsedBefore(i: nat, j: nat)
      requires i < j <= |events| == |replies| && events[i].op.Acquire?
    {
      exists m :: i < m < j && ReadPast(m, events[i].op.key, LastDeadline(i, j))
    }

    /** Event m runs on the engine of k, after this deadline by its clock. */
    predicate ReadPast(m: nat, k: string, deadline: Time)
      requires m < |events|
    {
      Target(route, events[m]) == route(k) && events[m].now > deadline
    }

    /** The engine of the key still carries grant i after j events. */
    predicate StillThere(i: nat, j: nat)
      requires i < |events| && j < |states| && events[i].op.Acquire?
    {
      Holds(At(events[i].op.key, j), events[i].op.key, events[i].op.token)
    }

    /** The record of grant i after j events: its token, its fencing token, its last deadline and its owner. */
    function Record(i: nat, j: nat): (e: LockEntry)
      requires i < j <= |events| == |replies| && IsGrant(i)
    {
      LockEntry(events[i].op.token, replies[i].fencing, LastDeadline(i, j), events[i].op.owner)
    }

    /** Where grant i stands after j events: still in its engine, with that record, or gone, and gone only because
        its holder released it or its last deadline passed. */
    ghost predicate Fate(i: nat, j: nat)
      requires IsRun() && i < j <= |events| && IsGrant(i)
    {
      var k := events[i].op.key;
      if StillThere(i, j)
      then At(k, j).locks[k] == Record(i, j)
      else ReleasedBefore(i, j) || LapsedBefore(i, j)
    }
  }

  // ---- What one event does to one key ----------------------------------------------------------

  /** An event leaves keys it does not name as they are, except that cleanup drops expired locks. */
  lemma OtherKeysKept(h: History, j: nat, k: string)
    requires h.IsRun() && j < |h.events|
    requires Keyed(h.events[j].op) ==> h.events[j].op.key != k
    ensures var before, after := h.At(k, j), h.At(k, j + 1);
      && (k in after.locks ==> k in before.locks && after.locks[k] == before.locks[k])
      && (k in before.locks && k !in after.locks ==> h.ReadPast(j, k, before.locks[k].expiresAt))
  {
    assert h.Step(j);
  }

  lemma OwnKeyStep(h: History, j: nat)
    requires h.IsRun() && j < |h.events| && Keyed(h.events[j].op)
    ensures (h.At(h.events[j].op.key, j + 1), h.replies[j])
         == EngineStep(h.At(h.events[j].op.key, j), h.events[j].op, h.events[j].now)
  {
    assert h.Step(j);
  }

  // ---- Safety over whole runs ------------------------------------------------------------------

  lemma FateAtGrant(h: History, i: nat)
    requires h.IsRun() && i < |h.events| && h.IsGrant(i)
    ensures h.Fate(i, i + 1)
  {
    OwnKeyStep(h, i);
  }

  lemma SameDeadline(h: History, i: nat, j: nat)
    requires h.IsRun() && i < j < |h.events| && h.IsGrant(i) && !h.Extended(i, j)
    ensures h.LastDeadline(i, j + 1) == h.LastDeadline(i, j)
    ensures h.ReleasedBefore(i, j) ==> h.ReleasedBefore(i, j + 1)
    ensures h.LapsedBefore(i, j) || h.ReadPast(j, h.events[i].op.key, h.LastDeadline(i, j)) ==> h.LapsedBefore(i, j + 1)
  {
    var k := h.events[i].op.key;
    if h.LapsedBefore(i, j) {
      var m :| i < m < j && h.ReadPast(m, k, h.LastDeadline(i, j));
      assert h.ReadPast(m, k, h.LastDeadline(i, j + 1));
    } else if h.ReadPast(j, k, h.LastDeadline(i, j)) {
      assert h.ReadPast(j, k, h.LastDeadline(i, j + 1));
    }
  }

  lemma FateElsewhere(h: History, i: nat, j: nat)
    requires h.IsRun() && i < j < |h.events| && h.IsGrant(i) && h.Fate(i, j)
    requires !(Keyed(h.events[j].op) && h.events[j].op.key == h.events[i].op.key)
    ensures h.Fate(i, j + 1)
  {
    OtherKeysKept(h, j, h.events[i].op.key);
    SameDeadline(h, i, j);
  }

  lemma FateAtOwnKey(h: History, i: nat, j: nat)
    requires h.IsRun() && i < j < |h.events| && h.IsGrant(i) && h.Fate(i, j)
    requires Keyed(h.events[j].op) && h.events[j].op.key == h.events[i].op.key
    requires h.IsGrant(j) ==> h.events[j].op.token != h.events[i].op.token
    ensures h.Fate(i, j + 1)
  {
    OwnKeyStep(h, j);
    if h.Extended(i, j) {
      assert h.StillThere(i, j + 1);
    } else {
      SameDeadline(h, i, j);
      if h.events[j].op == Release(h.events[i].op.key, h.events[i].op.token) && h.replies[j] == Flag(true) {
        assert h.ReleasedBefore(i, j + 1);
      }
    }
  }

  /** Every grant of every run meets one of these fates. */
  lemma {:induction false} GrantFate(h: History, i: nat, j: nat)
    requires h.IsRun() && h.FreshTokens()
    requires i < j <= |h.events| && h.IsGrant(i)
    ensures h.Fate(i, j)
    decreases j
  {
    if j == i + 1 {
      FateAtGrant(h, i);
    } else {
      GrantFate(h, i, j - 1);
      if Keyed(h.events[j - 1].op) && h.events[j - 1].op.key == h.events[i].op.key {
        FateAtOwnKey(h, i, j - 1);
      } else {
        FateElsewhere(h, i, j - 1);
      }
    }
  }

  /** Mutual exclusion: a later grant on the same key means the earlier holder released the lock
      or the engine's clock has passed the last deadline it was given. */
  lemma GrantsDoNotOverlap(h: History, i: nat, j: nat)
    requires h.IsRun() && h.FreshTokens() && h.Monotone()
    requires i < j < |h.events| && h.IsGrant(i) && h.IsGrant(j)
    requires h.events[i].op.key == h.events[j].op.key
    ensures h.ReleasedBefore(i, j) || h.events[j].now > h.LastDeadline(i, j)
  {
    GrantFate(h, i, j);
    OwnKeyStep(h, j);
    if h.LapsedBefore(i, j) {
      var m :| i < m < j && h.ReadPast(m, h.events[i].op.key, h.LastDeadline(i, j));
      assert h.events[m].now <= h.events[j].now;
    }
  }

  /** A grant that has left its engine never comes back. */
  lemma {:induction false} GoneForGood(h: History, i: nat, j: nat, m: nat)
    requires h.IsRun() && h.FreshTokens()
    requires i < j <= m <= |h.events| && h.IsGrant(i)
    requires !h.StillThere(i, j)
    ensures !h.StillThere(i, m)
    decreases m
  {
    if j < m {
      GoneForGood(h, i, j, m - 1);
      if Keyed(h.events[m - 1].op) && h.events[m - 1].op.key == h.events[i].op.key {
        OwnKeyStep(h, m - 1);
        assert h.IsGrant(m - 1) ==> h.events[m - 1].op.token != h.events[i].op.token;
      } else {
        OtherKeysKept(h, m - 1, h.events[i].op.key);
      }
    }
  }

  /** A superseded token is dead: after a later grant on its key it can neither release nor extend anything there. */
  lemma SupersededTokenIsDead(h: History, i: nat, j: nat, m: nat)
    requires h.IsRun() && h.FreshTokens()
    requires i < j < m < |h.events| && h.IsGrant(i) && h.IsGrant(j)
    requires h.events[i].op.key == h.events[j].op.key
    requires h.events[m].op == Release(h.events[i].op.key, h.events[i].op.token)
          || (h.events[m].op.Extend? && h.events[m].op.key == h.events[i].op.key
              && h.events[m].op.token == h.events[i].op.token)
    ensures h.replies[m] == Flag(false)
    ensures h.At(h.events[i].op.key, m + 1) == h.At(h.events[i].op.key, m)
  {
    OwnKeyStep(h, j);
    assert h.events[i].op.token != h.events[j].op.token;
    GoneForGood(h, i, j + 1, m);
    OwnKeyStep(h, m);
  }

  // ---- Exactly who holds a lock ----------------------------------------------------------------

  /** A released grant is gone. */
  lemma ReleasedIsGone(h: History, i: nat, j: nat)
    requires h.IsRun() && h.FreshTokens() && i < j <= |h.events| && h.IsGrant(i) && h.ReleasedBefore(i, j)
    ensures !h.StillThere(i, j)
  {
    var m :| i < m < j && h.events[m].op == Release(h.events[i].op.key, h.events[i].op.token)
      && h.replies[m] == Flag(true);
    OwnKeyStep(h, m);
    GoneForGood(h, i, m + 1, j);
  }

  /** Whatever an engine carries under a key, some earlier grant put it there. */
  lemma {:induction false} EntryFromGrant(h: History, k: string, j: nat) returns (i: nat)
    requires h.IsRun() && j <= |h.events| && k in h.At(k, j).locks
    ensures i < j && h.IsGrant(i) && h.events[i].op.key == k && h.StillThere(i, j)
  {
    var e := h.events[j - 1];
    if Keyed(e.op) && e.op.key == k {
      OwnKeyStep(h, j - 1);
      if h.IsGrant(j - 1) {
        i := j - 1;
      } else {
        i := EntryFromGrant(h, k, j - 1);
      }
    } else {
      OtherKeysKept(h, j - 1, k);
      i := EntryFromGrant(h, k, j - 1);
    }
  }

  /** By event j grant i is over: its holder released it, or the clock is past the last deadline it was given. */
  ghost predicate Over(h: History, i: nat, j: nat)
    requires |h.events| == |h.replies| && i < j < |h.events| && h.events[i].op.Acquire?
  {
    h.ReleasedBefore(i, j) || h.events[j].now > h.LastDeadline(i, j)
  }

  /** Event j, on the engine of the key, finds grant i holding the lock exactly if it is not over. */
  lemma HoldsUntilOver(h: History, i: nat, j: nat)
    requires h.IsRun() && h.FreshTokens() && h.Monotone() && i < j < |h.events| && h.IsGrant(i)
    requires Target(h.route, h.events[j]) == h.route(h.events[i].op.key)
    ensures var k := h.events[i].op.key;
      !Over(h, i, j) <==> h.StillThere(i, j) && Held(h.At(k, j), k, h.events[j].now)
  {
    GrantFate(h, i, j);
    if h.ReleasedBefore(i, j) {
      ReleasedIsGone(h, i, j);
    } else if h.LapsedBefore(i, j) {
      var m :| i < m < j && h.ReadPast(m, h.events[i].op.key, h.LastDeadline(i, j));
      assert h.events[m].now <= h.events[j].now;
    }
  }

  /** Event j finds the key held exactly if some earlier grant of it is not over. */
  lemma HeldIff(h: History, k: string, j: nat)
    requires h.IsRun() && h.FreshTokens() && h.Monotone() && j < |h.events|
    requires Target(h.route, h.events[j]) == h.route(k)
    ensures Held(h.At(k, j), k, h.events[j].now)
       <==> exists i :: 0 <= i < j && h.IsGrant(i) && h.events[i].op.key == k && !Over(h, i, j)
  {
    if Held(h.At(k, j), k, h.events[j].now) {
      var i := EntryFromGrant(h, k, j);
      HoldsUntilOver(h, i, j);
    }
    if i :| 0 <= i < j && h.IsGrant(i) && h.events[i].op.key == k && !Over(h, i, j) {
      HoldsUntilOver(h, i, j);
    }
  }

  /** An Acquire is granted exactly if every earlier grant of its key is over. */
  lemma GrantedIff(h: History, j: nat)
    requires h.IsRun() && h.FreshTokens() && h.Monotone() && j < |h.events| && h.events[j].op.Acquire?
    ensures h.IsGrant(j)
       <==> forall i :: 0 <= i < j && h.IsGrant(i) && h.events[i].op.key == h.events[j].op.key ==> Over(h, i, j)
  {
    HeldIff(h, h.events[j].op.key, j);
    OwnKeyStep(h, j);
  }

  /** IsHeld says whether some earlier grant of the key is not over. */
  lemma IsHeldIff(h: History, j: nat)
    requires h.IsRun() && h.FreshTokens() && h.Monotone() && j < |h.events| && h.events[j].op.IsHeld?
    ensures h.replies[j] == Flag(exists i ::
      0 <= i < j && h.IsGrant(i) && h.events[i].op.key == h.events[j].op.key && !Over(h, i, j))
  {
    HeldIff(h, h.events[j].op.key, j);
    OwnKeyStep(h, j);
  }

  /** An engine only ever carries the keys that are routed to it. */
  lemma {:induction false} OnlyOwnKeys(h: History, node: string, k: string, j: nat)
    requires h.IsRun() && j <= |h.events| && k in EngineAt(h.states[j], node).locks
    ensures h.route(k) == node
  {
    if j > 0 {
      assert h.Step(j - 1);
      if k in EngineAt(h.states[j - 1], node).locks {
        OnlyOwnKeys(h, node, k, j - 1);
      }
    }
  }

  /** ActiveLocks on a node lists a key exactly if it is routed there and some earlier grant of it is not over. */
  lemma ActiveIff(h: History, j: nat, k: string)
    requires h.IsRun() && h.FreshTokens() && h.Monotone() && j < |h.events| && h.events[j].op.ActiveLocks?
    ensures h.replies[j].Active?
    ensures k in h.replies[j].live
       <==> h.route(k) == h.events[j].node
            && exists i :: 0 <= i < j && h.IsGrant(i) && h.events[i].op.key == k && !Over(h, i, j)
  {
    assert h.Step(j);
    if h.route(k) == h.events[j].node {
      HeldIff(h, k, j);
    } else if k in h.replies[j].live {
      OnlyOwnKeys(h, h.events[j].node, k, j);
    }
  }

  /** And it lists it with the record of that grant. */
  lemma ActiveRecord(h: History, i: nat, j: nat)
    requires h.IsRun() && h.FreshTokens() && h.Monotone() && i < j < |h.events| && h.IsGrant(i) && !Over(h, i, j)
    requires h.events[j].op.ActiveLocks? && h.events[j].node == h.route(h.events[i].op.key)
    ensures h.replies[j].Active? && h.events[i].op.key in h.replies[j].live
    ensures h.replies[j].live[h.events[i].op.key] == h.Record(i, j)
  {
    HoldsUntilOver(h, i, j);
    GrantFate(h, i, j);
    assert h.Step(j);
  }

  /** The holder of a grant can extend it exactly until it is over. */
  lemma ExtendedIff(h: History, i: nat, j: nat)
    requires h.IsRun() && h.FreshTokens() && h.Monotone() && i < j < |h.events| && h.IsGrant(i)
    requires h.events[j].op.Extend? && h.events[j].op.key == h.events[i].op.key
    requires h.events[j].op.token == h.events[i].op.token
    ensures h.replies[j] == Flag(!Over(h, i, j))
  {
    HoldsUntilOver(h, i, j);
    OwnKeyStep(h, j);
  }

  /** The holder of a grant that is not over can release it, a second release is refused, and in between only an
      entry past its deadline may or may not still be there to release. */
  lemma ReleasedIff(h: History, i: nat, j: nat)
    requires h.IsRun() && h.FreshTokens() && h.Monotone() && i < j < |h.events| && h.IsGrant(i)
    requires h.events[j].op == Release(h.events[i].op.key, h.events[i].op.token)
    ensures h.replies[j] == Flag(h.StillThere(i, j)) && !h.StillThere(i, j + 1)
    ensures !Over(h, i, j) ==> h.replies[j] == Flag(true)
    ensures h.ReleasedBefore(i, j) ==> h.replies[j] == Flag(false)
  {
    HoldsUntilOver(h, i, j);
    OwnKeyStep(h, j);
    if h.ReleasedBefore(i, j) {
      ReleasedIsGone(h, i, j);
    }
  }

  // ---- Fencing tokens --------------------------------------------------------------------------

  /** How many locks a node's engine granted in the first j events. */
  function Grants(h: History, node: string, j: nat): (n: nat)
    requires j <= |h.events| == |h.replies|
  {
    if j == 0 then 0
    else Grants(h, node, j - 1) + if h.IsGrant(j - 1) && Target(h.route, h.events[j - 1]) == node then 1 else 0
  }

  lemma {:induction false} FencingSeqCounts(h: History, node: string, j: nat)
    requires h.IsRun() && j <= |h.events|
    ensures EngineAt(h.states[j], node).fencingSeq == Mod64(Grants(h, node, j))
  {
    if j > 0 {
      FencingSeqCounts(h, node, j - 1);
      FencingStep(h, node, j - 1);
      Mod64Step(Grants(h, node, j - 1));
    }
  }

  lemma FencingStep(h: History, node: string, j: nat)
    requires h.IsRun() && j < |h.events|
    ensures EngineAt(h.states[j + 1], node).fencingSeq
         == if h.IsGrant(j) && Target(h.route, h.events[j]) == node
            then Mod64(EngineAt(h.states[j], node).fencingSeq + 1)
            else EngineAt(h.states[j], node).fencingSeq
  {
    assert h.Step(j);
  }

  lemma {:induction false} GrantsMonotone(h: History, node: string, i: nat, j: nat)
    requires i <= j <= |h.events| == |h.replies|
    ensures Grants(h, node, i) <= Grants(h, node, j)
    decreases j
  {
    if i < j {
      GrantsMonotone(h, node, i, j - 1);
    }
  }

  lemma GrantReply(h: History, i: nat)
    requires h.IsRun() && i < |h.events| && h.IsGrant(i)
    ensures h.replies[i] == Granted(h.events[i].op.token, Mod64(h.At(h.events[i].op.key, i).fencingSeq + 1))
  {
    OwnKeyStep(h, i);
  }

  /** A fencing token is the number of the grant on its engine, in uint64 arithmetic. */
  lemma FencingIsGrantNumber(h: History, i: nat, node: string)
    requires h.IsRun() && i < |h.events| && h.IsGrant(i) && Target(h.route, h.events[i]) == node
    ensures h.replies[i].fencing == Mod64(Grants(h, node, i) + 1)
  {
    FencingSeqCounts(h, node, i);
    Mod64Step(Grants(h, node, i));
    GrantReply(h, i);
  }

  /** Fencing tokens strictly increase across the grants of an engine, so across all grants of a key,
      exactly as long as the grant number fits a uint64. */
  lemma FencingIncreasesIff(h: History, i: nat, j: nat, node: string)
    requires h.IsRun() && i < j < |h.events| && h.IsGrant(i) && h.IsGrant(j)
    requires Target(h.route, h.events[i]) == Target(h.route, h.events[j]) == node
    requires Grants(h, node, j) < TWO_64
    ensures h.replies[i].fencing < h.replies[j].fencing <==> Grants(h, node, j) + 1 < TWO_64
  {
    FencingIsGrantNumber(h, i, node);
    FencingIsGrantNumber(h, j, node);
    EarlierGrant(h, i, j, node);
    FencingArithmetic(Grants(h, node, i), Grants(h, node, j));
  }

  lemma EarlierGrant(h: History, i: nat, j: nat, node: string)
    requires i < j <= |h.events| == |h.replies| && h.IsGrant(i) && Target(h.route, h.events[i]) == node
    ensures Grants(h, node, i) < Grants(h, node, j)
  {
    GrantsMonotone(h, node, i + 1, j);
  }

  lemma FencingArithmetic(a: nat, b: nat)
    requires a < b < TWO_64
    ensures Mod64(a + 1) < Mod64(b + 1) <==> b + 1 < TWO_64
  {
  }

  /** Every sequence of events has its run, so the theorems speak about all of them. */
  lemma {:induction false} RunExists(route: string -> string, events: seq<Event>) returns (h: History)
    ensures h.IsRun() && h.route == route && h.events == events
  {
    if events == [] {
      h := History(route, events, [map[]], []);
    } else {
      var last := |events| - 1;
      var b := RunExists(route, events[..last]);
      var (es, reply) := ClusterStep(route, b.states[last], events[last]);
      h := History(route, events, b.states + [es], b.replies + [reply]);
      forall j: nat | j < |events|
        ensures h.Step(j)
      {
        if j < last {
          assert b.Step(j);
        }
      }
    }
  }
}
