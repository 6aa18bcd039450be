/** Distributed locks as clients use them: Lock on any node of a stable cluster, Release and Extend through the
    handle it returned. The owner of the key is looked up once, when the lock is taken; the handle remembers it. */
module LockClients {
  import opened Base
  import opened Membership
  import opened LockEngine
  import CL = ClusterLocks
  import P = Partitioned

  /** `LockHandle`: the node whose cache made it, the engine key, the token, and the owner's address, "" if local. */
  datatype LockHandle = LockHandle(node: string, key: string, token: string, fencing: nat, ownerAddr: string)

  /** One attempt of Lock with the random token it would get, a call on a handle, or one node's cleanup tick;
      `now` is read from the clock of the node that executes it. */
  datatype Call =
    | Lock(node: string, key: string, ttl: Time, token: string, now: Time)
    | Release(handle: LockHandle, now: Time)
    | Extend(handle: LockHandle, ttl: Time, now: Time)
    | Tick(node: string, now: Time)

  /** Where a call on a handle goes: to the caller's own engine, or to the remembered address. */
  ghost function HandleTarget(cl: P.Cluster, h: LockHandle): (n: Option<string>) {
    if h.ownerAddr == "" then Some(h.node) else P.Dial(cl, h.ownerAddr)
  }

  /** The node whose engine executes a call. */
  ghost function Site(cl: P.Cluster, call: Call): (n: Option<string>) {
    match call
    case Lock(node, key, _, _, _) => if node in cl.views then P.Target(cl, node, EngineKey(key)) else None
    case Release(h, _) => HandleTarget(cl, h)
    case Extend(h, _, _) => HandleTarget(cl, h)
    case Tick(node, _) => Some(node)
  }

  /** What the executing engine is asked. It records its own node as the owner. */
  function EngineOp(call: Call, site: string): (op: LockOp) {
    match call
    case Lock(_, key, ttl, token, _) => LockOp.Acquire(EngineKey(key), ttl, site, token)
    case Release(h, _) => LockOp.Release(h.key, h.token)
    case Extend(h, ttl, _) => LockOp.Extend(h.key, h.token, ttl)
    case Tick(_, _) => LockOp.Cleanup
  }

  /** A run of client calls: the engines before and after each, and what the engines answered. */
  datatype Run = Run(cl: P.Cluster, calls: seq<Call>, states: seq<CL.Engines>, replies: seq<LockReply>)
  {
    ghost predicate Sized() {
      |replies| == |calls| && |states| == |calls| + 1
    }

    predicate IsGrant(j: nat)
      requires j < |calls| == |replies|
    {
      calls[j].Lock? && calls[j].node in cl.views && replies[j].Granted?
    }

    /** The handle a successful Lock returns. */
    function HandleOf(i: nat): (h: LockHandle)
      requires i < |calls| == |replies| && IsGrant(i)
    {
      var k := EngineKey(calls[i].key);
      LockHandle(calls[i].node, k, replies[i].token, replies[i].fencing, OwnerAddr(cl.cfg, cl.views[calls[i].node], k))
    }

    ghost predicate Issued(h: LockHandle, j: nat)
      requires j <= |calls| == |replies|
    {
      exists i :: 0 <= i < j && IsGrant(i) && HandleOf(i) == h
    }

    /** Calls come from nodes of the cluster and from handles that an earlier Lock returned. */
    ghost predicate Allowed(j: nat)
      requires j < |calls| == |replies|
    {
      match calls[j]
      case Lock(node, _, _, _, _) => node in cl.views
      case Release(h, _) => Issued(h, j)
      case Extend(h, _, _) => Issued(h, j)
      case Tick(node, _) => node in cl.views
    }

    ghost predicate Step(j: nat)
      requires Sized() && j < |calls|
    {
      && Allowed(j)
      && var site := Site(cl, calls[j]);
      && site.Some?
      && var r := EngineStep(CL.EngineAt(states[j], site.value), EngineOp(calls[j], site.value), calls[j].now);
      && states[j + 1] == states[j][site.value := r.0] && replies[j] == r.1
    }

    ghost predicate IsRun() {
      && Sized() && states[0] == map[]
      && forall j: nat {:trigger Step(j)} :: j < |calls| ==> Step(j)
    }

    /** Random tokens never repeat. */
    ghost predicate FreshTokens()
      requires |calls| == |replies|
    {
      forall i, j :: 0 <= i < j < |calls| && IsGrant(i) && IsGrant(j) ==> calls[i].token != calls[j].token
    }

    /** The holder of grant i released its handle, successfully, before call j. */
    ghost predicate ReleasedBefore(i: nat, j: nat)
      requires i < j <= |calls| == |replies| && IsGrant(i)
    {
      exists m :: i < m < j && calls[m].Release? && calls[m].handle == HandleOf(i) && replies[m] == Flag(true)
    }

    /** The last deadline grant i was given before call j: by Lock, or by the last successful Extend of its handle. */
    function LastDeadline(i: nat, j: nat): (d: Time)
      requires i < j <= |calls| == |replies| && IsGrant(i)
      decreases j
    {
      if j == i + 1 then calls[i].now + calls[i].ttl
      else if Extended(i, j - 1) then calls[j - 1].now + calls[j - 1].ttl
      else LastDeadline(i, j - 1)
    }

    predicate Extended(i: nat, j: nat)
      requires i < |calls| && j < |calls| == |replies| && IsGrant(i)
    {
      calls[j].Extend? && replies[j] == Flag(true) && calls[j].handle == HandleOf(i)
    }

    /** On each node the readings of its clock do not go backwards. */
    ghost predicate Monotone() {
      forall i, j :: 0 <= i < j < |calls| && Site(cl, calls[i]) == Site(cl, calls[j]) ==> calls[i].now <= calls[j].now
    }
  }

  // ---- Every call reaches the engine at home ---------------------------------------------------

  /** The address a handle remembers leads home, to the engine that granted it. */
  lemma HandleLeadsHome(r: Run, h: LockHandle, j: nat)
    requires P.Stable(r.cl) && j <= |r.calls| == |r.replies| && r.Issued(h, j)
    ensures HandleTarget(r.cl, h) == Some(P.Home(r.cl, h.key))
  {
    var i :| 0 <= i < j && r.IsGrant(i) && r.HandleOf(i) == h;
    P.RoutedHome(r.cl, r.calls[i].node, h.key);
  }

  /** Whichever node a call about a lock comes from, the engine of the ring owner of its key executes it. */
  lemma SiteIsHome(r: Run, j: nat)
    requires P.Stable(r.cl) && r.IsRun() && j < |r.calls| && !r.calls[j].Tick?
    ensures r.Step(j)
    ensures var site := Site(r.cl, r.calls[j]);
      site.Some? && site.value == P.Home(r.cl, KeyOf(r.calls[j]))
  {
    assert r.Step(j);
    match r.calls[j]
    case Lock(node, key, _, _, _) => P.RoutedHome(r.cl, node, EngineKey(key));
    case Release(h, _) => HandleLeadsHome(r, h, j);
    case Extend(h, _, _) => HandleLeadsHome(r, h, j);
    case Tick(_, _) =>
  }

  function KeyOf(call: Call): (k: string)
    requires !call.Tick?
  {
    match call
    case Lock(_, key, _, _, _) => EngineKey(key)
    case Release(h, _) => h.key
    case Extend(h, _, _) => h.key
  }

  // ---- A client run is a run of engines behind one route ---------------------------------------

  ghost function EventOf(cl: P.Cluster, call: Call): (ev: CL.Event) {
    var site := Site(cl, call);
    var n := if site.Some? then site.value else "";
    CL.Event(EngineOp(call, n), call.now, n)
  }

  ghost function AsHistory(r: Run): (h: CL.History)
    requires r.IsRun()
    ensures |h.events| == |r.calls| && h.states == r.states && h.replies == r.replies
    ensures forall k :: h.route(k) == P.Home(r.cl, k)
    ensures forall j :: 0 <= j < |r.calls| ==> h.events[j] == EventOf(r.cl, r.calls[j])
  {
    CL.History(k => P.Home(r.cl, k), seq(|r.calls|, i requires 0 <= i < |r.calls| => EventOf(r.cl, r.calls[i])),
               r.states, r.replies)
  }

  /** Every call goes where the route of its key leads. */
  lemma TargetIsSite(r: Run, j: nat)
    requires P.Stable(r.cl) && r.IsRun() && j < |r.calls|
    ensures r.Step(j)
    ensures CL.Target(AsHistory(r).route, AsHistory(r).events[j]) == Site(r.cl, r.calls[j]).value
  {
    assert r.Step(j);
    if !r.calls[j].Tick? {
      SiteIsHome(r, j);
    }
  }

  lemma RunsAsHistory(r: Run)
    requires P.Stable(r.cl) && r.IsRun()
    ensures AsHistory(r).IsRun()
  {
    var h := AsHistory(r);
    forall j: nat | j < |h.events|
      ensures h.Step(j)
    {
      TargetIsSite(r, j);
    }
  }

  lemma TimelyAsHistory(r: Run)
    requires P.Stable(r.cl) && r.IsRun() && r.Monotone()
    ensures AsHistory(r).Monotone()
  {
    var h := AsHistory(r);
    forall i, j | 0 <= i < j < |h.events| && CL.Target(h.route, h.events[i]) == CL.Target(h.route, h.events[j])
      ensures h.events[i].now <= h.events[j].now
    {
      TargetIsSite(r, i);
      TargetIsSite(r, j);
    }
  }

  lemma FreshAsHistory(r: Run)
    requires r.IsRun() && r.FreshTokens()
    ensures AsHistory(r).FreshTokens()
  {
    var h := AsHistory(r);
    forall i, j | 0 <= i < j < |h.events| && h.IsGrant(i) && h.IsGrant(j)
      ensures h.events[i].op.token != h.events[j].op.token
    {
      assert r.Step(i) && r.Step(j);
      assert r.IsGrant(i) && r.IsGrant(j);
    }
  }

  /** A grant carries the token drawn for it. */
  lemma GrantedToken(r: Run, i: nat)
    requires r.IsRun() && i < |r.calls| && r.IsGrant(i)
    ensures r.HandleOf(i).token == r.calls[i].token
  {
    assert r.Step(i);
  }

  /** Only one handle carries a token. */
  lemma TokenNamesHandle(r: Run, i: nat, h: LockHandle, m: nat)
    requires r.IsRun() && r.FreshTokens() && i < |r.calls| && r.IsGrant(i) && m <= |r.calls| && r.Issued(h, m)
    requires h.token == r.calls[i].token
    ensures h == r.HandleOf(i)
  {
    GrantedToken(r, i);
    var i' :| 0 <= i' < m && r.IsGrant(i') && r.HandleOf(i') == h;
    GrantedToken(r, i');
  }

  /** Extending or releasing with the key and token of grant i is done through its handle. */
  lemma SameCaller(r: Run, i: nat, m: nat)
    requires r.IsRun() && r.FreshTokens() && i < |r.calls| && m < |r.calls| && r.IsGrant(i)
    ensures AsHistory(r).Extended(i, m) <==> r.Extended(i, m)
    ensures AsHistory(r).events[m].op == LockOp.Release(EngineKey(r.calls[i].key), r.calls[i].token)
       <==> r.calls[m].Release? && r.calls[m].handle == r.HandleOf(i)
  {
    GrantedToken(r, i);
    assert r.Step(m);
    if (r.calls[m].Release? || r.calls[m].Extend?) && r.calls[m].handle.token == r.calls[i].token {
      TokenNamesHandle(r, i, r.calls[m].handle, m);
    }
  }

  /** Seen from grant i, the engine run tells the same times and the same extensions. */
  ghost predicate Mirrors(r: Run, h: CL.History, i: nat)
    requires r.Sized() && |h.events| == |h.replies| == |r.calls| && i < |r.calls| && r.IsGrant(i)
  {
    && h.events[i].op.Acquire? && h.events[i].now == r.calls[i].now && h.events[i].op.ttl == r.calls[i].ttl
    && (forall m :: i < m < |r.calls| ==> (h.Extended(i, m) <==> r.Extended(i, m)))
    && (forall m :: i < m < |r.calls| && r.Extended(i, m) ==>
          h.events[m].now == r.calls[m].now && h.events[m].op.ttl == r.calls[m].ttl)
  }

  lemma HistoryMirrors(r: Run, i: nat)
    requires r.IsRun() && r.FreshTokens() && i < |r.calls| && r.IsGrant(i)
    ensures Mirrors(r, AsHistory(r), i)
  {
    var h := AsHistory(r);
    forall m | i < m < |r.calls|
      ensures h.Extended(i, m) <==> r.Extended(i, m)
    {
      SameCaller(r, i, m);
    }
  }

  lemma {:induction false} SameDeadlines(r: Run, h: CL.History, i: nat, j: nat)
    requires r.Sized() && |h.events| == |h.replies| == |r.calls| && i < j <= |r.calls| && r.IsGrant(i)
    requires Mirrors(r, h, i)
    ensures h.LastDeadline(i, j) == r.LastDeadline(i, j)
    decreases j
  {
    if i + 1 < j {
      SameDeadlines(r, h, i, j - 1);
      assert h.Extended(i, j - 1) <==> r.Extended(i, j - 1);
    }
  }

  // ---- What clients are promised ---------------------------------------------------------------

  /** Mutual exclusion across the cluster: when Lock succeeds for a key a second time, from whatever node, the
      holder of the first had released its handle or the owner's clock is past the last deadline it was given. */
  lemma LocksDoNotOverlap(r: Run, i: nat, j: nat)
    requires P.Stable(r.cl) && r.IsRun() && r.FreshTokens() && r.Monotone()
    requires i < j < |r.calls| && r.IsGrant(i) && r.IsGrant(j) && r.calls[i].key == r.calls[j].key
    ensures r.ReleasedBefore(i, j) || r.calls[j].now > r.LastDeadline(i, j)
  {
    var h := AsHistory(r);
    RunsAsHistory(r);
    TimelyAsHistory(r);
    FreshAsHistory(r);
    HistoryMirrors(r, i);
    SameDeadlines(r, h, i, j);
    CL.GrantsDoNotOverlap(h, i, j);
    if h.ReleasedBefore(i, j) {
      var m :| i < m < j && h.events[m].op == LockOp.Release(h.events[i].op.key, h.events[i].op.token)
        && h.replies[m] == Flag(true);
      SameCaller(r, i, m);
    }
  }

  /** By call j the lock that grant i gave is over: its handle was released, or the clock of the owner is past the
      last deadline the handle was given. */
  ghost predicate Over(r: Run, i: nat, j: nat)
    requires r.Sized() && i < j < |r.calls| && r.IsGrant(i)
  {
    r.ReleasedBefore(i, j) || r.calls[j].now > r.LastDeadline(i, j)
  }

  lemma SameOver(r: Run, i: nat, j: nat)
    requires r.IsRun() && r.FreshTokens() && i < j < |r.calls| && r.IsGrant(i)
    ensures AsHistory(r).IsGrant(i) && (CL.Over(AsHistory(r), i, j) <==> Over(r, i, j))
  {
    var h := AsHistory(r);
    HistoryMirrors(r, i);
    SameDeadlines(r, h, i, j);
    GrantedToken(r, i);
    forall m | i < m < j
      ensures (h.events[m].op == LockOp.Release(h.events[i].op.key, h.events[i].op.token))
        == (r.calls[m].Release? && r.calls[m].handle == r.HandleOf(i))
    {
      SameCaller(r, i, m);
    }
  }

  /** Lock succeeds, on whatever node, exactly if every lock of the key granted before, on whatever node, is over. */
  lemma LockSucceedsIff(r: Run, j: nat)
    requires P.Stable(r.cl) && r.IsRun() && r.FreshTokens() && r.Monotone()
    requires j < |r.calls| && r.calls[j].Lock?
    ensures r.IsGrant(j)
       <==> forall i :: 0 <= i < j && r.IsGrant(i) && r.calls[i].key == r.calls[j].key ==> Over(r, i, j)
  {
    var h := AsHistory(r);
    RunsAsHistory(r);
    TimelyAsHistory(r);
    FreshAsHistory(r);
    CL.GrantedIff(h, j);
    assert r.Step(j);
    forall i | 0 <= i < j
      ensures (h.IsGrant(i) && h.events[i].op.key == h.events[j].op.key)
        == (r.IsGrant(i) && r.calls[i].key == r.calls[j].key)
      ensures r.IsGrant(i) ==> (CL.Over(h, i, j) <==> Over(r, i, j))
    {
      assert r.Step(i);
      SameKeys(r.calls[i], r.calls[j]);
      if r.IsGrant(i) {
        SameOver(r, i, j);
      }
    }
  }

  lemma SameKeys(a: Call, b: Call)
    requires b.Lock?
    ensures a.Lock? ==> (EngineKey(a.key) == EngineKey(b.key) <==> a.key == b.key)
  {
    if a.Lock? {
      assert EngineKey(a.key)[7..] == a.key && EngineKey(b.key)[7..] == b.key;
    }
  }

  /** A handle can be extended exactly until its lock is over, and released until then. */
  lemma HandleWorksUntilOver(r: Run, i: nat, j: nat)
    requires P.Stable(r.cl) && r.IsRun() && r.FreshTokens() && r.Monotone()
    requires i < j < |r.calls| && r.IsGrant(i)
    requires (r.calls[j].Release? || r.calls[j].Extend?) && r.calls[j].handle == r.HandleOf(i)
    ensures r.calls[j].Extend? ==> r.replies[j] == Flag(!Over(r, i, j))
    ensures r.calls[j].Release? && !Over(r, i, j) ==> r.replies[j] == Flag(true)
    ensures r.calls[j].Release? && r.ReleasedBefore(i, j) ==> r.replies[j] == Flag(false)
  {
    var h := AsHistory(r);
    RunsAsHistory(r);
    TimelyAsHistory(r);
    FreshAsHistory(r);
    GrantedToken(r, i);
    SameOver(r, i, j);
    if r.calls[j].Extend? {
      CL.ExtendedIff(h, i, j);
    } else {
      CL.ReleasedIff(h, i, j);
      if r.ReleasedBefore(i, j) {
        var m :| i < m < j && r.calls[m].Release? && r.calls[m].handle == r.HandleOf(i) && r.replies[m] == Flag(true);
        SameCaller(r, i, m);
        assert h.ReleasedBefore(i, j);
      }
    }
  }

  /** Until its lock is over the engine at home carries the record of grant i, with itself as the owner. */
  lemma RecordedAtHome(r: Run, i: nat, j: nat)
    requires P.Stable(r.cl) && r.IsRun() && r.FreshTokens() && r.Monotone()
    requires i < j < |r.calls| && r.IsGrant(i) && !Over(r, i, j)
    requires Site(r.cl, r.calls[j]) == Some(P.Home(r.cl, EngineKey(r.calls[i].key)))
    ensures var k := EngineKey(r.calls[i].key);
      var home := P.Home(r.cl, k);
      var locks := CL.EngineAt(r.states[j], home).locks;
      && k in locks
      && locks[k] == LockEntry(r.calls[i].token, r.HandleOf(i).fencing, r.LastDeadline(i, j), home)
  {
    var h := AsHistory(r);
    RunsAsHistory(r);
    TimelyAsHistory(r);
    FreshAsHistory(r);
    HistoryMirrors(r, i);
    SameDeadlines(r, h, i, j);
    SameOver(r, i, j);
    SiteIsHome(r, i);
    TargetIsSite(r, j);
    CL.HoldsUntilOver(h, i, j);
    CL.GrantFate(h, i, j);
  }

  /** After a later Lock of its key an old handle is dead on every node: Release and Extend are refused, and no
      engine changes. */
  lemma SupersededHandleIsDead(r: Run, i: nat, j: nat, m: nat)
    requires P.Stable(r.cl) && r.IsRun() && r.FreshTokens()
    requires i < j < m < |r.calls| && r.IsGrant(i) && r.IsGrant(j) && r.calls[i].key == r.calls[j].key
    requires (r.calls[m].Release? || r.calls[m].Extend?) && r.calls[m].handle == r.HandleOf(i)
    ensures r.replies[m] == Flag(false)
    ensures forall n :: CL.EngineAt(r.states[m + 1], n) == CL.EngineAt(r.states[m], n)
  {
    RunsAsHistory(r);
    FreshAsHistory(r);
    GrantedToken(r, i);
    CL.SupersededTokenIsDead(AsHistory(r), i, j, m);
    SiteIsHome(r, m);
  }

  /** Fencing tokens order the locks of a key, whichever nodes took them, up to the 2^64th grant of their engine. */
  lemma HandlesAreFenced(r: Run, i: nat, j: nat)
    requires P.Stable(r.cl) && r.IsRun()
    requires i < j < |r.calls| && r.IsGrant(i) && r.IsGrant(j) && r.calls[i].key == r.calls[j].key
    requires CL.Grants(AsHistory(r), P.Home(r.cl, EngineKey(r.calls[i].key)), j) < TWO_64
    ensures r.HandleOf(i).fencing < r.HandleOf(j).fencing
       <==> CL.Grants(AsHistory(r), P.Home(r.cl, EngineKey(r.calls[i].key)), j) + 1 < TWO_64
  {
    RunsAsHistory(r);
    GrantedToken(r, i);
    GrantedToken(r, j);
    CL.FencingIncreasesIff(AsHistory(r), i, j, P.Home(r.cl, EngineKey(r.calls[i].key)));
  }
}
