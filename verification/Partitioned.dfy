/** Partitioned mode: every call runs on the node that owns its key, so the cluster behaves as one map. */
module Partitioned {
  import opened Base
  import opened SortedPoints
  import opened HashRing
  import opened RingTheorems
  import opened Membership
  import T = TtlMap

  /** A cluster at rest: what each node knows, where each listens, and the settings they share. */
  datatype Cluster = Cluster(
    cfg: Config, ring: RingState, views: map<string, Knowledge>, addrOf: map<string, string>,
    codec: T.Codec, defaultTTL: Time)

  /** Node n knows itself, holds this ring and knows all its members. */
  ghost predicate AtRest(ring: RingState, n: string, v: Knowledge) {
    v.self == n && v.ring == ring && MembersKnown(v)
  }

  /** All nodes hold the same sound ring and know all its members. */
  ghost predicate Agreed(cl: Cluster) {
    && Sound(cl.ring) && Sorted(cl.ring.points) && cl.ring.points != []
    && cl.views.Keys == cl.ring.members && cl.addrOf.Keys == cl.ring.members
    && (forall n :: n in cl.views ==> AtRest(cl.ring, n, cl.views[n]))
  }

  /** Every node knows where the others listen. What it has recorded as its own address does not matter: that may
      well be the wildcard it binds to. */
  ghost predicate Reachable(cl: Cluster) {
    forall n, m :: n in cl.views && m in cl.addrOf && n != m ==>
      m in cl.views[n].nodes && cl.views[n].nodes[m].rpcAddr == cl.addrOf[m]
  }

  /** Every node listens at an address of its own. */
  ghost predicate Listening(cl: Cluster) {
    && (forall n :: n in cl.addrOf ==> cl.addrOf[n] != "")
    && (forall n, m :: n in cl.addrOf && m in cl.addrOf && cl.addrOf[n] == cl.addrOf[m] ==> n == m)
  }

  /** Stable, agreed membership. */
  ghost predicate Stable(cl: Cluster) {
    Agreed(cl) && Reachable(cl) && Listening(cl)
  }

  /** The node a dialled address reaches. */
  ghost function Dial(cl: Cluster, addr: string): (n: Option<string>) {
    if exists n :: n in cl.addrOf && cl.addrOf[n] == addr
    then var n :| n in cl.addrOf && cl.addrOf[n] == addr; Some(n)
    else None
  }

  /** Where a call issued on `node` runs: here, or wherever ownerAddr leads. */
  ghost function Target(cl: Cluster, node: string, key: string): (n: Option<string>)
    requires node in cl.views
  {
    var addr := OwnerAddr(cl.cfg, cl.views[node], key);
    if addr == "" then Some(node) else Dial(cl, addr)
  }

  function Home(cl: Cluster, key: string): (n: string) {
    OwnerAt(cl.ring, cl.cfg.hash(key))
  }

  /** Whoever issues it, a call runs on the ring owner of its key. */
  lemma RoutedHome(cl: Cluster, node: string, key: string)
    requires Stable(cl) && node in cl.views
    ensures Home(cl, key) in cl.ring.members
    ensures Target(cl, node, key) == Some(Home(cl, key))
  {
    assert AtRest(cl.ring, node, cl.views[node]);
    LocalExactlyAtOwner(cl.cfg, cl.views[node], key);
  }

  /** The cluster when node n has recorded this address for itself. */
  function WithOwnAddress(cl: Cluster, n: string, addr: string): (r: Cluster)
    requires n in cl.views && n in cl.views[n].nodes
  {
    var v := cl.views[n];
    cl.(views := cl.views[n := v.(nodes := v.nodes[n := v.nodes[n].(rpcAddr := addr)])])
  }

  lemma StillAtRest(ring: RingState, n: string, v: Knowledge, w: Knowledge)
    requires AtRest(ring, n, v) && w.self == v.self && w.ring == v.ring && w.nodes.Keys == v.nodes.Keys
    requires forall m :: m in v.nodes ==> w.nodes[m].name == v.nodes[m].name && w.nodes[m].status == v.nodes[m].status
    ensures AtRest(ring, n, w)
  {
  }

  lemma StillAgreed(cl: Cluster, n: string, addr: string)
    requires Agreed(cl) && n in cl.views && n in cl.views[n].nodes
    ensures Agreed(WithOwnAddress(cl, n, addr))
  {
    var v := cl.views[n];
    assert AtRest(cl.ring, n, v);
    StillAtRest(cl.ring, n, v, v.(nodes := v.nodes[n := v.nodes[n].(rpcAddr := addr)]));
  }

  lemma StillReachable(cl: Cluster, n: string, addr: string)
    requires Reachable(cl) && n in cl.views && n in cl.views[n].nodes
    ensures Reachable(WithOwnAddress(cl, n, addr))
  {
  }

  /** A node bound to a wildcard records an address at which nobody could reach it; the cluster is stable all
      the same. */
  lemma OwnAddressIsFree(cl: Cluster, n: string, addr: string)
    requires Stable(cl) && n in cl.views && n in cl.views[n].nodes
    ensures Stable(WithOwnAddress(cl, n, addr))
  {
    StillAgreed(cl, n, addr);
    StillReachable(cl, n, addr);
  }

  ghost predicate HomeFrom(cl: Cluster, node: string, key: string) {
    node in cl.views ==> Home(cl, key) in cl.ring.members && Target(cl, node, key) == Some(Home(cl, key))
  }

  /** From every node every call runs on the ring owner of its key. */
  ghost predicate Homing(cl: Cluster) {
    cl.views.Keys == cl.ring.members && forall node, key :: HomeFrom(cl, node, key)
  }

  lemma StableHomeFrom(cl: Cluster, node: string, key: string)
    requires Stable(cl)
    ensures HomeFrom(cl, node, key)
  {
    if node in cl.views {
      RoutedHome(cl, node, key);
    }
  }

  lemma StableIsHoming(cl: Cluster)
    requires Stable(cl)
    ensures Homing(cl)
  {
    forall node, key
      ensures HomeFrom(cl, node, key)
    {
      StableHomeFrom(cl, node, key);
    }
  }

  // ---- Client calls ----------------------------------------------------------------------------

  datatype ClientOp =
    | Set(key: string, value: Bytes, ttl: Time)
    | Get(key: string)
    | Delete(key: string)
    | Exists(key: string)
    | Incr(key: string, delta: int)

  /** A call issued on a node, or a sweep on one; `now` is read from the clock of the node that executes it. */
  datatype Event = Client(node: string, op: ClientOp, now: Time) | SweepAt(node: string, now: Time)

  /** The node that executes an event: the home of the key; a refused call goes nowhere. */
  function Site(cl: Cluster, ev: Event): (n: string) {
    if ev.Client? && ev.op.key != "" then Home(cl, ev.op.key) else ev.node
  }

  /** The store operation a client call becomes: a zero TTL and new counters take the default TTL. */
  function StoreOp(cl: Cluster, op: ClientOp): (r: T.Op) {
    match op
    case Set(k, v, ttl) => T.Set(k, v, if ttl == 0 then cl.defaultTTL else ttl)
    case Get(k) => T.Get(k)
    case Delete(k) => T.Delete(k)
    case Exists(k) => T.Exists(k)
    case Incr(k, delta) => T.Incr(k, delta, cl.defaultTTL)
  }

  /** The empty key is refused before anything happens. */
  function EmptyKeyReply(op: ClientOp): (r: T.Reply) {
    match op
    case Set(_, _, _) => T.Failed
    case Incr(_, _) => T.Failed
    case Get(_) => T.Value(None)
    case Exists(_) => T.Flag(false)
    case Delete(_) => T.Done
  }

  type Stores = map<string, T.Table>

  /** The store a call on this key reaches from this node, if any. */
  ghost function Reached(cl: Cluster, stores: Stores, node: string, key: string): (n: Option<string>)
    ensures n.Some? ==> n.value in stores
  {
    if node !in cl.views then None
    else
      var at := Target(cl, node, key);
      if at.Some? && at.value in stores then at else None
  }

  /** One event on the cluster: new stores and what the client sees. A call that reaches no store fails. */
  ghost function ClusterStep(cl: Cluster, stores: Stores, ev: Event): (r: (Stores, seq<T.Reply>))
    ensures r.0.Keys == stores.Keys
  {
    match ev
    case SweepAt(node, now) =>
      if node in stores then (stores[node := T.Mem(cl.codec, stores[node], T.Sweep, now).0], []) else (stores, [])
    case Client(node, op, now) =>
      if op.key == "" then (stores, [EmptyKeyReply(op)])
      else
        var at := Reached(cl, stores, node, op.key);
        if at.None? then (stores, [T.Failed])
        else
          var (t, reply) := T.Mem(cl.codec, stores[at.value], StoreOp(cl, op), now);
          (stores[at.value := t], T.Shown(StoreOp(cl, op), reply))
  }

  /** The same event on one shared reference map. */
  function SharedStep(cl: Cluster, t: T.Table, ev: Event): (r: (T.Table, seq<T.Reply>)) {
    match ev
    case SweepAt(_, _) => (t, [])
    case Client(_, op, now) =>
      if op.key == "" then (t, [EmptyKeyReply(op)])
      else
        var (t', reply) := T.Spec(cl.codec, t, StoreOp(cl, op), now);
        (t', T.Shown(StoreOp(cl, op), reply))
  }

  ghost function ClusterTrace(cl: Cluster, stores: Stores, run: seq<Event>): (replies: seq<T.Reply>)
    decreases |run|
  {
    if run == [] then []
    else var r := ClusterStep(cl, stores, run[0]); r.1 + ClusterTrace(cl, r.0, run[1..])
  }

  function SharedTrace(cl: Cluster, t: T.Table, run: seq<Event>): (replies: seq<T.Reply>)
    decreases |run|
  {
    if run == [] then []
    else var r := SharedStep(cl, t, run[0]); r.1 + SharedTrace(cl, r.0, run[1..])
  }

  /** The last reading of each node's own clock. The clocks of different nodes need not agree. */
  type Clocks = map<string, Time>

  /** On each node the readings do not go backwards. */
  ghost predicate Timely(cl: Cluster, run: seq<Event>) {
    forall i, j :: 0 <= i < j < |run| && Site(cl, run[i]) == Site(cl, run[j]) ==> run[i].now <= run[j].now
  }

  /** No event of the run reads a clock before this. */
  ghost predicate Since(cl: Cluster, run: seq<Event>, clocks: Clocks) {
    forall i :: 0 <= i < |run| ==> Site(cl, run[i]) in clocks ==> clocks[Site(cl, run[i])] <= run[i].now
  }

  lemma TimelyTail(cl: Cluster, run: seq<Event>, clocks: Clocks)
    requires run != [] && Timely(cl, run) && Since(cl, run, clocks)
    ensures Timely(cl, run[1..]) && Since(cl, run[1..], clocks[Site(cl, run[0]) := run[0].now])
  {
    var tail := run[1..];
    assert forall i :: 0 <= i < |tail| ==> tail[i] == run[i + 1];
  }

  // ---- Refinement ------------------------------------------------------------------------------

  /** Each key lives only at home, and what its home shows of it, by its own clock, is what the shared map shows. */
  ghost predicate Refined(cl: Cluster, stores: Stores, t: T.Table, clocks: Clocks) {
    && stores.Keys == cl.ring.members == clocks.Keys
    && (forall n, k :: n in stores && k in stores[n] ==> Home(cl, k) == n)
    && (forall k :: Home(cl, k) in stores ==> Faithful(cl, stores, t, clocks[Home(cl, k)], k))
  }

  ghost predicate Faithful(cl: Cluster, stores: Stores, t: T.Table, now: Time, k: string)
    requires Home(cl, k) in stores
  {
    T.Live(stores[Home(cl, k)], k, now) == T.Live(t, k, now)
  }

  /** One node's clock moves on. */
  lemma RefinedLater(cl: Cluster, stores: Stores, t: T.Table, clocks: Clocks, at: string, later: Time)
    requires Refined(cl, stores, t, clocks) && at in clocks && clocks[at] <= later
    ensures Refined(cl, stores, t, clocks[at := later])
  {
    forall k | Home(cl, k) in stores
      ensures Faithful(cl, stores, t, clocks[at := later][Home(cl, k)], k)
    {
      assert Faithful(cl, stores, t, clocks[Home(cl, k)], k);
    }
  }

  predicate IsCall(op: T.Op) {
    op.Get? || op.Set? || op.Delete? || op.Exists? || op.Incr?
  }

  /** Two tables that show the same of a key answer alike about it and go on showing the same of it. */
  lemma KeyStepAgrees(c: T.Codec, s: T.Table, t: T.Table, op: T.Op, now: Time)
    requires IsCall(op) && T.Live(s, op.key, now) == T.Live(t, op.key, now)
    ensures T.Live(T.Mem(c, s, op, now).0, op.key, now) == T.Live(T.Spec(c, t, op, now).0, op.key, now)
    ensures T.Shown(op, T.Mem(c, s, op, now).1) == T.Shown(op, T.Spec(c, t, op, now).1)
  {
  }

  lemma OtherKeysKept(c: T.Codec, s: T.Table, t: T.Table, op: T.Op, now: Time, k: string)
    requires IsCall(op) && k != op.key
    ensures k in T.Mem(c, s, op, now).0 <==> k in s
    ensures T.Live(T.Mem(c, s, op, now).0, k, now) == T.Live(s, k, now)
    ensures forall when :: T.Live(T.Spec(c, t, op, now).0, k, when) == T.Live(t, k, when)
  {
  }

  /** Replacing one node's store keeps the refinement if only keys at home there are involved. */
  lemma ReplacedStore(
      cl: Cluster, stores: Stores, t: T.Table, at: string, s: T.Table, u: T.Table, clocks: Clocks)
    requires Refined(cl, stores, t, clocks) && at in stores
    requires forall k :: k in s ==> Home(cl, k) == at
    requires forall k :: Home(cl, k) == at ==> T.Live(s, k, clocks[at]) == T.Live(u, k, clocks[at])
    requires forall k, now :: Home(cl, k) != at ==> T.Live(u, k, now) == T.Live(t, k, now)
    ensures Refined(cl, stores[at := s], u, clocks)
  {
    forall k | Home(cl, k) in stores
      ensures Faithful(cl, stores[at := s], u, clocks[Home(cl, k)], k)
    {
      assert Faithful(cl, stores, t, clocks[Home(cl, k)], k);
    }
  }

  lemma ReachesHome(cl: Cluster, stores: Stores, node: string, key: string)
    requires Homing(cl) && node in cl.views && stores.Keys == cl.ring.members
    ensures Home(cl, key) in stores && Reached(cl, stores, node, key) == Some(Home(cl, key))
  {
    assert HomeFrom(cl, node, key);
  }

  lemma CallRefines(cl: Cluster, stores: Stores, t: T.Table, node: string, op: ClientOp, clocks: Clocks)
    requires Homing(cl) && node in cl.views && op.key != "" && Refined(cl, stores, t, clocks)
    ensures Home(cl, op.key) in clocks
    ensures var ev := Client(node, op, clocks[Home(cl, op.key)]);
      var r, q := ClusterStep(cl, stores, ev), SharedStep(cl, t, ev);
      r.1 == q.1 && Refined(cl, r.0, q.0, clocks)
  {
    ReachesHome(cl, stores, node, op.key);
    var at, sop := Home(cl, op.key), StoreOp(cl, op);
    var s, u := T.Mem(cl.codec, stores[at], sop, clocks[at]), T.Spec(cl.codec, t, sop, clocks[at]);
    HomeCallRefines(cl, stores, t, at, sop, clocks, s, u);
  }

  lemma HomeCallRefines(cl: Cluster, stores: Stores, t: T.Table, at: string, op: T.Op, clocks: Clocks,
                        s: (T.Table, T.Reply), u: (T.Table, T.Reply))
    requires Refined(cl, stores, t, clocks) && at in stores && IsCall(op) && Home(cl, op.key) == at
    requires s == T.Mem(cl.codec, stores[at], op, clocks[at]) && u == T.Spec(cl.codec, t, op, clocks[at])
    ensures T.Shown(op, s.1) == T.Shown(op, u.1)
    ensures Refined(cl, stores[at := s.0], u.0, clocks)
  {
    var now := clocks[at];
    assert Faithful(cl, stores, t, now, op.key);
    KeyStepAgrees(cl.codec, stores[at], t, op, now);
    forall k
      ensures k in s.0 ==> Home(cl, k) == at
      ensures Home(cl, k) == at ==> T.Live(s.0, k, now) == T.Live(u.0, k, now)
    {
      if k != op.key {
        OtherKeysKept(cl.codec, stores[at], t, op, now, k);
        assert Home(cl, k) == at ==> Faithful(cl, stores, t, now, k);
      }
    }
    forall k, when | Home(cl, k) != at
      ensures T.Live(u.0, k, when) == T.Live(t, k, when)
    {
      OtherKeysKept(cl.codec, stores[at], t, op, now, k);
    }
    ReplacedStore(cl, stores, t, at, s.0, u.0, clocks);
  }

  lemma SweepRefines(cl: Cluster, stores: Stores, t: T.Table, node: string, clocks: Clocks)
    requires Refined(cl, stores, t, clocks) && node in stores
    ensures Refined(cl, stores[node := T.Mem(cl.codec, stores[node], T.Sweep, clocks[node]).0], t, clocks)
  {
    var now := clocks[node];
    var s := T.Mem(cl.codec, stores[node], T.Sweep, now).0;
    T.SweepInvisible(stores[node], now);
    forall k | Home(cl, k) == node
      ensures T.Live(s, k, now) == T.Live(t, k, now)
    {
      assert T.Live(stores[node], k, now) == T.Live(s, k, now);
      assert Faithful(cl, stores, t, now, k);
    }
    ReplacedStore(cl, stores, t, node, s, t, clocks);
  }

  lemma EventRefines(cl: Cluster, stores: Stores, t: T.Table, ev: Event, clocks: Clocks)
    requires Homing(cl) && ev.node in cl.views && Refined(cl, stores, t, clocks)
    requires Site(cl, ev) in clocks ==> clocks[Site(cl, ev)] == ev.now
    ensures var r, q := ClusterStep(cl, stores, ev), SharedStep(cl, t, ev);
      r.1 == q.1 && Refined(cl, r.0, q.0, clocks)
  {
    match ev
    case SweepAt(node, now) => SweepRefines(cl, stores, t, node, clocks);
    case Client(node, op, now) => if op.key != "" { CallRefines(cl, stores, t, node, op, clocks); }
  }

  lemma SiteIsMember(cl: Cluster, ev: Event)
    requires Homing(cl) && ev.node in cl.views
    ensures Site(cl, ev) in cl.ring.members
  {
    if ev.Client? && ev.op.key != "" {
      assert HomeFrom(cl, ev.node, ev.op.key);
    }
  }

  lemma FirstEventRefines(cl: Cluster, stores: Stores, t: T.Table, ev: Event, clocks: Clocks)
    requires Homing(cl) && ev.node in cl.views && Refined(cl, stores, t, clocks)
    requires Site(cl, ev) in clocks ==> clocks[Site(cl, ev)] <= ev.now
    ensures ClusterStep(cl, stores, ev).1 == SharedStep(cl, t, ev).1
    ensures Refined(cl, ClusterStep(cl, stores, ev).0, SharedStep(cl, t, ev).0, clocks[Site(cl, ev) := ev.now])
  {
    SiteIsMember(cl, ev);
    RefinedLater(cl, stores, t, clocks, Site(cl, ev), ev.now);
    EventRefines(cl, stores, t, ev, clocks[Site(cl, ev) := ev.now]);
  }

  lemma {:induction false} TracesAgree(cl: Cluster, stores: Stores, t: T.Table, run: seq<Event>, clocks: Clocks)
    requires Homing(cl) && Refined(cl, stores, t, clocks) && Timely(cl, run) && Since(cl, run, clocks)
    requires forall i :: 0 <= i < |run| ==> run[i].node in cl.views
    ensures ClusterTrace(cl, stores, run) == SharedTrace(cl, t, run)
    decreases |run|
  {
    if run != [] {
      var ev := run[0];
      FirstEventRefines(cl, stores, t, ev, clocks);
      TimelyTail(cl, run, clocks);
      var r, q := ClusterStep(cl, stores, ev), SharedStep(cl, t, ev);
      TracesAgree(cl, r.0, q.0, run[1..], clocks[Site(cl, ev) := ev.now]);
    }
  }

  /** Partitioned mode is one shared map: with stable membership, every interleaving of calls from any nodes,
      with sweeps on any nodes, answers as the reference map does. No two clocks need agree: the time of a key
      is the time of its home. */
  lemma PartitionedIsOneMap(cl: Cluster, stores: Stores, t: T.Table, run: seq<Event>, clocks: Clocks)
    requires Stable(cl) && Refined(cl, stores, t, clocks) && Timely(cl, run) && Since(cl, run, clocks)
    requires forall i :: 0 <= i < |run| ==> run[i].node in cl.views
    ensures ClusterTrace(cl, stores, run) == SharedTrace(cl, t, run)
  {
    StableIsHoming(cl);
    TracesAgree(cl, stores, t, run, clocks);
  }

  /** A time before every reading of the run. */
  function Earliest(run: seq<Event>): (now: Time)
    ensures forall i :: 0 <= i < |run| ==> now <= run[i].now
  {
    if run == [] then 0
    else
      var rest := Earliest(run[1..]);
      if rest <= run[0].now then rest else run[0].now
  }

  /** In particular from empty stores and an empty map. */
  lemma FreshClusterIsOneMap(cl: Cluster, run: seq<Event>)
    requires Stable(cl) && Timely(cl, run)
    requires forall i :: 0 <= i < |run| ==> run[i].node in cl.views
    ensures ClusterTrace(cl, map n | n in cl.ring.members :: map[], run) == SharedTrace(cl, map[], run)
  {
    var clocks := map n | n in cl.ring.members :: Earliest(run);
    var empty := map n | n in cl.ring.members :: map[];
    forall k | Home(cl, k) in empty
      ensures Faithful(cl, empty, map[], clocks[Home(cl, k)], k)
    {
    }
    PartitionedIsOneMap(cl, empty, map[], run, clocks);
  }

  // ---- How a cluster becomes stable ------------------------------------------------------------

  /** Nodes that gossiped their way to the same members over collision-free names form a stable cluster,
      provided each knows the others' true, distinct addresses. */
  lemma GossipMakesStable(
      cl: Cluster, selves: map<string, NodeInfo>, logs: map<string, seq<Gossip>>, names: set<string>)
    requires "" !in names && CollisionFree(cl.cfg, names) && cl.ring.members != {}
    requires selves.Keys == logs.Keys == cl.views.Keys == cl.addrOf.Keys == cl.ring.members
    requires forall n :: n in selves ==> selves[n].name == n && n in names
    requires forall n :: n in logs ==> forall i :: 0 <= i < |logs[n]| ==> NameOf(logs[n][i]) in names
    requires forall n :: n in cl.views ==>
      cl.views[n] == RunGossip(cl.cfg, selves[n], logs[n]) && cl.views[n].ring.members == cl.ring.members
    requires exists n :: n in cl.views && cl.ring == cl.views[n].ring
    requires forall n, m :: n in cl.views && m in cl.addrOf && n != m && m in cl.views[n].nodes ==>
      cl.views[n].nodes[m].rpcAddr == cl.addrOf[m]
    requires forall n :: n in cl.addrOf ==> cl.addrOf[n] != ""
    requires forall n, m :: n in cl.addrOf && m in cl.addrOf && cl.addrOf[n] == cl.addrOf[m] ==> n == m
    ensures Stable(cl)
  {
    var w :| w in cl.views && cl.ring == cl.views[w].ring;
    forall n | n in cl.views
      ensures AtRest(cl.ring, n, cl.views[n])
      ensures Sound(cl.ring) && Sorted(cl.ring.points) && cl.ring.points != []
    {
      NodeSettled(cl.cfg, selves[n], logs[n], selves[w], logs[w], names);
    }
  }

  /** What one node's gossip gives it, compared with another that ended with the same members. */
  lemma NodeSettled(cfg: Config, a: NodeInfo, ea: seq<Gossip>, b: NodeInfo, eb: seq<Gossip>, names: set<string>)
    requires "" !in names && CollisionFree(cfg, names)
    requires a.name in names && forall i :: 0 <= i < |ea| ==> NameOf(ea[i]) in names
    requires b.name in names && forall i :: 0 <= i < |eb| ==> NameOf(eb[i]) in names
    requires RunGossip(cfg, a, ea).ring.members == RunGossip(cfg, b, eb).ring.members != {}
    ensures var v := RunGossip(cfg, a, ea);
      && v.self == a.name && v.ring == RunGossip(cfg, b, eb).ring && MembersKnown(v)
      && Sound(v.ring) && Sorted(v.ring.points) && v.ring.points != []
  {
    NodesAgreeOnRing(cfg, a, ea, b, eb, names);
    RunAligned(cfg, a, ea);
    var m :| m in RunGossip(cfg, a, ea).ring.members;
  }
}
