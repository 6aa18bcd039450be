/** Cluster membership: the known nodes, the ring, and the gossip events that keep them aligned. */
module Membership {
  import opened Base
  import opened SortedPoints
  import opened HashRing
  import opened RingTheorems

  datatype NodeStatus = Alive | Suspect | Dead | Left

  datatype NodeInfo = NodeInfo(name: string, rpcAddr: string, status: NodeStatus)

  /** What one node knows: all nodes it ever heard of, and the ring. */
  datatype Knowledge = Knowledge(self: string, nodes: map<string, NodeInfo>, ring: RingState)

  function AliveNames(nodes: map<string, NodeInfo>): (r: set<string>) {
    set n | n in nodes && nodes[n].status == Alive
  }

  class ClusterState {
    const self: string
    var nodes: map<string, NodeInfo>

    constructor (self: string)
      ensures this.self == self && nodes == map[]
    {
      this.self := self;
      nodes := map[];
    }

    method AddNode(info: NodeInfo)
      modifies this
      ensures nodes == old(nodes)[info.name := info]
    {
      nodes := nodes[info.name := info];
    }

    method UpdateStatus(name: string, status: NodeStatus)
      modifies this
      ensures nodes == WithStatus(old(nodes), name, status)
    {
      if name in nodes {
        nodes := nodes[name := nodes[name].(status := status)];
      }
    }

    method GetNode(name: string) returns (info: Option<NodeInfo>)
      ensures info == if name in nodes then Some(nodes[name]) else None
    {
      info := if name in nodes then Some(nodes[name]) else None;
    }

    /** The alive nodes, each once, in the order the map gives them. */
    method LiveNodes() returns (result: seq<string>)
      ensures |result| == |AliveNames(nodes)|
      ensures forall n :: n in result <==> n in AliveNames(nodes)
    {
      result := collectAlive(AliveNames(nodes));
    }

    method collectAlive(ghost alive: set<string>) returns (result: seq<string>)
      requires forall n :: n in alive <==> n in nodes && nodes[n].status == Alive
      ensures |result| == |alive|
      ensures forall n :: n in result <==> n in alive
    {
      result := [];
      var rest := nodes.Keys;
      assert alive - rest == {};
      while rest != {}
        invariant rest <= nodes.Keys
        invariant |result| == |alive - rest|
        invariant forall n :: n in result <==> n in alive - rest
        decreases rest
      {
        var n :| n in rest;
        SeenStep(alive, rest, n);
        rest := rest - {n};
        if nodes[n].status == Alive {
          result := result + [n];
        }
      }
      assert alive - rest == alive;
    }
  }

  function WithStatus(nodes: map<string, NodeInfo>, name: string, status: NodeStatus): map<string, NodeInfo> {
    if name in nodes then nodes[name := nodes[name].(status := status)] else nodes
  }

  // ---- Gossip events ---------------------------------------------------------------------------

  /** A join and an update carry a freshly built NodeInfo, which is always Alive. */
  datatype Gossip = Joined(info: NodeInfo) | Departed(name: string) | Updated(info: NodeInfo)

  function NameOf(g: Gossip): string {
    if g.Departed? then g.name else g.info.name
  }

  function Notify(cfg: Config, v: Knowledge, g: Gossip): (r: Knowledge) {
    match g
    case Joined(info) =>
      v.(nodes := v.nodes[info.name := info.(status := Alive)], ring := Added(cfg, v.ring, info.name))
    case Departed(name) => v.(nodes := WithStatus(v.nodes, name, Left), ring := Removed(v.ring, name))
    case Updated(info) => v.(nodes := v.nodes[info.name := info.(status := Alive)])
  }

  class Member {
    const state: ClusterState
    const ring: Ring

    ghost function View(): Knowledge
      reads state, ring
    {
      Knowledge(state.self, state.nodes, ring.State())
    }

    /** A new membership knows itself. */
    constructor (state: ClusterState, ring: Ring, self: NodeInfo)
      modifies state, ring
      ensures this.state == state && this.ring == ring
      ensures View() == Notify(ring.cfg, old(Knowledge(state.self, state.nodes, ring.State())), Joined(self))
    {
      this.state := state;
      this.ring := ring;
      new;
      state.AddNode(self.(status := Alive));
      ring.AddNode(self.name);
    }

    method NotifyJoin(info: NodeInfo)
      modifies state, ring
      ensures View() == Notify(ring.cfg, old(View()), Joined(info))
    {
      state.AddNode(info.(status := Alive));
      ring.AddNode(info.name);
    }

    /** The ring's slice capacity must not be negative; RunAligned shows that it never is. */
    method NotifyLeave(name: string)
      requires name in ring.members ==> ring.cfg.vnodes <= |ring.sortedHashes|
      modifies state, ring
      ensures View() == Notify(ring.cfg, old(View()), Departed(name))
    {
      state.UpdateStatus(name, Left);
      ring.RemoveNode(name);
    }

    method NotifyUpdate(info: NodeInfo)
      modifies state
      ensures View() == Notify(ring.cfg, old(View()), Updated(info))
    {
      state.AddNode(info.(status := Alive));
    }
  }

  // ---- Ring and state stay aligned -------------------------------------------------------------

  /** Every ring member is known and alive. */
  ghost predicate MembersKnown(v: Knowledge) {
    forall n :: n in v.ring.members ==> n in v.nodes && v.nodes[n].name == n && v.nodes[n].status == Alive
  }

  function RunGossip(cfg: Config, self: NodeInfo, events: seq<Gossip>): Knowledge {
    if events == [] then Notify(cfg, Knowledge(self.name, map[], EMPTY), Joined(self))
    else Notify(cfg, RunGossip(cfg, self, events[..|events| - 1]), events[|events| - 1])
  }

  lemma NotifyKeepsKnown(cfg: Config, v: Knowledge, g: Gossip)
    requires MembersKnown(v)
    ensures MembersKnown(Notify(cfg, v, g))
  {
  }

  /** Over any gossip history with non-empty names, ring members are always known, alive nodes with their
      own record, and leaving never finds the ring too short. */
  lemma {:induction false} RunAligned(cfg: Config, self: NodeInfo, events: seq<Gossip>)
    requires self.name != "" && forall i :: 0 <= i < |events| ==> NameOf(events[i]) != ""
    ensures var v := RunGossip(cfg, self, events);
      && MembersKnown(v) && v.self == self.name
      && Accounted(cfg, v.ring)
      && (forall n :: n in v.ring.members ==> cfg.vnodes <= |v.ring.points|)
  {
    var v := RunGossip(cfg, self, events);
    if events == [] {
      AddKeepsAccounted(cfg, EMPTY, self.name);
    } else {
      var last := |events| - 1;
      RunAligned(cfg, self, events[..last]);
      var before, g := RunGossip(cfg, self, events[..last]), events[last];
      NotifyKeepsKnown(cfg, before, g);
      if g.Joined? {
        AddKeepsAccounted(cfg, before.ring, g.info.name);
      } else if g.Departed? {
        RemoveKeepsAccounted(cfg, before.ring, g.name);
      }
    }
    forall n | n in v.ring.members
      ensures cfg.vnodes <= |v.ring.points|
    {
      RemoveKeepsAccounted(cfg, v.ring, n);
    }
  }

  /** The live nodes, to which Replicated mode sends, are the ring members. */
  ghost predicate LiveIsMembers(v: Knowledge) {
    AliveNames(v.nodes) == v.ring.members
  }

  /** The index of the last event about n, -1 if there is none. */
  function LastEvent(events: seq<Gossip>, n: string): (i: int)
    ensures -1 <= i < |events|
    ensures i >= 0 ==> NameOf(events[i]) == n
  {
    if events == [] then -1
    else
      var last := |events| - 1;
      if NameOf(events[last]) == n then last else LastEvent(events[..last], n)
  }

  /** The index of the last join or departure of n, -1 if there is none. */
  function LastMove(events: seq<Gossip>, n: string): (i: int)
    ensures -1 <= i < |events|
    ensures i >= 0 ==> NameOf(events[i]) == n && !events[i].Updated?
  {
    if events == [] then -1
    else
      var last := |events| - 1;
      if NameOf(events[last]) == n && !events[last].Updated? then last else LastMove(events[..last], n)
  }

  /** The last join or departure of n was a join; a node's own start counts as one. */
  predicate Present(self: string, events: seq<Gossip>, n: string) {
    var m := LastMove(events, n);
    if m < 0 then n == self else events[m].Joined?
  }

  /** The last anyone heard of n is an update, though n is not present. */
  predicate Stray(self: string, events: seq<Gossip>, n: string) {
    var e := LastEvent(events, n);
    e >= 0 && events[e].Updated? && !Present(self, events, n)
  }

  /** After any history the ring holds the nodes that are present, and the state counts these and the strays as
      alive. */
  lemma {:induction false} AliveIsPresentOrStray(cfg: Config, self: NodeInfo, events: seq<Gossip>, n: string)
    ensures var v := RunGossip(cfg, self, events);
      && (n in v.ring.members <==> Present(self.name, events, n))
      && (n in AliveNames(v.nodes) <==> Present(self.name, events, n) || Stray(self.name, events, n))
  {
    if events != [] {
      var last := |events| - 1;
      AliveIsPresentOrStray(cfg, self, events[..last], n);
      HeardOf(self.name, events, n);
      NotifyOne(cfg, RunGossip(cfg, self, events[..last]), events[last], n);
    }
  }

  /** How the last event changes what is present and what is stray. */
  lemma HeardOf(self: string, events: seq<Gossip>, n: string)
    requires events != []
    ensures var before, g := events[..|events| - 1], events[|events| - 1];
      var own := NameOf(g) == n;
      && (Present(self, events, n) <==> if own && !g.Updated? then g.Joined? else Present(self, before, n))
      && (Stray(self, events, n) <==> if own then g.Updated? && !Present(self, before, n) else Stray(self, before, n))
  {
  }

  /** What one event does to one name. */
  lemma NotifyOne(cfg: Config, v: Knowledge, g: Gossip, n: string)
    ensures var w := Notify(cfg, v, g);
      && (n in w.ring.members <==> if NameOf(g) == n && !g.Updated? then g.Joined? else n in v.ring.members)
      && (n in AliveNames(w.nodes) <==> if NameOf(g) == n then !g.Departed? else n in AliveNames(v.nodes))
  {
  }

  /** After any gossip history the live nodes are the ring members exactly if nobody is a stray: an update about a
      node that has left, or that never joined, revives it in the state but not in the ring, until it joins or
      leaves again. */
  lemma LiveIsMembersIff(cfg: Config, self: NodeInfo, events: seq<Gossip>)
    ensures LiveIsMembers(RunGossip(cfg, self, events)) <==> forall n :: !Stray(self.name, events, n)
  {
    var v := RunGossip(cfg, self, events);
    forall n
      ensures n in v.ring.members <==> Present(self.name, events, n)
      ensures n in AliveNames(v.nodes) <==> Present(self.name, events, n) || Stray(self.name, events, n)
    {
      AliveIsPresentOrStray(cfg, self, events, n);
    }
    if forall n :: !Stray(self.name, events, n) {
      assert AliveNames(v.nodes) == v.ring.members;
    } else {
      var n :| Stray(self.name, events, n);
      assert n in AliveNames(v.nodes) && n !in v.ring.members;
    }
  }

  /** The index of the last join or update of n, which carry its record, -1 if there is none. */
  function LastTold(events: seq<Gossip>, n: string): (i: int)
    ensures -1 <= i < |events|
    ensures i >= 0 ==> NameOf(events[i]) == n && !events[i].Departed?
  {
    if events == [] then -1
    else
      var last := |events| - 1;
      if NameOf(events[last]) == n && !events[last].Departed? then last else LastTold(events[..last], n)
  }

  /** The record of n is the one in info, with this status. */
  ghost predicate KnownAs(nodes: map<string, NodeInfo>, n: string, info: NodeInfo, status: NodeStatus) {
    n in nodes && nodes[n] == NodeInfo(n, info.rpcAddr, status)
  }

  /** What one event does to one record. */
  lemma NotifyRecord(cfg: Config, v: Knowledge, g: Gossip, n: string)
    ensures var w := Notify(cfg, v, g).nodes;
      if NameOf(g) != n then (n in w <==> n in v.nodes) && (n in w ==> w[n] == v.nodes[n])
      else if !g.Departed? then KnownAs(w, n, g.info, Alive)
      else (n in w <==> n in v.nodes) && (n in w ==> w[n] == v.nodes[n].(status := Left))
  {
  }

  /** After any history a node is known exactly if it joined or was updated, or is this node itself; and its record
      is the last one told, address included, alive unless the last event about it is its departure. */
  lemma {:induction false} KnownAsLastTold(cfg: Config, self: NodeInfo, events: seq<Gossip>, n: string)
    ensures var nodes, told, e := RunGossip(cfg, self, events).nodes, LastTold(events, n), LastEvent(events, n);
      if told < 0 && n != self.name then n !in nodes
      else
        KnownAs(nodes, n, if told < 0 then self else events[told].info,
                if e >= 0 && events[e].Departed? then Left else Alive)
  {
    if events != [] {
      var before, g := events[..|events| - 1], events[|events| - 1];
      KnownAsLastTold(cfg, self, before, n);
      NotifyRecord(cfg, RunGossip(cfg, self, before), g, n);
    }
  }

  // ---- Routing ---------------------------------------------------------------------------------

  /** `ownerAddr`: the RPC address of a key's owner, "" when the call stays local. */
  function OwnerAddr(cfg: Config, v: Knowledge, key: string): (addr: string) {
    var owner := OwnerAt(v.ring, cfg.hash(key));
    if owner == "" || owner == v.self then ""
    else if owner !in v.nodes then ""
    else v.nodes[owner].rpcAddr
  }

  /** With known members and a ring whose every point has an owner, a call stays local exactly on the owner
      itself: the fall-backs for an unknown or missing owner are never taken. */
  lemma LocalExactlyAtOwner(cfg: Config, v: Knowledge, key: string)
    requires MembersKnown(v) && Sound(v.ring) && Sorted(v.ring.points) && v.ring.points != []
    requires forall n :: n in v.ring.members && n != v.self ==> v.nodes[n].rpcAddr != ""
    ensures var owner := OwnerAt(v.ring, cfg.hash(key));
      && owner in v.ring.members
      && OwnerAddr(cfg, v, key) == (if owner == v.self then "" else v.nodes[owner].rpcAddr)
      && (OwnerAddr(cfg, v, key) == "" <==> owner == v.self)
  {
    var p := SuccessorExists(v.ring, cfg.hash(key));
  }

  // ---- Agreement from histories ----------------------------------------------------------------

  function RingOps(self: string, events: seq<Gossip>): (ops: seq<RingOp>) {
    if events == [] then [Join(self)]
    else
      var before := RingOps(self, events[..|events| - 1]);
      match events[|events| - 1]
      case Joined(info) => before + [Join(info.name)]
      case Departed(name) => before + [Leave(name)]
      case Updated(_) => before
  }

  /** The ring is the one these operations build, from these names. */
  ghost predicate Follows(cfg: Config, ring: RingState, ops: seq<RingOp>, names: set<string>) {
    ring == RunRing(cfg, ops) && ring.members == MembersAfter(ops) && Over(ops, names)
  }

  lemma FollowsStep(cfg: Config, ring: RingState, ops: seq<RingOp>, op: RingOp, names: set<string>)
    requires Follows(cfg, ring, ops, names) && op.name in names
    ensures Follows(cfg, Apply(cfg, ring, op), ops + [op], names)
  {
    var longer, s := RunSnoc(cfg, ops, op);
    assert Apply(cfg, ring, op).members == if op.Join? then ring.members + {op.name} else ring.members - {op.name};
  }

  lemma {:induction false} RingFollowsOps(cfg: Config, self: NodeInfo, events: seq<Gossip>, names: set<string>)
    requires self.name in names && forall i :: 0 <= i < |events| ==> NameOf(events[i]) in names
    ensures Follows(cfg, RunGossip(cfg, self, events).ring, RingOps(self.name, events), names)
  {
    if events == [] {
      var start: seq<RingOp> := [];
      FollowsStep(cfg, EMPTY, start, Join(self.name), names);
      assert start + [Join(self.name)] == [Join(self.name)];
    } else {
      var last := |events| - 1;
      RingFollowsOps(cfg, self, events[..last], names);
      var ring, ops := RunGossip(cfg, self, events[..last]).ring, RingOps(self.name, events[..last]);
      match events[last]
      case Joined(info) => FollowsStep(cfg, ring, ops, Join(info.name), names);
      case Departed(name) => FollowsStep(cfg, ring, ops, Leave(name), names);
      case Updated(_) =>
    }
  }

  /** Two nodes that lived through different gossip but ended with the same members hold the same ring,
      and it is the canonical, sound one, provided the hash keeps the labels of the names in use apart. */
  lemma NodesAgreeOnRing(cfg: Config, a: NodeInfo, ea: seq<Gossip>, b: NodeInfo, eb: seq<Gossip>, names: set<string>)
    requires "" !in names && CollisionFree(cfg, names)
    requires a.name in names && forall i :: 0 <= i < |ea| ==> NameOf(ea[i]) in names
    requires b.name in names && forall i :: 0 <= i < |eb| ==> NameOf(eb[i]) in names
    requires RunGossip(cfg, a, ea).ring.members == RunGossip(cfg, b, eb).ring.members
    ensures RunGossip(cfg, a, ea).ring == RunGossip(cfg, b, eb).ring
    ensures Sound(RunGossip(cfg, a, ea).ring) && Sorted(RunGossip(cfg, a, ea).ring.points)
  {
    var ra, rb := RingOps(a.name, ea), RingOps(b.name, eb);
    RingFollowsOps(cfg, a, ea, names);
    RingFollowsOps(cfg, b, eb, names);
    RunIsCanonical(cfg, ra, names);
    RunIsCanonical(cfg, rb, names);
    CanonicalUnique(cfg, RunRing(cfg, ra), RunRing(cfg, rb), MembersAfter(ra));
    CanonicalUnshared(cfg, RunRing(cfg, ra), MembersAfter(ra));
  }
}
