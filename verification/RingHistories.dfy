/** Whole histories of a ring whose points may collide: exactly when RemoveNode's slice capacity can go negative,
    and exactly when a lookup can find nobody. */
module RingHistories {
  import opened Base
  import opened SortedPoints
  import opened RingLabels
  import opened HashRing
  import opened RingTheorems

  function Points(cfg: Config, name: string): (s: seq<uint32>)
    ensures |s| == cfg.vnodes
  {
    VnodePoints(cfg, name, cfg.vnodes)
  }

  // ---- The slice capacity ----------------------------------------------------------------------

  /** RemoveNode never asks for a negative capacity, whatever these names do. */
  ghost predicate CapacitySafe(cfg: Config, names: set<string>) {
    forall ops, n :: Over(ops, names) && n in RunRing(cfg, ops).members ==> cfg.vnodes <= |RunRing(cfg, ops).points|
  }

  /** No virtual point belongs to two of these names. A name may repeat its own points. */
  ghost predicate PointsApart(cfg: Config, names: set<string>) {
    forall a, b, p :: a in names && b in names && p in Points(cfg, a) && p in Points(cfg, b) ==> a == b
  }

  /** Every member has all its points on the ring, each as often as it has it, and owns them. */
  ghost predicate Whole(cfg: Config, s: RingState) {
    && (forall a, p :: a in s.members && p in Points(cfg, a) ==> NodeAt(s.owner, p) == a)
    && (forall a, p :: a in s.members ==> multiset(Points(cfg, a))[p] <= multiset(s.points)[p])
  }

  /** The rebuild loop leaves the points of others, whoever is removed, the empty name included. */
  lemma {:induction false} OthersKept(points: seq<uint32>, owner: map<uint32, string>, name: string, p: uint32)
    requires NodeAt(owner, p) != name
    ensures multiset(Survivors(points, owner, name).0)[p] == multiset(points)[p]
    ensures NodeAt(Survivors(points, owner, name).1, p) == NodeAt(owner, p)
  {
    if points != [] {
      var h, tail := points[0], points[1..];
      MultisetTail(points);
      if NodeAt(owner, h) != name {
        OthersKept(tail, owner, name, p);
        MultisetCons(h, Survivors(tail, owner, name).0);
      } else {
        OthersKept(tail, owner - {h}, name, p);
      }
    }
  }

  /** What a ring shows of point q: who owns it and how often it occurs. */
  ghost predicate Shows(s: RingState, q: uint32, node: string, count: nat) {
    NodeAt(s.owner, q) == node && multiset(s.points)[q] == count
  }

  lemma JoinShows(cfg: Config, s: RingState, name: string, q: uint32, node: string, count: nat)
    requires name !in s.members && Shows(s, q, node, count)
    ensures Shows(Added(cfg, s, name), q, if q in Points(cfg, name) then name else node,
                  count + multiset(Points(cfg, name))[q])
  {
    AddedOwners(cfg, s, name);
    AddedCount(cfg, s, name, q);
  }

  lemma AddKeepsWhole(cfg: Config, s: RingState, names: set<string>, name: string)
    requires Whole(cfg, s) && s.members <= names && name in names && PointsApart(cfg, names)
    ensures Whole(cfg, Added(cfg, s, name))
  {
    if name !in s.members {
      forall a, p | a in s.members + {name}
        ensures multiset(Points(cfg, a))[p] <= multiset(Added(cfg, s, name).points)[p]
        ensures p in Points(cfg, a) ==> NodeAt(Added(cfg, s, name).owner, p) == a
      {
        JoinShows(cfg, s, name, p, NodeAt(s.owner, p), multiset(s.points)[p]);
      }
    }
  }

  lemma RemoveKeepsWhole(cfg: Config, s: RingState, name: string)
    requires Whole(cfg, s)
    ensures Whole(cfg, Removed(s, name))
  {
    if name in s.members {
      var t := Removed(s, name);
      forall a, p | a in t.members
        ensures multiset(Points(cfg, a))[p] <= multiset(t.points)[p]
        ensures p in Points(cfg, a) ==> NodeAt(t.owner, p) == a
      {
        if p in Points(cfg, a) {
          OthersKept(s.points, s.owner, name, p);
        } else {
          assert p !in multiset(Points(cfg, a));
        }
      }
    }
  }

  lemma {:induction false} RunWhole(cfg: Config, ops: seq<RingOp>, names: set<string>)
    requires Over(ops, names) && PointsApart(cfg, names)
    ensures Whole(cfg, RunRing(cfg, ops)) && RunRing(cfg, ops).members <= names
  {
    if ops != [] {
      var last := |ops| - 1;
      RunWhole(cfg, ops[..last], names);
      var s := RunRing(cfg, ops[..last]);
      match ops[last]
      case Join(name) => AddKeepsWhole(cfg, s, names, name);
      case Leave(name) => RemoveKeepsWhole(cfg, s, name);
    }
  }

  lemma WholeHasRoom(cfg: Config, s: RingState, n: string)
    requires Whole(cfg, s) && n in s.members
    ensures cfg.vnodes <= |s.points|
  {
    assert multiset(Points(cfg, n)) <= multiset(s.points);
    Fewer(multiset(Points(cfg, n)), multiset(s.points));
    assert |multiset(Points(cfg, n))| == cfg.vnodes && |multiset(s.points)| == |s.points|;
  }

  lemma Fewer<T>(a: multiset<T>, b: multiset<T>)
    requires a <= b
    ensures |a| <= |b|
    ensures forall x :: a[x] < b[x] ==> |a| < |b|
  {
    assert b == a + (b - a);
    forall x | a[x] < b[x]
      ensures |a| < |b|
    {
      assert x in b - a;
    }
  }

  /** Removing the empty name takes every point without an owner along. */
  lemma {:induction false} EmptyNameTakesOrphans(points: seq<uint32>, owner: map<uint32, string>)
    ensures Survivors(points, owner, "").0 == Keep(points, owner, "")
  {
    if points != [] {
      var h, tail := points[0], points[1..];
      if NodeAt(owner, h) == "" {
        EmptyNameTakesOrphans(tail, owner - {h});
        SameNodes(tail, owner, owner - {h});
        assert [] + Keep(tail, owner, "") == Keep(tail, owner, "");
      } else {
        EmptyNameTakesOrphans(tail, owner);
      }
    }
  }

  lemma {:induction false} SameNodes(points: seq<uint32>, owner: map<uint32, string>, other: map<uint32, string>)
    requires forall p :: NodeAt(owner, p) == NodeAt(other, p)
    ensures Keep(points, owner, "") == Keep(points, other, "")
  {
    if points != [] {
      SameNodes(points[1..], owner, other);
    }
  }

  /** A ring on which only a owns points, one of them lost, is too short once the empty name has left. */
  lemma TooShort(cfg: Config, s: RingState, a: string, p: uint32)
    requires "" in s.members
    requires forall q :: NodeAt(s.owner, q) != "" ==> multiset(s.points)[q] <= multiset(Points(cfg, a))[q]
    requires p in Points(cfg, a) && NodeAt(s.owner, p) == ""
    ensures |Removed(s, "").points| < cfg.vnodes
  {
    var kept := Keep(s.points, s.owner, "");
    EmptyNameTakesOrphans(s.points, s.owner);
    forall q
      ensures multiset(kept)[q] <= multiset(Points(cfg, a))[q]
    {
      KeepContents(s.points, s.owner, "", q);
    }
    KeepContents(s.points, s.owner, "", p);
    assert p in multiset(Points(cfg, a));
    Fewer(multiset(kept), multiset(Points(cfg, a)));
    assert |multiset(kept)| == |kept| && |multiset(Points(cfg, a))| == cfg.vnodes;
  }

  lemma NotThere(cfg: Config, name: string, q: uint32)
    ensures multiset(Points(cfg, name))[q] == 0 <==> q !in Points(cfg, name)
  {
    assert q in Points(cfg, name) <==> q in multiset(Points(cfg, name));
  }

  /** A history over these names that ends with s. */
  ghost predicate Reaches(cfg: Config, names: set<string>, ops: seq<RingOp>, s: RingState) {
    Over(ops, names) && RunRing(cfg, ops) == s
  }

  lemma AfterJoin(cfg: Config, names: set<string>, ops: seq<RingOp>, s: RingState, name: string)
    returns (longer: seq<RingOp>, t: RingState)
    requires Reaches(cfg, names, ops, s) && name in names
    ensures t == Added(cfg, s, name) && Reaches(cfg, names, longer, t)
  {
    longer, t := RunSnoc(cfg, ops, Join(name));
  }

  lemma AfterLeave(cfg: Config, names: set<string>, ops: seq<RingOp>, s: RingState, name: string)
    returns (longer: seq<RingOp>, t: RingState)
    requires Reaches(cfg, names, ops, s) && name in names
    ensures t == Removed(s, name) && Reaches(cfg, names, longer, t)
  {
    longer, t := RunSnoc(cfg, ops, Leave(name));
  }

  lemma OneThenEmpty(cfg: Config, a: string, q: uint32, s1: RingState, s2: RingState)
    requires a != "" && s1 == Added(cfg, EMPTY, a) && s2 == Added(cfg, s1, "")
    ensures NodeAt(s2.owner, q) != "" ==> multiset(s2.points)[q] <= multiset(Points(cfg, a))[q]
    ensures q in Points(cfg, "") ==> NodeAt(s2.owner, q) == ""
  {
    assert Shows(EMPTY, q, "", 0);
    JoinShows(cfg, EMPTY, a, q, "", 0);
    JoinShows(cfg, s1, "", q, if q in Points(cfg, a) then a else "", multiset(Points(cfg, a))[q]);
    NotThere(cfg, "", q);
  }

  lemma OneShort(cfg: Config, a: string, p: uint32, s1: RingState, s2: RingState)
    requires a != "" && p in Points(cfg, a) && p in Points(cfg, "")
    requires s1 == Added(cfg, EMPTY, a) && s2 == Added(cfg, s1, "")
    ensures |Removed(s2, "").points| < cfg.vnodes && a in Removed(s2, "").members
  {
    forall q
      ensures NodeAt(s2.owner, q) != "" ==> multiset(s2.points)[q] <= multiset(Points(cfg, a))[q]
    {
      OneThenEmpty(cfg, a, q, s1, s2);
    }
    OneThenEmpty(cfg, a, p, s1, s2);
    TooShort(cfg, s2, a, p);
  }

  /** A history over these names leaves n a member of a ring with fewer than vnodes points. */
  ghost predicate RunsShort(cfg: Config, names: set<string>, ops: seq<RingOp>, n: string) {
    Over(ops, names) && n in RunRing(cfg, ops).members && |RunRing(cfg, ops).points| < cfg.vnodes
  }

  /** A name that shares a point with the empty one: join it, join the empty name, and let that leave again. */
  lemma SharedWithEmpty(cfg: Config, names: set<string>, a: string, p: uint32) returns (ops: seq<RingOp>)
    requires a in names && "" in names && a != "" && p in Points(cfg, a) && p in Points(cfg, "")
    ensures RunsShort(cfg, names, ops, a)
  {
    ops := [];
    var s1, s2, s3;
    ops, s1 := AfterJoin(cfg, names, ops, EMPTY, a);
    ops, s2 := AfterJoin(cfg, names, ops, s1, "");
    OneShort(cfg, a, p, s1, s2);
    ops, s3 := AfterLeave(cfg, names, ops, s2, "");
  }

  lemma TwoShort(
      cfg: Config, a: string, b: string, p: uint32, s1: RingState, s2: RingState, s3: RingState, s4: RingState)
    requires a != "" && b != "" && a != b && p in Points(cfg, a) && p in Points(cfg, b)
    requires s1 == Added(cfg, EMPTY, a) && s2 == Added(cfg, s1, b) && s3 == Removed(s2, b) && s4 == Added(cfg, s3, "")
    ensures |Removed(s4, "").points| < cfg.vnodes && a in Removed(s4, "").members
  {
    forall q
      ensures NodeAt(s4.owner, q) != "" ==> multiset(s4.points)[q] <= multiset(Points(cfg, a))[q]
    {
      TwoThenEmpty(cfg, a, b, q, s1, s2, s3, s4);
    }
    TwoThenEmpty(cfg, a, b, p, s1, s2, s3, s4);
    TooShort(cfg, s4, a, p);
  }

  /** Two names that share a point: the second joins and leaves, which orphans it, and the empty name sweeps it up. */
  lemma SharedByTwo(cfg: Config, names: set<string>, a: string, b: string, p: uint32) returns (ops: seq<RingOp>)
    requires a in names && b in names && "" in names
    requires a != "" && b != "" && a != b && p in Points(cfg, a) && p in Points(cfg, b)
    ensures RunsShort(cfg, names, ops, a)
  {
    ops := [];
    var s1, s2, s3, s4, s5;
    ops, s1 := AfterJoin(cfg, names, ops, EMPTY, a);
    ops, s2 := AfterJoin(cfg, names, ops, s1, b);
    ops, s3 := AfterLeave(cfg, names, ops, s2, b);
    ops, s4 := AfterJoin(cfg, names, ops, s3, "");
    TwoShort(cfg, a, b, p, s1, s2, s3, s4);
    ops, s5 := AfterLeave(cfg, names, ops, s4, "");
  }

  lemma TwoThenEmpty(
      cfg: Config, a: string, b: string, q: uint32, s1: RingState, s2: RingState, s3: RingState, s4: RingState)
    requires a != "" && b != "" && a != b
    requires s1 == Added(cfg, EMPTY, a) && s2 == Added(cfg, s1, b) && s3 == Removed(s2, b) && s4 == Added(cfg, s3, "")
    ensures NodeAt(s4.owner, q) != "" ==> multiset(s4.points)[q] <= multiset(Points(cfg, a))[q]
    ensures q in Points(cfg, b) ==> NodeAt(s4.owner, q) == ""
  {
    assert Shows(EMPTY, q, "", 0);
    JoinShows(cfg, EMPTY, a, q, "", 0);
    var na, ca := if q in Points(cfg, a) then a else "", multiset(Points(cfg, a))[q];
    JoinShows(cfg, s1, b, q, na, ca);
    SurvivorCount(s2.points, s2.owner, b, q);
    NotThere(cfg, b, q);
    NotThere(cfg, "", q);
    assert q in s2.points <==> q in multiset(s2.points);
    JoinShows(cfg, s3, "", q, NodeAt(s3.owner, q), multiset(s3.points)[q]);
  }

  /** RemoveNode's slice capacity stays non-negative over every history of these names exactly if the empty name
      is not among them or no two of them share a virtual point. */
  lemma CapacitySafeIff(cfg: Config, names: set<string>)
    ensures CapacitySafe(cfg, names) <==> "" !in names || PointsApart(cfg, names)
  {
    if "" !in names || PointsApart(cfg, names) {
      forall ops, n | Over(ops, names) && n in RunRing(cfg, ops).members
        ensures cfg.vnodes <= |RunRing(cfg, ops).points|
      {
        HasRoom(cfg, names, ops, n);
      }
    } else {
      var a, b, p :| a in names && b in names && p in Points(cfg, a) && p in Points(cfg, b) && a != b;
      var ops, n := SharingRunsShort(cfg, names, a, b, p);
    }
  }

  lemma HasRoom(cfg: Config, names: set<string>, ops: seq<RingOp>, n: string)
    requires "" !in names || PointsApart(cfg, names)
    requires Over(ops, names) && n in RunRing(cfg, ops).members
    ensures cfg.vnodes <= |RunRing(cfg, ops).points|
  {
    if "" !in names {
      RunAccounted(cfg, ops);
    } else {
      RunWhole(cfg, ops, names);
      WholeHasRoom(cfg, RunRing(cfg, ops), n);
    }
  }

  lemma SharingRunsShort(cfg: Config, names: set<string>, a: string, b: string, p: uint32)
    returns (ops: seq<RingOp>, n: string)
    requires a in names && b in names && "" in names && a != b && p in Points(cfg, a) && p in Points(cfg, b)
    ensures RunsShort(cfg, names, ops, n)
  {
    if a == "" {
      n := b;
      ops := SharedWithEmpty(cfg, names, b, p);
    } else if b == "" {
      n := a;
      ops := SharedWithEmpty(cfg, names, a, p);
    } else {
      n := a;
      ops := SharedByTwo(cfg, names, a, b, p);
    }
  }

  // ---- Lookups that find nobody ----------------------------------------------------------------

  /** On a ring with points every lookup finds a node, whatever these names do. */
  ghost predicate AlwaysFound(cfg: Config, names: set<string>) {
    forall ops, h :: Over(ops, names) && RunRing(cfg, ops).points != [] ==> OwnerAt(RunRing(cfg, ops), h) != ""
  }

  lemma FoundWhenApart(cfg: Config, names: set<string>, ops: seq<RingOp>, h: uint32)
    requires "" !in names && CollisionFree(cfg, names) && Over(ops, names) && RunRing(cfg, ops).points != []
    ensures OwnerAt(RunRing(cfg, ops), h) != ""
  {
    RunIsCanonical(cfg, ops, names);
    var s := RunRing(cfg, ops);
    CanonicalUnshared(cfg, s, MembersAfter(ops));
    var p := SuccessorExists(s, h);
  }

  /** The last to join holds a point twice over: when it leaves again, that point is nobody's. */
  lemma LeavesOrphan(cfg: Config, s: RingState, name: string, p: uint32)
    requires Sound(s) && Sorted(s.points) && name != "" && name !in s.members
    requires p in Points(cfg, name) && multiset(Added(cfg, s, name).points)[p] != 1
    ensures Removed(Added(cfg, s, name), name).points != []
    ensures OwnerAt(Removed(Added(cfg, s, name), name), p) == ""
  {
    var t := Added(cfg, s, name);
    AddKeepsSound(cfg, s, name);
    AddedOwners(cfg, s, name);
    AddedPoints(cfg, s, name);
    SharedPointIsOrphaned(t, name, p);
    SurvivorsSubset(t.points, t.owner, name);
    var u := Removed(t, name);
    assert IsSuccessor(u.points, p, p);
    LookupIsSuccessor(u, p, p);
  }

  lemma RepeatedPoint(cfg: Config, a: string, i: nat, j: nat)
    requires i < cfg.vnodes && j < cfg.vnodes && i != j && PointOf(cfg, a, i) == PointOf(cfg, a, j)
    ensures multiset(Points(cfg, a))[PointOf(cfg, a, i)] > 1
  {
    var pa := Points(cfg, a);
    assert pa[i] == pa[j] == PointOf(cfg, a, i);
    if i < j { TwiceInMultiset(pa, i, j); } else { TwiceInMultiset(pa, j, i); }
  }

  lemma HasPoint(cfg: Config, a: string, i: nat)
    requires i < cfg.vnodes
    ensures PointOf(cfg, a, i) in Points(cfg, a) && multiset(Points(cfg, a))[PointOf(cfg, a, i)] > 0
  {
    assert Points(cfg, a)[i] == PointOf(cfg, a, i);
    NotThere(cfg, a, PointOf(cfg, a, i));
  }

  /** The labels of two virtual nodes collide: their point is on the ring twice once both have joined. */
  lemma JoinedTwice(cfg: Config, a: string, i: nat, b: string, j: nat, s: RingState)
    requires i < cfg.vnodes && j < cfg.vnodes && (a, i) != (b, j) && PointOf(cfg, a, i) == PointOf(cfg, b, j)
    requires s == if a == b then EMPTY else Added(cfg, EMPTY, a)
    ensures PointOf(cfg, a, i) in Points(cfg, b)
    ensures multiset(Added(cfg, s, b).points)[PointOf(cfg, a, i)] > 1
  {
    var h := PointOf(cfg, a, i);
    HasPoint(cfg, a, i);
    HasPoint(cfg, b, j);
    assert Shows(EMPTY, h, "", 0);
    JoinShows(cfg, EMPTY, a, h, "", 0);
    if a == b {
      RepeatedPoint(cfg, a, i, j);
    } else {
      JoinShows(cfg, s, b, h, a, multiset(Points(cfg, a))[h]);
    }
  }

  lemma OrphanHistory(cfg: Config, names: set<string>, a: string, i: nat, b: string, j: nat)
    returns (ops: seq<RingOp>, h: uint32)
    requires a in names && b in names && a != "" && b != ""
    requires i < cfg.vnodes && j < cfg.vnodes && (a, i) != (b, j) && PointOf(cfg, a, i) == PointOf(cfg, b, j)
    ensures Over(ops, names) && RunRing(cfg, ops).points != [] && OwnerAt(RunRing(cfg, ops), h) == ""
  {
    h := PointOf(cfg, a, i);
    ops := [];
    var s, t, u := EMPTY, EMPTY, EMPTY;
    assert Sound(s);
    if a != b {
      AddKeepsSound(cfg, EMPTY, a);
      ops, s := AfterJoin(cfg, names, ops, EMPTY, a);
    }
    JoinedTwice(cfg, a, i, b, j, s);
    LeavesOrphan(cfg, s, b, h);
    ops, t := AfterJoin(cfg, names, ops, s, b);
    ops, u := AfterLeave(cfg, names, ops, t, b);
  }

  /** Every lookup on a non-empty ring finds a node over every history of these names exactly if the hash keeps
      their labels apart. */
  lemma AlwaysFoundIff(cfg: Config, names: set<string>)
    requires "" !in names
    ensures AlwaysFound(cfg, names) <==> CollisionFree(cfg, names)
  {
    if CollisionFree(cfg, names) {
      forall ops, h | Over(ops, names) && RunRing(cfg, ops).points != []
        ensures OwnerAt(RunRing(cfg, ops), h) != ""
      {
        FoundWhenApart(cfg, names, ops, h);
      }
    } else {
      var a, i: nat, b, j: nat :| a in names && b in names && i < cfg.vnodes && j < cfg.vnodes
        && PointOf(cfg, a, i) == PointOf(cfg, b, j) && Label(a, i) != Label(b, j);
      var ops, h := OrphanHistory(cfg, names, a, i, b, j);
    }
  }

  // ---- Replica order over histories ------------------------------------------------------------

  /** Whatever these names do, removing a member only strikes it out of every replica order. */
  ghost predicate RemovalsStrikeOut(cfg: Config, names: set<string>) {
    forall ops, x :: Over(ops, names) && x in RunRing(cfg, ops).members ==> OnlyStrikesOut(RunRing(cfg, ops), x)
  }

  ghost predicate OnlyStrikesOut(s: RingState, x: string) {
    forall h :: FullOrder(Removed(s, x), h) == StrikeOut(FullOrder(s, h), x)
  }

  lemma ApartStrikesOut(cfg: Config, names: set<string>, ops: seq<RingOp>, x: string)
    requires "" !in names && CollisionFree(cfg, names) && Over(ops, names) && x in RunRing(cfg, ops).members
    ensures OnlyStrikesOut(RunRing(cfg, ops), x)
  {
    RunIsCanonical(cfg, ops, names);
    CanonicalUnshared(cfg, RunRing(cfg, ops), MembersAfter(ops));
    RemoveStrikesOutIff(RunRing(cfg, ops), x);
  }

  /** Two labels collide: when both nodes have joined, the last cannot leave without a trace. */
  lemma CollisionLeavesTrace(cfg: Config, names: set<string>, a: string, i: nat, b: string, j: nat)
    returns (ops: seq<RingOp>)
    requires a in names && b in names && a != "" && b != ""
    requires i < cfg.vnodes && j < cfg.vnodes && (a, i) != (b, j) && PointOf(cfg, a, i) == PointOf(cfg, b, j)
    ensures Over(ops, names) && b in RunRing(cfg, ops).members && !OnlyStrikesOut(RunRing(cfg, ops), b)
  {
    ops := [];
    var s, t := EMPTY, EMPTY;
    assert Sound(s);
    if a != b {
      AddKeepsSound(cfg, EMPTY, a);
      ops, s := AfterJoin(cfg, names, ops, EMPTY, a);
    }
    JoinedTwice(cfg, a, i, b, j, s);
    SharedLeavesTrace(cfg, s, b, PointOf(cfg, a, i));
    ops, t := AfterJoin(cfg, names, ops, s, b);
  }

  lemma SharedLeavesTrace(cfg: Config, s: RingState, b: string, p: uint32)
    requires Sound(s) && Sorted(s.points) && b != "" && b !in s.members
    requires p in Points(cfg, b) && multiset(Added(cfg, s, b).points)[p] > 1
    ensures b in Added(cfg, s, b).members && !OnlyStrikesOut(Added(cfg, s, b), b)
  {
    var t := Added(cfg, s, b);
    AddKeepsSound(cfg, s, b);
    AddedOwners(cfg, s, b);
    AddedPoints(cfg, s, b);
    assert !PointsUnshared(t, b);
    RemoveStrikesOutIff(t, b);
  }

  /** Over every history of these names each RemoveNode only strikes its node out of every key's replica order
      exactly if the hash keeps their labels apart. */
  lemma RemovalsStrikeOutIff(cfg: Config, names: set<string>)
    requires "" !in names
    ensures RemovalsStrikeOut(cfg, names) <==> CollisionFree(cfg, names)
  {
    if CollisionFree(cfg, names) {
      forall ops, x | Over(ops, names) && x in RunRing(cfg, ops).members
        ensures OnlyStrikesOut(RunRing(cfg, ops), x)
      {
        ApartStrikesOut(cfg, names, ops, x);
      }
    } else {
      var a, i: nat, b, j: nat :| a in names && b in names && i < cfg.vnodes && j < cfg.vnodes
        && PointOf(cfg, a, i) == PointOf(cfg, b, j) && Label(a, i) != Label(b, j);
      var ops := CollisionLeavesTrace(cfg, names, a, i, b, j);
    }
  }
}
