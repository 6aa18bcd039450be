/** What the ring promises: lookup, minimal disruption, history independence, stable replica order. */
module RingTheorems {
  import opened Base
  import opened SortedPoints
  import opened RingLabels
  import opened HashRing

  // ---- Lookup ----------------------------------------------------------------------------------

  /** Lookup returns the owner of the clockwise successor, a notion that knows nothing of arrays or searches. */
  lemma LookupIsSuccessor(s: RingState, h: uint32, p: uint32)
    requires Sorted(s.points)
    requires IsSuccessor(s.points, h, p)
    ensures OwnerAt(s, h) == NodeAt(s.owner, p)
  {
    ClockHeadIsSuccessor(s.points, h);
    SuccessorUnique(s.points, h, p, Clock(s.points, h)[0]);
  }

  lemma SuccessorExists(s: RingState, h: uint32) returns (p: uint32)
    requires Sorted(s.points) && s.points != []
    ensures IsSuccessor(s.points, h, p) && OwnerAt(s, h) == NodeAt(s.owner, p)
  {
    ClockHeadIsSuccessor(s.points, h);
    p := Clock(s.points, h)[0];
  }

  // ---- Minimal disruption ----------------------------------------------------------------------

  lemma AddedPoints(cfg: Config, s: RingState, name: string)
    requires name !in s.members
    ensures forall p :: p in Added(cfg, s, name).points <==> p in s.points || p in VnodePoints(cfg, name, cfg.vnodes)
  {
    var pts := VnodePoints(cfg, name, cfg.vnodes);
    assert multiset(Added(cfg, s, name).points) == multiset(s.points + pts);
    forall p
      ensures p in Added(cfg, s, name).points <==> p in s.points || p in pts
    {
      assert p in Added(cfg, s, name).points <==> p in multiset(Added(cfg, s, name).points);
      assert p in s.points + pts <==> p in multiset(s.points + pts);
    }
  }

  /** AddNode leaves every position with its old owner or with the new node, whatever points collide. */
  lemma AddMovesOnlyToNewNode(cfg: Config, s: RingState, name: string, h: uint32)
    requires Sorted(s.points)
    ensures OwnerAt(Added(cfg, s, name), h) == OwnerAt(s, h) || OwnerAt(Added(cfg, s, name), h) == name
  {
    if name !in s.members {
      var t := Added(cfg, s, name);
      AddedPoints(cfg, s, name);
      var pts := VnodePoints(cfg, name, cfg.vnodes);
      assert pts[0] in t.points;
      var p := SuccessorExists(t, h);
      if p !in pts {
        SuccessorInSubset(s.points, t.points, h, p);
        LookupIsSuccessor(s, h, p);
      }
    }
  }

  lemma {:induction false} SurvivorKept(points: seq<uint32>, owner: map<uint32, string>, name: string, p: uint32)
    requires NodeAt(owner, p) != name
    ensures p in points ==> p in Survivors(points, owner, name).0
    ensures NodeAt(Survivors(points, owner, name).1, p) == NodeAt(owner, p)
  {
    if points != [] {
      assert points == [points[0]] + points[1..];
      SurvivorKept(points[1..], if NodeAt(owner, points[0]) != name then owner else owner - {points[0]}, name, p);
    }
  }

  /** RemoveNode moves only positions of the removed node, whatever points collide. */
  lemma RemoveMovesOnlyItsOwn(s: RingState, name: string, h: uint32)
    requires Sorted(s.points)
    requires OwnerAt(s, h) != name
    ensures OwnerAt(Removed(s, name), h) == OwnerAt(s, h)
  {
    if name in s.members {
      var t := Removed(s, name);
      SurvivorsSubset(s.points, s.owner, name);
      if s.points != [] {
        var p := SuccessorExists(s, h);
        SurvivorKept(s.points, s.owner, name, p);
        SuccessorInSubset(t.points, s.points, h, p);
        LookupIsSuccessor(t, h, p);
      } else {
        assert t.points == [];
      }
    }
  }

  // ---- When removal leaves orphans -------------------------------------------------------------

  /** Every point is owned by a member, and no member has the empty name. */
  ghost predicate Sound(s: RingState) {
    "" !in s.members && forall p :: p in s.points ==> NodeAt(s.owner, p) in s.members
  }

  /** No point of this node occurs twice on the ring. */
  ghost predicate PointsUnshared(s: RingState, name: string) {
    forall p :: p in s.points && NodeAt(s.owner, p) == name ==> multiset(s.points)[p] == 1
  }

  /** A point of the removed node loses one occurrence and its owner; any other point keeps all. */
  lemma {:induction false} SurvivorCount(points: seq<uint32>, owner: map<uint32, string>, name: string, p: uint32)
    requires name != ""
    ensures multiset(Survivors(points, owner, name).0)[p]
         == multiset(points)[p] - (if p in points && NodeAt(owner, p) == name then 1 else 0)
    ensures NodeAt(Survivors(points, owner, name).1, p)
         == if p in points && NodeAt(owner, p) == name then "" else NodeAt(owner, p)
  {
    if points != [] {
      var h, tail := points[0], points[1..];
      MultisetTail(points);
      assert points == [h] + tail;
      if NodeAt(owner, h) != name {
        SurvivorCount(tail, owner, name, p);
        MultisetCons(h, Survivors(tail, owner, name).0);
      } else {
        SurvivorCount(tail, owner - {h}, name, p);
      }
    }
  }

  lemma AddKeepsSound(cfg: Config, s: RingState, name: string)
    requires Sound(s) && name != ""
    ensures Sound(Added(cfg, s, name))
  {
    if name !in s.members {
      AddedPoints(cfg, s, name);
    }
  }

  lemma SharedPointIsOrphaned(s: RingState, name: string, p: uint32)
    requires name in s.members && name != ""
    requires p in s.points && NodeAt(s.owner, p) == name && multiset(s.points)[p] != 1
    ensures p in Removed(s, name).points && NodeAt(Removed(s, name).owner, p) == ""
  {
    SurvivorCount(s.points, s.owner, name, p);
    assert p in multiset(s.points);
    assert p in multiset(Removed(s, name).points);
  }

  /** Removal keeps every remaining point owned by a member exactly when no point of the node is shared. */
  lemma RemoveKeepsSoundIff(s: RingState, name: string)
    requires Sound(s) && name in s.members
    ensures Sound(Removed(s, name)) <==> PointsUnshared(s, name)
  {
    var t := Removed(s, name);
    if PointsUnshared(s, name) {
      forall p | p in t.points
        ensures NodeAt(t.owner, p) in t.members
      {
        SurvivorsSubset(s.points, s.owner, name);
        SurvivorCount(s.points, s.owner, name, p);
        assert p in multiset(t.points);
      }
    } else {
      var p :| p in s.points && NodeAt(s.owner, p) == name && multiset(s.points)[p] != 1;
      SharedPointIsOrphaned(s, name, p);
    }
  }

  /** Seen from a lookup: after RemoveNode some position has no owner although the ring is not empty
      exactly when a point of the removed node was shared. */
  lemma RemoveOrphansIff(s: RingState, name: string)
    requires Sound(s) && Sorted(s.points) && name in s.members
    ensures (exists h :: Removed(s, name).points != [] && OwnerAt(Removed(s, name), h) == "")
       <==> !PointsUnshared(s, name)
  {
    var t := Removed(s, name);
    SurvivorsSubset(s.points, s.owner, name);
    RemoveKeepsSoundIff(s, name);
    if PointsUnshared(s, name) {
      forall h | t.points != []
        ensures OwnerAt(t, h) != ""
      {
        var p := SuccessorExists(t, h);
      }
    } else {
      var p :| p in s.points && NodeAt(s.owner, p) == name && multiset(s.points)[p] != 1;
      SharedPointIsOrphaned(s, name, p);
      assert IsSuccessor(t.points, p, p);
      LookupIsSuccessor(t, p, p);
      assert OwnerAt(t, p) == "";
    }
  }

  // ---- The slice capacity of RemoveNode --------------------------------------------------------

  /** Owned points are virtual points of their owner, and each member still accounts for vnodes points. */
  ghost predicate Accounted(cfg: Config, s: RingState) {
    && "" !in s.members
    && (forall h :: h in s.owner ==> h in VnodePoints(cfg, s.owner[h], cfg.vnodes))
    && |s.points| >= cfg.vnodes * |s.members|
  }

  ghost function OwnedBy(owner: map<uint32, string>, name: string): (r: set<uint32>) {
    set h | h in owner && owner[h] == name
  }

  lemma {:induction false} FewDistinct<T>(s: seq<T>, r: set<T>)
    requires forall x :: x in r ==> x in s
    ensures |r| <= |s|
  {
    if s == [] {
      assert r == {};
    } else {
      FewDistinct(s[1..], r - {s[0]});
    }
  }

  lemma {:induction false} SurvivorsLength(points: seq<uint32>, owner: map<uint32, string>, name: string)
    requires name != ""
    ensures |Survivors(points, owner, name).0| >= |points| - |OwnedBy(owner, name)|
    ensures forall h :: h in Survivors(points, owner, name).1 ==>
              h in owner && Survivors(points, owner, name).1[h] == owner[h]
  {
    if points != [] {
      var h := points[0];
      if NodeAt(owner, h) != name {
        SurvivorsLength(points[1..], owner, name);
      } else {
        SurvivorsLength(points[1..], owner - {h}, name);
        assert OwnedBy(owner - {h}, name) == OwnedBy(owner, name) - {h};
      }
    }
  }

  lemma OneMore(v: nat, n: nat)
    ensures v * (n + 1) == v * n + v
    ensures v * n >= 0
  {
  }

  lemma AddedLength(cfg: Config, s: RingState, name: string)
    requires name !in s.members
    ensures |Added(cfg, s, name).points| == |s.points| + cfg.vnodes
    ensures |Added(cfg, s, name).members| == |s.members| + 1
  {
    var t, pts := Added(cfg, s, name), VnodePoints(cfg, name, cfg.vnodes);
    assert multiset(t.points) == multiset(s.points + pts);
    assert |multiset(t.points)| == |t.points| && |multiset(s.points + pts)| == |s.points + pts|;
  }

  lemma AddKeepsAccounted(cfg: Config, s: RingState, name: string)
    requires Accounted(cfg, s) && name != ""
    ensures Accounted(cfg, Added(cfg, s, name))
  {
    if name !in s.members {
      AddedLength(cfg, s, name);
      AddedOwners(cfg, s, name);
      OneMore(cfg.vnodes, |s.members|);
    }
  }

  lemma RemoveKeepsAccounted(cfg: Config, s: RingState, name: string)
    requires Accounted(cfg, s)
    ensures Accounted(cfg, Removed(s, name))
    ensures name in s.members ==> cfg.vnodes <= |s.points|
  {
    if name in s.members {
      var t := Removed(s, name);
      SurvivorsLength(s.points, s.owner, name);
      FewDistinct(VnodePoints(cfg, name, cfg.vnodes), OwnedBy(s.owner, name));
      assert |t.members| == |s.members| - 1;
      OneMore(cfg.vnodes, |t.members|);
    }
  }

  // ---- Whole histories -------------------------------------------------------------------------

  datatype RingOp = Join(name: string) | Leave(name: string)

  function Apply(cfg: Config, s: RingState, op: RingOp): RingState {
    match op
    case Join(name) => Added(cfg, s, name)
    case Leave(name) => Removed(s, name)
  }

  function RunRing(cfg: Config, ops: seq<RingOp>): RingState {
    if ops == [] then EMPTY else Apply(cfg, RunRing(cfg, ops[..|ops| - 1]), ops[|ops| - 1])
  }

  /** The member set a history ends with, from the history alone. */
  function MembersAfter(ops: seq<RingOp>): set<string> {
    if ops == [] then {}
    else
      var before := MembersAfter(ops[..|ops| - 1]);
      match ops[|ops| - 1]
      case Join(name) => before + {name}
      case Leave(name) => before - {name}
  }

  ghost predicate Over(ops: seq<RingOp>, names: set<string>) {
    forall k :: 0 <= k < |ops| ==> ops[k].name in names
  }

  /** No history over non-empty names, colliding or not, ever makes RemoveNode's slice capacity negative. */
  lemma {:induction false} RunAccounted(cfg: Config, ops: seq<RingOp>)
    requires forall k :: 0 <= k < |ops| ==> ops[k].name != ""
    ensures Accounted(cfg, RunRing(cfg, ops))
    ensures forall name :: name in RunRing(cfg, ops).members ==> cfg.vnodes <= |RunRing(cfg, ops).points|
  {
    if ops != [] {
      var last := |ops| - 1;
      RunAccounted(cfg, ops[..last]);
      var s := RunRing(cfg, ops[..last]);
      match ops[last]
      case Join(name) => AddKeepsAccounted(cfg, s, name);
      case Leave(name) => RemoveKeepsAccounted(cfg, s, name);
    }
    forall name | name in RunRing(cfg, ops).members
      ensures cfg.vnodes <= |RunRing(cfg, ops).points|
    {
      RemoveKeepsAccounted(cfg, RunRing(cfg, ops), name);
    }
  }

  lemma RunSnoc(cfg: Config, ops: seq<RingOp>, op: RingOp) returns (longer: seq<RingOp>, s: RingState)
    ensures longer == ops + [op]
    ensures s == RunRing(cfg, longer) == Apply(cfg, RunRing(cfg, ops), op)
    ensures MembersAfter(longer) == if op.Join? then MembersAfter(ops) + {op.name} else MembersAfter(ops) - {op.name}
  {
    longer := ops + [op];
    assert longer[..|ops|] == ops;
    s := RunRing(cfg, longer);
  }

  // ---- History independence --------------------------------------------------------------------

  /** The hash keeps the virtual-node labels of these names apart. */
  ghost predicate CollisionFree(cfg: Config, names: set<string>) {
    forall a, i: nat, b, j: nat | a in names && b in names && i < cfg.vnodes && j < cfg.vnodes ::
      PointOf(cfg, a, i) == PointOf(cfg, b, j) ==> Label(a, i) == Label(b, j)
  }

  lemma CollisionFreeMeans(cfg: Config, names: set<string>, a: string, i: nat, b: string, j: nat)
    requires CollisionFree(cfg, names)
    requires a in names && b in names && i < cfg.vnodes && j < cfg.vnodes
    requires PointOf(cfg, a, i) == PointOf(cfg, b, j)
    ensures a == b && i == j
  {
    LabelInjective(a, i, b, j);
  }

  ghost predicate IsPoint(cfg: Config, names: set<string>, p: uint32) {
    exists a, i: nat :: a in names && i < cfg.vnodes && p == PointOf(cfg, a, i)
  }

  /** s is the canonical ring of this member set: it is determined by the set alone (CanonicalUnique). */
  ghost predicate Canonical(cfg: Config, s: RingState, names: set<string>) {
    && s.members == names
    && StrictlySorted(s.points)
    && (forall p :: p in s.points <==> IsPoint(cfg, names, p))
    && (forall p :: p in s.owner <==> p in s.points)
    && (forall a, i: nat :: a in names && i < cfg.vnodes ==> NodeAt(s.owner, PointOf(cfg, a, i)) == a)
  }

  lemma CanonicalUnique(cfg: Config, s: RingState, t: RingState, names: set<string>)
    requires Canonical(cfg, s, names) && Canonical(cfg, t, names)
    ensures s == t
  {
    StrictlySortedUnique(s.points, t.points);
    forall p | p in s.owner
      ensures s.owner[p] == t.owner[p]
    {
      var a, i: nat :| a in names && i < cfg.vnodes && p == PointOf(cfg, a, i);
      assert NodeAt(s.owner, p) == NodeAt(t.owner, p);
    }
    assert s.owner == t.owner;
  }

  lemma {:induction false} CountsAtMostOne<T>(s: seq<T>, x: T)
    requires forall i, j :: 0 <= i < j < |s| ==> s[i] != s[j]
    ensures multiset(s)[x] <= 1
  {
    if s != [] {
      MultisetTail(s);
      CountsAtMostOne(s[1..], x);
      assert forall k :: 0 <= k < |s[1..]| ==> s[1..][k] == s[k + 1];
      assert x == s[0] ==> x !in s[1..];
    }
  }

  lemma AddedOwners(cfg: Config, s: RingState, name: string)
    requires name !in s.members
    ensures var t := Added(cfg, s, name); var pts := VnodePoints(cfg, name, cfg.vnodes);
      && (forall p :: NodeAt(t.owner, p) == if p in pts then name else NodeAt(s.owner, p))
      && (forall p :: p in t.owner <==> p in s.owner || p in pts)
      && (forall i: nat :: i < cfg.vnodes ==> PointOf(cfg, name, i) in pts)
  {
    var pts := VnodePoints(cfg, name, cfg.vnodes);
    forall i: nat | i < cfg.vnodes
      ensures PointOf(cfg, name, i) in pts
    {
      assert pts[i] == PointOf(cfg, name, i);
    }
  }

  lemma AddedStrictlySorted(cfg: Config, s: RingState, names: set<string>, name: string)
    requires Canonical(cfg, s, names) && name !in names
    requires CollisionFree(cfg, names + {name})
    ensures StrictlySorted(Added(cfg, s, name).points)
  {
    var t := Added(cfg, s, name);
    var pts := VnodePoints(cfg, name, cfg.vnodes);
    NewPointsAreNew(cfg, s, names, name);
    assert multiset(t.points) == multiset(s.points) + multiset(pts);
    forall p | p in t.points
      ensures multiset(t.points)[p] == 1
    {
      CountsAtMostOne(pts, p);
      CountsAtMostOne(s.points, p);
      assert p in multiset(t.points);
      assert p in pts <==> p in multiset(pts);
      assert p in s.points <==> p in multiset(s.points);
    }
    SortedDistinct(t.points);
  }

  lemma AddedPointSet(cfg: Config, s: RingState, names: set<string>, name: string, p: uint32)
    requires name !in s.members
    requires p in s.points <==> IsPoint(cfg, names, p)
    ensures p in Added(cfg, s, name).points <==> IsPoint(cfg, names + {name}, p)
  {
    AddedPoints(cfg, s, name);
    var pts := VnodePoints(cfg, name, cfg.vnodes);
    if p in pts {
      var i :| 0 <= i < |pts| && pts[i] == p;
      assert p == PointOf(cfg, name, i);
    }
    if IsPoint(cfg, names + {name}, p) {
      var a, i: nat :| a in names + {name} && i < cfg.vnodes && p == PointOf(cfg, a, i);
      assert a == name ==> pts[i] == p;
    }
  }

  lemma AddKeepsCanonical(cfg: Config, s: RingState, names: set<string>, name: string)
    requires Canonical(cfg, s, names) && name !in names
    requires CollisionFree(cfg, names + {name})
    ensures Canonical(cfg, Added(cfg, s, name), names + {name})
  {
    var t := Added(cfg, s, name);
    AddedStrictlySorted(cfg, s, names, name);
    AddedPoints(cfg, s, name);
    AddedOwners(cfg, s, name);
    forall p
      ensures p in t.points <==> IsPoint(cfg, names + {name}, p)
    {
      AddedPointSet(cfg, s, names, name, p);
    }
    NewPointsAreNew(cfg, s, names, name);
    forall a, i: nat | a in names + {name} && i < cfg.vnodes
      ensures NodeAt(t.owner, PointOf(cfg, a, i)) == a
    {
      if a != name {
        assert IsPoint(cfg, names, PointOf(cfg, a, i));
      }
    }
  }

  /** The virtual points of a newcomer are pairwise distinct and off the ring. */
  lemma NewPointsAreNew(cfg: Config, s: RingState, names: set<string>, name: string)
    requires Canonical(cfg, s, names) && name !in names
    requires CollisionFree(cfg, names + {name})
    ensures var pts := VnodePoints(cfg, name, cfg.vnodes);
      (forall i, j :: 0 <= i < j < |pts| ==> pts[i] != pts[j]) && (forall p :: p in pts ==> p !in s.points)
  {
    var pts := VnodePoints(cfg, name, cfg.vnodes);
    forall i, j | 0 <= i < j < |pts|
      ensures pts[i] != pts[j]
    {
      if pts[i] == pts[j] {
        CollisionFreeMeans(cfg, names + {name}, name, i, name, j);
        assert false;
      }
    }
    forall p | p in pts
      ensures p !in s.points
    {
      var j :| 0 <= j < |pts| && pts[j] == p;
      if p in s.points {
        var a, i: nat :| a in names && i < cfg.vnodes && p == PointOf(cfg, a, i);
        CollisionFreeMeans(cfg, names + {name}, a, i, name, j);
        assert false;
      }
    }
  }

  lemma CanonicalUnshared(cfg: Config, s: RingState, names: set<string>)
    requires Canonical(cfg, s, names)
    ensures forall p :: p in s.points ==> multiset(s.points)[p] == 1
    ensures "" !in names ==> Sound(s)
    ensures Sorted(s.points)
  {
    forall p | p in s.points
      ensures multiset(s.points)[p] == 1
      ensures NodeAt(s.owner, p) in names
    {
      CountsAtMostOne(s.points, p);
      assert p in multiset(s.points);
      assert IsPoint(cfg, names, p);
    }
  }

  /** What removal leaves of one position of a canonical ring. */
  lemma RemovedPoint(cfg: Config, s: RingState, names: set<string>, name: string, p: uint32)
    requires Canonical(cfg, s, names) && name in names && name != ""
    ensures var t := Removed(s, name);
      && (p in t.points <==> p in s.points && NodeAt(s.owner, p) != name)
      && (p in t.points ==> multiset(t.points)[p] == 1)
      && (p in t.owner <==> p in t.points)
      && (p in t.points ==> NodeAt(t.owner, p) == NodeAt(s.owner, p))
  {
    var t := Removed(s, name);
    CountsAtMostOne(s.points, p);
    SurvivorCount(s.points, s.owner, name, p);
    SurvivorKeys(s.points, s.owner, name, p);
    assert p in t.points <==> p in multiset(t.points);
    assert p in s.points <==> p in multiset(s.points);
  }

  lemma RemovedPointSet(cfg: Config, s: RingState, names: set<string>, name: string, p: uint32)
    requires Canonical(cfg, s, names) && name in names && name != ""
    ensures p in Removed(s, name).points <==> IsPoint(cfg, names - {name}, p)
  {
    RemovedPoint(cfg, s, names, name, p);
    assert p in s.points <==> IsPoint(cfg, names, p);
    if IsPoint(cfg, names, p) {
      var a, i: nat :| a in names && i < cfg.vnodes && p == PointOf(cfg, a, i);
      assert NodeAt(s.owner, p) == a;
      assert a != name ==> IsPoint(cfg, names - {name}, p);
    }
  }

  lemma RemoveKeepsCanonical(cfg: Config, s: RingState, names: set<string>, name: string)
    requires Canonical(cfg, s, names) && name in names && name != ""
    ensures Canonical(cfg, Removed(s, name), names - {name})
  {
    var t := Removed(s, name);
    SurvivorsSubset(s.points, s.owner, name);
    forall p
      ensures p in t.points ==> multiset(t.points)[p] == 1
      ensures p in t.owner <==> p in t.points
      ensures p in t.points <==> IsPoint(cfg, names - {name}, p)
    {
      RemovedPoint(cfg, s, names, name, p);
      RemovedPointSet(cfg, s, names, name, p);
    }
    SortedDistinct(t.points);
    forall a, i: nat | a in names - {name} && i < cfg.vnodes
      ensures NodeAt(t.owner, PointOf(cfg, a, i)) == a
    {
      assert IsPoint(cfg, names - {name}, PointOf(cfg, a, i));
      RemovedPoint(cfg, s, names, name, PointOf(cfg, a, i));
    }
  }

  lemma {:induction false} SurvivorKeys(points: seq<uint32>, owner: map<uint32, string>, name: string, p: uint32)
    requires name != ""
    ensures p in Survivors(points, owner, name).1 <==> p in owner && !(p in points && owner[p] == name)
  {
    if points != [] {
      assert points == [points[0]] + points[1..];
      SurvivorKeys(points[1..], if NodeAt(owner, points[0]) != name then owner else owner - {points[0]}, name, p);
    }
  }

  /** Any history over collision-free names ends in the canonical ring of its current members. */
  lemma {:induction false} RunIsCanonical(cfg: Config, ops: seq<RingOp>, names: set<string>)
    requires Over(ops, names) && "" !in names && CollisionFree(cfg, names)
    ensures MembersAfter(ops) <= names
    ensures Canonical(cfg, RunRing(cfg, ops), MembersAfter(ops))
  {
    if ops != [] {
      var last := |ops| - 1;
      RunIsCanonical(cfg, ops[..last], names);
      var s, before := RunRing(cfg, ops[..last]), MembersAfter(ops[..last]);
      match ops[last] {
        case Join(name) =>
          if name in before {
            assert before + {name} == before;
          } else {
            AddKeepsCanonical(cfg, s, before, name);
          }
        case Leave(name) =>
          if name in before {
            RemoveKeepsCanonical(cfg, s, before, name);
          } else {
            assert before - {name} == before;
          }
      }
    }
  }

  ghost predicate HistoryIndependent(cfg: Config, names: set<string>) {
    forall r1, r2 :: Over(r1, names) && Over(r2, names) && MembersAfter(r1) == MembersAfter(r2)
      ==> RunRing(cfg, r1) == RunRing(cfg, r2)
  }

  /** Two nodes that know the same members hold the same ring, whatever they lived through,
      exactly when the hash keeps the labels of the names in use apart. */
  lemma HistoryIndependenceIff(cfg: Config, names: set<string>)
    requires "" !in names
    ensures HistoryIndependent(cfg, names) <==> CollisionFree(cfg, names)
  {
    if CollisionFree(cfg, names) {
      forall r1, r2 | Over(r1, names) && Over(r2, names) && MembersAfter(r1) == MembersAfter(r2)
        ensures RunRing(cfg, r1) == RunRing(cfg, r2)
      {
        RunIsCanonical(cfg, r1, names);
        RunIsCanonical(cfg, r2, names);
        CanonicalUnique(cfg, RunRing(cfg, r1), RunRing(cfg, r2), MembersAfter(r1));
      }
    } else {
      var a, i: nat, b, j: nat :| a in names && b in names && i < cfg.vnodes && j < cfg.vnodes
        && PointOf(cfg, a, i) == PointOf(cfg, b, j) && Label(a, i) != Label(b, j);
      var r1, r2 := CollisionShows(cfg, a, i, b, j);
      assert Over(r1, names) && Over(r2, names);
    }
  }

  /** Two colliding labels separate two histories with the same members. */
  lemma CollisionShows(cfg: Config, a: string, i: nat, b: string, j: nat) returns (r1: seq<RingOp>, r2: seq<RingOp>)
    requires a != "" && i < cfg.vnodes && j < cfg.vnodes && (a, i) != (b, j)
    requires PointOf(cfg, a, i) == PointOf(cfg, b, j)
    ensures forall k :: 0 <= k < |r1| ==> r1[k].name in {a, b}
    ensures forall k :: 0 <= k < |r2| ==> r2[k].name in {a, b}
    ensures MembersAfter(r1) == MembersAfter(r2) && RunRing(cfg, r1) != RunRing(cfg, r2)
  {
    if a == b {
      r1 := JoinThen(cfg, a, Leave(a));
      r2 := [];
      SelfCollisionShows(cfg, EMPTY, a, i, j);
    } else {
      r1 := JoinThen(cfg, a, Join(b));
      r2 := JoinThen(cfg, b, Join(a));
      CrossCollisionShows(cfg, Added(cfg, EMPTY, a), Added(cfg, EMPTY, b), a, i, b, j);
    }
  }

  lemma JoinThen(cfg: Config, a: string, op: RingOp) returns (r: seq<RingOp>)
    ensures forall k :: 0 <= k < |r| ==> r[k].name in {a, op.name}
    ensures RunRing(cfg, r) == Apply(cfg, Added(cfg, EMPTY, a), op)
    ensures MembersAfter(r) == if op.Join? then {a, op.name} else {a} - {op.name}
  {
    var start: seq<RingOp> := [];
    var ja, s := RunSnoc(cfg, start, Join(a));
    var t;
    r, t := RunSnoc(cfg, ja, op);
    assert MembersAfter(ja) == {a};
  }

  lemma CrossCollisionShows(cfg: Config, s: RingState, u: RingState, a: string, i: nat, b: string, j: nat)
    requires a != b && b !in s.members && a !in u.members && i < cfg.vnodes && j < cfg.vnodes
    requires PointOf(cfg, a, i) == PointOf(cfg, b, j)
    ensures Added(cfg, s, b) != Added(cfg, u, a)
  {
    AddedOwners(cfg, s, b);
    AddedOwners(cfg, u, a);
  }

  lemma SelfCollisionShows(cfg: Config, s: RingState, a: string, i: nat, j: nat)
    requires a != "" && a !in s.members && i != j && i < cfg.vnodes && j < cfg.vnodes
    requires PointOf(cfg, a, i) == PointOf(cfg, a, j)
    ensures Removed(Added(cfg, s, a), a).points != []
  {
    var t := Added(cfg, s, a);
    var pts := VnodePoints(cfg, a, cfg.vnodes);
    var p := PointOf(cfg, a, i);
    assert pts[i] == p && pts[j] == p;
    if i < j { TwiceInMultiset(pts, i, j); } else { TwiceInMultiset(pts, j, i); }
    assert multiset(t.points) == multiset(s.points) + multiset(pts);
    SurvivorCount(t.points, t.owner, a, p);
    assert p in multiset(Removed(t, a).points);
  }

  // ---- Replica order ---------------------------------------------------------------------------

  /** The points not owned by x, in order. */
  function Keep(points: seq<uint32>, owner: map<uint32, string>, x: string): (r: seq<uint32>) {
    if points == [] then []
    else (if NodeAt(owner, points[0]) == x then [] else [points[0]]) + Keep(points[1..], owner, x)
  }

  lemma {:induction false} KeepContents(points: seq<uint32>, owner: map<uint32, string>, x: string, p: uint32)
    ensures multiset(Keep(points, owner, x))[p] == if NodeAt(owner, p) == x then 0 else multiset(points)[p]
  {
    if points != [] {
      KeepContents(points[1..], owner, x, p);
      MultisetTail(points);
      if NodeAt(owner, points[0]) != x {
        MultisetCons(points[0], Keep(points[1..], owner, x));
      } else {
        assert Keep(points, owner, x) == Keep(points[1..], owner, x);
      }
    }
  }

  lemma KeepAtLeast(p: uint32, points: seq<uint32>, owner: map<uint32, string>, x: string)
    requires forall q :: q in points ==> p <= q
    ensures forall q :: q in Keep(points, owner, x) ==> p <= q
  {
    forall q | q in Keep(points, owner, x)
      ensures p <= q
    {
      KeepContents(points, owner, x, q);
      assert q in multiset(Keep(points, owner, x));
      assert q in multiset(points);
      assert q in points;
    }
  }

  lemma {:induction false} KeepSorted(points: seq<uint32>, owner: map<uint32, string>, x: string)
    requires Sorted(points)
    ensures Sorted(Keep(points, owner, x))
  {
    if points != [] {
      var tail := points[1..];
      var kept := Keep(tail, owner, x);
      KeepSorted(tail, owner, x);
      KeepAtLeast(points[0], tail, owner, x);
      SortedCons(points[0], kept);
      assert [] + kept == kept;
    }
  }

  lemma KeepCons(p: uint32, tail: seq<uint32>, owner: map<uint32, string>, x: string)
    ensures Keep([p] + tail, owner, x)
         == if NodeAt(owner, p) == x then Keep(tail, owner, x) else [p] + Keep(tail, owner, x)
  {
    assert ([p] + tail)[1..] == tail;
    assert [] + Keep(tail, owner, x) == Keep(tail, owner, x);
  }

  lemma {:induction false} KeepAppend(a: seq<uint32>, b: seq<uint32>, owner: map<uint32, string>, x: string)
    ensures Keep(a + b, owner, x) == Keep(a, owner, x) + Keep(b, owner, x)
  {
    if a == [] {
      assert a + b == b;
      assert [] + Keep(b, owner, x) == Keep(b, owner, x);
    } else {
      var p, tail := a[0], a[1..];
      KeepAppend(tail, b, owner, x);
      assert a == [p] + tail;
      ConsAppend(p, tail, b);
      KeepCons(p, tail, owner, x);
      KeepCons(p, tail + b, owner, x);
      ConsAppend(p, Keep(tail, owner, x), Keep(b, owner, x));
    }
  }

  lemma {:induction false} KeepAtOrAfter(points: seq<uint32>, owner: map<uint32, string>, x: string, h: uint32)
    ensures AtOrAfter(Keep(points, owner, x), h) == Keep(AtOrAfter(points, h), owner, x)
  {
    if points != [] {
      var p, k, a := points[0], Keep(points[1..], owner, x), AtOrAfter(points[1..], h);
      KeepAtOrAfter(points[1..], owner, x, h);
      assert [] + k == k && [] + a == a;
      if NodeAt(owner, p) != x {
        assert ([p] + k)[1..] == k;
      }
      if p >= h {
        assert ([p] + a)[1..] == a;
      }
    }
  }

  lemma {:induction false} KeepBefore(points: seq<uint32>, owner: map<uint32, string>, x: string, h: uint32)
    ensures Before(Keep(points, owner, x), h) == Keep(Before(points, h), owner, x)
  {
    if points != [] {
      var p, k, b := points[0], Keep(points[1..], owner, x), Before(points[1..], h);
      KeepBefore(points[1..], owner, x, h);
      assert [] + k == k && [] + b == b;
      if NodeAt(owner, p) != x {
        assert ([p] + k)[1..] == k;
      }
      if p < h {
        assert ([p] + b)[1..] == b;
      }
    }
  }

  lemma {:induction false} OwnersOfKeep(
      points: seq<uint32>, owner: map<uint32, string>, later: map<uint32, string>, x: string)
    requires forall p :: p in points && NodeAt(owner, p) != x ==> NodeAt(later, p) == NodeAt(owner, p)
    ensures Owners(Keep(points, owner, x), later) == StrikeOut(Owners(points, owner), x)
  {
    if points == [] {
      assert Owners(points, owner) == [];
    } else {
      var p, tail := points[0], points[1..];
      assert points == [p] + tail;
      OwnersOfKeep(tail, owner, later, x);
      OwnersCons(p, tail, owner);
      OwnersCons(p, Keep(tail, owner, x), later);
    }
  }

  lemma OwnersCons(p: uint32, tail: seq<uint32>, owner: map<uint32, string>)
    ensures Owners([p] + tail, owner) == [NodeAt(owner, p)] + Owners(tail, owner)
    ensures Owners([p] + tail, owner)[1..] == Owners(tail, owner)
  {
  }

  lemma {:induction false} StrikeOutCommutes(names: seq<string>, x: string, y: string)
    ensures StrikeOut(StrikeOut(names, x), y) == StrikeOut(StrikeOut(names, y), x)
  {
    if names != [] {
      var n, tail := names[0], names[1..];
      StrikeOutCommutes(tail, x, y);
      var sx, sy := StrikeOut(tail, x), StrikeOut(tail, y);
      assert ([n] + sx)[1..] == sx && ([n] + sy)[1..] == sy;
      assert [] + sx == sx && [] + sy == sy;
    }
  }

  lemma {:induction false} DedupStrikeOut(names: seq<string>, x: string)
    ensures Dedup(StrikeOut(names, x)) == StrikeOut(Dedup(names), x)
  {
    if names != [] {
      var n, tail := names[0], names[1..];
      DedupStrikeOut(tail, x);
      var d := Dedup(tail);
      var sx := StrikeOut(tail, x);
      assert ([n] + sx)[1..] == sx && [] + sx == sx;
      assert ([n] + StrikeOut(d, n))[1..] == StrikeOut(d, n);
      StrikeOutCommutes(d, x, n);
      StrikeOutMembers(d, x);
      StrikeOutAbsent(StrikeOut(d, x), x);
      assert [] + StrikeOut(StrikeOut(d, x), x) == StrikeOut(d, x);
    }
  }

  /** Reading a ring without the points of x gives its order with x struck out. */
  lemma OrderWithout(points: seq<uint32>, owner: map<uint32, string>, later: map<uint32, string>, x: string, h: uint32)
    requires forall p :: p in points && NodeAt(owner, p) != x ==> NodeAt(later, p) == NodeAt(owner, p)
    ensures Dedup(Owners(Clock(Keep(points, owner, x), h), later))
         == StrikeOut(Dedup(Owners(Clock(points, h), owner)), x)
  {
    KeepAtOrAfter(points, owner, x, h);
    KeepBefore(points, owner, x, h);
    KeepAppend(AtOrAfter(points, h), Before(points, h), owner, x);
    ClockMultiset(points, h);
    forall p | p in Clock(points, h)
      ensures p in points
    {
      assert p in multiset(Clock(points, h));
    }
    OwnersOfKeep(Clock(points, h), owner, later, x);
    DedupStrikeOut(Owners(Clock(points, h), owner), x);
  }

  /** Removing x strikes x out of every key's replica order and changes nothing else,
      exactly when no point of x is shared. */
  lemma RemoveStrikesOutIff(s: RingState, x: string)
    requires Sound(s) && Sorted(s.points) && x in s.members
    ensures (forall h :: FullOrder(Removed(s, x), h) == StrikeOut(FullOrder(s, h), x)) <==> PointsUnshared(s, x)
  {
    if PointsUnshared(s, x) {
      forall h
        ensures FullOrder(Removed(s, x), h) == StrikeOut(FullOrder(s, h), x)
      {
        RemoveStrikesOut(s, x, h);
      }
    } else {
      var p :| p in s.points && NodeAt(s.owner, p) == x && multiset(s.points)[p] != 1;
      var t := Removed(s, x);
      SharedPointIsOrphaned(s, x, p);
      SurvivorsSubset(s.points, s.owner, x);
      assert IsSuccessor(t.points, p, p);
      LookupIsSuccessor(t, p, p);
      assert OwnerAt(t, p) == "" && Clock(t.points, p) != [] by { ClockHeadIsSuccessor(t.points, p); }
      assert FullOrder(t, p)[0] == "";
      OrderMembers(s, p);
      StrikeOutMembers(FullOrder(s, p), x);
      assert "" !in StrikeOut(FullOrder(s, p), x);
    }
  }

  lemma OrderMembers(s: RingState, h: uint32)
    requires Sound(s)
    ensures forall y :: y in FullOrder(s, h) ==> y in s.members
  {
    var walk := Clock(s.points, h);
    DedupMembers(Owners(walk, s.owner));
    ClockMultiset(s.points, h);
    forall i | 0 <= i < |walk|
      ensures walk[i] in s.points
    {
      assert walk[i] in multiset(walk);
    }
  }

  lemma RemoveStrikesOut(s: RingState, x: string, h: uint32)
    requires Sound(s) && Sorted(s.points) && x in s.members
    requires PointsUnshared(s, x)
    ensures FullOrder(Removed(s, x), h) == StrikeOut(FullOrder(s, h), x)
  {
    var t := Removed(s, x);
    var kept := Keep(s.points, s.owner, x);
    SurvivorsSubset(s.points, s.owner, x);
    KeepSorted(s.points, s.owner, x);
    forall p
      ensures multiset(t.points)[p] == multiset(kept)[p]
      ensures p in s.points && NodeAt(s.owner, p) != x ==> NodeAt(t.owner, p) == NodeAt(s.owner, p)
    {
      SurvivorCount(s.points, s.owner, x, p);
      KeepContents(s.points, s.owner, x, p);
      assert p in s.points <==> p in multiset(s.points);
      if NodeAt(s.owner, p) == x && p !in s.points {
        assert multiset(s.points)[p] == 0;
      }
    }
    assert multiset(t.points) == multiset(kept);
    SortedUnique(t.points, kept);
    OrderWithout(s.points, s.owner, t.owner, x, h);
  }

  /** Adding x inserts x into every key's replica order and leaves the others where they were,
      whenever no virtual point of x falls on a point already there. */
  lemma AddOnlyInserts(cfg: Config, s: RingState, x: string, h: uint32)
    requires Sound(s) && Sorted(s.points) && x !in s.members
    requires forall p :: p in VnodePoints(cfg, x, cfg.vnodes) ==> p !in s.points
    ensures StrikeOut(FullOrder(Added(cfg, s, x), h), x) == FullOrder(s, h)
  {
    var t := Added(cfg, s, x);
    AddedKeepsOld(cfg, s, x);
    AddedOwners(cfg, s, x);
    OrderWithout(t.points, t.owner, s.owner, x, h);
  }

  lemma AddedKeepsOld(cfg: Config, s: RingState, x: string)
    requires Sound(s) && Sorted(s.points) && x !in s.members
    requires forall p :: p in VnodePoints(cfg, x, cfg.vnodes) ==> p !in s.points
    ensures Keep(Added(cfg, s, x).points, Added(cfg, s, x).owner, x) == s.points
  {
    var t := Added(cfg, s, x);
    var kept := Keep(t.points, t.owner, x);
    KeepSorted(t.points, t.owner, x);
    forall p
      ensures multiset(kept)[p] == multiset(s.points)[p]
    {
      AddedKeptCount(cfg, s, x, p);
    }
    assert multiset(kept) == multiset(s.points);
    SortedUnique(kept, s.points);
  }

  lemma AddedKeptCount(cfg: Config, s: RingState, x: string, p: uint32)
    requires Sound(s) && x !in s.members
    requires forall p :: p in VnodePoints(cfg, x, cfg.vnodes) ==> p !in s.points
    ensures multiset(Keep(Added(cfg, s, x).points, Added(cfg, s, x).owner, x))[p] == multiset(s.points)[p]
  {
    AddedOwners(cfg, s, x);
    KeepContents(Added(cfg, s, x).points, Added(cfg, s, x).owner, x, p);
    AddedCount(cfg, s, x, p);
  }

  lemma AddedCount(cfg: Config, s: RingState, x: string, p: uint32)
    requires x !in s.members
    ensures var pts := VnodePoints(cfg, x, cfg.vnodes);
      multiset(Added(cfg, s, x).points)[p] == multiset(s.points)[p] + multiset(pts)[p]
    ensures multiset(s.points)[p] > 0 <==> p in s.points
    ensures multiset(VnodePoints(cfg, x, cfg.vnodes))[p] > 0 <==> p in VnodePoints(cfg, x, cfg.vnodes)
  {
    var pts := VnodePoints(cfg, x, cfg.vnodes);
    assert multiset(Added(cfg, s, x).points) == multiset(s.points) + multiset(pts);
    assert p in s.points <==> p in multiset(s.points);
    assert p in pts <==> p in multiset(pts);
  }

  // ---- Replica selection -----------------------------------------------------------------------

  ghost predicate Distinct<T>(s: seq<T>) {
    forall i, j :: 0 <= i < j < |s| ==> s[i] != s[j]
  }

  lemma {:induction false} StrikeOutDistinct(names: seq<string>, x: string)
    requires Distinct(names)
    ensures Distinct(StrikeOut(names, x))
  {
    if names != [] {
      var n, tail := names[0], names[1..];
      assert forall k :: 0 <= k < |tail| ==> tail[k] == names[k + 1];
      StrikeOutDistinct(tail, x);
      StrikeOutMembers(tail, x);
      assert n !in tail;
      DistinctCons(n, StrikeOut(tail, x));
      assert [] + StrikeOut(tail, x) == StrikeOut(tail, x);
    }
  }

  lemma DistinctCons<T>(x: T, s: seq<T>)
    requires Distinct(s) && x !in s
    ensures Distinct([x] + s)
  {
    var r := [x] + s;
    assert forall k :: 0 < k < |r| ==> r[k] == s[k - 1] && r[k] in s;
  }

  lemma {:induction false} DedupDistinct(names: seq<string>)
    ensures Distinct(Dedup(names))
  {
    if names != [] {
      DedupDistinct(names[1..]);
      StrikeOutDistinct(Dedup(names[1..]), names[0]);
      StrikeOutMembers(Dedup(names[1..]), names[0]);
      DistinctCons(names[0], StrikeOut(Dedup(names[1..]), names[0]));
    }
  }

  lemma {:induction false} DistinctCount<T>(s: seq<T>, r: set<T>)
    requires Distinct(s)
    requires forall x :: x in s <==> x in r
    ensures |s| == |r|
  {
    if s == [] {
      assert r == {};
    } else {
      var tail := s[1..];
      assert forall k :: 0 <= k < |tail| ==> tail[k] == s[k + 1];
      assert s == [s[0]] + tail;
      DistinctCount(tail, r - {s[0]});
    }
  }

  lemma MemberOnWalk(cfg: Config, s: RingState, h: uint32, y: string)
    requires Canonical(cfg, s, s.members) && y in s.members
    ensures y in Owners(Clock(s.points, h), s.owner)
  {
    var walk, p := Clock(s.points, h), PointOf(cfg, y, 0);
    assert IsPoint(cfg, s.members, p);
    ClockMultiset(s.points, h);
    assert p in multiset(s.points);
    assert p in multiset(walk);
    var k :| 0 <= k < |walk| && walk[k] == p;
    assert Owners(walk, s.owner)[k] == y;
  }

  /** On a canonical ring every key's full order lists each member exactly once. */
  lemma FullOrderIsMembers(cfg: Config, s: RingState, h: uint32)
    requires Canonical(cfg, s, s.members) && "" !in s.members
    ensures Distinct(FullOrder(s, h))
    ensures forall y :: y in FullOrder(s, h) <==> y in s.members
    ensures |FullOrder(s, h)| == |s.members|
  {
    var walk := Clock(s.points, h);
    var names := Owners(walk, s.owner);
    CanonicalUnshared(cfg, s, s.members);
    DedupDistinct(names);
    DedupMembers(names);
    OrderMembers(s, h);
    forall y | y in s.members
      ensures y in names
    {
      MemberOnWalk(cfg, s, h, y);
    }
    DistinctCount(FullOrder(s, h), s.members);
  }

  /** GetNodes on a canonical ring: exactly min(n, members) distinct members, led by GetNode's answer. */
  lemma ReplicaSelection(cfg: Config, s: RingState, h: uint32, n: nat)
    requires Canonical(cfg, s, s.members) && "" !in s.members
    ensures var some := Take(FullOrder(s, h), Min(n, |s.members|));
      && |some| == Min(n, |s.members|)
      && Distinct(some)
      && (forall y :: y in some ==> y in s.members)
      && (some != [] ==> some[0] == OwnerAt(s, h))
  {
    FullOrderIsMembers(cfg, s, h);
    var all := FullOrder(s, h);
    var some := Take(all, Min(n, |s.members|));
    assert forall k :: 0 <= k < |some| ==> some[k] == all[k] && all[k] in all;
  }

  /** On any ring a shorter request is answered by a prefix of the answer to a longer one. */
  lemma ShorterRequestIsPrefix(s: RingState, h: uint32, m: nat, n: nat)
    requires m <= n
    ensures Take(FullOrder(s, h), Min(m, |s.members|)) <= Take(FullOrder(s, h), Min(n, |s.members|))
  {
    var all := FullOrder(s, h);
    var many := Take(all, Min(n, |s.members|));
    assert many <= all && Take(all, Min(m, |s.members|)) <= all;
  }
}
