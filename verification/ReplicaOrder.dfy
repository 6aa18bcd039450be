/** When AddNode leaves the replica order of every key alone, colliding points included. */
module ReplicaOrder {
  import opened Base
  import opened SortedPoints
  import opened HashRing
  import opened RingTheorems

  /** The ring without the points that a new node x takes over. */
  function Bereft(cfg: Config, s: RingState, x: string): (r: RingState) {
    s.(points := Keep(s.points, Added(cfg, s, x).owner, x))
  }

  /** Some point of the old owner takes the place of each point lost to x: looking it up still finds that owner. */
  ghost predicate Covered(cfg: Config, s: RingState, x: string) {
    forall p :: p in s.points ==> Bereft(cfg, s, x).points != [] && OwnerAt(Bereft(cfg, s, x), p) == NodeAt(s.owner, p)
  }

  // ---- Walks that lose points ------------------------------------------------------------------

  /** The owner of the first point of a walk that is not marked with x; z if there is none. */
  function NextOwner(w: seq<uint32>, owner: map<uint32, string>, mark: map<uint32, string>, x: string, z: string)
    : (n: string)
  {
    if w == [] then z
    else if NodeAt(mark, w[0]) != x then NodeAt(owner, w[0])
    else NextOwner(w[1..], owner, mark, x, z)
  }

  /** Every point has the owner of the next unmarked one. */
  ghost predicate Handed(w: seq<uint32>, owner: map<uint32, string>, mark: map<uint32, string>, x: string, z: string) {
    w != [] ==> NodeAt(owner, w[0]) == NextOwner(w, owner, mark, x, z) && Handed(w[1..], owner, mark, x, z)
  }

  lemma {:induction false} NextOwnerIsHead(
      w: seq<uint32>, owner: map<uint32, string>, mark: map<uint32, string>, x: string, z: string)
    ensures NextOwner(w, owner, mark, x, z) == var k := Keep(w, mark, x); if k == [] then z else NodeAt(owner, k[0])
  {
    if w != [] {
      NextOwnerIsHead(w[1..], owner, mark, x, z);
    }
  }

  lemma StrikeOutTwice(names: seq<string>, z: string)
    ensures StrikeOut(StrikeOut(names, z), z) == StrikeOut(names, z)
  {
    StrikeOutMembers(names, z);
    StrikeOutAbsent(StrikeOut(names, z), z);
  }

  lemma StrikeOutCons(n: string, tail: seq<string>, z: string)
    ensures StrikeOut([n] + tail, z) == (if n == z then [] else [n]) + StrikeOut(tail, z)
  {
    assert ([n] + tail)[1..] == tail;
  }

  lemma DedupCons(n: string, tail: seq<string>)
    ensures Dedup([n] + tail) == [n] + StrikeOut(Dedup(tail), n)
  {
    assert ([n] + tail)[1..] == tail;
  }

  /** Only the head of a first-occurrence list is lost when the head is struck out. */
  lemma DedupHead(names: seq<string>)
    requires names != []
    ensures Dedup(names) == [names[0]] + StrikeOut(Dedup(names), names[0])
  {
    var n, d := names[0], Dedup(names[1..]);
    StrikeOutCons(n, StrikeOut(d, n), n);
    StrikeOutTwice(d, n);
  }

  /** Repeating the first name changes nothing. */
  lemma DedupRepeat(n: string, tail: seq<string>)
    requires tail != [] && tail[0] == n
    ensures Dedup([n] + tail) == Dedup(tail)
  {
    DedupCons(n, tail);
    DedupHead(tail);
  }

  /** A walk whose marked points hand over to the next unmarked one loses nothing but z with them. */
  lemma {:induction false} HandedLosesNothing(
      w: seq<uint32>, owner: map<uint32, string>, mark: map<uint32, string>, x: string, z: string)
    requires Handed(w, owner, mark, x, z)
    ensures StrikeOut(Dedup(Owners(w, owner)), z) == StrikeOut(Dedup(Owners(Keep(w, mark, x), owner)), z)
  {
    if w != [] {
      var p, tail := w[0], w[1..];
      var n := NodeAt(owner, p);
      assert w == [p] + tail;
      HandedLosesNothing(tail, owner, mark, x, z);
      OwnersCons(p, tail, owner);
      if NodeAt(mark, p) != x {
        OwnersCons(p, Keep(tail, mark, x), owner);
        UnmarkedHead(n, Owners(tail, owner), Owners(Keep(tail, mark, x), owner), z);
      } else {
        assert Keep(w, mark, x) == Keep(tail, mark, x);
        if tail == [] {
          assert n == NextOwner(w, owner, mark, x, z) == NextOwner(tail, owner, mark, x, z) == z;
          DedupCons(n, Owners(tail, owner));
          StrikeOutCons(n, [], z);
        } else {
          DedupRepeat(n, Owners(tail, owner));
        }
      }
    }
  }

  lemma UnmarkedHead(n: string, a: seq<string>, b: seq<string>, z: string)
    requires StrikeOut(Dedup(a), z) == StrikeOut(Dedup(b), z)
    ensures StrikeOut(Dedup([n] + a), z) == StrikeOut(Dedup([n] + b), z)
  {
    DedupCons(n, a);
    DedupCons(n, b);
    StrikeOutCons(n, StrikeOut(Dedup(a), n), z);
    StrikeOutCons(n, StrikeOut(Dedup(b), n), z);
    StrikeOutCommutes(Dedup(a), n, z);
    StrikeOutCommutes(Dedup(b), n, z);
  }

  /** Handing over to the first unmarked point at the end of the turn, the walk loses nothing at all. */
  lemma HandedSameOrder(w: seq<uint32>, owner: map<uint32, string>, mark: map<uint32, string>, x: string, z: string)
    requires Keep(w, mark, x) != [] && z == NodeAt(owner, Keep(w, mark, x)[0])
    requires Handed(w, owner, mark, x, z)
    ensures Dedup(Owners(w, owner)) == Dedup(Owners(Keep(w, mark, x), owner))
  {
    NextOwnerIsHead(w, owner, mark, x, z);
    HandedLosesNothing(w, owner, mark, x, z);
    assert Owners(w, owner)[0] == z && Owners(Keep(w, mark, x), owner)[0] == z;
    DedupHead(Owners(w, owner));
    DedupHead(Owners(Keep(w, mark, x), owner));
  }

  // ---- The next unmarked point is the successor ------------------------------------------------

  /** Read clockwise from h, p comes no later than q. */
  predicate NoLater(h: uint32, p: uint32, q: uint32) {
    (p >= h && q < h) || (p <= q && (p >= h <==> q >= h))
  }

  ghost predicate ClockSorted(w: seq<uint32>, h: uint32) {
    forall a, b :: 0 <= a < b < |w| ==> NoLater(h, w[a], w[b])
  }

  lemma ClockIsSorted(s: seq<uint32>, h: uint32)
    requires Sorted(s)
    ensures ClockSorted(Clock(s, h), h)
  {
    var idx := FirstIndex(s, h);
    ClockIsRotation(s, h, idx);
    RotationIsSorted(s, idx, h);
  }

  lemma RotationIsSorted(s: seq<uint32>, idx: nat, h: uint32)
    requires Sorted(s) && idx <= |s|
    requires forall k :: 0 <= k < idx ==> s[k] < h
    requires forall k :: idx <= k < |s| ==> s[k] >= h
    ensures ClockSorted(s[idx..] + s[..idx], h)
  {
    var w, far := s[idx..] + s[..idx], |s| - idx;
    forall a, b | 0 <= a < b < |w|
      ensures NoLater(h, w[a], w[b])
    {
      RotatedAt(s, idx, a);
      RotatedAt(s, idx, b);
    }
  }

  lemma RotatedAt(s: seq<uint32>, idx: nat, a: nat)
    requires idx <= |s| && a < |s|
    ensures (s[idx..] + s[..idx])[a] == if a < |s| - idx then s[idx + a] else s[a - (|s| - idx)]
  {
  }

  /** The unmarked points of a walk, wherever they stand. */
  ghost predicate Unmarked(rest: seq<uint32>, w: seq<uint32>, mark: map<uint32, string>, x: string) {
    forall r :: r in rest <==> r in w && NodeAt(mark, r) != x
  }

  lemma KeepUnmarked(w: seq<uint32>, mark: map<uint32, string>, x: string)
    ensures Unmarked(Keep(w, mark, x), w, mark, x)
  {
    forall r
      ensures r in Keep(w, mark, x) <==> r in w && NodeAt(mark, r) != x
    {
      KeepContents(w, mark, x, r);
      assert r in w <==> r in multiset(w);
      assert r in Keep(w, mark, x) <==> r in multiset(Keep(w, mark, x));
    }
  }

  /** The first unmarked point at or after position i. */
  lemma {:induction false} FirstUnmarked(w: seq<uint32>, mark: map<uint32, string>, x: string, i: nat) returns (j: nat)
    requires i <= |w| && Keep(w[i..], mark, x) != []
    ensures i <= j < |w| && w[j] == Keep(w[i..], mark, x)[0] && NodeAt(mark, w[j]) != x
    ensures forall k :: i <= k < j ==> NodeAt(mark, w[k]) == x
    decreases |w| - i
  {
    KeepFrom(w, mark, x, i);
    if NodeAt(mark, w[i]) != x {
      j := i;
    } else {
      j := FirstUnmarked(w, mark, x, i + 1);
    }
  }

  lemma KeepFrom(w: seq<uint32>, mark: map<uint32, string>, x: string, i: nat)
    requires i <= |w|
    ensures i == |w| ==> Keep(w[i..], mark, x) == []
    ensures i < |w| ==>
      Keep(w[i..], mark, x) == (if NodeAt(mark, w[i]) == x then [] else [w[i]]) + Keep(w[i + 1..], mark, x)
  {
    if i < |w| {
      assert w[i..][0] == w[i] && w[i..][1..] == w[i + 1..];
    }
  }

  lemma {:induction false} AllMarked(w: seq<uint32>, mark: map<uint32, string>, x: string, i: nat)
    requires i <= |w| && Keep(w[i..], mark, x) == []
    ensures forall k :: i <= k < |w| ==> NodeAt(mark, w[k]) == x
    decreases |w| - i
  {
    KeepFrom(w, mark, x, i);
    if i < |w| {
      AllMarked(w, mark, x, i + 1);
    }
  }

  lemma SuccessorAhead(
      rest: seq<uint32>, w: seq<uint32>, h: uint32, mark: map<uint32, string>, x: string, i: nat, j: nat)
    requires ClockSorted(w, h) && Unmarked(rest, w, mark, x)
    requires i < j < |w| && NodeAt(mark, w[j]) != x
    requires forall k :: i <= k < j ==> NodeAt(mark, w[k]) == x
    ensures IsSuccessor(rest, w[i], w[j])
  {
    forall r | r in rest
      ensures w[j] >= w[i] ==> r < w[i] || w[j] <= r
      ensures w[j] < w[i] ==> r < w[i] && w[j] <= r
    {
      var k :| 0 <= k < |w| && w[k] == r;
      assert k < i || k >= j;
    }
  }

  lemma SuccessorBehind(
      rest: seq<uint32>, w: seq<uint32>, h: uint32, mark: map<uint32, string>, x: string, i: nat, j: nat)
    requires ClockSorted(w, h) && Unmarked(rest, w, mark, x)
    requires j < i < |w| && NodeAt(mark, w[j]) != x
    requires forall k :: 0 <= k < j || i <= k < |w| ==> NodeAt(mark, w[k]) == x
    ensures IsSuccessor(rest, w[i], w[j])
  {
    forall r | r in rest
      ensures w[j] >= w[i] ==> r < w[i] || w[j] <= r
      ensures w[j] < w[i] ==> r < w[i] && w[j] <= r
    {
      var k :| 0 <= k < |w| && w[k] == r;
      assert j <= k < i;
    }
  }

  /** The owner of the next unmarked point is the one a lookup among the unmarked points finds. */
  lemma NextIsLookup(s: RingState, mark: map<uint32, string>, x: string, h: uint32, i: nat)
    requires Sorted(s.points) && Keep(s.points, mark, x) != []
    requires i < |Clock(s.points, h)|
    ensures var w := Clock(s.points, h);
      NodeAt(mark, w[i]) == x ==>
        NextOwner(w[i..], s.owner, mark, x, OwnerAt(s.(points := Keep(s.points, mark, x)), h))
        == OwnerAt(s.(points := Keep(s.points, mark, x)), w[i])
  {
    var w, bereft := Clock(s.points, h), s.(points := Keep(s.points, mark, x));
    if NodeAt(mark, w[i]) == x {
      KeepSorted(s.points, mark, x);
      ClockKeep(s.points, mark, x, h);
      ClockIsSorted(s.points, h);
      ClockHeadIsSuccessor(bereft.points, h);
      NextOwnerIsHead(w[i..], s.owner, mark, x, OwnerAt(bereft, h));
      var q := NextPoint(bereft.points, w, h, mark, x, i);
      LookupIsSuccessor(bereft, w[i], q);
    }
  }

  lemma NextPoint(rest: seq<uint32>, w: seq<uint32>, h: uint32, mark: map<uint32, string>, x: string, i: nat)
    returns (q: uint32)
    requires ClockSorted(w, h) && Unmarked(rest, w, mark, x) && Keep(w, mark, x) != []
    requires i < |w| && NodeAt(mark, w[i]) == x
    ensures IsSuccessor(rest, w[i], q)
    ensures q == var k := Keep(w[i..], mark, x); if k == [] then Keep(w, mark, x)[0] else k[0]
  {
    if Keep(w[i..], mark, x) != [] {
      var j := FirstUnmarked(w, mark, x, i);
      SuccessorAhead(rest, w, h, mark, x, i, j);
      q := w[j];
    } else {
      assert w[0..] == w;
      var j := FirstUnmarked(w, mark, x, 0);
      AllMarked(w, mark, x, i);
      SuccessorBehind(rest, w, h, mark, x, i, j);
      q := w[j];
    }
  }

  lemma ClockKeep(points: seq<uint32>, mark: map<uint32, string>, x: string, h: uint32)
    ensures Clock(Keep(points, mark, x), h) == Keep(Clock(points, h), mark, x)
    ensures Unmarked(Keep(points, mark, x), Clock(points, h), mark, x)
  {
    KeepAtOrAfter(points, mark, x, h);
    KeepBefore(points, mark, x, h);
    KeepAppend(AtOrAfter(points, h), Before(points, h), mark, x);
    KeepUnmarked(points, mark, x);
    ClockMembers(points, h);
  }

  lemma ClockMembers(points: seq<uint32>, h: uint32)
    ensures forall r :: r in Clock(points, h) <==> r in points
  {
    ClockMultiset(points, h);
    forall r
      ensures r in Clock(points, h) <==> r in points
    {
      assert r in Clock(points, h) <==> r in multiset(Clock(points, h));
      assert r in points <==> r in multiset(points);
    }
  }

  // ---- The theorem -----------------------------------------------------------------------------

  /** Every point of the ring is looked up to its owner among the unmarked points: so every walk hands over. */
  lemma {:induction false} HandedFrom(
      s: RingState, rest: RingState, mark: map<uint32, string>, x: string, h: uint32, i: nat)
    requires Sorted(s.points) && rest == s.(points := Keep(s.points, mark, x)) && rest.points != []
    requires forall p :: p in s.points ==> OwnerAt(rest, p) == NodeAt(s.owner, p)
    requires i <= |Clock(s.points, h)|
    ensures Handed(Clock(s.points, h)[i..], s.owner, mark, x, OwnerAt(rest, h))
    decreases |Clock(s.points, h)| - i
  {
    var w := Clock(s.points, h);
    if i < |w| {
      HandedFrom(s, rest, mark, x, h, i + 1);
      assert w[i..][1..] == w[i + 1..] && w[i..][0] == w[i];
      ClockMembers(s.points, h);
      assert w[i] in s.points;
      NextIsLookup(s, mark, x, h, i);
    }
  }

  lemma BereftCount(cfg: Config, s: RingState, x: string, p: uint32)
    requires x !in s.members
    ensures multiset(Keep(Added(cfg, s, x).points, Added(cfg, s, x).owner, x))[p]
         == multiset(Bereft(cfg, s, x).points)[p]
  {
    var t := Added(cfg, s, x);
    AddedOwners(cfg, s, x);
    AddedCount(cfg, s, x, p);
    KeepContents(t.points, t.owner, x, p);
    KeepContents(s.points, t.owner, x, p);
  }

  /** The points x does not own after joining are the old ones it did not take over. */
  lemma BereftIsKept(cfg: Config, s: RingState, x: string)
    requires Sorted(s.points) && x !in s.members
    ensures Keep(Added(cfg, s, x).points, Added(cfg, s, x).owner, x) == Bereft(cfg, s, x).points
  {
    var kept, rest := Keep(Added(cfg, s, x).points, Added(cfg, s, x).owner, x), Bereft(cfg, s, x).points;
    KeepSorted(Added(cfg, s, x).points, Added(cfg, s, x).owner, x);
    KeepSorted(s.points, Added(cfg, s, x).owner, x);
    forall p
      ensures multiset(kept)[p] == multiset(rest)[p]
    {
      BereftCount(cfg, s, x, p);
    }
    assert multiset(kept) == multiset(rest);
    SortedUnique(kept, rest);
  }

  /** Striking x out of the new order reads the ring without the points x took over. */
  lemma StruckOrder(cfg: Config, s: RingState, x: string, h: uint32)
    requires Sorted(s.points) && x !in s.members
    ensures StrikeOut(FullOrder(Added(cfg, s, x), h), x) == FullOrder(Bereft(cfg, s, x), h)
  {
    var t := Added(cfg, s, x);
    BereftIsKept(cfg, s, x);
    AddedOwners(cfg, s, x);
    OrderWithout(t.points, t.owner, s.owner, x, h);
  }

  /** Without the points x took over every order is the old one if those points are covered. */
  lemma BereftSameOrder(cfg: Config, s: RingState, x: string, h: uint32)
    requires Sorted(s.points) && Covered(cfg, s, x)
    ensures FullOrder(Bereft(cfg, s, x), h) == FullOrder(s, h)
  {
    if s.points != [] {
      var w, mark := Clock(s.points, h), Added(cfg, s, x).owner;
      assert s.points[0] in s.points;
      ClockKeep(s.points, mark, x, h);
      KeepSorted(s.points, mark, x);
      ClockHeadIsSuccessor(Bereft(cfg, s, x).points, h);
      HandedFrom(s, Bereft(cfg, s, x), mark, x, h, 0);
      assert w[0..] == w;
      HandedSameOrder(w, s.owner, mark, x, OwnerAt(Bereft(cfg, s, x), h));
    }
  }

  lemma SameOrderCovers(cfg: Config, s: RingState, x: string, p: uint32)
    requires Sorted(s.points) && p in s.points
    requires FullOrder(Bereft(cfg, s, x), p) == FullOrder(s, p)
    ensures Bereft(cfg, s, x).points != [] && OwnerAt(Bereft(cfg, s, x), p) == NodeAt(s.owner, p)
  {
    assert IsSuccessor(s.points, p, p);
    LookupIsSuccessor(s, p, p);
    ClockHeadIsSuccessor(s.points, p);
    assert FullOrder(s, p)[0] == NodeAt(s.owner, p);
  }

  /** Key position h sees the others in their old order after x joined. */
  ghost predicate OnlyInserts(cfg: Config, s: RingState, x: string, h: uint32) {
    StrikeOut(FullOrder(Added(cfg, s, x), h), x) == FullOrder(s, h)
  }

  lemma CoveredOnlyInserts(cfg: Config, s: RingState, x: string, h: uint32)
    requires Sorted(s.points) && x !in s.members && Covered(cfg, s, x)
    ensures OnlyInserts(cfg, s, x, h)
  {
    StruckOrder(cfg, s, x, h);
    BereftSameOrder(cfg, s, x, h);
  }

  lemma OnlyInsertsCovers(cfg: Config, s: RingState, x: string, p: uint32)
    requires Sorted(s.points) && x !in s.members && p in s.points && OnlyInserts(cfg, s, x, p)
    ensures Bereft(cfg, s, x).points != [] && OwnerAt(Bereft(cfg, s, x), p) == NodeAt(s.owner, p)
  {
    StruckOrder(cfg, s, x, p);
    SameOrderCovers(cfg, s, x, p);
  }

  /** Adding x inserts x into every key's replica order and leaves the others where they were,
      exactly when each point that x takes over is covered by another point of its old owner. */
  lemma AddOnlyInsertsIff(cfg: Config, s: RingState, x: string)
    requires Sorted(s.points) && x !in s.members
    ensures (forall h :: OnlyInserts(cfg, s, x, h)) <==> Covered(cfg, s, x)
  {
    if Covered(cfg, s, x) {
      forall h
        ensures OnlyInserts(cfg, s, x, h)
      {
        CoveredOnlyInserts(cfg, s, x, h);
      }
    } else if forall h :: OnlyInserts(cfg, s, x, h) {
      forall p | p in s.points
        ensures Bereft(cfg, s, x).points != [] && OwnerAt(Bereft(cfg, s, x), p) == NodeAt(s.owner, p)
      {
        OnlyInsertsCovers(cfg, s, x, p);
      }
      assert false;
    }
  }
}
