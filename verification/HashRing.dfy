/** The consistent hash ring: its state, what each operation does to it, and the ring object itself. */
module HashRing {
  import opened Base
  import opened SortedPoints
  import opened RingLabels

  const DEFAULT_VIRTUAL_NODES: pos := 150

  /** What never changes during the life of a ring. The 32-bit FNV hash is any function. */
  datatype Config = Config(hash: string -> uint32, vnodes: pos)

  datatype RingState = RingState(points: seq<uint32>, owner: map<uint32, string>, members: set<string>)

  const EMPTY: RingState := RingState([], map[], {})

  /** A Go lookup in a map of strings: "" when the key is absent. */
  function NodeAt(owner: map<uint32, string>, h: uint32): (name: string) {
    if h in owner then owner[h] else ""
  }

  function PointOf(cfg: Config, name: string, i: nat): (p: uint32) {
    cfg.hash(Label(name, i))
  }

  /** The first k virtual points of a node. */
  function VnodePoints(cfg: Config, name: string, k: nat): (s: seq<uint32>) {
    seq(k, i requires 0 <= i < k => PointOf(cfg, name, i))
  }

  /** The owners once a node has taken its first k points, also those of others. */
  function Claimed(cfg: Config, owner: map<uint32, string>, name: string, k: nat): (r: map<uint32, string>) {
    var points := VnodePoints(cfg, name, k);
    owner + (map h | h in points :: name)
  }

  function Added(cfg: Config, s: RingState, name: string): (r: RingState) {
    if name in s.members then s
    else
      var added := VnodePoints(cfg, name, cfg.vnodes);
      RingState(Sort(s.points + added), s.owner + (map h | h in added :: name), s.members + {name})
  }

  /** What the rebuild loop of RemoveNode leaves: a point of `name` goes at its first occurrence, with its owner. */
  function Survivors(points: seq<uint32>, owner: map<uint32, string>, name: string)
    : (r: (seq<uint32>, map<uint32, string>))
  {
    if points == [] then ([], owner)
    else if NodeAt(owner, points[0]) != name then
      var rest := Survivors(points[1..], owner, name);
      ([points[0]] + rest.0, rest.1)
    else Survivors(points[1..], owner - {points[0]}, name)
  }

  function Removed(s: RingState, name: string): (r: RingState) {
    if name !in s.members then s
    else
      var left := Survivors(s.points, s.owner, name);
      RingState(left.0, left.1, s.members - {name})
  }

  /** The node responsible for ring position h: the owner of the first point clockwise from h. */
  function OwnerAt(s: RingState, h: uint32): (name: string) {
    var walk := Clock(s.points, h);
    if walk == [] then "" else NodeAt(s.owner, walk[0])
  }

  function Owners(points: seq<uint32>, owner: map<uint32, string>): (names: seq<string>) {
    seq(|points|, i requires 0 <= i < |points| => NodeAt(owner, points[i]))
  }

  function StrikeOut(names: seq<string>, x: string): (r: seq<string>) {
    if names == [] then []
    else (if names[0] == x then [] else [names[0]]) + StrikeOut(names[1..], x)
  }

  /** The first occurrences, in order. */
  function Dedup(names: seq<string>): (r: seq<string>) {
    if names == [] then [] else [names[0]] + StrikeOut(Dedup(names[1..]), names[0])
  }

  /** Every node met on one clockwise turn from h, each once, in the order met. */
  function FullOrder(s: RingState, h: uint32): (names: seq<string>) {
    Dedup(Owners(Clock(s.points, h), s.owner))
  }

  function Take<T>(s: seq<T>, n: int): (r: seq<T>) {
    if n <= 0 then [] else if n >= |s| then s else s[..n]
  }

  function Min(a: int, b: int): int {
    if a <= b then a else b
  }

  // ---- Sequence facts the walk needs -----------------------------------------------------------

  lemma {:induction false} StrikeOutMembers(names: seq<string>, x: string)
    ensures forall y :: y in StrikeOut(names, x) <==> y in names && y != x
  {
    if names != [] {
      StrikeOutMembers(names[1..], x);
      assert names == [names[0]] + names[1..];
    }
  }

  lemma {:induction false} DedupMembers(names: seq<string>)
    ensures forall y :: y in Dedup(names) <==> y in names
  {
    if names != [] {
      DedupMembers(names[1..]);
      StrikeOutMembers(Dedup(names[1..]), names[0]);
      assert names == [names[0]] + names[1..];
    }
  }

  lemma {:induction false} StrikeOutAppend(a: seq<string>, b: seq<string>, x: string)
    ensures StrikeOut(a + b, x) == StrikeOut(a, x) + StrikeOut(b, x)
  {
    if a == [] {
      assert a + b == b;
    } else {
      assert (a + b)[1..] == a[1..] + b;
      StrikeOutAppend(a[1..], b, x);
    }
  }

  lemma {:induction false} StrikeOutAbsent(names: seq<string>, x: string)
    requires x !in names
    ensures StrikeOut(names, x) == names
  {
    if names != [] {
      StrikeOutAbsent(names[1..], x);
      assert names == [names[0]] + names[1..];
    }
  }

  /** Dedup grows by at most its newest name: what one turn of the walk loop does. */
  lemma {:induction false} DedupSnoc(names: seq<string>, y: string)
    ensures Dedup(names + [y]) == Dedup(names) + (if y in names then [] else [y])
  {
    if names == [] {
      assert names + [y] == [y];
      assert Dedup([y]) == [y] + StrikeOut(Dedup([]), y);
    } else {
      var x, rest := names[0], names[1..];
      assert (names + [y])[1..] == rest + [y];
      DedupSnoc(rest, y);
      StrikeOutAppend(Dedup(rest), if y in rest then [] else [y], x);
      assert StrikeOut([y], x) == (if y == x then [] else [y]) + StrikeOut([], x);
    }
  }

  lemma {:induction false} DedupPrefix(names: seq<string>, i: nat)
    requires i <= |names|
    ensures Dedup(names[..i]) <= Dedup(names)
    decreases |names| - i
  {
    if i < |names| {
      DedupPrefix(names, i + 1);
      assert names[..i + 1] == names[..i] + [names[i]];
      DedupSnoc(names[..i], names[i]);
    } else {
      assert names[..i] == names;
    }
  }

  lemma {:induction false} SurvivorsSubset(points: seq<uint32>, owner: map<uint32, string>, name: string)
    ensures forall p :: p in Survivors(points, owner, name).0 ==> p in points
    ensures Sorted(points) ==> Sorted(Survivors(points, owner, name).0)
  {
    if points != [] {
      var h, tail := points[0], points[1..];
      assert points == [h] + tail;
      if NodeAt(owner, h) != name {
        SurvivorsSubset(tail, owner, name);
        if Sorted(points) {
          assert forall q :: q in tail ==> h <= q;
          SortedCons(h, Survivors(tail, owner, name).0);
        }
      } else {
        SurvivorsSubset(tail, owner - {h}, name);
      }
    }
  }

  // ---- The ring object -------------------------------------------------------------------------

  class Ring {
    const cfg: Config
    var sortedHashes: seq<uint32>
    var hashMap: map<uint32, string>
    var members: set<string>

    ghost function State(): RingState
      reads this
    {
      RingState(sortedHashes, hashMap, members)
    }

    constructor (hash: string -> uint32, vnodes: int)
      ensures cfg == Config(hash, if vnodes <= 0 then DEFAULT_VIRTUAL_NODES else vnodes)
      ensures State() == EMPTY
    {
      cfg := Config(hash, if vnodes <= 0 then DEFAULT_VIRTUAL_NODES else vnodes);
      sortedHashes, hashMap, members := [], map[], {};
    }

    method AddNode(name: string)
      modifies this
      ensures State() == Added(cfg, old(State()), name)
    {
      if name in members {
        return;
      }
      members := members + {name};
      addPoints(name);
      sortedHashes := Sort(sortedHashes);
    }

    /** The loop over the virtual nodes: each point is appended and claimed. */
    method addPoints(name: string)
      modifies this
      ensures members == old(members)
      ensures sortedHashes == old(sortedHashes) + VnodePoints(cfg, name, cfg.vnodes)
      ensures hashMap == Claimed(cfg, old(hashMap), name, cfg.vnodes)
    {
      var i := 0;
      while i < cfg.vnodes
        invariant 0 <= i <= cfg.vnodes
        invariant members == old(members)
        invariant sortedHashes == old(sortedHashes) + VnodePoints(cfg, name, i)
        invariant hashMap == Claimed(cfg, old(hashMap), name, i)
      {
        var h := cfg.hash(Label(name, i));
        NextVnode(cfg, old(hashMap), name, i);
        sortedHashes := sortedHashes + [h];
        hashMap := hashMap[h := name];
        i := i + 1;
      }
    }

    /** Go panics when the slice capacity len(sortedHashes)-vnodes is negative. */
    method RemoveNode(name: string)
      requires name in members ==> cfg.vnodes <= |sortedHashes|
      modifies this
      ensures State() == Removed(old(State()), name)
    {
      if name !in members {
        return;
      }
      members := members - {name};
      var newHashes: seq<uint32> := [];
      ghost var whole := Survivors(sortedHashes, hashMap, name);
      var i := 0;
      while i < |sortedHashes|
        invariant 0 <= i <= |sortedHashes|
        invariant sortedHashes == old(sortedHashes) && members == old(members) - {name}
        invariant newHashes + Survivors(sortedHashes[i..], hashMap, name).0 == whole.0
        invariant Survivors(sortedHashes[i..], hashMap, name).1 == whole.1
      {
        var h := sortedHashes[i];
        assert sortedHashes[i..][0] == h && sortedHashes[i..][1..] == sortedHashes[i + 1..];
        if NodeAt(hashMap, h) != name {
          newHashes := newHashes + [h];
        } else {
          hashMap := hashMap - {h};
        }
        i := i + 1;
      }
      sortedHashes := newHashes;
    }

    /** `sort.Search` for the first point at or after h. */
    method Search(h: uint32) returns (idx: nat)
      requires Sorted(sortedHashes)
      ensures idx <= |sortedHashes|
      ensures forall k :: 0 <= k < idx ==> sortedHashes[k] < h
      ensures forall k :: idx <= k < |sortedHashes| ==> sortedHashes[k] >= h
    {
      var lo, hi := 0, |sortedHashes|;
      while lo < hi
        invariant 0 <= lo <= hi <= |sortedHashes|
        invariant forall k :: 0 <= k < lo ==> sortedHashes[k] < h
        invariant forall k :: hi <= k < |sortedHashes| ==> sortedHashes[k] >= h
      {
        var mid := (lo + hi) / 2;
        if sortedHashes[mid] < h {
          lo := mid + 1;
        } else {
          hi := mid;
        }
      }
      idx := lo;
    }

    method GetNode(key: string) returns (name: string)
      requires Sorted(sortedHashes)
      ensures name == OwnerAt(State(), cfg.hash(key))
    {
      if |sortedHashes| == 0 {
        return "";
      }
      var h := cfg.hash(key);
      var idx := Search(h);
      ClockIsRotation(sortedHashes, h, idx);
      if idx >= |sortedHashes| {
        idx := 0;
      }
      assert Clock(sortedHashes, h)[0] == sortedHashes[idx];
      name := NodeAt(hashMap, sortedHashes[idx]);
    }

    /** Go panics on a negative slice capacity, so a non-empty ring asks for n >= 0. */
    method GetNodes(key: string, n: int) returns (result: seq<string>)
      requires Sorted(sortedHashes)
      requires sortedHashes != [] ==> 0 <= n
      ensures result == Take(FullOrder(State(), cfg.hash(key)), Min(n, |members|))
    {
      if |sortedHashes| == 0 {
        assert Clock(sortedHashes, cfg.hash(key)) == [];
        return [];
      }
      var want := if n > |members| then |members| else n;
      var h := cfg.hash(key);
      var idx := Search(h);
      ClockIsRotation(sortedHashes, h, idx);
      if idx >= |sortedHashes| {
        idx := 0;
      }
      assert Clock(sortedHashes, h) == Rotated(sortedHashes, idx);
      result := Walk(idx, want);
    }

    /** The walk loop of GetNodes: up to `want` distinct owners, starting at index idx. */
    method Walk(idx: nat, want: nat) returns (result: seq<string>)
      requires idx < |sortedHashes|
      ensures result == Take(Dedup(Owners(Rotated(sortedHashes, idx), hashMap)), want)
    {
      ghost var names := Owners(Rotated(sortedHashes, idx), hashMap);
      var seen: set<string> := {};
      result := [];
      var i := 0;
      while i < |sortedHashes| && |result| < want
        invariant 0 <= i <= |sortedHashes|
        invariant |result| <= want
        invariant result == Dedup(names[..i])
        invariant forall y :: y in seen <==> y in names[..i]
      {
        var at := (idx + i) % |sortedHashes|;
        var name := NodeAt(hashMap, sortedHashes[at]);
        RotatedIndex(sortedHashes, idx, i);
        DedupStep(names, i);
        if name !in seen {
          seen := seen + {name};
          result := result + [name];
        }
        i := i + 1;
      }
      DedupPrefix(names, i);
      assert names[..|names|] == names;
    }
  }

  function Rotated(s: seq<uint32>, idx: nat): (r: seq<uint32>)
    requires idx <= |s|
  {
    s[idx..] + s[..idx]
  }

  /** One more virtual point appended and claimed. */
  lemma NextVnode(cfg: Config, owner: map<uint32, string>, name: string, i: nat)
    ensures VnodePoints(cfg, name, i + 1) == VnodePoints(cfg, name, i) + [PointOf(cfg, name, i)]
    ensures Claimed(cfg, owner, name, i + 1) == Claimed(cfg, owner, name, i)[PointOf(cfg, name, i) := name]
  {
    var h, pts := PointOf(cfg, name, i), VnodePoints(cfg, name, i);
    assert VnodePoints(cfg, name, i + 1) == pts + [h];
  }

  lemma DedupStep(names: seq<string>, i: nat)
    requires i < |names|
    ensures Dedup(names[..i + 1]) == Dedup(names[..i]) + (if names[i] in names[..i] then [] else [names[i]])
    ensures forall y :: y in names[..i + 1] <==> y in names[..i] || y == names[i]
  {
    assert names[..i + 1] == names[..i] + [names[i]];
    DedupSnoc(names[..i], names[i]);
  }

  lemma ModOnce(a: nat, n: nat)
    requires 0 < n <= a < 2 * n
    ensures a % n == a - n
  {
    var q := a / n;
    assert a == n * q + a % n;
    assert q >= 2 ==> n * q >= n * 2;
    assert q == 1;
  }

  lemma RotatedIndex(s: seq<uint32>, idx: nat, i: nat)
    requires idx < |s| && i < |s|
    ensures Rotated(s, idx)[i] == s[(idx + i) % |s|]
  {
    if idx + i >= |s| {
      ModOnce(idx + i, |s|);
    }
  }
}
