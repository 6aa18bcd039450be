/** Sorted sequences of 32-bit ring points, and the clockwise reading of one from a position. */
module SortedPoints {
  import opened Base

  ghost predicate Sorted(s: seq<uint32>) {
    forall i, j :: 0 <= i < j < |s| ==> s[i] <= s[j]
  }

  ghost predicate StrictlySorted(s: seq<uint32>) {
    forall i, j :: 0 <= i < j < |s| ==> s[i] < s[j]
  }

  lemma SortedCons(x: uint32, s: seq<uint32>)
    requires Sorted(s)
    requires forall q :: q in s ==> x <= q
    ensures Sorted([x] + s)
  {
    var r := [x] + s;
    assert forall k :: 0 < k < |r| ==> r[k] == s[k - 1] && r[k] in s;
  }

  lemma MultisetCons<T>(x: T, s: seq<T>)
    ensures multiset([x] + s) == multiset{x} + multiset(s)
  {
  }

  lemma MultisetTail<T>(s: seq<T>)
    requires s != []
    ensures multiset(s) == multiset{s[0]} + multiset(s[1..])
  {
    assert s == [s[0]] + s[1..];
  }

  lemma Cancel<T>(a: multiset<T>, b: multiset<T>, x: T)
    requires multiset{x} + a == multiset{x} + b
    ensures a == b
  {
    assert a == (multiset{x} + a) - multiset{x};
    assert b == (multiset{x} + b) - multiset{x};
  }

  function Insert(x: uint32, s: seq<uint32>): (r: seq<uint32>)
  {
    if s == [] || x <= s[0] then [x] + s else [s[0]] + Insert(x, s[1..])
  }

  lemma {:induction false} InsertContents(x: uint32, s: seq<uint32>)
    ensures multiset(Insert(x, s)) == multiset{x} + multiset(s)
  {
    if s == [] || x <= s[0] {
      MultisetCons(x, s);
    } else {
      InsertContents(x, s[1..]);
      MultisetTail(s);
      MultisetCons(s[0], Insert(x, s[1..]));
    }
  }

  lemma {:induction false} InsertSorted(x: uint32, s: seq<uint32>)
    requires Sorted(s)
    ensures Sorted(Insert(x, s))
  {
    if s == [] || x <= s[0] {
      SortedCons(x, s);
    } else {
      var rest := Insert(x, s[1..]);
      InsertSorted(x, s[1..]);
      InsertContents(x, s[1..]);
      forall q | q in rest
        ensures s[0] <= q
      {
        assert q in multiset(rest);
        assert q == x || q in s[1..];
      }
      SortedCons(s[0], rest);
    }
  }

  /** `sort.Slice` with `<` on uint32 values: the sorted permutation, which is unique (SortedUnique). */
  function Sort(s: seq<uint32>): (r: seq<uint32>)
    ensures Sorted(r)
    ensures multiset(r) == multiset(s)
  {
    if s == [] then []
    else
      var rest := Sort(s[1..]);
      InsertSorted(s[0], rest);
      InsertContents(s[0], rest);
      MultisetTail(s);
      Insert(s[0], rest)
  }

  lemma {:induction false} SortedUnique(s: seq<uint32>, t: seq<uint32>)
    requires Sorted(s) && Sorted(t)
    requires multiset(s) == multiset(t)
    ensures s == t
  {
    assert |s| == |multiset(s)| == |multiset(t)| == |t|;
    if s != [] {
      SameLeast(s, t);
      MultisetTail(s);
      MultisetTail(t);
      Cancel(multiset(s[1..]), multiset(t[1..]), s[0]);
      SortedUnique(s[1..], t[1..]);
      assert s == [s[0]] + s[1..] && t == [t[0]] + t[1..];
    }
  }

  lemma SameLeast(s: seq<uint32>, t: seq<uint32>)
    requires Sorted(s) && Sorted(t) && s != [] && t != []
    requires multiset(s) == multiset(t)
    ensures s[0] == t[0]
  {
    assert s[0] in multiset(t) && t[0] in multiset(s);
    assert s[0] in t && t[0] in s;
  }

  lemma HeadIn<T>(s: seq<T>)
    requires s != []
    ensures exists x :: x in s
  {
    assert s[0] in s;
  }

  lemma TailMembers(s: seq<uint32>)
    requires StrictlySorted(s) && s != []
    ensures forall p :: p in s[1..] <==> p in s && p != s[0]
  {
    forall p | p in s && p != s[0]
      ensures p in s[1..]
    {
      var i :| 0 <= i < |s| && s[i] == p;
      assert s[1..][i - 1] == p;
    }
  }

  lemma {:induction false} StrictlySortedUnique(s: seq<uint32>, t: seq<uint32>)
    requires StrictlySorted(s) && StrictlySorted(t)
    requires forall p :: p in s <==> p in t
    ensures s == t
  {
    if s == [] {
      if t != [] {
        HeadIn(t);
        assert false;
      }
    } else {
      assert s[0] in t && t != [];
      assert t[0] in s && s[0] == t[0];
      TailMembers(s);
      TailMembers(t);
      StrictlySortedUnique(s[1..], t[1..]);
      assert s == [s[0]] + s[1..] && t == [t[0]] + t[1..];
    }
  }

  /** A sorted sequence without repetitions is strictly sorted. */
  lemma SortedDistinct(s: seq<uint32>)
    requires Sorted(s)
    requires forall p :: p in s ==> multiset(s)[p] == 1
    ensures StrictlySorted(s)
  {
    forall i, j | 0 <= i < j < |s|
      ensures s[i] < s[j]
    {
      if s[i] == s[j] {
        TwiceInMultiset(s, i, j);
        assert false;
      }
    }
  }

  lemma TwiceInMultiset<T>(s: seq<T>, i: nat, j: nat)
    requires i < j < |s|
    requires s[i] == s[j]
    ensures multiset(s)[s[i]] >= 2
  {
    assert s == s[..j] + s[j..];
    assert s[..j][i] == s[i] && s[j..][0] == s[i];
    assert s[i] in multiset(s[..j]) && s[i] in multiset(s[j..]);
  }

  // ---- Clockwise order -------------------------------------------------------------------------

  /** The elements of s that lie at or after h, in order. */
  function AtOrAfter(s: seq<uint32>, h: uint32): (r: seq<uint32>)
  {
    if s == [] then [] else (if s[0] >= h then [s[0]] else []) + AtOrAfter(s[1..], h)
  }

  /** The elements of s that lie before h, in order. */
  function Before(s: seq<uint32>, h: uint32): (r: seq<uint32>)
  {
    if s == [] then [] else (if s[0] < h then [s[0]] else []) + Before(s[1..], h)
  }

  /** The points of a sorted sequence read clockwise from h, wrapping around once. */
  function Clock(s: seq<uint32>, h: uint32): (r: seq<uint32>)
  {
    AtOrAfter(s, h) + Before(s, h)
  }

  /** p is the first point met when walking clockwise from h. Defined on the set of points alone. */
  ghost predicate IsSuccessor(s: seq<uint32>, h: uint32, p: uint32) {
    && p in s
    && if exists q :: q in s && q >= h
       then p >= h && forall q :: q in s && q >= h ==> p <= q
       else forall q :: q in s ==> p <= q
  }

  lemma {:induction false} SplitMultiset(s: seq<uint32>, h: uint32)
    ensures multiset(AtOrAfter(s, h)) + multiset(Before(s, h)) == multiset(s)
  {
    if s != [] {
      SplitMultiset(s[1..], h);
      MultisetTail(s);
      if s[0] >= h {
        MultisetCons(s[0], AtOrAfter(s[1..], h));
        assert Before(s, h) == Before(s[1..], h);
      } else {
        MultisetCons(s[0], Before(s[1..], h));
        assert AtOrAfter(s, h) == AtOrAfter(s[1..], h);
      }
    }
  }

  lemma ClockMultiset(s: seq<uint32>, h: uint32)
    ensures multiset(Clock(s, h)) == multiset(s)
  {
    SplitMultiset(s, h);
  }

  lemma {:induction false} AllAtOrAfter(s: seq<uint32>, h: uint32)
    requires forall k :: 0 <= k < |s| ==> s[k] >= h
    ensures AtOrAfter(s, h) == s && Before(s, h) == []
  {
    if s != [] {
      AllAtOrAfter(s[1..], h);
      assert s == [s[0]] + s[1..];
    }
  }

  /** Splitting a sorted sequence at the first index that reaches h gives the clockwise order. */
  lemma {:induction false} ClockIsRotation(s: seq<uint32>, h: uint32, idx: nat)
    requires idx <= |s|
    requires forall k :: 0 <= k < idx ==> s[k] < h
    requires forall k :: idx <= k < |s| ==> s[k] >= h
    ensures AtOrAfter(s, h) == s[idx..] && Before(s, h) == s[..idx]
  {
    if idx == 0 {
      AllAtOrAfter(s, h);
    } else {
      var t := s[1..];
      assert s[0] < h;
      ClockIsRotation(t, h, idx - 1);
      assert s[..idx] == [s[0]] + t[..idx - 1] && s[idx..] == t[idx - 1..];
      assert AtOrAfter(s, h) == [] + AtOrAfter(t, h) == AtOrAfter(t, h);
    }
  }

  ghost function FirstIndex(s: seq<uint32>, h: uint32): (idx: nat)
    requires Sorted(s)
    ensures idx <= |s|
    ensures forall k :: 0 <= k < idx ==> s[k] < h
    ensures forall k :: idx <= k < |s| ==> s[k] >= h
  {
    if s == [] || s[0] >= h then 0 else 1 + FirstIndex(s[1..], h)
  }

  lemma ClockHeadIsSuccessor(s: seq<uint32>, h: uint32)
    requires Sorted(s) && s != []
    ensures Clock(s, h) != []
    ensures IsSuccessor(s, h, Clock(s, h)[0])
  {
    var idx := FirstIndex(s, h);
    ClockIsRotation(s, h, idx);
    if idx < |s| {
      assert Clock(s, h)[0] == s[idx];
      assert s[idx] in s && s[idx] >= h;
    } else {
      assert Clock(s, h)[0] == s[0];
      assert forall q :: q in s ==> q < h;
    }
  }

  lemma SuccessorUnique(s: seq<uint32>, h: uint32, p: uint32, q: uint32)
    requires IsSuccessor(s, h, p) && IsSuccessor(s, h, q)
    ensures p == q
  {
  }

  /** A successor in a larger point set that is also a point of the smaller one is its successor there. */
  lemma SuccessorInSubset(small: seq<uint32>, large: seq<uint32>, h: uint32, p: uint32)
    requires forall q :: q in small ==> q in large
    requires IsSuccessor(large, h, p) && p in small
    ensures IsSuccessor(small, h, p)
  {
    if exists q :: q in small && q >= h {
      var q :| q in small && q >= h;
      assert q in large;
    }
  }
}
