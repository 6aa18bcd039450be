/** Values shared by the whole model: optional results, bytes, Go's fixed-width integers. */
module Base {
  datatype Option<+T> = None | Some(value: T)

  const TWO_32: int := 0x1_0000_0000
  const TWO_63: int := 0x8000_0000_0000_0000
  const TWO_64: int := 0x1_0000_0000_0000_0000

  type byte = x: int | 0 <= x < 256
  type Bytes = seq<byte>
  type uint32 = x: int | 0 <= x < 0x1_0000_0000

  type pos = x: int | 0 < x witness 1

  /** Time instants and durations are nanosecond counts. A Go `time.Duration` is an int64. */
  type Time = int

  predicate IsInt64(x: int) {
    -TWO_63 <= x < TWO_63
  }

  /** Two's-complement wrap-around of a Go int64 computation. */
  function Wrap64(x: int): (r: int)
    ensures IsInt64(r)
    ensures (r - x) % 0x1_0000_0000_0000_0000 == 0
    ensures IsInt64(x) ==> r == x
    ensures 0 <= x ==> r <= x
  {
    (x + 0x8000_0000_0000_0000) % 0x1_0000_0000_0000_0000 - 0x8000_0000_0000_0000
  }

  /** Wrap-around of a Go uint64 counter. */
  function Mod64(n: nat): (r: nat)
    ensures r < TWO_64
    ensures n < TWO_64 ==> r == n
  {
    n % 0x1_0000_0000_0000_0000
  }

  lemma Mod64Step(n: nat)
    ensures Mod64(Mod64(n) + 1) == Mod64(n + 1)
  {
  }

  lemma AppendAssoc<X>(r: seq<X>, s: seq<X>, t: seq<X>)
    ensures (r + s) + t == r + (s + t)
  {
  }

  lemma ConsAppend<X>(x: X, s: seq<X>, t: seq<X>)
    ensures ([x] + s) + t == [x] + (s + t)
  {
  }

  /** Taking out position i, seen from the tail. */
  lemma WithoutAt<X>(s: seq<X>, i: nat)
    requires 0 < i < |s|
    ensures s[..i] + s[i + 1..] == [s[0]] + (s[1..][..i - 1] + s[1..][i..])
  {
    assert s[..i] == [s[0]] + s[1..][..i - 1];
    assert s[i + 1..] == s[1..][i..];
  }

  function SetOf(keys: seq<string>): (r: set<string>) {
    set k | k in keys
  }

  lemma SetOfNext(keys: seq<string>, i: nat)
    requires i < |keys|
    ensures SetOf(keys[..i + 1]) == SetOf(keys[..i]) + {keys[i]}
  {
    assert keys[..i + 1] == keys[..i] + [keys[i]];
  }

  /** Removing the keys of a list one after another. */
  lemma RemoveNext<V>(m: map<string, V>, keys: seq<string>, i: nat)
    requires i < |keys|
    ensures (m - SetOf(keys[..i])) - {keys[i]} == m - SetOf(keys[..i + 1])
  {
    SetOfNext(keys, i);
  }

  /** Visiting the elements of a set one by one: of those seen so far exactly the wanted ones are found, and counted. */
  ghost predicate Halfway(wanted: set<string>, found: set<string>, rest: set<string>, count: nat) {
    found <= wanted && found !! rest && wanted <= found + rest && count == |found|
  }

  lemma HalfwayStart(wanted: set<string>, rest: set<string>)
    requires wanted <= rest
    ensures Halfway(wanted, {}, rest, 0)
  {
  }

  lemma HalfwayNext(wanted: set<string>, found: set<string>, rest: set<string>, count: nat, key: string)
    requires Halfway(wanted, found, rest, count) && key in rest
    ensures key !in found
    ensures if key in wanted then Halfway(wanted, found + {key}, rest - {key}, count + 1)
            else Halfway(wanted, found, rest - {key}, count)
  {
  }

  lemma HalfwayDone(wanted: set<string>, found: set<string>, count: nat)
    requires Halfway(wanted, found, {}, count)
    ensures found == wanted && count == |wanted|
  {
  }

  lemma SetOfSnoc(keys: seq<string>, k: string)
    ensures SetOf(keys + [k]) == SetOf(keys) + {k}
  {
  }

  /** Visiting one more element of a set: which of the wanted ones have been seen. */
  lemma SeenStep<X>(wanted: set<X>, rest: set<X>, x: X)
    requires x in rest
    ensures wanted - (rest - {x}) == if x in wanted then (wanted - rest) + {x} else wanted - rest
    ensures x !in wanted - rest
  {
  }
}
