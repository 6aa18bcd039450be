/** The record format of the disk store: 8 bytes of deadline, big-endian two's complement, then the value. */
module DiskFormat {
  import opened Base
  import opened TtlMap

  function BigEndian(n: nat, k: nat): (bs: Bytes)
    ensures |bs| == k
  {
    if k == 0 then [] else BigEndian(n / 256, k - 1) + [n % 256]
  }

  function FromBigEndian(bs: Bytes): (n: nat) {
    if bs == [] then 0 else FromBigEndian(bs[..|bs| - 1]) * 256 + bs[|bs| - 1]
  }

  function Pow256(k: nat): nat {
    if k == 0 then 1 else 256 * Pow256(k - 1)
  }

  lemma {:induction false} BigEndianRoundTrip(n: nat, k: nat)
    requires n < Pow256(k)
    ensures FromBigEndian(BigEndian(n, k)) == n
  {
    if k > 0 {
      BigEndianRoundTrip(n / 256, k - 1);
      assert BigEndian(n, k)[..k - 1] == BigEndian(n / 256, k - 1);
    }
  }

  lemma Pow256Is64()
    ensures Pow256(8) == TWO_64
  {
    assert Pow256(2) == 65536;
    assert Pow256(4) == 65536 * 65536;
    assert Pow256(8) == 65536 * 65536 * 65536 * 65536;
  }

  /** `uint64(x)` of an int64, and back. */
  function ToUint64(x: int): (u: nat)
    requires IsInt64(x)
    ensures u < TWO_64
  {
    if x < 0 then x + TWO_64 else x
  }

  function FromUint64(u: nat): (x: int) {
    if u >= TWO_63 then u - TWO_64 else u
  }

  /** `encode`: UnixNano is an int64, so a deadline beyond its range wraps. */
  function Encode(value: Bytes, ttl: Time, now: Time): (raw: Bytes) {
    var nano := if ttl > 0 then Wrap64(now + ttl) else 0;
    BigEndian(ToUint64(nano), 8) + value
  }

  function Decode(raw: Bytes): (r: (Bytes, int)) {
    if |raw| < 8 then ([], 0) else (raw[8..], FromUint64(FromBigEndian(raw[..8])))
  }

  /** Decoding gives back the value and the deadline as int64 holds it, for every ttl and clock. */
  lemma EncodeRoundTrip(value: Bytes, ttl: Time, now: Time)
    ensures Decode(Encode(value, ttl, now)) == (value, if ttl > 0 then Wrap64(now + ttl) else 0)
  {
    var nano := if ttl > 0 then Wrap64(now + ttl) else 0;
    Pow256Is64();
    BigEndianRoundTrip(ToUint64(nano), 8);
    assert Encode(value, ttl, now)[..8] == BigEndian(ToUint64(nano), 8);
    assert Encode(value, ttl, now)[8..] == value;
  }

  /** The record a raw value stands for; a zero deadline means none. */
  function RecOf(raw: Bytes): (r: Rec) {
    var (v, nano) := Decode(raw);
    Rec(v, if nano == 0 then None else Some(nano))
  }

  /** A stored deadline means what was asked for: it fits an int64 and is not the "none" mark. */
  predicate Faithful(ttl: Time, now: Time) {
    ttl <= 0 || (IsInt64(now + ttl) && now + ttl != 0)
  }

  lemma RecOfEncode(value: Bytes, ttl: Time, now: Time)
    ensures RecOf(Encode(value, ttl, now)).value == value
    ensures RecOf(Encode(value, ttl, now)) == Rec(value, DeadlineFor(ttl, now)) <==> Faithful(ttl, now)
  {
    EncodeRoundTrip(value, ttl, now);
  }

  lemma {:induction false} FromBigEndianBound(bs: Bytes)
    ensures FromBigEndian(bs) < Pow256(|bs|)
  {
    if bs != [] {
      FromBigEndianBound(bs[..|bs| - 1]);
    }
  }

  lemma DecodedIsInt64(raw: Bytes)
    ensures IsInt64(Decode(raw).1)
  {
    if |raw| >= 8 {
      FromBigEndianBound(raw[..8]);
      Pow256Is64();
    }
  }

  /** The first byte weighs most. */
  lemma {:induction false} FirstByteWeighsMost(bs: Bytes)
    requires bs != []
    ensures FromBigEndian(bs) == bs[0] * Pow256(|bs| - 1) + FromBigEndian(bs[1..])
  {
    if |bs| > 1 {
      var front, last := bs[..|bs| - 1], bs[|bs| - 1];
      FirstByteWeighsMost(front);
      assert bs[1..][..|bs| - 2] == front[1..];
      TimesBase(bs[0], Pow256(|bs| - 2), FromBigEndian(front[1..]), last);
    }
  }

  lemma TimesBase(digit: nat, weight: nat, rest: nat, last: nat)
    ensures (digit * weight + rest) * 256 + last == digit * (256 * weight) + (rest * 256 + last)
  {
  }

  lemma {:induction false} FromBigEndianRoundTrip(bs: Bytes)
    ensures BigEndian(FromBigEndian(bs), |bs|) == bs
  {
    if bs != [] {
      var front := bs[..|bs| - 1];
      FromBigEndianRoundTrip(front);
      assert FromBigEndian(bs) / 256 == FromBigEndian(front);
      assert bs == front + [bs[|bs| - 1]];
    }
  }

  /** Every raw value of at least 8 bytes is the deadline it decodes to, then the value; a shorter one holds neither. */
  lemma DecodeRoundTrip(raw: Bytes)
    ensures var (value, nano) := Decode(raw);
      if |raw| < 8 then value == [] && nano == 0
      else IsInt64(nano) && BigEndian(ToUint64(nano), 8) + value == raw
  {
    if |raw| >= 8 {
      FromBigEndianRoundTrip(raw[..8]);
      FromBigEndianBound(raw[..8]);
      Pow256Is64();
      assert raw == raw[..8] + raw[8..];
    }
  }
}
