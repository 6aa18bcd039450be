/** The virtual-node labels `"%s-%d"` of the hash ring. */
module RingLabels {
  function Digit(d: nat): (c: char)
    requires d < 10
  {
    "0123456789"[d]
  }

  /** `%d` of a non-negative int. */
  function Decimal(n: nat): (s: string)
  {
    if n < 10 then [Digit(n)] else Decimal(n / 10) + [Digit(n % 10)]
  }

  function Label(name: string, i: nat): (s: string)
  {
    name + "-" + Decimal(i)
  }

  lemma {:induction false} DecimalHasNoDash(n: nat)
    ensures |Decimal(n)| > 0
    ensures forall k :: 0 <= k < |Decimal(n)| ==> Decimal(n)[k] != '-'
  {
    if n >= 10 {
      DecimalHasNoDash(n / 10);
    }
  }

  lemma {:induction false} DecimalInjective(m: nat, n: nat)
    requires Decimal(m) == Decimal(n)
    ensures m == n
  {
    var s, t := Decimal(m), Decimal(n);
    DecimalShape(m);
    DecimalShape(n);
    assert Digit(m % 10) == Digit(n % 10);
    if m >= 10 {
      DecimalInjective(m / 10, n / 10);
    }
  }

  lemma DecimalShape(n: nat)
    ensures |Decimal(n)| > 0 && Decimal(n)[|Decimal(n)| - 1] == Digit(n % 10)
    ensures |Decimal(n)| == 1 <==> n < 10
    ensures n >= 10 ==> Decimal(n)[..|Decimal(n)| - 1] == Decimal(n / 10)
  {
    DecimalHasNoDash(n / 10);
  }

  /** A label names its node and its index: the last dash separates them, whatever the name holds. */
  lemma LabelInjective(a: string, i: nat, b: string, j: nat)
    requires Label(a, i) == Label(b, j)
    ensures a == b && i == j
  {
    var s, t := Label(a, i), Label(b, j);
    DecimalHasNoDash(i);
    DecimalHasNoDash(j);
    assert s[|a|] == '-' && forall p :: |a| < p < |s| ==> s[p] == Decimal(i)[p - |a| - 1];
    assert t[|b|] == '-' && forall p :: |b| < p < |t| ==> t[p] == Decimal(j)[p - |b| - 1];
    assert |a| == |b|;
    assert a == s[..|a|] && b == t[..|b|];
    assert Decimal(i) == s[|a| + 1..] && Decimal(j) == t[|b| + 1..];
    DecimalInjective(i, j);
  }
}
