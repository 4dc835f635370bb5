/** Definitions that several of the models share. */
module Common {
  type Byte = x: int | 0 <= x < 0x100

  function Pow2(n: nat): (r: nat)
    ensures r > 0
  {
    if n == 0 then 1 else 2 * Pow2(n - 1)
  }

  lemma {:induction false} Pow2Order(a: nat, b: nat)
    requires a < b
    ensures Pow2(a) < Pow2(b)
  {
    if a + 1 < b {
      Pow2Order(a, b - 1);
    }
  }

  function Least(a: nat, b: nat): nat {
    if a < b then a else b
  }

  /** The first n of s, or all of them if there are fewer. */
  function Take<T>(s: seq<T>, n: nat): (r: seq<T>)
    ensures |r| == Least(|s|, n)
  {
    if |s| <= n then s else s[..n]
  }

  ghost predicate NoRepeats(s: seq<int>) {
    forall j, k :: 0 <= j < k < |s| ==> s[j] != s[k]
  }

  function Without(s: seq<int>, k: int): (t: seq<int>)
    requires 0 <= k < |s|
    ensures |t| == |s| - 1
    ensures forall j :: 0 <= j < |t| ==> t[j] == if j < k then s[j] else s[j + 1]
  {
    s[..k] + s[k + 1..]
  }

  lemma SubsetSize(A: set<int>, B: set<int>)
    requires A <= B
    ensures |A| <= |B| && (|A| == |B| <==> A == B)
  {
    assert B == A + (B - A);
    assert |B| == |A| + |B - A|;
  }

  // ---- quotient and remainder ----

  lemma Distribute(a: int, b: int, c: int)
    ensures (a + b) * c == a * c + b * c
  {
  }

  lemma ProductOrder(a: int, b: int, g: nat)
    requires g > 0
    ensures a <= b <==> a * g <= b * g
    ensures a == b <==> a * g == b * g
  {
  }

  lemma QuotientIs(unit: nat, q: nat, r: nat, e: nat, f: nat)
    requires r < unit && f < unit && q * unit + r == e * unit + f
    ensures q == e && r == f
  {
    ProductOrder(e + 1, q, unit);
    ProductOrder(q + 1, e, unit);
    Distribute(e, 1, unit);
    Distribute(q, 1, unit);
  }

  lemma DivMod(unit: nat, e: nat, f: nat)
    requires f < unit
    ensures (e * unit + f) / unit == e && (e * unit + f) % unit == f
  {
    var m: nat := e * unit + f;
    Division(m, unit);
    QuotientIs(unit, m / unit, m % unit, e, f);
  }

  lemma Division(m: nat, unit: nat)
    requires unit > 0
    ensures m / unit * unit + m % unit == m
  {
  }
}
