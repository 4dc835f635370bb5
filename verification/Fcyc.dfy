/**
 * The K-best timer (malloc-lab/malloclab/fcyc.c): measurements arrive one at a
 * time, the sampler keeps the K smallest of them sorted in place, and the loop
 * stops when those K agree or the sample budget is used up.
 *
 * Measurements are real numbers; the n-th call of the measured function is
 * given by a function from n to the time it took.
 */
module Fcyc {
  import opened Common

  ghost predicate Sorted(s: seq<real>) {
    forall i, j :: 0 <= i < j < |s| ==> s[i] <= s[j]
  }

  function Insert(v: real, s: seq<real>): seq<real> {
    if s == [] then [v] else if v < s[0] then [v] + s else [s[0]] + Insert(v, s[1..])
  }

  function Sort(s: seq<real>): (t: seq<real>)
    ensures |t| == |s|
  {
    if s == [] then [] else
      var t := Sort(s[..|s| - 1]);
      InsertAdds(s[|s| - 1], t);
      Insert(s[|s| - 1], t)
  }

  /** The `k` smallest samples, in order. */
  function Best(k: nat, s: seq<real>): seq<real> {
    Take(Sort(s), k)
  }

  lemma {:induction false} InsertAdds(v: real, s: seq<real>)
    ensures |Insert(v, s)| == |s| + 1
    ensures multiset(Insert(v, s)) == multiset(s) + multiset{v}
  {
    if s != [] && s[0] <= v {
      InsertAdds(v, s[1..]);
      assert s == [s[0]] + s[1..];
    }
  }

  lemma SortedCons(x: real, t: seq<real>)
    requires Sorted(t) && forall y :: y in t ==> x <= y
    ensures Sorted([x] + t)
  {
    forall j | 0 <= j < |t|
      ensures x <= t[j]
    {
      assert t[j] in t;
    }
  }

  lemma {:induction false} InsertSorted(v: real, s: seq<real>)
    requires Sorted(s)
    ensures Sorted(Insert(v, s))
  {
    if s != [] && s[0] <= v {
      InsertSorted(v, s[1..]);
      InsertAdds(v, s[1..]);
      var t := Insert(v, s[1..]);
      forall x | x in t
        ensures s[0] <= x
      {
        assert x in multiset(t);
        assert x == v || x in s[1..];
      }
      SortedCons(s[0], t);
    }
  }

  lemma {:induction false} SortSorts(s: seq<real>)
    ensures Sorted(Sort(s)) && multiset(Sort(s)) == multiset(s)
  {
    if s != [] {
      var rest := s[..|s| - 1];
      SortSorts(rest);
      InsertSorted(s[|s| - 1], Sort(rest));
      InsertAdds(s[|s| - 1], Sort(rest));
      assert s == rest + [s[|s| - 1]];
    }
  }

  /** `best` holds the `k` smallest of `s` (all of them if there are fewer), in order. */
  ghost predicate Smallest(k: nat, s: seq<real>, best: seq<real>) {
    && Sorted(best)
    && |best| == (if |s| <= k then |s| else k)
    && exists others: seq<real> ::
         multiset(best) + multiset(others) == multiset(s)
         && forall x, y :: x in best && y in others ==> x <= y
  }

  lemma BestIsSmallest(k: nat, s: seq<real>)
    ensures Smallest(k, s, Best(k, s))
  {
    SortSorts(s);
    var t := Sort(s);
    var n := if |s| <= k then |s| else k;
    assert t == t[..n] + t[n..];
    assert Best(k, s) == t[..n];
    SortedSplit(t, n);
    SplitIsSmallest(k, s, t[..n], t[n..]);
  }

  lemma SplitIsSmallest(k: nat, s: seq<real>, best: seq<real>, others: seq<real>)
    requires Sorted(best) && |best| == (if |s| <= k then |s| else k)
    requires multiset(best + others) == multiset(s)
    requires forall x, y :: x in best && y in others ==> x <= y
    ensures Smallest(k, s, best)
  {
    assert multiset(best) + multiset(others) == multiset(s);
  }

  lemma SortedSplit(t: seq<real>, n: nat)
    requires Sorted(t) && n <= |t|
    ensures Sorted(t[..n])
    ensures forall x, y :: x in t[..n] && y in t[n..] ==> x <= y
  {
  }

  /** Insertion only moves what is larger than the new value. */
  lemma {:induction false} InsertAt(v: real, s: seq<real>, p: nat)
    requires Sorted(s) && p <= |s|
    requires p > 0 ==> s[p - 1] <= v
    requires forall i :: p <= i < |s| ==> v < s[i]
    ensures Insert(v, s) == s[..p] + [v] + s[p..]
  {
    if p > 0 {
      InsertAt(v, s[1..], p - 1);
      assert s[..p] == [s[0]] + s[1..][..p - 1];
      assert s[p..] == s[1..][p - 1..];
    } else {
      assert s[..p] == [] && s[p..] == s;
      assert s == [] || v < s[0];
    }
  }

  lemma FrontCons(x: real, s: seq<real>, k: nat)
    requires 0 < k <= |s| + 1
    ensures ([x] + s)[..k] == [x] + s[..k - 1]
  {
  }

  lemma {:induction false} InsertTake(v: real, s: seq<real>, k: nat)
    requires Sorted(s) && 0 < k <= |s|
    ensures |Insert(v, s)| == |s| + 1
    ensures Insert(v, s)[..k] == if v < s[k - 1] then Insert(v, s[..k - 1]) else s[..k]
  {
    InsertAdds(v, s);
    assert s[0] <= s[k - 1];
    if v < s[0] {
      FrontCons(v, s, k);
      assert s[..k - 1] == [] || v < s[..k - 1][0];
    } else {
      var x, t := s[0], s[1..];
      assert s == [x] + t;
      FrontCons(x, Insert(v, t), k);
      FrontCons(x, t, k);
      if k > 1 {
        InsertTake(v, t, k - 1);
        FrontCons(x, t, k - 1);
        InsertCons(v, x, t[..k - 2]);
      }
    }
  }

  lemma InsertCons(v: real, x: real, t: seq<real>)
    requires x <= v
    ensures Insert(v, [x] + t) == [x] + Insert(v, t)
  {
  }

  /** What one more measurement does to the list of the `k` best. */
  function NextBest(k: nat, best: seq<real>, v: real): seq<real>
    requires k > 0 && |best| <= k
  {
    if |best| < k then Insert(v, best)
    else if v < best[k - 1] then Insert(v, best[..k - 1])
    else best
  }

  /** Keeping only `k` samples loses nothing: the next best list follows from the last one. */
  lemma BestStep(k: nat, s: seq<real>, v: real)
    requires k > 0
    ensures |Best(k, s)| == if |s| < k then |s| else k
    ensures Best(k, s + [v]) == NextBest(k, Best(k, s), v)
  {
    SortStep(s, v);
    SortSorts(s);
    FirstInsert(k, Sort(s), v);
  }

  lemma SortStep(s: seq<real>, v: real)
    ensures Sort(s + [v]) == Insert(v, Sort(s))
  {
    assert (s + [v])[..|s|] == s;
  }

  lemma FirstInsert(k: nat, t: seq<real>, v: real)
    requires Sorted(t) && 0 < k
    ensures Take(Insert(v, t), k) == NextBest(k, Take(t, k), v)
  {
    InsertAdds(v, t);
    if k <= |t| {
      InsertTake(v, t, k);
      assert t[..k][..k - 1] == t[..k - 1] && t[..k][k - 1] == t[k - 1];
      assert |t| == k ==> t[..k] == t;
    }
  }

  lemma BestIsSorted(k: nat, s: seq<real>)
    ensures Sorted(Best(k, s))
  {
    SortSorts(s);
  }

  /** The K best agree to within a factor of `1 + epsilon`. */
  predicate Converged(k: nat, epsilon: real, s: seq<real>)
    requires k > 0
  {
    BestStep(k, s, 0.0);
    |s| >= k && (1.0 + epsilon) * Best(k, s)[0] >= Best(k, s)[k - 1]
  }

  /** How many samples are at most b. */
  function CountUpTo(s: seq<real>, b: real): nat {
    if s == [] then 0 else (if s[0] <= b then 1 else 0) + CountUpTo(s[1..], b)
  }

  lemma {:induction false} CountAppend(s: seq<real>, v: real, b: real)
    ensures CountUpTo(s + [v], b) == CountUpTo(s, b) + if v <= b then 1 else 0
  {
    if s != [] {
      assert (s + [v])[1..] == s[1..] + [v];
      CountAppend(s[1..], v, b);
    }
  }

  lemma {:induction false} CountInsert(v: real, s: seq<real>, b: real)
    ensures CountUpTo(Insert(v, s), b) == CountUpTo(s, b) + if v <= b then 1 else 0
  {
    if s != [] {
      if v < s[0] {
        assert ([v] + s)[1..] == s;
      } else {
        CountInsert(v, s[1..], b);
        assert ([s[0]] + Insert(v, s[1..]))[1..] == Insert(v, s[1..]);
      }
    }
  }

  lemma {:induction false} CountSort(s: seq<real>, b: real)
    ensures CountUpTo(Sort(s), b) == CountUpTo(s, b)
  {
    if s != [] {
      var rest, v := s[..|s| - 1], s[|s| - 1];
      CountSort(rest, b);
      CountInsert(v, Sort(rest), b);
      CountAppend(rest, v, b);
      assert s == rest + [v];
    }
  }

  /** Of a sorted list at least k are at most b exactly if the k-th is. */
  lemma {:induction false} CountSorted(t: seq<real>, k: nat, b: real)
    requires Sorted(t) && k > 0
    ensures CountUpTo(t, b) >= k <==> |t| >= k && t[k - 1] <= b
  {
    if t != [] {
      if k > 1 {
        CountSorted(t[1..], k - 1, b);
      } else if t[0] > b {
        CountSorted(t[1..], 1, b);
      }
      assert |t| >= k ==> t[0] <= t[k - 1];
    }
  }

  lemma BestAtMost(k: nat, s: seq<real>, b: real)
    requires k > 0
    ensures |s| >= k ==> |Best(k, s)| == k
    ensures CountUpTo(s, b) >= k <==> |s| >= k && Best(k, s)[k - 1] <= b
  {
    SortSorts(s);
    CountSort(s, b);
    CountSorted(Sort(s), k, b);
    BestAt(k, s);
  }

  /** Sampling has converged when k samples lie within a factor of 1 + epsilon above the smallest. */
  lemma ConvergedIff(k: nat, epsilon: real, s: seq<real>, m: real)
    requires k > 0 && IsMinimum(m, s)
    ensures Converged(k, epsilon, s) <==> CountUpTo(s, (1.0 + epsilon) * m) >= k
  {
    BestMinimum(k, s);
    MinimumUnique(m, Best(k, s)[0], s);
    BestAtMost(k, s, (1.0 + epsilon) * m);
  }

  lemma MinimumUnique(m: real, n: real, s: seq<real>)
    requires IsMinimum(m, s) && IsMinimum(n, s)
    ensures m == n
  {
  }

  lemma BestAt(k: nat, s: seq<real>)
    requires k > 0
    ensures |Sort(s)| == |s| && (|s| >= k ==> |Best(k, s)| == k && Best(k, s)[k - 1] == Sort(s)[k - 1])
  {
  }

  /** m is the smallest sample, and at least k samples are at most 1 + epsilon times as large. */
  ghost predicate Agree(k: nat, epsilon: real, s: seq<real>, m: real) {
    IsMinimum(m, s) && CountUpTo(s, (1.0 + epsilon) * m) >= k
  }

  lemma AgreeIff(k: nat, epsilon: real, s: seq<real>)
    requires k > 0
    ensures Converged(k, epsilon, s) <==> exists m :: Agree(k, epsilon, s, m)
  {
    if m :| Agree(k, epsilon, s, m) {
      ConvergedIff(k, epsilon, s, m);
    }
    if Converged(k, epsilon, s) {
      BestMinimum(k, s);
      var m := Best(k, s)[0];
      ConvergedIff(k, epsilon, s, m);
      assert Agree(k, epsilon, s, m);
    }
  }

  predicate Stops(k: nat, epsilon: real, maxSamples: int, s: seq<real>)
    requires k > 0
  {
    Converged(k, epsilon, s) || |s| >= maxSamples
  }

  /** The first `n` measurements. */
  function Taken(measure: nat -> real, n: nat): (s: seq<real>)
    ensures |s| == n
  {
    seq(n, i requires 0 <= i => measure(i))
  }

  lemma TakenNext(measure: nat -> real, n: nat)
    ensures Taken(measure, n + 1) == Taken(measure, n) + [measure(n)]
  {
  }

  lemma StopsAtBudget(k: nat, epsilon: real, maxSamples: int, s: seq<real>)
    requires k > 0
    ensures |s| >= maxSamples ==> Stops(k, epsilon, maxSamples, s)
  {
  }

  ghost predicate NoStopBefore(k: nat, epsilon: real, maxSamples: int, measure: nat -> real, n: nat)
    requires k > 0
  {
    forall m: nat {:trigger Taken(measure, m)} :: 0 < m < n ==> !Stops(k, epsilon, maxSamples, Taken(measure, m))
  }

  /** `n` is the first count of measurements at which sampling may stop. */
  ghost predicate FirstStop(k: nat, epsilon: real, maxSamples: int, measure: nat -> real, n: nat)
    requires k > 0
  {
    n > 0 && Stops(k, epsilon, maxSamples, Taken(measure, n)) && NoStopBefore(k, epsilon, maxSamples, measure, n)
  }

  ghost predicate IsMinimum(x: real, s: seq<real>) {
    x in s && forall y :: y in s ==> x <= y
  }

  lemma BestMinimum(k: nat, s: seq<real>)
    requires k > 0 && s != []
    ensures |Best(k, s)| > 0 && IsMinimum(Best(k, s)[0], s)
  {
    SortSorts(s);
    var t := Sort(s);
    assert Best(k, s)[0] == t[0];
    assert t[0] in multiset(s);
    forall y | y in s ensures t[0] <= y {
      assert y in multiset(t);
      var i :| 0 <= i < |t| && t[i] == y;
    }
  }

  /** The list `w` with its last element moved down to position `p`. */
  function Lowered(w: seq<real>, p: nat): (r: seq<real>)
    requires p < |w|
    ensures |r| == |w|
  {
    w[..p] + [w[|w| - 1]] + w[p..|w| - 1]
  }

  lemma LoweredSwap(w: seq<real>, p: nat)
    requires 0 < p < |w|
    ensures Lowered(w, p)[p] == w[|w| - 1] && Lowered(w, p)[p - 1] == w[p - 1]
    ensures Lowered(w, p)[p - 1 := w[|w| - 1]][p := w[p - 1]] == Lowered(w, p - 1)
  {
  }

  class Sampler {
    const kbest: nat
    const maxSamples: int
    const epsilon: real
    var values: array<real>
    var sampleCount: nat
    ghost var samples: seq<real>

    function Kept(): nat
      reads this
    {
      if sampleCount < kbest then sampleCount else kbest
    }

    ghost predicate Valid()
      reads this, values
    {
      && kbest > 0
      && values.Length == kbest
      && sampleCount == |samples|
      && values[..Kept()] == Best(kbest, samples)
    }

    constructor (k: nat, maximum: int, tolerance: real)
      requires k > 0
      ensures kbest == k && maxSamples == maximum && epsilon == tolerance
      ensures Valid() && samples == [] && fresh(values)
    {
      kbest, maxSamples, epsilon := k, maximum, tolerance;
      values := new real[k](_ => 0.0);
      sampleCount := 0;
      samples := [];
    }

    method InitSampler()
      requires kbest > 0
      modifies this
      ensures Valid() && samples == [] && fresh(values)
    {
      values := new real[kbest](_ => 0.0);
      sampleCount := 0;
      samples := [];
    }

    /** Sinks the value at `last` to its place among the sorted values before it. */
    method Sink(last: nat)
      requires last < values.Length && Sorted(values[..last])
      modifies values
      ensures values[..last + 1] == Insert(old(values[last]), old(values[..last]))
      ensures values[last + 1..] == old(values[last + 1..])
    {
      ghost var w := values[..last + 1];
      var pos := last;
      while pos > 0 && values[pos - 1] > values[pos]
        invariant 0 <= pos <= last
        invariant values[..last + 1] == Lowered(w, pos)
        invariant forall i :: pos <= i < last ==> w[i] > w[last]
        invariant values[last + 1..] == old(values[last + 1..])
      {
        LoweredSwap(w, pos);
        assert values[pos] == values[..last + 1][pos] && values[pos - 1] == values[..last + 1][pos - 1];
        var temp := values[pos - 1];
        values[pos - 1] := values[pos];
        values[pos] := temp;
        pos := pos - 1;
      }
      assert pos > 0 ==> values[pos - 1] == Lowered(w, pos)[pos - 1] && values[pos] == Lowered(w, pos)[pos];
      assert w[..last] == old(values[..last]);
      InsertAt(w[last], w[..last], pos);
      assert w[..last][..pos] == w[..pos] && w[..last][pos..] == w[pos..last];
    }

    /** Puts `val` where it belongs among the values kept so far, dropping the largest if they are too many. */
    method Place(val: real, ghost best: seq<real>)
      requires kbest > 0 && values.Length == kbest && values[..Kept()] == best && Sorted(best)
      modifies values
      ensures values[..if sampleCount < kbest then sampleCount + 1 else kbest] == NextBest(kbest, best, val)
    {
      if sampleCount < kbest {
        values[sampleCount] := val;
        assert values[..sampleCount] == best;
        Sink(sampleCount);
      } else if val < values[kbest - 1] {
        values[kbest - 1] := val;
        assert values[..kbest - 1] == best[..kbest - 1];
        Sink(kbest - 1);
      }
    }

    method AddSample(val: real)
      requires Valid()
      modifies this, values
      ensures Valid() && samples == old(samples) + [val] && values == old(values)
      ensures Smallest(kbest, samples, values[..Kept()])
    {
      BestStep(kbest, samples, val);
      BestIsSorted(kbest, samples);
      BestIsSmallest(kbest, samples + [val]);
      Place(val, Best(kbest, samples));
      sampleCount := sampleCount + 1;
      samples := samples + [val];
    }

    method HasConverged() returns (yes: bool)
      requires Valid()
      ensures yes <==> Converged(kbest, epsilon, samples)
      ensures yes <==> exists m :: Agree(kbest, epsilon, samples, m)
    {
      AgreeIff(kbest, epsilon, samples);
      BestStep(kbest, samples, 0.0);
      if sampleCount >= kbest {
        assert values[0] == values[..kbest][0] && values[kbest - 1] == values[..kbest][kbest - 1];
        yes := (1.0 + epsilon) * values[0] >= values[kbest - 1];
      } else {
        yes := false;
      }
    }

    method MeasureOnce(measure: nat -> real) returns (done: bool)
      requires Valid() && samples == Taken(measure, |samples|)
      modifies this, values
      ensures Valid() && values == old(values) && |samples| == |old(samples)| + 1
      ensures samples == Taken(measure, |samples|)
      ensures done <==> Stops(kbest, epsilon, maxSamples, samples)
    {
      TakenNext(measure, |samples|);
      AddSample(measure(sampleCount));
      done := HasConverged();
      if !done {
        done := sampleCount >= maxSamples;
      }
    }

    /** Samples until the K best agree or the budget is spent, and returns the smallest. */
    method Run(measure: nat -> real) returns (result: real)
      requires kbest > 0
      modifies this
      ensures Valid() && fresh(values)
      ensures |samples| > 0 && samples == Taken(measure, |samples|)
      ensures IsMinimum(result, samples)
      ensures FirstStop(kbest, epsilon, maxSamples, measure, |samples|)
      ensures maxSamples >= 1 ==> |samples| <= maxSamples
    {
      InitSampler();
      var done := MeasureOnce(measure);
      while !done
        invariant Valid() && fresh(values) && |samples| > 0
        invariant samples == Taken(measure, |samples|)
        invariant done <==> Stops(kbest, epsilon, maxSamples, samples)
        invariant NoStopBefore(kbest, epsilon, maxSamples, measure, |samples|)
        invariant |samples| == 1 || |samples| <= maxSamples
        decreases !done, maxSamples - |samples|
      {
        StopsAtBudget(kbest, epsilon, maxSamples, samples);
        done := MeasureOnce(measure);
      }
      BestMinimum(kbest, samples);
      assert values[0] == values[..Kept()][0];
      result := values[0];
    }
  }
}
