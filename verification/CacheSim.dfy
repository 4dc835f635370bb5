/**
 csim.c: the cache simulator. Lines carry the time of their last use, a miss replaces the line with
 the oldest time, and an invalid line has time 0.
 */
module CacheSim {
  import opened Common
  import opened Lru

  const WORD32 := 0x1_0000_0000

  datatype CacheLine = CacheLine(isValid: bool, tag: int, timeStamp: nat)

  /** s_bits, b_bits and E, as arg_parse lets them through and with shifts that fit an int. */
  datatype Config = Config(sBits: nat, bBits: nat, E: nat) {
    predicate Ok() {
      1 <= sBits && 1 <= bBits && sBits + bBits <= 30 && 1 <= E < 0x8000_0000
    }

    function S(): nat {
      Pow2(sBits)
    }
  }

  /** a >> n */
  function Shr(a: nat, n: nat): nat
    decreases n
  {
    if n == 0 then a else Shr(a / 2, n - 1)
  }

  /** a & ((1 << n) - 1) */
  function Low(a: nat, n: nat): nat
    decreases n
  {
    if n == 0 then 0 else 2 * Low(a / 2, n - 1) + a % 2
  }

  /** address >> (64 - t_bits), where t_bits = 64 - (s + b): the high part of the block number */
  function GetTag(c: Config, address: nat): (t: nat)
    ensures t == Shr(Shr(address, c.bBits), c.sBits)
  {
    SplitField(address, c.sBits, c.bBits);
    Shr(address, c.sBits + c.bBits)
  }

  /** (address & mask) >> b_bits, where mask has the low s + b bits: the low part of the block number */
  function GetSetIdx(c: Config, address: nat): (i: nat)
    ensures i == Low(Shr(address, c.bBits), c.sBits)
  {
    SplitField(address, c.sBits, c.bBits);
    Shr(Low(address, c.sBits + c.bBits), c.bBits)
  }

  datatype Operation = Operation(op: char, address: nat)

  // ---- the abstract cache ----

  datatype Stats = Stats(hits: nat, misses: nat, evictions: nat)

  datatype Cache = Cache(sets: seq<seq<Tag>>, stats: Stats)

  function Empty(c: Config): Cache {
    Cache(seq(c.S(), _ => []), Stats(0, 0, 0))
  }

  /** One access: a hit or a miss, an eviction when a miss meets a full set, and one more hit for 'M'. */
  function Access(c: Config, k: Cache, op: Operation): (r: Cache)
    requires |k.sets| == c.S()
    ensures |r.sets| == c.S()
  {
    var i, t := GetSetIdx(c, op.address), GetTag(c, op.address);
    SetIdxInRange(c, op.address);
    var q := k.sets[i];
    var hit := t in q;
    var st := k.stats;
    Cache(k.sets[i := Touch(q, t, c.E)],
          Stats(st.hits + (if hit then 1 else 0) + (if op.op == 'M' then 1 else 0),
                st.misses + (if hit then 0 else 1),
                st.evictions + (if !hit && |q| >= c.E then 1 else 0)))
  }

  function AccessAll(c: Config, k: Cache, ops: seq<Operation>): (r: Cache)
    requires |k.sets| == c.S()
    ensures |r.sets| == c.S()
  {
    if ops == [] then k else Access(c, AccessAll(c, k, ops[..|ops| - 1]), ops[|ops| - 1])
  }

  /** A trace line: main skips those that do not start with a space. */
  datatype Line = Other | Traced(op: Operation)

  function Operations(trace: seq<Line>): seq<Operation> {
    if trace == [] then []
    else Operations(trace[..|trace| - 1]) + match trace[|trace| - 1] case Other => [] case Traced(op) => [op]
  }

  lemma OperationsStep(trace: seq<Line>, n: nat)
    requires n < |trace|
    ensures Operations(trace[..n + 1])
            == Operations(trace[..n]) + match trace[n] case Other => [] case Traced(op) => [op]
  {
    assert trace[..n + 1][..n] == trace[..n];
  }

  lemma {:induction false} OperationsGrow(trace: seq<Line>, n: nat)
    requires n <= |trace|
    ensures |Operations(trace[..n])| <= |Operations(trace)|
    decreases |trace| - n
  {
    if n < |trace| {
      OperationsStep(trace, n);
      OperationsGrow(trace, n + 1);
    } else {
      assert trace[..n] == trace;
    }
  }

  lemma AccessAllStep(c: Config, k: Cache, ops: seq<Operation>, ops': seq<Operation>)
    requires |k.sets| == c.S() && (ops' == ops || exists op :: ops' == ops + [op])
    ensures ops' != ops ==> AccessAll(c, k, ops') == Access(c, AccessAll(c, k, ops), ops'[|ops|])
  {
  }

  /** now is the cache after the first n lines of the trace. */
  ghost predicate After(c: Config, k: Cache, trace: seq<Line>, n: nat, now: Cache) {
    |k.sets| == c.S() && n <= |trace| && now == AccessAll(c, k, Operations(trace[..n]))
  }

  lemma TraceStep(c: Config, k: Cache, trace: seq<Line>, n: nat, now: Cache)
    requires n < |trace| && After(c, k, trace, n, now)
    ensures match trace[n]
            case Other => After(c, k, trace, n + 1, now) && |Operations(trace[..n + 1])| == |Operations(trace[..n])|
            case Traced(op) =>
              && |now.sets| == c.S() && After(c, k, trace, n + 1, Access(c, now, op))
              && |Operations(trace[..n])| + 1 == |Operations(trace[..n + 1])| <= |Operations(trace)|
  {
    OperationsStep(trace, n);
    OperationsGrow(trace, n + 1);
    AccessAllStep(c, k, Operations(trace[..n]), Operations(trace[..n + 1]));
  }

  // ---- the address split ----

  lemma {:induction false} SplitField(a: nat, s: nat, b: nat)
    ensures Shr(Low(a, s + b), b) == Low(Shr(a, b), s)
    ensures Shr(a, s + b) == Shr(Shr(a, b), s)
    decreases b
  {
    if b > 0 {
      assert Low(a, s + b) / 2 == Low(a / 2, s + b - 1);
      SplitField(a / 2, s, b - 1);
    }
  }

  lemma {:induction false} LowBound(a: nat, n: nat)
    ensures Low(a, n) < Pow2(n)
    decreases n
  {
    if n > 0 {
      LowBound(a / 2, n - 1);
    }
  }

  lemma {:induction false} HighAndLow(a: nat, a': nat, n: nat)
    ensures Shr(a, n) == Shr(a', n) && Low(a, n) == Low(a', n) <==> a == a'
    decreases n
  {
    if n > 0 {
      HighAndLow(a / 2, a' / 2, n - 1);
    }
  }

  lemma SetIdxInRange(c: Config, address: nat)
    ensures GetSetIdx(c, address) < c.S()
  {
    LowBound(Shr(address, c.bBits), c.sBits);
  }

  /** Two addresses share tag and set exactly when they lie in the same memory block. */
  lemma SameLineIffSameBlock(c: Config, a: nat, a': nat)
    ensures GetTag(c, a) == GetTag(c, a') && GetSetIdx(c, a) == GetSetIdx(c, a')
            <==> Shr(a, c.bBits) == Shr(a', c.bBits)
  {
    HighAndLow(Shr(a, c.bBits), Shr(a', c.bBits), c.sBits);
  }

  lemma {:induction false} ShiftsAreDivisions(a: nat, n: nat)
    ensures Shr(a, n) == a / Pow2(n) && Low(a, n) == a % Pow2(n)
    decreases n
  {
    if n > 0 {
      ShiftsAreDivisions(a / 2, n - 1);
      DivideTwice(a, Pow2(n - 1));
    }
  }

  lemma DivideTwice(a: nat, p: nat)
    requires p > 0
    ensures a / 2 / p == a / (2 * p) && 2 * (a / 2 % p) + a % 2 == a % (2 * p)
  {
    var q, r := a / 2 / p, a / 2 % p;
    assert a == q * (2 * p) + (2 * r + a % 2);
    DivMod(2 * p, q, 2 * r + a % 2);
  }

  /** The block number is the address without its low b bits; its low s bits are the set, the others the tag. */
  lemma AddressSplit(c: Config, address: nat)
    ensures var block := address / Pow2(c.bBits);
            GetSetIdx(c, address) == block % Pow2(c.sBits) && GetTag(c, address) == block / Pow2(c.sBits)
  {
    ShiftsAreDivisions(address, c.bBits);
    ShiftsAreDivisions(address / Pow2(c.bBits), c.sBits);
  }

  // ---- what the abstract cache does over a whole trace ----

  /** The tags used in set i, in order. */
  function History(c: Config, ops: seq<Operation>, i: nat): seq<Tag> {
    if ops == [] then []
    else
      var op := ops[|ops| - 1];
      History(c, ops[..|ops| - 1], i) + if GetSetIdx(c, op.address) == i then [GetTag(c, op.address)] else []
  }

  /** Every set holds the LRU queue of its own history. */
  lemma {:induction false} SetsAreQueues(c: Config, ops: seq<Operation>, i: nat)
    requires i < c.S()
    ensures AccessAll(c, Empty(c), ops).sets[i] == Queue(History(c, ops, i), c.E)
  {
    if ops != [] {
      var n := |ops| - 1;
      var op := ops[n];
      SetsAreQueues(c, ops[..n], i);
      SetIdxInRange(c, op.address);
      var h := History(c, ops[..n], i);
      if GetSetIdx(c, op.address) == i {
        assert (h + [GetTag(c, op.address)])[..|h|] == h;
      } else {
        assert History(c, ops, i) == h;
      }
    }
  }

  /** Whether the next access would hit. */
  predicate Hits(c: Config, ops: seq<Operation>, op: Operation) {
    SetIdxInRange(c, op.address);
    GetTag(c, op.address) in AccessAll(c, Empty(c), ops).sets[GetSetIdx(c, op.address)]
  }

  /**
   An access hits exactly when its tag was used before in its set, and fewer than E other tags of
   that set were used since the last time.
   */
  lemma HitsByReuseDistance(c: Config, ops: seq<Operation>, op: Operation)
    requires c.E > 0
    ensures var h, t := History(c, ops, GetSetIdx(c, op.address)), GetTag(c, op.address);
            Hits(c, ops, op) <==> t in h && |Tags(SinceLast(h, t))| < c.E
  {
    var i, t := GetSetIdx(c, op.address), GetTag(c, op.address);
    SetIdxInRange(c, op.address);
    SetsAreQueues(c, ops, i);
    ReuseDistance(History(c, ops, i), t, c.E);
  }

  /**
   More lines per set never hurt: on the same trace the smaller cache holds a part of what the
   larger one holds, and has at most as many hits.
   */
  lemma {:induction false} MoreLinesMoreHits(c: Config, d: Config, ops: seq<Operation>)
    requires c.sBits == d.sBits && c.bBits == d.bBits && 0 < c.E <= d.E
    ensures AccessAll(c, Empty(c), ops).stats.hits <= AccessAll(d, Empty(d), ops).stats.hits
    ensures forall i, t :: 0 <= i < c.S() && t in AccessAll(c, Empty(c), ops).sets[i] ==>
              t in AccessAll(d, Empty(d), ops).sets[i]
  {
    forall i, t | 0 <= i < c.S() && t in AccessAll(c, Empty(c), ops).sets[i]
      ensures t in AccessAll(d, Empty(d), ops).sets[i]
    {
      HeldByBoth(c, d, ops, i, t);
    }
    if ops != [] {
      var n := |ops| - 1;
      MoreLinesMoreHits(c, d, ops[..n]);
      SetIdxInRange(c, ops[n].address);
    }
  }

  lemma HeldByBoth(c: Config, d: Config, ops: seq<Operation>, i: nat, t: Tag)
    requires c.sBits == d.sBits && c.bBits == d.bBits && 0 < c.E <= d.E && i < c.S()
    requires t in AccessAll(c, Empty(c), ops).sets[i]
    ensures t in AccessAll(d, Empty(d), ops).sets[i]
  {
    SetsAreQueues(c, ops, i);
    SetsAreQueues(d, ops, i);
    SameHistory(c, d, ops, i);
    Inclusion(History(c, ops, i), c.E, d.E);
  }

  lemma {:induction false} SameHistory(c: Config, d: Config, ops: seq<Operation>, i: nat)
    requires c.sBits == d.sBits && c.bBits == d.bBits
    ensures History(c, ops, i) == History(d, ops, i)
  {
    if ops != [] {
      SameHistory(c, d, ops[..|ops| - 1], i);
    }
  }

  // ---- the counters, from the histories alone ----

  /** The tags used before access n in its set. */
  ghost function Before(c: Config, ops: seq<Operation>, n: nat): seq<Tag>
    requires n < |ops|
  {
    History(c, ops[..n], GetSetIdx(c, ops[n].address))
  }

  /** The tag of access n was used before, and fewer than E other tags of that set since. */
  ghost predicate Reuse(c: Config, ops: seq<Operation>, n: nat)
    requires n < |ops|
  {
    var h, t := Before(c, ops, n), GetTag(c, ops[n].address);
    t in h && |Tags(SinceLast(h, t))| < c.E
  }

  ghost function Reuses(c: Config, ops: seq<Operation>): set<nat> {
    set n: nat | n < |ops| && Reuse(c, ops, n)
  }

  ghost function NewUses(c: Config, ops: seq<Operation>): set<nat> {
    set n: nat | n < |ops| && !Reuse(c, ops, n)
  }

  /** Access n is no reuse, and at least E tags have been used in its set. */
  ghost predicate Replaces(c: Config, ops: seq<Operation>, n: nat)
    requires n < |ops|
  {
    !Reuse(c, ops, n) && |Tags(Before(c, ops, n))| >= c.E
  }

  ghost function Replacements(c: Config, ops: seq<Operation>): set<nat> {
    set n: nat | n < |ops| && Replaces(c, ops, n)
  }

  ghost function ModifyOps(ops: seq<Operation>): set<nat> {
    set n: nat | n < |ops| && ops[n].op == 'M'
  }

  lemma PrefixBefore(c: Config, ops: seq<Operation>, m: nat, n: nat)
    requires n < m <= |ops|
    ensures Before(c, ops[..m], n) == Before(c, ops, n) && (Reuse(c, ops[..m], n) <==> Reuse(c, ops, n))
  {
    assert ops[..m][..n] == ops[..n];
  }

  /** S' is S and possibly n, which is new. */
  lemma OneMore(S: set<nat>, S': set<nat>, n: nat, added: bool)
    requires n !in S && forall m: nat :: m in S' <==> m in S || (added && m == n)
    ensures |S'| == |S| + if added then 1 else 0
  {
    assert S' == S + if added then {n} else {};
  }

  lemma ReusesStep(c: Config, ops: seq<Operation>)
    requires ops != []
    ensures var n := |ops| - 1;
            |Reuses(c, ops)| == |Reuses(c, ops[..n])| + if Reuse(c, ops, n) then 1 else 0
  {
    var n := |ops| - 1;
    forall m: nat
      ensures m in Reuses(c, ops) <==> m in Reuses(c, ops[..n]) || (Reuse(c, ops, n) && m == n)
    {
      if m < n {
        PrefixBefore(c, ops, n, m);
      }
    }
    OneMore(Reuses(c, ops[..n]), Reuses(c, ops), n, Reuse(c, ops, n));
  }

  lemma NewUsesStep(c: Config, ops: seq<Operation>)
    requires ops != []
    ensures var n := |ops| - 1;
            |NewUses(c, ops)| == |NewUses(c, ops[..n])| + if Reuse(c, ops, n) then 0 else 1
  {
    var n := |ops| - 1;
    forall m: nat
      ensures m in NewUses(c, ops) <==> m in NewUses(c, ops[..n]) || (!Reuse(c, ops, n) && m == n)
    {
      if m < n {
        PrefixBefore(c, ops, n, m);
      }
    }
    OneMore(NewUses(c, ops[..n]), NewUses(c, ops), n, !Reuse(c, ops, n));
  }

  lemma ReplacementsStep(c: Config, ops: seq<Operation>)
    requires ops != []
    ensures var n := |ops| - 1;
            |Replacements(c, ops)| == |Replacements(c, ops[..n])| + if Replaces(c, ops, n) then 1 else 0
  {
    var n := |ops| - 1;
    forall m: nat
      ensures m in Replacements(c, ops) <==> m in Replacements(c, ops[..n]) || (Replaces(c, ops, n) && m == n)
    {
      if m < n {
        PrefixBefore(c, ops, n, m);
      }
    }
    OneMore(Replacements(c, ops[..n]), Replacements(c, ops), n, Replaces(c, ops, n));
  }

  lemma ModifyOpsStep(ops: seq<Operation>)
    requires ops != []
    ensures var n := |ops| - 1;
            |ModifyOps(ops)| == |ModifyOps(ops[..n])| + if ops[n].op == 'M' then 1 else 0
  {
    var n := |ops| - 1;
    OneMore(ModifyOps(ops[..n]), ModifyOps(ops), n, ops[n].op == 'M');
  }

  /** A set is full when at least E tags have been used in it. */
  lemma FullByHistory(c: Config, ops: seq<Operation>, i: nat)
    requires c.E > 0 && i < c.S()
    ensures |AccessAll(c, Empty(c), ops).sets[i]| >= c.E <==> |Tags(History(c, ops, i))| >= c.E
  {
    var h := History(c, ops, i);
    SetsAreQueues(c, ops, i);
    QueueIsTopOfStack(h, c.E);
    StackTags(h);
    DistinctCount(Stack(h));
    assert Tags(Stack(h)) == Tags(h);
  }

  /** What one access adds to the counters. */
  lemma AccessCounts(c: Config, ops: seq<Operation>)
    requires c.E > 0 && ops != []
    ensures var n := |ops| - 1;
            var was, now := AccessAll(c, Empty(c), ops[..n]).stats, AccessAll(c, Empty(c), ops).stats;
            var isReuse := Reuse(c, ops, n);
            && now.hits == was.hits + (if isReuse then 1 else 0) + (if ops[n].op == 'M' then 1 else 0)
            && now.misses == was.misses + (if isReuse then 0 else 1)
            && now.evictions == was.evictions + (if Replaces(c, ops, n) then 1 else 0)
  {
    var n := |ops| - 1;
    HitsByReuseDistance(c, ops[..n], ops[n]);
    SetIdxInRange(c, ops[n].address);
    FullByHistory(c, ops[..n], GetSetIdx(c, ops[n].address));
  }

  /**
   What csim reports: hits are the reuses at a distance below E, and one more for each 'M'; misses are
   the other accesses; evictions are the misses in sets where at least E tags have been used.
   */
  lemma {:induction false} Counters(c: Config, ops: seq<Operation>)
    requires c.E > 0
    ensures var st := AccessAll(c, Empty(c), ops).stats;
            && st.hits == |Reuses(c, ops)| + |ModifyOps(ops)|
            && st.misses == |NewUses(c, ops)|
            && st.evictions == |Replacements(c, ops)|
  {
    if ops != [] {
      Counters(c, ops[..|ops| - 1]);
      AccessCounts(c, ops);
      ReusesStep(c, ops);
      NewUsesStep(c, ops);
      ReplacementsStep(c, ops);
      ModifyOpsStep(ops);
    }
  }

  lemma {:induction false} UsesBound(c: Config, ops: seq<Operation>)
    ensures |Replacements(c, ops)| <= |NewUses(c, ops)| <= |ops|
  {
    if ops != [] {
      UsesBound(c, ops[..|ops| - 1]);
      NewUsesStep(c, ops);
      ReplacementsStep(c, ops);
    }
  }

  /** The unsigned counters hold the misses and evictions of fewer than 2^32 accesses. */
  lemma CountersFit(c: Config, ops: seq<Operation>)
    requires c.E > 0 && |ops| < WORD32
    ensures var st := AccessAll(c, Empty(c), ops).stats;
            && st.hits == |Reuses(c, ops)| + |ModifyOps(ops)|
            && st.misses % WORD32 == |NewUses(c, ops)| && st.evictions % WORD32 == |Replacements(c, ops)|
  {
    Counters(c, ops);
    UsesBound(c, ops);
    NoWrap(|NewUses(c, ops)|);
    NoWrap(|Replacements(c, ops)|);
  }

  lemma NoWrap(n: nat)
    requires n < WORD32
    ensures n % WORD32 == n
  {
  }

  function Lines(sets: seq<seq<Tag>>): nat {
    if sets == [] then 0 else |sets[0]| + Lines(sets[1..])
  }

  lemma {:induction false} LinesUpdate(sets: seq<seq<Tag>>, i: nat, q: seq<Tag>)
    requires i < |sets|
    ensures Lines(sets[i := q]) == Lines(sets) - |sets[i]| + |q|
  {
    if i == 0 {
      assert sets[0 := q][1..] == sets[1..];
    } else {
      LinesUpdate(sets[1..], i - 1, q);
      assert sets[i := q][1..] == sets[1..][i - 1 := q];
    }
  }

  lemma {:induction false} LinesEmpty(n: nat)
    ensures Lines(seq(n, _ => [])) == 0
  {
    if n > 0 {
      LinesEmpty(n - 1);
      assert seq<seq<Tag>>(n, _ => [])[1..] == seq(n - 1, _ => []);
    }
  }

  /** Every access is a hit or a miss, 'M' is one hit more, and what was brought in is held or evicted. */
  lemma {:induction false} Accounting(c: Config, ops: seq<Operation>)
    requires c.E > 0
    ensures var k := AccessAll(c, Empty(c), ops);
            && k.stats.hits + k.stats.misses == |ops| + |ModifyOps(ops)|
            && k.stats.misses == k.stats.evictions + Lines(k.sets)
  {
    if ops == [] {
      LinesEmpty(c.S());
    } else {
      var n := |ops| - 1;
      Accounting(c, ops[..n]);
      ModifyOpsStep(ops);
      AccountingStep(c, ops[..n], ops[n]);
    }
  }

  lemma AccountingStep(c: Config, ops: seq<Operation>, op: Operation)
    requires c.E > 0
    ensures var k := AccessAll(c, Empty(c), ops);
            var k' := Access(c, k, op);
            && k'.stats.hits + k'.stats.misses == k.stats.hits + k.stats.misses + 1 + (if op.op == 'M' then 1 else 0)
            && k'.stats.misses - k'.stats.evictions - Lines(k'.sets)
               == k.stats.misses - k.stats.evictions - Lines(k.sets)
  {
    var k := AccessAll(c, Empty(c), ops);
    var i, t := GetSetIdx(c, op.address), GetTag(c, op.address);
    SetIdxInRange(c, op.address);
    SetsAreQueues(c, ops, i);
    var q := k.sets[i];
    var h := History(c, ops, i);
    QueueIsTopOfStack(h, c.E);
    StackTags(h);
    assert NoRepeats(q) && |q| <= c.E;
    RemoveKeeps(q, t);
    LinesUpdate(k.sets, i, Touch(q, t, c.E));
  }

  // ---- one set of lines against its queue ----

  /** The valid lines listed in ord, most recently used first; their tags are different. */
  ghost predicate Sorted(row: seq<CacheLine>, ord: seq<int>, now: nat) {
    && (forall k {:trigger ord[k]} :: 0 <= k < |ord| ==>
          0 <= ord[k] < |row| && row[ord[k]].isValid && 1 <= row[ord[k]].timeStamp <= now)
    && (forall j, k {:trigger ord[j], ord[k]} :: 0 <= j < k < |ord| ==>
          row[ord[j]].timeStamp > row[ord[k]].timeStamp && row[ord[j]].tag != row[ord[k]].tag)
  }

  /** ... and those are all the valid lines; the others have never been used. */
  ghost predicate Ordered(row: seq<CacheLine>, ord: seq<int>, now: nat) {
    && Sorted(row, ord, now)
    && forall i {:trigger row[i]} :: 0 <= i < |row| ==> if row[i].isValid then i in ord else row[i].timeStamp == 0
  }

  ghost function QueueOf(row: seq<CacheLine>, ord: seq<int>): (q: seq<Tag>)
    requires forall k {:trigger ord[k]} :: 0 <= k < |ord| ==> 0 <= ord[k] < |row|
    ensures |q| == |ord| && forall k :: 0 <= k < |ord| ==> q[k] == row[ord[k]].tag
  {
    seq(|ord|, k requires 0 <= k < |ord| => row[ord[k]].tag)
  }

  lemma RemoveNth(q: seq<Tag>, k: nat)
    requires k < |q| && NoRepeats(q)
    ensures Remove(q, q[k]) == q[..k] + q[k + 1..]
  {
    CutOut(q, k);
    RemoveFirst(q[..k], q[k], q[k + 1..]);
  }

  lemma CutOut(q: seq<Tag>, k: nat)
    requires k < |q| && NoRepeats(q)
    ensures q == q[..k] + ([q[k]] + q[k + 1..]) && q[k] !in q[..k]
  {
  }

  lemma RemoveFirst(p: seq<Tag>, t: Tag, r: seq<Tag>)
    requires t !in p
    ensures Remove(p + ([t] + r), t) == p + r
  {
    RemoveAppend(p, [t] + r, t);
    assert ([t] + r)[1..] == r;
  }

  /** Line i is filled with, or found to hold, tag t: it becomes the most recent one. */
  lemma UseLine(row: seq<CacheLine>, rest: seq<int>, i: int, t: Tag, now: nat)
    requires Sorted(row, rest, now) && 0 <= i < |row| && i !in rest
    requires forall k {:trigger rest[k]} :: 0 <= k < |rest| ==> row[rest[k]].tag != t
    ensures var row', ord' := row[i := CacheLine(true, t, now + 1)], [i] + rest;
            Sorted(row', ord', now + 1) && QueueOf(row', ord') == [t] + QueueOf(row, rest)
  {
  }

  lemma SortedWithout(row: seq<CacheLine>, ord: seq<int>, now: nat, k: nat)
    requires Sorted(row, ord, now) && k < |ord|
    ensures Sorted(row, Without(ord, k), now) && ord[k] !in Without(ord, k)
    ensures QueueOf(row, Without(ord, k)) == Without(QueueOf(row, ord), k)
  {
  }

  /** A hit on the line that is k-th in the order. */
  lemma HitStep(row: seq<CacheLine>, ord: seq<int>, now: nat, k: nat, lines: nat)
    requires Ordered(row, ord, now) && k < |ord| <= lines
    ensures var i := ord[k];
            var row', ord' := row[i := CacheLine(true, row[i].tag, now + 1)], [i] + Without(ord, k);
            Ordered(row', ord', now + 1) && QueueOf(row', ord') == Touch(QueueOf(row, ord), row[i].tag, lines)
  {
    var i, rest := ord[k], Without(ord, k);
    SortedWithout(row, ord, now, k);
    OtherTags(row, ord, now, k);
    UseLine(row, rest, i, row[i].tag, now);
    TouchHeld(QueueOf(row, ord), k, lines);
    CoversWithout(ord, k);
  }

  /** The tag of one line is not that of another. */
  lemma OtherTags(row: seq<CacheLine>, ord: seq<int>, now: nat, k: nat)
    requires Sorted(row, ord, now) && k < |ord|
    ensures var rest := Without(ord, k);
            forall j {:trigger rest[j]} :: 0 <= j < |rest| ==> row[rest[j]].tag != row[ord[k]].tag
  {
    var rest := Without(ord, k);
    forall j {:trigger rest[j]} | 0 <= j < |rest|
      ensures row[rest[j]].tag != row[ord[k]].tag
    {
      assert rest[j] == ord[if j < k then j else j + 1];
    }
  }

  /** Using a tag that is held moves it to the front. */
  lemma TouchHeld(q: seq<Tag>, k: nat, lines: nat)
    requires NoRepeats(q) && k < |q| <= lines
    ensures Touch(q, q[k], lines) == [q[k]] + Without(q, k)
  {
    RemoveNth(q, k);
  }

  lemma CoversWithout(ord: seq<int>, k: nat)
    requires k < |ord|
    ensures forall i :: i in ord ==> i in [ord[k]] + Without(ord, k)
  {
  }

  /** A miss that fills an unused line. */
  lemma FillStep(row: seq<CacheLine>, ord: seq<int>, now: nat, i: int, t: Tag)
    requires Ordered(row, ord, now) && 0 <= i < |row| && !row[i].isValid && t !in QueueOf(row, ord)
    ensures var row', ord' := row[i := CacheLine(true, t, now + 1)], [i] + ord;
            && Ordered(row', ord', now + 1) && QueueOf(row', ord') == Touch(QueueOf(row, ord), t, |row|)
            && |ord| < |row|
  {
    var q := QueueOf(row, ord);
    assert forall k {:trigger ord[k]} :: 0 <= k < |ord| ==> q[k] != t;
    UseLine(row, ord, i, t, now);
    RemoveAbsent(q, t);
    FullIffAllValid(row, ord, now);
  }

  /** When the oldest time belongs to a valid line, the set is full and that line is last in the order. */
  lemma OldestIsLast(row: seq<CacheLine>, ord: seq<int>, now: nat, i: int)
    requires Ordered(row, ord, now) && 0 <= i < |row| && row[i].isValid
    requires forall j :: 0 <= j < |row| ==> row[i].timeStamp <= row[j].timeStamp
    ensures |ord| == |row| > 0 && ord[|ord| - 1] == i
  {
    var k :| 0 <= k < |ord| && ord[k] == i;
    forall j | 0 <= j < |row|
      ensures row[j].isValid
    {
      assert row[i].timeStamp <= row[j].timeStamp;
    }
    FullIffAllValid(row, ord, now);
    var m := |ord| - 1;
    assert row[i].timeStamp <= row[ord[m]].timeStamp;
  }

  lemma TouchFull(q: seq<Tag>, t: Tag)
    requires |q| > 0 && t !in q
    ensures Touch(q, t, |q|) == [t] + Without(q, |q| - 1)
  {
    RemoveAbsent(q, t);
  }

  lemma RestHasNot(row: seq<CacheLine>, ord: seq<int>, now: nat, t: Tag)
    requires Sorted(row, ord, now) && |ord| > 0 && t !in QueueOf(row, ord)
    ensures var rest := Without(ord, |ord| - 1);
            forall j {:trigger rest[j]} :: 0 <= j < |rest| ==> 0 <= rest[j] < |row| && row[rest[j]].tag != t
  {
  }

  /** A miss in a full set: the oldest line is replaced. */
  lemma EvictStep(row: seq<CacheLine>, ord: seq<int>, now: nat, i: int, t: Tag)
    requires Ordered(row, ord, now) && |ord| == |row| > 0 && ord[|ord| - 1] == i && t !in QueueOf(row, ord)
    ensures 0 <= i < |row|
    ensures var row', ord' := row[i := CacheLine(true, t, now + 1)], [i] + Without(ord, |ord| - 1);
            Ordered(row', ord', now + 1) && QueueOf(row', ord') == Touch(QueueOf(row, ord), t, |row|)
  {
    var m := |ord| - 1;
    SortedWithout(row, ord, now, m);
    RestHasNot(row, ord, now, t);
    UseLine(row, Without(ord, m), i, t, now);
    TouchFull(QueueOf(row, ord), t);
    CoversWithout(ord, m);
  }

  /** A row holds as many valid lines as its order lists; all of them are valid iff it lists E. */
  lemma FullIffAllValid(row: seq<CacheLine>, ord: seq<int>, now: nat)
    requires Ordered(row, ord, now)
    ensures |ord| <= |row|
    ensures |ord| == |row| <==> forall i :: 0 <= i < |row| ==> row[i].isValid
  {
    assert NoRepeats(ord);
    DistinctCount(ord);
    var R := Range(|row|);
    SubsetSize(Tags(ord), R);
    if forall i :: 0 <= i < |row| ==> row[i].isValid {
      assert forall i :: i in R ==> row[i].isValid && i in ord;
    } else {
      var i :| 0 <= i < |row| && !row[i].isValid;
      assert i in R && i !in Tags(ord);
    }
  }

  /** The length of a queue is the number of valid lines of its row. */
  lemma ValidLines(row: seq<CacheLine>, ord: seq<int>, now: nat)
    requires Ordered(row, ord, now)
    ensures |set i | 0 <= i < |row| && row[i].isValid| == |QueueOf(row, ord)|
  {
    assert NoRepeats(ord);
    DistinctCount(ord);
    assert (set i | 0 <= i < |row| && row[i].isValid) == Tags(ord);
  }

  ghost function Range(n: nat): (r: set<int>)
    ensures |r| == n && forall i :: i in r <==> 0 <= i < n
  {
    if n == 0 then {} else Range(n - 1) + {n - 1}
  }

  /** The scan's answer is the queue's. */
  lemma MissOrHit(row: seq<CacheLine>, ord: seq<int>, now: nat, t: Tag, isMiss: bool)
    requires Ordered(row, ord, now)
    requires !isMiss ==> exists i :: 0 <= i < |row| && row[i].isValid && row[i].tag == t
    requires isMiss ==> forall j :: 0 <= j < |row| ==> !(row[j].isValid && row[j].tag == t)
    ensures isMiss <==> t !in QueueOf(row, ord)
  {
  }

  /** A miss replaces the line with the oldest time, whether that line was in use or not. */
  lemma MissStep(row: seq<CacheLine>, ord: seq<int>, now: nat, i: int, t: Tag) returns (ord': seq<int>)
    requires Ordered(row, ord, now) && 0 <= i < |row| && t !in QueueOf(row, ord)
    requires forall j :: 0 <= j < |row| ==> row[i].timeStamp <= row[j].timeStamp
    ensures var row' := row[i := CacheLine(true, t, now + 1)];
            Ordered(row', ord', now + 1) && QueueOf(row', ord') == Touch(QueueOf(row, ord), t, |row|)
    ensures row[i].isValid <==> |ord| >= |row|
  {
    if row[i].isValid {
      OldestIsLast(row, ord, now, i);
      EvictStep(row, ord, now, i, t);
      ord' := [i] + Without(ord, |ord| - 1);
    } else {
      FillStep(row, ord, now, i, t);
      ord' := [i] + ord;
    }
  }

  ghost predicate Scanned(row: seq<CacheLine>, tag: Tag, isMiss: bool, i: nat, oldest: nat) {
    && oldest < |row|
    && (!isMiss ==> i < |row| && row[i].isValid && row[i].tag == tag)
    && (isMiss ==> forall j :: 0 <= j < |row| ==> !(row[j].isValid && row[j].tag == tag))
    && (isMiss ==> forall j :: 0 <= j < |row| ==> row[oldest].timeStamp <= row[j].timeStamp)
    && (isMiss ==> forall j :: 0 <= j < oldest ==> row[oldest].timeStamp < row[j].timeStamp)
  }

  /** Whatever the scan found, stamping line j turns the queue into the touched queue. */
  lemma ScanStep(row: seq<CacheLine>, ord: seq<int>, now: nat, tag: Tag, isMiss: bool, i: nat, oldest: nat)
    returns (j: nat, ord': seq<int>)
    requires Ordered(row, ord, now) && Scanned(row, tag, isMiss, i, oldest)
    ensures j == (if isMiss then oldest else i) && j < |row|
    ensures var row' := row[j := CacheLine(true, tag, now + 1)];
            Ordered(row', ord', now + 1) && QueueOf(row', ord') == Touch(QueueOf(row, ord), tag, |row|)
    ensures isMiss <==> tag !in QueueOf(row, ord)
    ensures isMiss ==> (row[oldest].isValid <==> |QueueOf(row, ord)| >= |row|)
  {
    j := if isMiss then oldest else i;
    FullIffAllValid(row, ord, now);
    MissOrHit(row, ord, now, tag, isMiss);
    if isMiss {
      ord' := MissStep(row, ord, now, oldest, tag);
    } else {
      var m :| 0 <= m < |ord| && ord[m] == i;
      HitStep(row, ord, now, m, |row|);
      ord' := [i] + Without(ord, m);
    }
  }

  /** The row is ordered, and its tags are the queue. */
  ghost predicate Represents(row: seq<CacheLine>, ord: seq<int>, now: nat, q: seq<Tag>) {
    Ordered(row, ord, now) && q == QueueOf(row, ord)
  }

  /** Every row of lines is ordered, and its queue is the abstract set. */
  ghost predicate AllOrdered(rows: seq<seq<CacheLine>>, order: seq<seq<int>>, sets: seq<seq<Tag>>, now: nat) {
    && |rows| == |order| == |sets|
    && forall i {:trigger Represents(rows[i], order[i], now, sets[i])} :: 0 <= i < |rows| ==>
         Represents(rows[i], order[i], now, sets[i])
  }

  lemma ScanInSet(rows: seq<seq<CacheLine>>, order: seq<seq<int>>, sets: seq<seq<Tag>>, now: nat, s: nat, tag: Tag,
                  isMiss: bool, i: nat, oldest: nat)
    returns (j: nat, ord': seq<int>)
    requires AllOrdered(rows, order, sets, now) && s < |rows| && Scanned(rows[s], tag, isMiss, i, oldest)
    ensures j == (if isMiss then oldest else i) && j < |rows[s]|
    ensures var row' := rows[s][j := CacheLine(true, tag, now + 1)];
            Represents(row', ord', now + 1, Touch(sets[s], tag, |rows[s]|))
    ensures isMiss <==> tag !in sets[s]
    ensures isMiss ==> (rows[s][oldest].isValid <==> |sets[s]| >= |rows[s]|)
  {
    assert Represents(rows[s], order[s], now, sets[s]);
    j, ord' := ScanStep(rows[s], order[s], now, tag, isMiss, i, oldest);
  }

  lemma AllOrderedStep(rows: seq<seq<CacheLine>>, order: seq<seq<int>>, sets: seq<seq<Tag>>, now: nat,
                       i: nat, row: seq<CacheLine>, ord: seq<int>, q: seq<Tag>)
    requires AllOrdered(rows, order, sets, now) && i < |rows| && Represents(row, ord, now + 1, q)
    ensures AllOrdered(rows[i := row], order[i := ord], sets[i := q], now + 1)
  {
    var rows', order', sets' := rows[i := row], order[i := ord], sets[i := q];
    forall j {:trigger Represents(rows'[j], order'[j], now + 1, sets'[j])} | 0 <= j < |rows|
      ensures Represents(rows'[j], order'[j], now + 1, sets'[j])
    {
      assert Represents(rows[j], order[j], now, sets[j]);
    }
  }

  /** The counts after an access. */
  function Counted(st: Stats, isMiss: bool, needEviction: bool, op: char): Stats {
    Stats(st.hits + (if isMiss then 0 else 1) + (if op == 'M' then 1 else 0),
          st.misses + (if isMiss then 1 else 0),
          st.evictions + (if needEviction then 1 else 0))
  }

  lemma AccessIs(c: Config, k: Cache, op: Operation, isMiss: bool, needEviction: bool)
    requires |k.sets| == c.S() && GetSetIdx(c, op.address) < c.S()
    requires isMiss <==> GetTag(c, op.address) !in k.sets[GetSetIdx(c, op.address)]
    requires needEviction <==> isMiss && |k.sets[GetSetIdx(c, op.address)]| >= c.E
    ensures var i, t := GetSetIdx(c, op.address), GetTag(c, op.address);
            Access(c, k, op)
            == Cache(k.sets[i := Touch(k.sets[i], t, c.E)], Counted(k.stats, isMiss, needEviction, op.op))
  {
  }

  lemma IncrementWraps(n: nat)
    ensures (n % WORD32 + 1) % WORD32 == (n + 1) % WORD32
  {
  }

  lemma AddWraps(n: nat, d: nat)
    ensures (n % WORD32 + d) % WORD32 == (n + d) % WORD32
  {
  }

  lemma CountedWraps(st: Stats, isMiss: bool, needEviction: bool, op: char)
    ensures var now, m := Counted(st, isMiss, needEviction, op), if op == 'M' then 1 else 0;
            && now.hits % WORD32 == (st.hits % WORD32 + (if isMiss then 0 else 1) + m) % WORD32
            && now.misses % WORD32 == (st.misses % WORD32 + (if isMiss then 1 else 0)) % WORD32
            && now.evictions % WORD32 == (st.evictions % WORD32 + (if needEviction then 1 else 0)) % WORD32
  {
    AddWraps(st.hits, (if isMiss then 0 else 1) + if op == 'M' then 1 else 0);
    AddWraps(st.misses, if isMiss then 1 else 0);
    AddWraps(st.evictions, if needEviction then 1 else 0);
  }

  // ---- the simulator ----

  class LruCache {
    const c: Config
    const cache: array2<CacheLine>
    var timeStamp: nat          // uint32_t
    var hits: nat               // uint32_t, like the other two counters
    var misses: nat
    var evictions: nat
    ghost var order: seq<seq<int>>
    ghost var k: Cache

    ghost predicate Shape()
      reads this, cache
    {
      && c.Ok() && cache.Length0 == c.S() && cache.Length1 == c.E
      && |order| == |k.sets| == c.S()
    }

    ghost function Rows(): (rows: seq<seq<CacheLine>>)
      reads cache
      ensures |rows| == cache.Length0
      ensures forall i :: 0 <= i < |rows| ==> |rows[i]| == cache.Length1
      ensures forall i, j :: 0 <= i < |rows| && 0 <= j < cache.Length1 ==> rows[i][j] == cache[i, j]
    {
      seq(cache.Length0, i requires 0 <= i < cache.Length0 reads cache =>
        seq(cache.Length1, j requires 0 <= j < cache.Length1 reads cache => cache[i, j]))
    }

    ghost predicate Valid()
      reads this, cache
    {
      && Shape()
      && AllOrdered(Rows(), order, k.sets, timeStamp)
      && hits == k.stats.hits % WORD32 && misses == k.stats.misses % WORD32 && evictions == k.stats.evictions % WORD32
    }

    /** init_LRUCache: calloc zeroes every line. */
    constructor (c: Config)
      requires c.Ok()
      ensures Valid() && this.c == c && k == Empty(c) && timeStamp == 0 && fresh(cache)
    {
      this.c := c;
      cache := new CacheLine[c.S(), c.E]((i, j) => CacheLine(false, 0, 0));
      timeStamp, hits, misses, evictions := 0, 0, 0, 0;
      order, k := seq(c.S(), _ => []), Empty(c);
    }

    /** The scan of one set: the line that holds the tag, or else the first line with the oldest time. */
    method Scan(setIdx: nat, tag: Tag) returns (isMiss: bool, i: nat, oldest: nat)
      requires cache.Length1 > 0 && setIdx < cache.Length0
      ensures Scanned(Rows()[setIdx], tag, isMiss, i, oldest)
    {
      isMiss, i, oldest := true, 0, 0;
      while i < cache.Length1
        invariant i <= cache.Length1 && oldest < cache.Length1 && (oldest < i || oldest == 0)
        invariant forall j :: 0 <= j < i ==> !(cache[setIdx, j].isValid && cache[setIdx, j].tag == tag)
        invariant forall j :: 0 <= j < i ==> cache[setIdx, oldest].timeStamp <= cache[setIdx, j].timeStamp
        invariant forall j :: 0 <= j < oldest ==> cache[setIdx, oldest].timeStamp < cache[setIdx, j].timeStamp
      {
        oldest := if cache[setIdx, oldest].timeStamp > cache[setIdx, i].timeStamp then i else oldest;
        if cache[setIdx, i].isValid && cache[setIdx, i].tag == tag {
          isMiss := false;
          return;
        }
        i := i + 1;
      }
    }

    method PutLine(setIdx: nat, i: nat, line: CacheLine)
      requires setIdx < cache.Length0 && i < cache.Length1
      modifies cache
      ensures Rows() == old(Rows())[setIdx := old(Rows())[setIdx][i := line]]
    {
      cache[setIdx, i] := line;
      var rows := old(Rows());
      assert forall s :: 0 <= s < |rows| && s != setIdx ==> Rows()[s] == rows[s];
      assert Rows()[setIdx] == rows[setIdx][i := line];
    }

    /** LRUCacheAccess, for the time counter not about to wrap. */
    method LRUCacheAccess(op: Operation)
      requires Valid() && timeStamp + 1 < WORD32
      modifies this, cache
      ensures Valid() && k == Access(c, old(k), op) && timeStamp == old(timeStamp) + 1
    {
      var setIdx := GetSetIdx(c, op.address);
      var tag := GetTag(c, op.address);
      SetIdxInRange(c, op.address);
      ghost var k0 := k;
      var isMiss, needEviction := UseTag(setIdx, tag);
      CountedWraps(k.stats, isMiss, needEviction, op.op);
      Count(isMiss, needEviction, op.op);
      AccessIs(c, k0, op, isMiss, needEviction);
      k := Cache(k0.sets[setIdx := Touch(k0.sets[setIdx], tag, c.E)], Counted(k0.stats, isMiss, needEviction, op.op));
    }

    /** Scan a set and stamp the line; on a miss the line with the oldest time takes the tag. */
    method UseTag(setIdx: nat, tag: Tag) returns (isMiss: bool, needEviction: bool)
      requires Shape() && AllOrdered(Rows(), order, k.sets, timeStamp) && setIdx < c.S() && timeStamp + 1 < WORD32
      modifies this`timeStamp, this`order, cache
      ensures Shape() && timeStamp == old(timeStamp) + 1
      ensures AllOrdered(Rows(), order, k.sets[setIdx := Touch(k.sets[setIdx], tag, c.E)], timeStamp)
      ensures isMiss <==> tag !in k.sets[setIdx]
      ensures needEviction <==> isMiss && |k.sets[setIdx]| >= c.E
    {
      var i;
      ghost var ord';
      isMiss, needEviction, i, ord' := Choose(setIdx, tag);
      timeStamp := (timeStamp + 1) % WORD32;
      Stamp(setIdx, i, tag, isMiss, ord', Touch(k.sets[setIdx], tag, c.E));
    }

    /** The line to be stamped: the one that holds the tag, or the oldest. */
    method Choose(setIdx: nat, tag: Tag) returns (isMiss: bool, needEviction: bool, i: nat, ghost ord': seq<int>)
      requires Shape() && AllOrdered(Rows(), order, k.sets, timeStamp) && setIdx < c.S()
      ensures i < cache.Length1 && (!isMiss ==> cache[setIdx, i].isValid && cache[setIdx, i].tag == tag)
      ensures var row' := Rows()[setIdx][i := CacheLine(true, tag, timeStamp + 1)];
              Represents(row', ord', timeStamp + 1, Touch(k.sets[setIdx], tag, c.E))
      ensures isMiss <==> tag !in k.sets[setIdx]
      ensures needEviction <==> isMiss && |k.sets[setIdx]| >= c.E
    {
      var oldest;
      isMiss, i, oldest := Scan(setIdx, tag);
      ghost var j;
      j, ord' := ScanInSet(Rows(), order, k.sets, timeStamp, setIdx, tag, isMiss, i, oldest);
      needEviction := isMiss && cache[setIdx, oldest].isValid;
      i := if isMiss then oldest else i;
    }

    /** The update of one line, which is `ord'` in front of the others afterwards. */
    method Stamp(setIdx: nat, j: nat, tag: Tag, isMiss: bool, ghost ord': seq<int>, ghost q: seq<Tag>)
      requires Shape() && setIdx < c.S() && j < cache.Length1 && timeStamp > 0
      requires AllOrdered(Rows(), order, k.sets, timeStamp - 1)
      requires !isMiss ==> cache[setIdx, j].isValid && cache[setIdx, j].tag == tag
      requires Represents(Rows()[setIdx][j := CacheLine(true, tag, timeStamp)], ord', timeStamp, q)
      modifies this`order, cache
      ensures Shape() && order == old(order)[setIdx := ord']
      ensures AllOrdered(Rows(), order, k.sets[setIdx := q], timeStamp)
    {
      ghost var rows := Rows();
      if isMiss {
        PutLine(setIdx, j, CacheLine(true, tag, timeStamp));
      } else {
        PutLine(setIdx, j, cache[setIdx, j].(timeStamp := timeStamp));
      }
      ghost var row' := rows[setIdx][j := CacheLine(true, tag, timeStamp)];
      AllOrderedStep(rows, order, k.sets, timeStamp - 1, setIdx, row', ord', q);
      order := order[setIdx := ord'];
    }

    /** The statistics part; the counters are unsigned 32-bit integers. */
    method Count(isMiss: bool, needEviction: bool, op: char)
      requires hits < WORD32 && misses < WORD32 && evictions < WORD32
      modifies this`hits, this`misses, this`evictions
      ensures hits == (old(hits) + (if isMiss then 0 else 1) + (if op == 'M' then 1 else 0)) % WORD32
      ensures misses == (old(misses) + (if isMiss then 1 else 0)) % WORD32
      ensures evictions == (old(evictions) + (if needEviction then 1 else 0)) % WORD32
    {
      if isMiss {
        misses := (misses + 1) % WORD32;
      } else {
        hits := (hits + 1) % WORD32;
      }
      if needEviction {
        evictions := (evictions + 1) % WORD32;
      }
      if op == 'M' {
        IncrementWraps(old(hits) + if isMiss then 0 else 1);
        hits := (hits + 1) % WORD32;
      }
    }

    /** The loop of main over the lines of a trace. */
    method Run(trace: seq<Line>)
      requires Valid() && timeStamp + |Operations(trace)| < WORD32
      modifies this, cache
      ensures Valid() && k == AccessAll(c, old(k), Operations(trace))
    {
      var n := 0;
      while n < |trace|
        invariant n <= |trace| && Valid() && timeStamp == old(timeStamp) + |Operations(trace[..n])|
        invariant After(c, old(k), trace, n, k)
      {
        TraceStep(c, old(k), trace, n, k);
        match trace[n] {
          case Other =>
          case Traced(op) =>
            LRUCacheAccess(op);
        }
        n := n + 1;
      }
      assert trace[..n] == trace;
    }

    /** The numbers that printSummary is given. */
    method Summary() returns (h: nat, m: nat, e: nat)
      requires Valid()
      ensures h == k.stats.hits % WORD32 && m == k.stats.misses % WORD32 && e == k.stats.evictions % WORD32
    {
      return hits, misses, evictions;
    }

    /** A whole simulation. */
    static method Simulate(c: Config, trace: seq<Line>) returns (h: nat, m: nat, e: nat)
      requires c.Ok() && |Operations(trace)| < WORD32
      ensures var ops := Operations(trace);
              && h == (|Reuses(c, ops)| + |ModifyOps(ops)|) % WORD32
              && m == |NewUses(c, ops)| && e == |Replacements(c, ops)|
    {
      var cache := new LruCache(c);
      cache.Run(trace);
      h, m, e := cache.Summary();
      CountersFit(c, Operations(trace));
    }
  }
}
