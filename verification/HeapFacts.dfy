/** Consequences of the allocator's invariant that its callers and its checker rely on. */
module HeapFacts {
  import opened Common
  import opened Memlib
  import opened FreeLists
  import opened Blocks

  // ---- the block walk ----

  /** The heap checker's walk: from block b, header by header, to the first one of size 0. */
  ghost function Walk(w: map<int, Word>, b: int, limit: int): seq<int>
    decreases limit - b
  {
    var n := At(w, 2 * b - 1) / 8;
    if n == 0 || limit <= b then [] else [b] + Walk(w, b + n, limit)
  }

  /** The bytes the walk passes over. */
  ghost function WalkedBytes(w: map<int, Word>, s: seq<int>): int {
    if s == [] then 0 else At(w, 2 * s[0] - 1) / 8 * 8 + WalkedBytes(w, s[1..])
  }

  /** The blocks from b on: b itself, and those from its successor on. */
  lemma BlocksFrom(L: Layout, b: int, c: int)
    requires Tiled(L) && b in L.size && c in L.size
    ensures b <= c <==> c == b || b + L.size[b] <= c
  {
    assert BlockOk(L, b) && BlockOk(L, c) && (b != c ==> Apart(L, b, c));
  }

  /**
   From any block, the walk meets every block from there on, in address order, each exactly once,
   and ends at the epilogue.
   */
  lemma {:induction false} WalkTiles(w: map<int, Word>, L: Layout, b: int)
    requires Tiled(L) && Tags(w, L) && (b in L.size || b == L.end)
    ensures var s := Walk(w, b, L.end);
            && (forall c :: c in s <==> c in L.size && b <= c)
            && (forall i, j :: 0 <= i < j < |s| ==> s[i] < s[j])
    decreases L.end - b
  {
    if b == L.end {
      forall c | c in L.size
        ensures c < b
      {
        assert BlockOk(L, c);
      }
    } else {
      WalkStep(w, L, b);
      var e := b + L.size[b];
      WalkTiles(w, L, e);
      var t := Walk(w, e, L.end);
      WalkMembers(L, b, t);
      WalkIncreases(L, b, t);
    }
  }

  /** Conservation: the blocks account for every byte between the prologue and the epilogue. */
  lemma {:induction false} WalkTotal(w: map<int, Word>, L: Layout, b: int)
    requires Tiled(L) && Tags(w, L) && (b in L.size || b == L.end)
    ensures WalkedBytes(w, Walk(w, b, L.end)) == 8 * (L.end - b)
    decreases L.end - b
  {
    if b != L.end {
      WalkStep(w, L, b);
      var e := b + L.size[b];
      WalkTotal(w, L, e);
      assert ([b] + Walk(w, e, L.end))[1..] == Walk(w, e, L.end);
    }
  }

  lemma WalkStep(w: map<int, Word>, L: Layout, b: int)
    requires Tiled(L) && Tags(w, L) && b in L.size
    ensures var e := b + L.size[b];
            && b < e <= L.end && (e in L.size || e == L.end)
            && At(w, 2 * b - 1) / 8 == L.size[b] && Walk(w, b, L.end) == [b] + Walk(w, e, L.end)
  {
    assert Tagged(w, L, b) && BlockOk(L, b);
  }

  lemma WalkMembers(L: Layout, b: int, t: seq<int>)
    requires Tiled(L) && b in L.size && forall c :: c in t <==> c in L.size && b + L.size[b] <= c
    ensures forall c :: c in [b] + t <==> c in L.size && b <= c
  {
    forall c
      ensures c in [b] + t <==> c in L.size && b <= c
    {
      if c in L.size {
        BlocksFrom(L, b, c);
      }
    }
  }

  lemma WalkIncreases(L: Layout, b: int, t: seq<int>)
    requires Tiled(L) && b in L.size
    requires forall c :: c in t ==> b + L.size[b] <= c
    requires forall i, j :: 0 <= i < j < |t| ==> t[i] < t[j]
    ensures var s := [b] + t; forall i, j :: 0 <= i < j < |s| ==> s[i] < s[j]
  {
    assert BlockOk(L, b);
    assert forall i :: 0 <= i < |t| ==> t[i] in t;
  }

  // ---- the live blocks decide the rest ----

  /** The same heap area with the same live blocks, each as long. */
  ghost predicate SameLive(L: Layout, K: Layout) {
    && L.first == K.first && L.end == K.end && Allocated(L) == Allocated(K)
    && forall b {:trigger L.size[b]} {:trigger K.size[b]} :: b in Allocated(L) ==> L.size[b] == K.size[b]
  }

  ghost predicate Settled(L: Layout) {
    Tiled(L) && Coalesced(L, {})
  }

  lemma NotShorter(L: Layout, K: Layout, p: int)
    requires Settled(L) && Settled(K) && SameLive(L, K) && p in L.free && p in K.free
    ensures L.size[p] >= K.size[p]
  {
    var e := p + L.size[p];
    assert BlockOk(L, p) && BlockOk(K, p);
    assert IsPrev(L, p, e);
    assert e in Allocated(L) <==> e in Allocated(K);
    assert e in K.size ==> BlockOk(K, e) && Apart(K, p, e);
  }

  lemma SameSize(L: Layout, K: Layout, p: int)
    requires Settled(L) && Settled(K) && SameLive(L, K) && p in L.size && p in K.size
    ensures L.size[p] == K.size[p] && (p in L.free <==> p in K.free)
  {
    assert p in Allocated(L) <==> p in Allocated(K);
    if p in L.free {
      NotShorter(L, K, p);
      NotShorter(K, L, p);
    }
  }

  lemma {:induction false} SameFrom(L: Layout, K: Layout, p: int)
    requires Settled(L) && Settled(K) && SameLive(L, K)
    requires (p in L.size && p in K.size) || p == L.end
    ensures forall b :: p <= b ==> (b in L.size <==> b in K.size)
    decreases L.end - p
  {
    forall b | b in L.size || b in K.size
      ensures b < L.end
    {
      assert b in L.size ==> BlockOk(L, b);
      assert b in K.size ==> BlockOk(K, b);
    }
    if p != L.end {
      assert BlockOk(L, p) && BlockOk(K, p);
      SameSize(L, K, p);
      SameFrom(L, K, p + L.size[p]);
      forall b | p <= b
        ensures b in L.size <==> b in K.size
      {
        if b in L.size {
          BlocksFrom(L, p, b);
        }
        if b in K.size {
          BlocksFrom(K, p, b);
        }
      }
    }
  }

  /** In a coalesced heap the live blocks and the break decide every free block. */
  lemma LiveBlocksDecide(L: Layout, K: Layout)
    requires Settled(L) && Settled(K) && SameLive(L, K)
    ensures L == K
  {
    SameFrom(L, K, L.first);
    forall b
      ensures b in L.size <==> b in K.size
    {
      assert b in L.size ==> BlockOk(L, b);
      assert b in K.size ==> BlockOk(K, b);
    }
    forall b | b in L.size
      ensures L.size[b] == K.size[b] && (b in L.free <==> b in K.free)
    {
      SameSize(L, K, b);
    }
    assert L.size == K.size && L.free == K.free;
  }

  // ---- the free lists ----

  /** The nodes met by following SUCC from pointer p, for at most `fuel` steps. */
  ghost function Follow(w: map<int, Word>, p: int, fuel: nat): seq<int>
    decreases fuel
  {
    if p == 0 || fuel == 0 then [] else [p / 8] + Follow(w, At(w, 2 * (p / 8)), fuel - 1)
  }

  lemma {:induction false} FollowChain(w: map<int, Word>, head: int, s: seq<int>, k: nat, fuel: nat)
    requires Chain(w, head, s) && k <= |s| && |s| - k <= fuel && head >= 0
    ensures Follow(w, Ref(s, k), fuel) == s[k..]
    decreases fuel
  {
    if k < |s| {
      assert Linked(w, s, k);
      FollowChain(w, head, s, k + 1, fuel - 1);
    }
  }

  /** What a traversal of list i reaches. */
  ghost function Reached(w: map<int, Word>, base: int, i: int, fuel: nat): seq<int> {
    Follow(w, At(w, base + i), fuel)
  }

  /**
   Traversals of at least as many steps as the longest list has nodes reach every free block and
   nothing else; each block once, in the list of its current size.
   */
  lemma ListsAreFreeBlocks(w: map<int, Word>, L: Layout, fl: seq<seq<int>>, fuel: nat)
    requires Lists(w, Base(L), fl, L.size, L.free) && Base(L) >= 0
    requires forall i :: 0 <= i < LISTS ==> |fl[i]| <= fuel
    ensures forall i, b :: 0 <= i < LISTS ==>
              (b in Reached(w, Base(L), i, fuel) <==> b in L.free && ListOf(L.size, b) == i)
    ensures forall i :: 0 <= i < LISTS ==> NoRepeats(Reached(w, Base(L), i, fuel))
  {
    forall i | 0 <= i < LISTS
      ensures Reached(w, Base(L), i, fuel) == fl[i] && NoRepeats(fl[i])
      ensures forall b :: b in fl[i] <==> b in L.free && ListOf(L.size, b) == i
    {
      assert ListOk(w, Base(L), fl, L.size, L.free, i);
      FollowChain(w, Base(L) + i, fl[i], 0, fuel);
      assert fl[i][0..] == fl[i];
      assert forall b :: b in L.free ==> OnItsList(Base(L), fl, L.size, b);
    }
  }

  /** PRED undoes SUCC. */
  lemma PredUndoesSucc(w: map<int, Word>, L: Layout, fl: seq<seq<int>>, b: int)
    requires Lists(w, Base(L), fl, L.size, L.free) && b in L.free
    ensures var next := At(w, 2 * b);
            next != 0 ==> exists c :: c in L.free && next == 8 * c && At(w, 2 * c + 1) == 8 * b
  {
    var i := ListOf(L.size, b);
    assert OnItsList(Base(L), fl, L.size, b) && ListOk(w, Base(L), fl, L.size, L.free, i);
    var s := fl[i];
    var k :| 0 <= k < |s| && s[k] == b;
    assert Linked(w, s, k);
    if k + 1 < |s| {
      var c := s[k + 1];
      assert Linked(w, s, k + 1) && c in s;
      assert c in L.free && At(w, 2 * b) == 8 * c && At(w, 2 * c + 1) == 8 * b;
    }
  }

  // ---- payloads ----

  /** Live payloads are double-word aligned, inside the heap, and disjoint. */
  lemma LivePayloads(L: Layout, a: int, b: int)
    requires Tiled(L) && a in Allocated(L) && b in Allocated(L)
    ensures 8 * L.first <= 8 * b && 8 * b + (8 * L.size[b] - 8) <= 8 * L.end - 8 && 8 * L.size[b] - 8 >= 8
    ensures a != b ==> 8 * a + (8 * L.size[a] - 8) < 8 * b || 8 * b + (8 * L.size[b] - 8) < 8 * a
  {
    assert BlockOk(L, a) && BlockOk(L, b) && (a != b ==> Apart(L, a, b));
  }

  // ---- full recovery ----

  /** When nothing is allocated, coalescing has left exactly one block. */
  lemma AllFreeIsOneBlock(L: Layout)
    requires Tiled(L) && Coalesced(L, {}) && Allocated(L) == {} && L.first < L.end
    ensures L.size == map[L.first := L.end - L.first] && L.free == {L.first}
  {
    var f := L.first;
    assert BlockOk(L, f);
    var e := f + L.size[f];
    assert IsPrev(L, f, e);
    forall b | b in L.size
      ensures b in L.free
    {
      assert b !in Allocated(L);
    }
    forall b | b in L.size
      ensures b == f
    {
      assert BlockOk(L, b);
      BlocksFrom(L, f, b);
    }
  }

  lemma AtMostOne(s: seq<int>, v: int)
    requires NoRepeats(s) && forall b :: b in s ==> b == v
    ensures |s| <= 1
  {
    assert |s| > 0 ==> s[0] in s && s[|s| - 1] in s;
  }

  /** ... and then exactly one of the ten lists is not empty. */
  lemma OneListHoldsIt(w: map<int, Word>, L: Layout, fl: seq<seq<int>>)
    requires Tiled(L) && Coalesced(L, {}) && Allocated(L) == {} && L.first < L.end
    requires Lists(w, Base(L), fl, L.size, L.free)
    ensures forall i :: 0 <= i < LISTS ==> fl[i] == if i == ListOf(L.size, L.first) then [L.first] else []
  {
    AllFreeIsOneBlock(L);
    forall i | 0 <= i < LISTS
      ensures fl[i] == if i == ListOf(L.size, L.first) then [L.first] else []
    {
      var s := fl[i];
      assert ListOk(w, Base(L), fl, L.size, L.free, i) && OnItsList(Base(L), fl, L.size, L.first);
      forall b | b in fl[i]
        ensures b == L.first
      {
        assert b in L.free;
      }
      assert |s| > 0 ==> s[0] in fl[i];
      AtMostOne(s, L.first);
      if i == ListOf(L.size, L.first) {
        assert L.first in fl[i];
      }
    }
  }
}
