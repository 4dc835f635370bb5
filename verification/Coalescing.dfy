/** What coalesce does to the layout, and why the heap follows it. */
module Coalescing {
  import opened Memlib
  import opened FreeLists
  import opened Blocks

  ghost predicate IsFreePrev(L: Layout, a: int, b: int) {
    a in L.free && IsPrev(L, a, b)
  }

  /** Where the block that results from coalescing b starts. */
  ghost function JoinStart(L: Layout, b: int): int {
    if exists a :: IsFreePrev(L, a, b) then var a :| IsFreePrev(L, a, b); a else b
  }

  ghost function JoinNext(L: Layout, b: int): Layout {
    if b in L.size && b + L.size[b] in L.free && b + L.size[b] in L.size then Merge(L, b) else L
  }

  /** Block b joined with whichever of its two neighbours are free. */
  ghost function Joined(L: Layout, b: int): Layout {
    var a, N := JoinStart(L, b), JoinNext(L, b);
    if a != b && a in N.size && a + N.size[a] in N.size then Merge(N, a) else N
  }

  /** The layout after extend_heap, and where its last block starts. */
  ghost function Extended(L: Layout, n: int): Layout {
    Joined(Grow(L, n), L.end)
  }

  ghost function ExtendedStart(L: Layout, n: int): int {
    JoinStart(Grow(L, n), L.end)
  }

  lemma MergeBefore(L: Layout, b: int)
    requires Tiled(L) && b in L.size && JoinStart(L, b) != b
    ensures var a, N := JoinStart(L, b), JoinNext(L, b);
            && IsFreePrev(L, a, b) && a < b && BlockOk(L, b) && BlockOk(L, a)
            && a in N.size && b in N.size && N.size[a] == L.size[a] && a + N.size[a] == b
  {
    var a := JoinStart(L, b);
    assert BlockOk(L, a) && BlockOk(L, b);
  }

  lemma JoinedTiled(L: Layout, b: int)
    requires Tiled(L) && b in L.free
    ensures Tiled(Joined(L, b)) && Joined(L, b).first == L.first && Joined(L, b).end == L.end
  {
    if b + L.size[b] in L.free {
      MergeTiled(L, b);
    }
    if JoinStart(L, b) != b {
      MergeBefore(L, b);
      MergeTiled(JoinNext(L, b), JoinStart(L, b));
    }
  }

  /** Apart from the joined block, nothing changed; and it reaches from the first part to the last. */
  lemma JoinedShape(L: Layout, b: int)
    requires Tiled(L) && b in L.free
    ensures var J, a, c := Joined(L, b), JoinStart(L, b), b + L.size[b];
            && a in J.free && a in L.free && a <= b
            && (a != b ==> IsPrev(L, a, b))
            && a + J.size[a] == (if c in L.free then c + L.size[c] else c)
            && J.free == L.free - {b, c} + {a}
            && (forall d :: d in J.size && d != a ==>
                  d in L.size && J.size[d] == L.size[d] && d != b && (c in L.free ==> d != c))
            && (forall d :: d in L.size && d != b && (c in L.free ==> d != c) ==> d in J.size)
  {
    assert BlockOk(L, b);
    var c := b + L.size[b];
    assert c in L.free ==> BlockOk(L, c);
    if JoinStart(L, b) != b {
      MergeBefore(L, b);
    }
  }

  lemma JoinedAllocated(L: Layout, b: int)
    requires Tiled(L) && b in L.free
    ensures Allocated(Joined(L, b)) == Allocated(L)
    ensures forall d :: d in Allocated(L) ==> Joined(L, b).size[d] == L.size[d]
  {
    JoinedShape(L, b);
  }

  /** Whatever the two neighbours were, afterwards no two neighbours are both free. */
  lemma JoinedCoalesced(L: Layout, b: int)
    requires Tiled(L) && b in L.free && Coalesced(L, {b})
    ensures Coalesced(Joined(L, b), {})
  {
    var J, a, c := Joined(L, b), JoinStart(L, b), b + L.size[b];
    JoinedShape(L, b);
    forall p, q | p in J.free && q in J.free && IsPrev(J, p, q)
      ensures false
    {
      JoinedPair(L, b, p, q);
    }
  }

  lemma JoinedPair(L: Layout, b: int, p: int, q: int)
    requires Tiled(L) && b in L.free && Coalesced(L, {b})
    requires p in Joined(L, b).free && q in Joined(L, b).free
    ensures !IsPrev(Joined(L, b), p, q)
  {
    var J, a, c := Joined(L, b), JoinStart(L, b), b + L.size[b];
    JoinedShape(L, b);
    assert BlockOk(L, a) && BlockOk(L, b);
    if q == a && p != a {
      assert p in L.size && p != b && J.size[p] == L.size[p];
      if a == b {
        assert BlockOk(L, p);
        assert !IsFreePrev(L, p, b);
      } else {
        assert !IsPrev(L, p, a);
      }
    } else if p == a {
      if c in L.free {
        assert BlockOk(L, c);
        assert q in L.free && q != b ==> !IsPrev(L, c, q);
      }
    } else {
      assert p != b && q != b && !IsPrev(L, p, q);
    }
  }

  lemma JoinStartIs(L: Layout, a: int, b: int, bit: int)
    requires Tiled(L) && b in L.free
    requires if bit == 0 then a in L.free && IsPrev(L, a, b) else forall p :: IsPrev(L, p, b) ==> p !in L.free
    ensures JoinStart(L, b) == if bit == 0 then a else b
  {
    if bit == 0 {
      assert IsFreePrev(L, a, b);
      PrevUnique(L, a, JoinStart(L, b), b);
    }
  }

  lemma NothingToJoin(L: Layout, b: int)
    requires Tiled(L) && b in L.free && b + L.size[b] !in L.free && forall p :: IsPrev(L, p, b) ==> p !in L.free
    ensures Joined(L, b) == L && JoinStart(L, b) == b
  {
  }

  /** Once the free neighbours are off their lists, two tag writes finish the join. */
  lemma JoinRewritten(w: map<int, Word>, L: Layout, w': map<int, Word>, b: int, fl: seq<seq<int>>, listed: set<int>)
    requires Tiled(L) && Tags(w, L) && b in L.free && Lists(w, Base(L), fl, L.size, listed)
    requires var J, a := Joined(L, b), JoinStart(L, b);
             && listed == J.free - {a}
             && a in J.size && 0 <= Tag(J, a) < 0x1_0000_0000 && w' == Retagged(w, J, a)
    ensures var J := Joined(L, b);
            Tags(w', J) && Lists(w', Base(J), fl, J.size, listed) && Kept(w, L, w', J, Allocated(L))
  {
    var J, a := Joined(L, b), JoinStart(L, b);
    JoinedTiled(L, b);
    JoinedShape(L, b);
    JoinedAllocated(L, b);
    assert BlockOk(J, a);
    RetaggedOne(w, J, a);
    Rewritten(w, L, w', J, {a}, fl, listed, Allocated(L));
  }
}
