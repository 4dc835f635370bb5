/** What place, mm_free, extend_heap and mm_realloc do to the layout before any coalescing. */
module Placing {
  import opened Blocks
  import opened Coalescing

  lemma MarkTiled(L: Layout, b: int, isFree: bool)
    requires Tiled(L) && b in L.size
    ensures Tiled(Mark(L, b, isFree))
  {
    var M := Mark(L, b, isFree);
    forall c | c in M.size
      ensures BlockOk(M, c)
    {
      assert BlockOk(L, c);
      MarkPrev(L, M, c);
    }
    forall c, d | c in M.size && d in M.size && c != d
      ensures Apart(M, c, d)
    {
      assert Apart(L, c, d);
    }
    MarkPrev(L, M, L.end);
  }

  lemma MarkPrev(L: Layout, M: Layout, c: int)
    requires M.size == L.size && M.first == L.first && HasPrev(L, c)
    ensures HasPrev(M, c)
  {
    if c != L.first {
      var a :| IsPrev(L, a, c);
      assert IsPrev(M, a, c);
    }
  }

  /** Taking n double words from the front of free block b; the rest stays free. */
  ghost function Carved(L: Layout, b: int, n: int): Layout
    requires b in L.size
  {
    Mark(Split(L, b, n), b, false)
  }

  /** The layout place leaves. */
  ghost function Placed(L: Layout, b: int, n: int): Layout
    requires b in L.size
  {
    if L.size[b] - n >= 2 then Carved(L, b, n) else Mark(L, b, false)
  }

  lemma CarvedTiled(L: Layout, b: int, n: int)
    requires Tiled(L) && b in L.free && 2 <= n <= L.size[b] - 2
    ensures var C := Carved(L, b, n);
            && Tiled(C) && b + n !in L.size && C.size == L.size[b := n][b + n := L.size[b] - n]
            && C.free == L.free - {b} + {b + n}
  {
    SplitTiled(L, b, n);
    MarkTiled(Split(L, b, n), b, false);
  }

  /** The rest of a carved block has no free neighbour. */
  lemma CarvedAlone(L: Layout, b: int, n: int)
    requires Tiled(L) && b in L.free && 2 <= n <= L.size[b] - 2 && Coalesced(L, {})
    ensures var C := Carved(L, b, n);
            && Tiled(C) && b + n in C.free && Coalesced(C, {b + n})
            && Joined(C, b + n) == C && JoinStart(C, b + n) == b + n
  {
    var C, c := Carved(L, b, n), b + n;
    CarvedTiled(L, b, n);
    var e := b + L.size[b];
    assert BlockOk(L, b);
    assert IsPrev(L, b, e);
    forall p | IsPrev(C, p, c)
      ensures p !in C.free
    {
      assert IsPrev(C, b, c);
      PrevUnique(C, p, b, c);
    }
    NothingToJoin(C, c);
    forall p, q | p in C.free && q in C.free && IsPrev(C, p, q)
      ensures p == c || q == c
    {
      assert p != c && q != c ==> !IsPrev(L, p, q);
    }
  }

  /** Marking a free block allocated keeps neighbours apart. */
  lemma TakenCoalesced(L: Layout, b: int)
    requires Coalesced(L, {}) && b in L.size
    ensures Coalesced(Mark(L, b, false), {})
  {
    var M := Mark(L, b, false);
    forall p, q | p in M.free && q in M.free && IsPrev(M, p, q)
      ensures false
    {
      assert IsPrev(L, p, q);
    }
  }

  /** Freeing a block leaves it as the only one that may need coalescing. */
  lemma FreedCoalesced(L: Layout, b: int)
    requires Coalesced(L, {}) && b in L.size
    ensures Coalesced(Mark(L, b, true), {b})
  {
    var M := Mark(L, b, true);
    forall p, q | p in M.free && q in M.free && IsPrev(M, p, q)
      ensures p == b || q == b
    {
      assert p != b && q != b ==> !IsPrev(L, p, q);
    }
  }

  lemma GrownCoalesced(L: Layout, n: int)
    requires Tiled(L) && 2 <= n && Coalesced(L, {})
    ensures Coalesced(Grow(L, n), {L.end})
  {
    var G := Grow(L, n);
    GrowTiled(L, n);
    forall p, q | p in G.free && q in G.free && IsPrev(G, p, q)
      ensures p == L.end || q == L.end
    {
      assert p != L.end && q != L.end ==> !IsPrev(L, p, q);
    }
  }

  lemma PlacedAllocated(L: Layout, b: int, n: int)
    requires Tiled(L) && b in L.free && 2 <= n <= L.size[b]
    ensures var P := Placed(L, b, n);
            && Allocated(P) == Allocated(L) + {b} && n <= P.size[b] <= n + 1
            && (forall d :: d in Allocated(L) ==> d in P.size && P.size[d] == L.size[d])
  {
    if L.size[b] - n >= 2 {
      CarvedTiled(L, b, n);
    }
  }

  /** The extended heap ends in a free block that has at least the new double words. */
  lemma ExtendedShape(L: Layout, n: int)
    requires Tiled(L) && 2 <= n
    ensures var E, a := Extended(L, n), ExtendedStart(L, n);
            && a in E.free && a in E.size && n <= E.size[a] && L.first <= a && a + E.size[a] == E.end == L.end + n
            && Allocated(E) == Allocated(L)
  {
    var G, e := Grow(L, n), L.end;
    GrowTiled(L, n);
    JoinedTiled(G, e);
    JoinedShape(G, e);
    JoinedAllocated(G, e);
    assert BlockOk(Joined(G, e), JoinStart(G, e));
    assert e + n !in G.free by {
      assert BlockOk(G, e);
      assert e + n in G.size ==> BlockOk(G, e + n);
    }
  }
}
