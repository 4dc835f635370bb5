/** What mm_realloc does to the layout and to the bytes of the block it resizes. */
module Resizing {
  import opened Memlib
  import opened FreeLists
  import opened Blocks
  import opened Coalescing

  /** The payload words that blocks b before and c after have in common hold the same values. */
  ghost predicate SamePayload(w: map<int, Word>, L: Layout, b: int, w': map<int, Word>, L': Layout, c: int)
    requires b in L.size && c in L'.size
  {
    forall j :: Payload(L', c, j) && Payload(L, b, j - 2 * c + 2 * b) ==> At(w', j) == At(w, j - 2 * c + 2 * b)
  }

  /** The tags of a split block lie outside the payload it keeps. */
  lemma SplitPayload(w: map<int, Word>, w': map<int, Word>, L: Layout, b: int, n: int)
    requires b in L.size && 2 <= n <= L.size[b] - 2 && OnlyTagsOf(w, w', Split(L, b, n), {b, b + n})
    ensures SamePayload(w, L, b, w', Split(L, b, n), b)
  {
    forall j | Payload(Split(L, b, n), b, j)
      ensures At(w', j) == At(w, j)
    {
      assert !TagOf(Split(L, b, n), {b, b + n}, j);
    }
  }

  /** Splitting an allocated block makes two allocated blocks. */
  lemma ShrunkLayout(L: Layout, b: int, n: int)
    requires Tiled(L) && Coalesced(L, {}) && b in Allocated(L) && 2 <= n <= L.size[b] - 2
    ensures var S := Split(L, b, n);
            && Tiled(S) && Coalesced(S, {}) && b + n !in L.size
            && Allocated(S) == Allocated(L) + {b + n} && S.free == L.free
            && S.size == L.size[b := n][b + n := L.size[b] - n]
  {
    var S := Split(L, b, n);
    SplitTiled(L, b, n);
    forall p, q | p in S.free && q in S.free && IsPrev(S, p, q)
      ensures false
    {
      assert IsPrev(L, p, q);
    }
  }

  /** Swallowing the free block that follows keeps the set of allocated blocks. */
  lemma AbsorbedLayout(L: Layout, b: int)
    requires Tiled(L) && Coalesced(L, {}) && b in Allocated(L) && b + L.size[b] in L.free
    ensures var M, c := Merge(L, b), b + L.size[b];
            && Tiled(M) && Coalesced(M, {}) && Allocated(M) == Allocated(L) && M.free == L.free - {c}
            && M.size == (L.size - {c})[b := L.size[b] + L.size[c]]
  {
    var M := Merge(L, b);
    MergeTiled(L, b);
    forall p, q | p in M.free && q in M.free && IsPrev(M, p, q)
      ensures false
    {
      assert IsPrev(L, p, q);
    }
  }

  /** At the end of the heap, after an allocated block, extend_heap has nothing to join. */
  lemma ExtendedAfterAllocated(L: Layout, n: int, b: int)
    requires Tiled(L) && 2 <= n && b in Allocated(L) && IsPrev(L, b, L.end)
    ensures Extended(L, n) == Grow(L, n) && ExtendedStart(L, n) == L.end && L.end !in L.size
  {
    var G, e := Grow(L, n), L.end;
    GrowTiled(L, n);
    assert BlockOk(G, e);
    assert e + n in G.size ==> BlockOk(G, e + n);
    forall p | IsPrev(G, p, e)
      ensures p !in G.free
    {
      assert IsPrev(G, b, e);
      PrevUnique(G, p, b, e);
    }
    NothingToJoin(G, e);
  }

  /** Stores inside one allocated payload leave the tags, the lists and every other payload alone. */
  lemma PayloadWritten(w: map<int, Word>, w': map<int, Word>, L: Layout, fl: seq<seq<int>>, c: int)
    requires Tiled(L) && Tags(w, L) && Lists(w, Base(L), fl, L.size, L.free) && c in Allocated(L)
    requires forall i :: !Payload(L, c, i) ==> At(w', i) == At(w, i)
    ensures Tags(w', L) && Lists(w', Base(L), fl, L.size, L.free) && Kept(w, L, w', L, Allocated(L) - {c})
  {
    PayloadWrittenTags(w, w', L, c);
    forall i | LinkWord(Base(L), L.free, i)
      ensures At(w', i) == At(w, i)
    {
      if Payload(L, c, i) {
        PayloadIsNotLink(L, L.free, c, i);
      }
    }
    ListsFrame(w, w', Base(L), fl, L.size, L.size, L.free);
    forall b | b in Allocated(L) - {c}
      ensures KeptBlock(w, L, w', L, b)
    {
      assert Apart(L, b, c);
    }
  }

  lemma PayloadWrittenTags(w: map<int, Word>, w': map<int, Word>, L: Layout, c: int)
    requires Tiled(L) && Tags(w, L) && c in L.size
    requires forall i :: !Payload(L, c, i) ==> At(w', i) == At(w, i)
    ensures Tags(w', L)
  {
    assert BlockOk(L, c);
    forall b | b in L.size
      ensures Tagged(w', L, b)
    {
      assert Tagged(w, L, b);
      TagVersusBlock(L, b, c);
    }
  }

  /** What a successful mm_realloc of block b promises when it returns block c. */
  ghost predicate Resized(w: map<int, Word>, L: Layout, b: int, w': map<int, Word>, L': Layout, c: int, size: int) {
    && b in Allocated(L) && c in Allocated(L')
    && (c == b || c !in Allocated(L))
    && Allocated(L') == Allocated(L) - {b} + {c}
    && size <= 8 * L'.size[c] - 8
    && SamePayload(w, L, b, w', L', c)
    && Kept(w, L, w', L', Allocated(L) - {b})
  }

  /** A step that keeps every live block, extending the heap say, may come before a resize. */
  lemma ResizedAfter(w: map<int, Word>, L: Layout, w1: map<int, Word>, L1: Layout, b: int,
                     w': map<int, Word>, L': Layout, c: int, size1: int, size: int)
    requires Kept(w, L, w1, L1, Allocated(L)) && Allocated(L1) == Allocated(L)
    requires Resized(w1, L1, b, w', L', c, size1) && size <= size1
    ensures Resized(w, L, b, w', L', c, size)
  {
    assert KeptBlock(w, L, w1, L1, b);
    KeptTwice(w, L, w1, L1, w', L', Allocated(L), Allocated(L) - {b});
    assert Allocated(L) * (Allocated(L) - {b}) == Allocated(L) - {b};
    forall j | Payload(L', c, j) && Payload(L, b, j - 2 * c + 2 * b)
      ensures At(w', j) == At(w, j - 2 * c + 2 * b)
    {
      assert At(w1, j - 2 * c + 2 * b) == At(w, j - 2 * c + 2 * b);
    }
  }
}
