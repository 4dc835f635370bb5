/**
 mm.c: the segregated-free-list allocator over the simulated heap.
 Every pointer is a byte address. The ghost layout L and the ghost lists fl are the two readings
 of the heap that every operation breaks and repairs.
 */
module Mm {
  import opened Common
  import opened Memlib
  import opened FreeLists
  import opened Blocks
  import opened Coalescing
  import opened Placing
  import opened Resizing
  import opened HeapFacts

  const WSIZE := 4
  const DSIZE := 8
  const CHUNKSIZE := 4096
  const NULL := 0
  const FREE := 0
  const ALLOCATED := 1

  /** What mm_init takes from mem_sbrk in all: ten list heads, four words, one chunk. */
  const INITIAL := 40 + 16 + CHUNKSIZE

  function Max(x: int, y: int): int {
    if x > y then x else y
  }

  /** Block size for a request: payload, header and footer, rounded up to a double word. */
  function Adjusted(size: nat): int {
    if size <= DSIZE then 2 * DSIZE else DSIZE * ((size + DSIZE + (DSIZE - 1)) / DSIZE)
  }

  lemma AdjustedBounds(size: nat)
    ensures size + 8 <= Adjusted(size) && Adjusted(size) % 8 == 0 && (size > DSIZE ==> Adjusted(size) <= size + 15)
  {
  }

  /** One free block of CHUNKSIZE bytes. */
  ghost function InitialLayout(first: int): Layout {
    Layout(first, first + CHUNKSIZE / 8, map[first := CHUNKSIZE / 8], {first})
  }

  lemma InitialExtended(first: int)
    ensures Extended(Layout(first, first, map[], {}), CHUNKSIZE / 8) == InitialLayout(first)
  {
  }

  /** It is the shortest legal block: a multiple of 8, at least 16, with room for both tags. */
  lemma AdjustedLeast(size: nat, m: int)
    requires m % 8 == 0 && 16 <= m && size + 8 <= m
    ensures 16 <= Adjusted(size) <= m
  {
  }

  /** size | alloc, for alloc 0 or 1 */
  function Pack(size: int, alloc: int): int {
    if alloc == 0 then size else size + 1 - size % 2
  }

  /** w & ~0x7 */
  function SizeBits(w: int): int {
    w - w % 8
  }

  /** w & 0x1 */
  function AllocBit(w: int): int {
    w % 2
  }

  /** size_t to int, as in the call of mem_sbrk */
  function ToInt(size: int): int {
    if size < 0x8000_0000 then size else size - 0x1_0000_0000
  }

  // ---- when requests succeed, and where they leave the break ----

  /** Some free block is long enough. */
  ghost predicate Fits(L: Layout, asize: int) {
    exists c :: c in L.free && c in L.size && asize <= 8 * L.size[c]
  }

  /**
   The classes are separated by the powers of two from 32 to 512. No free block that is long enough is
   in a lower class than b.
   */
  ghost predicate InLowestClass(L: Layout, asize: int, b: int)
    requires b in L.size
  {
    forall c, k: nat {:trigger L.size[c], Pow2(k)} ::
      c in L.free && c in L.size && asize <= 8 * L.size[c] && 4 < k < 10 ==> !(8 * L.size[c] < Pow2(k) <= 8 * L.size[b])
  }

  lemma ClassesApart(m: nat, n: nat, k: nat)
    requires 0 < m < Pow2(k) <= n && k < 10
    ensures ListIndex(m) < ListIndex(n)
  {
    ListIndexIs(m);
    ListIndexIs(n);
    if ListIndex(n) + 4 <= k {
      Pow2Monotone(ListIndex(n) + 4, k);
    }
    if k <= ListIndex(m) + 3 {
      Pow2Monotone(k, ListIndex(m) + 3);
    }
  }

  /** mm_malloc finds or makes room, with the break at brk and the heap ending at max. */
  ghost predicate Serves(L: Layout, asize: int, brk: int, max: int) {
    Fits(L, asize) || (asize < 0x8000_0000 && brk + Max(asize, CHUNKSIZE) <= max)
  }

  /** The layout from which mm_malloc takes n double words: the heap grows first if nothing fits. */
  ghost function Roomy(L: Layout, n: int): Layout {
    if Fits(L, 8 * n) then L else Extended(L, if n > 512 then n else 512)
  }

  /** n double words are taken from a free block, or if nothing fits, from the block at the new end. */
  ghost predicate TakenFrom(L: Layout, L': Layout, b: int, n: int) {
    && b in Roomy(L, n).size && L' == Placed(Roomy(L, n), b, n)
    && if Fits(L, 8 * n) then b in L.free else b == ExtendedStart(L, if n > 512 then n else 512)
  }

  /** The break after mm_malloc has found or made room. */
  ghost function ServedBreak(L: Layout, asize: int, brk: int): int {
    if Fits(L, asize) then brk else brk + Max(asize, CHUNKSIZE)
  }

  /**
   Whether mm_realloc can leave block b in place: it is long enough; or it is the last one and less
   than a chunk is missing; or the next block is free and leaves more than enough.
   */
  ghost predicate InPlace(L: Layout, b: int, reqsize: int)
    requires b in L.size
  {
    var d := b + L.size[b];
    || reqsize <= 8 * L.size[b]
    || if d == L.end then reqsize < 8 * L.size[b] + CHUNKSIZE
       else d in L.free && d in L.size && reqsize < 8 * (L.size[b] + L.size[d])
  }

  /** The break that mm_realloc asks for before anything else: a block that is last is extended first. */
  ghost function ExtendedBreak(L: Layout, b: int, reqsize: int, brk: int): int
    requires b in L.size
  {
    if reqsize > 8 * L.size[b] && b + L.size[b] == L.end then brk + Max(ToInt(reqsize - 8 * L.size[b]), CHUNKSIZE)
    else brk
  }

  /** mm_realloc succeeds: that extension is possible, and the block stays or another place is found. */
  ghost predicate Resizable(L: Layout, b: int, reqsize: int, brk: int, max: int)
    requires b in L.size
  {
    var extended := ExtendedBreak(L, b, reqsize, brk);
    extended <= max && (InPlace(L, b, reqsize) || Serves(L, reqsize, extended, max))
  }

  /** The break after a successful mm_realloc. */
  ghost function ResizedBreak(L: Layout, b: int, reqsize: int, brk: int): int
    requires b in L.size
  {
    var extended := ExtendedBreak(L, b, reqsize, brk);
    if InPlace(L, b, reqsize) then extended else ServedBreak(L, reqsize, extended)
  }

  /** The break after mm_realloc has returned NULL: an extension that was made stays. */
  ghost function RefusedBreak(L: Layout, b: int, reqsize: int, brk: int, max: int): int
    requires b in L.size
  {
    var extended := ExtendedBreak(L, b, reqsize, brk);
    if extended <= max then extended else brk
  }

  /**
   How long block c is after mm_realloc of block b: as a new block, if it was moved; cut to the request if at
   least 16 bytes are left over; longer by the whole extension, or by the whole next block.
   */
  ghost predicate LengthIs(L: Layout, b: int, asize: int, L': Layout, c: int, grown: int)
    requires b in L.size && c in L'.size
  {
    var s, d := L.size[b], b + L.size[b];
    if c != b then asize <= 8 * L'.size[c] <= asize + 8
    else if asize <= 8 * s then L'.size[b] == if 8 * s - asize < 16 then s else asize / 8
    else if d == L.end then 8 * L'.size[b] == 8 * s + grown
    else d in L.size && L'.size[b] == s + L.size[d]
  }

  /** A new last block that is too short itself makes no difference to what fits. */
  lemma GrownFits(L: Layout, n: int, asize: int)
    requires L.end !in L.size && 8 * n < asize
    ensures Fits(Grow(L, n), asize) <==> Fits(L, asize)
  {
    var G := Grow(L, n);
    if c :| c in L.free && c in L.size && asize <= 8 * L.size[c] {
      assert c in G.free && c in G.size && G.size[c] == L.size[c];
    }
  }

  // ---- a heap that is filled, and then freed in front ----

  lemma InitialGrown(f: int, n: int)
    requires n > 512
    ensures !Fits(InitialLayout(f), 8 * n)
    ensures Extended(InitialLayout(f), n) == Layout(f, f + 512 + n, map[f := 512 + n], {f})
    ensures ExtendedStart(InitialLayout(f), n) == f
  {
    var G := Grow(InitialLayout(f), n);
    assert G == Layout(f, f + 512 + n, map[f := 512, f + 512 := n], {f, f + 512});
    assert IsFreePrev(G, f, f + 512);
    assert JoinNext(G, f + 512) == G;
    assert Merge(G, f).size == map[f := 512 + n];
    assert Merge(G, f).free == {f};
  }

  /** Front and back, with only the back free. */
  ghost function Front(f: int, n: int): Layout {
    Layout(f, f + 512 + n, map[f := n, f + n := 512], {f + n})
  }

  lemma FrontServed(f: int, n: int, brk: int)
    requires n > 512 && 8 * n < 0x8000_0000
    ensures Adjusted(8 * n - 8) == 8 * n && Serves(InitialLayout(f), 8 * n, brk, brk + 8 * n)
    ensures ServedBreak(InitialLayout(f), 8 * n, brk) == brk + 8 * n
  {
    InitialGrown(f, n);
    assert Adjusted(8 * n - 8) == 8 * ((8 * n + 7) / 8);
  }

  lemma FilledFront(f: int, n: int, L': Layout, b: int)
    requires n > 512 && TakenFrom(InitialLayout(f), L', b, n)
    ensures L' == Front(f, n) && b == f
  {
    InitialGrown(f, n);
    assert Placed(Layout(f, f + 512 + n, map[f := 512 + n], {f}), f, n) == Front(f, n);
  }

  lemma BackFits(f: int, n: int)
    ensures Fits(Front(f, n), 4096)
  {
    var L := Front(f, n);
    assert f + n in L.free && f + n in L.size && 4096 <= 8 * L.size[f + n];
  }

  lemma FilledBack(f: int, n: int, L': Layout, b: int)
    requires n > 512 && TakenFrom(Front(f, n), L', b, 512)
    ensures L' == Front(f, n).(free := {}) && b == f + n
  {
    BackFits(f, n);
  }

  lemma FrontFreed(f: int, n: int)
    requires n > 512
    ensures Joined(Mark(Front(f, n).(free := {}), f, true), f) == Front(f, n).(free := {f})
    ensures Fits(Front(f, n).(free := {f}), Adjusted(4089))
  {
    var L := Front(f, n).(free := {f});
    assert Mark(Front(f, n).(free := {}), f, true) == L;
    assert forall a :: !IsFreePrev(L, a, f);
    assert f in L.free && f in L.size && Adjusted(4089) <= 8 * L.size[f];
  }

  /** A new block, a copy and a free together resize. */
  lemma MovedResized(w0: map<int, Word>, L0: Layout, w1: map<int, Word>, L1: Layout, w2: map<int, Word>, L2: Layout,
                     b: int, c: int, size: nat)
    requires b in Allocated(L0) && c !in Allocated(L0) && Allocated(L1) == Allocated(L0) + {c}
    requires Kept(w0, L0, w1, L1, Allocated(L0))
    requires Allocated(L2) == Allocated(L1) - {b} && Kept(w1, L1, w2, L2, Allocated(L1) - {b, c})
    requires b in L1.size && c in L2.size && SamePayload(w1, L1, b, w2, L2, c) && size <= 8 * L2.size[c] - 8
    ensures Resized(w0, L0, b, w2, L2, c, size)
  {
    assert KeptBlock(w0, L0, w1, L1, b);
    KeptTwice(w0, L0, w1, L1, w2, L2, Allocated(L0), Allocated(L1) - {b, c});
    assert Allocated(L0) * (Allocated(L1) - {b, c}) == Allocated(L0) - {b};
  }

  lemma PackUnpack(n: int, a: int)
    requires 0 <= a <= 1
    ensures Pack(8 * n, a) == 8 * n + a && SizeBits(8 * n + a) == 8 * n && AllocBit(8 * n + a) == a
  {
    assert 8 * n + a == 2 * (4 * n) + a;
    assert (8 * n + a) / 8 == n;
  }

  class Allocator {
    const mem: Memory
    var heapListp: int
    var freeList: int
    ghost var L: Layout
    ghost var fl: seq<seq<int>>

    /** The static variables before mm_init. */
    constructor (mem: Memory)
      ensures this.mem == mem && heapListp == NULL && L.size == map[] && L.free == {}
    {
      this.mem := mem;
      heapListp, freeList := NULL, NULL;
      L, fl := Layout(0, 0, map[], {}), [];
    }

    /** Where things are: the list array, the prologue, the blocks, and the epilogue at the break. */
    ghost predicate Geometry()
      reads this, mem, mem.bytes
    {
      && mem.Valid()
      && freeList == 8 * (L.first - 7) && mem.origin <= L.first - 7
      && heapListp == freeList + 48
      && mem.brk == 8 * L.end
      && Tiled(L)
    }

    /** The invariant while the free blocks outside `listed` are being moved. */
    ghost predicate Mid(listed: set<int>)
      reads this, mem, mem.bytes
    {
      && Geometry()
      && listed <= L.free
      && Tags(mem.words, L)
      && Lists(mem.words, Base(L), fl, L.size, listed)
    }

    /** All free blocks are listed, and no two of them are neighbours. */
    ghost predicate Settled()
      reads this, mem, mem.bytes
    {
      Mid(L.free) && Coalesced(L, {})
    }

    /** The invariant of the public operations: mm_init has also made a first block. */
    ghost predicate Valid()
      reads this, mem, mem.bytes
    {
      Settled() && L.first < L.end
    }

    /** Word i is heap storage below the break. */
    ghost predicate InUse(i: int)
      reads mem
    {
      mem.IsWord(i) && 4 * i + 4 <= mem.brk
    }

    lemma InUseFrom(i: int)
      requires Geometry() && Base(L) <= i < 2 * L.end
      ensures InUse(i)
    {
    }

    lemma BlockInUse(b: int)
      requires Geometry() && b in L.size
      ensures b > 0 && 2 <= L.size[b] && InUse(2 * b - 1) && InUse(2 * b) && InUse(2 * b + 1)
      ensures InUse(2 * (b + L.size[b]) - 2) && InUse(2 * (b + L.size[b]) - 1)
    {
      assert BlockOk(L, b);
    }

    method GetSucc(bp: int, ghost b: int) returns (r: Word)
      requires mem.Valid() && bp == 8 * b && mem.IsWord(2 * b)
      ensures r == At(mem.words, 2 * b)
    {
      r := mem.GetWord(bp, 2 * b);
    }

    method GetPred(bp: int, ghost b: int) returns (r: Word)
      requires mem.Valid() && bp == 8 * b && mem.IsWord(2 * b + 1)
      ensures r == At(mem.words, 2 * b + 1)
    {
      r := mem.GetWord(bp + WSIZE, 2 * b + 1);
    }

    static method GetFreeListIdx(sizeOfBlk: nat) returns (r: int)
      ensures r == ListIndex(sizeOfBlk)
      // the size lies between two powers of two that the index names; the last list has no upper bound
      ensures sizeOfBlk == 0 ==> r == -3
      ensures sizeOfBlk > 0 ==> -3 <= r <= 6 && Pow2(r + 3) <= sizeOfBlk && (r < 6 ==> sizeOfBlk < Pow2(r + 4))
      ensures sizeOfBlk >= 16 ==> r >= 1
    {
      ListIndexIs(sizeOfBlk);
      if sizeOfBlk >= 16 {
        ListIndexMonotone(16, sizeOfBlk);
      }
      var listIdx, size := 0, sizeOfBlk;
      while listIdx < LISTS - 1 && size > 1
        invariant 0 <= listIdx <= LISTS - 1
        invariant listIdx + FloorLog2(size) == FloorLog2(sizeOfBlk)
      {
        size := size / 2;
        listIdx := listIdx + 1;
      }
      return listIdx - 3;
    }

    /** The pointer surgery of delete_node, on one list. */
    method Unlink(bp: int, listIdx: nat, ghost head: int, ghost s: seq<int>, ghost k: nat)
      requires mem.Valid() && k < |s| && bp == 8 * s[k] && Chain(mem.words, head, s)
      requires freeList + 4 * listIdx == 4 * head && InUse(head)
      requires NodesUsable(s)
      modifies mem`words, mem.bytes
      ensures mem.Valid() && mem.words == Unlinked(old(mem.words), head, s, k)
    {
      assert Linked(mem.words, s, k);
      var pred := GetPred(bp, s[k]);
      var succ := GetSucc(bp, s[k]);
      if pred != NULL {
        if succ != NULL {
          mem.PutWord(pred, succ, 2 * s[k - 1]);
          mem.PutWord(succ + WSIZE, pred, 2 * s[k + 1] + 1);
        } else {
          mem.PutWord(pred, NULL, 2 * s[k - 1]);
        }
      } else {
        if succ != NULL {
          mem.PutWord(succ + WSIZE, NULL, 2 * s[k + 1] + 1);
          mem.PutWord(freeList + 4 * listIdx, succ, head);
        } else {
          mem.PutWord(freeList + 4 * listIdx, NULL, head);
        }
      }
      assert mem.words == Unlinked(old(mem.words), head, s, k);
    }

    /** The link words of these blocks are heap storage. */
    ghost predicate NodesUsable(s: seq<int>)
      reads mem
    {
      forall k {:trigger s[k]} :: 0 <= k < |s| ==> s[k] > 0 && InUse(2 * s[k]) && InUse(2 * s[k] + 1)
    }

    lemma NodesInUse(listed: set<int>, i: int)
      requires Geometry() && listed <= L.size.Keys && Lists(mem.words, Base(L), fl, L.size, listed) && 0 <= i < LISTS
      ensures NodesUsable(fl[i])
    {
      assert ListOk(mem.words, Base(L), fl, L.size, listed, i);
      forall k | 0 <= k < |fl[i]|
        ensures fl[i][k] > 0 && InUse(2 * fl[i][k]) && InUse(2 * fl[i][k] + 1)
      {
        assert fl[i][k] in fl[i];
        BlockInUse(fl[i][k]);
      }
    }

    method DeleteNode(bp: int, size: nat, ghost b: int, ghost listed: set<int>)
      requires Mid(listed) && b in listed && bp == 8 * b && size == 8 * L.size[b]
      modifies this`fl, mem`words, mem.bytes
      ensures Mid(listed - {b}) && Kept(old(mem.words), L, mem.words, L, Allocated(L))
    {
      var listIdx := GetFreeListIdx(size);
      ghost var k := NodeOf(b, size, listed, listIdx);
      Detach(bp, listIdx, b, k, listed);
    }

    method Detach(bp: int, listIdx: nat, ghost b: int, ghost k: nat, ghost listed: set<int>)
      requires Mid(listed) && b in listed && bp == 8 * b && listIdx < LISTS && k < |fl[listIdx]| && fl[listIdx][k] == b
      requires Chain(mem.words, Base(L) + listIdx, fl[listIdx]) && NodesUsable(fl[listIdx])
      modifies this`fl, mem`words, mem.bytes
      ensures Mid(listed - {b}) && Kept(old(mem.words), L, mem.words, L, Allocated(L))
    {
      InUseFrom(Base(L) + listIdx);
      Unlinking(mem.words, L, fl, listed, listIdx, k);
      Unlink(bp, listIdx, Base(L) + listIdx, fl[listIdx], k);
      fl := fl[listIdx := Without(fl[listIdx], k)];
    }

    /** Where a listed block is, and that its list is in the heap. */
    lemma NodeOf(b: int, size: nat, listed: set<int>, i: int) returns (k: nat)
      requires Mid(listed) && b in listed && size == 8 * L.size[b] && i == ListIndex(size)
      ensures 0 <= i < LISTS && k < |fl[i]| && fl[i][k] == b && Chain(mem.words, Base(L) + i, fl[i])
      ensures NodesUsable(fl[i])
    {
      BlockInUse(b);
      assert OnItsList(Base(L), fl, L.size, b) && ListOk(mem.words, Base(L), fl, L.size, listed, i);
      k :| 0 <= k < |fl[i]| && fl[i][k] == b;
      NodesInUse(listed, i);
    }

    /** The pointer writes of insert_node, on one list. */
    method Push(bp: int, listIdx: nat, ghost head: int, ghost s: seq<int>, ghost b: int)
      requires mem.Valid() && bp == 8 * b && b > 0 && InUse(2 * b) && InUse(2 * b + 1)
      requires Chain(mem.words, head, s) && b !in s && head < 2 * b
      requires freeList + 4 * listIdx == 4 * head && InUse(head)
      requires |s| > 0 ==> s[0] > 0 && InUse(2 * s[0] + 1)
      modifies mem`words, mem.bytes
      ensures mem.Valid() && mem.words == Pushed(old(mem.words), head, s, b)
    {
      var headerBp := mem.GetWord(freeList + 4 * listIdx, head);
      if headerBp != NULL {
        mem.PutWord(headerBp + WSIZE, bp, 2 * s[0] + 1);
      }
      mem.PutWord(bp + WSIZE, NULL, 2 * b + 1);
      mem.PutWord(bp, headerBp, 2 * b);
      mem.PutWord(freeList + 4 * listIdx, bp, head);
    }

    method InsertNode(bp: int, ghost b: int, ghost listed: set<int>)
      requires Mid(listed) && b in L.free && b !in listed && bp == 8 * b
      modifies this`fl, mem`words, mem.bytes
      ensures Mid(listed + {b}) && Kept(old(mem.words), L, mem.words, L, Allocated(L))
      // it goes in front of the list of its size
      ensures var i := ListOf(L.size, b); 0 <= i < |old(fl)| && fl == old(fl)[i := [b] + old(fl)[i]]
    {
      ghost var i := PlaceFor(b, listed);
      var size := GetSize(bp - WSIZE, 2 * b - 1, L.size[b], 0);
      var listIdx := GetFreeListIdx(size);
      Linking(mem.words, L, fl, listed, b);
      Push(bp, listIdx, Base(L) + i, fl[i], b);
      fl := fl[i := [b] + fl[i]];
    }

    /** The list a free block belongs on, and that every word insert_node touches is in the heap. */
    lemma PlaceFor(b: int, listed: set<int>) returns (i: int)
      requires Mid(listed) && b in L.free && b !in listed
      ensures 2 <= L.size[b] && i == ListOf(L.size, b) && 0 <= i < LISTS && b !in fl[i]
      ensures Chain(mem.words, Base(L) + i, fl[i]) && 0 <= Base(L) && Base(L) + LISTS < 2 * b
      ensures b > 0 && 8 * b < 0x1_0000_0000 && InUse(2 * b - 1) && InUse(2 * b) && InUse(2 * b + 1)
      ensures At(mem.words, 2 * b - 1) == 8 * L.size[b]
      ensures InUse(Base(L) + i) && freeList + 4 * i == 4 * (Base(L) + i)
      ensures |fl[i]| > 0 ==> fl[i][0] > 0 && InUse(2 * fl[i][0] + 1)
    {
      BlockInUse(b);
      assert Tagged(mem.words, L, b) && BlockOk(L, b);
      ListIndexMonotone(16, 8 * L.size[b]);
      i := ListOf(L.size, b);
      assert ListOk(mem.words, Base(L), fl, L.size, listed, i);
      NodesInUse(listed, i);
      InUseFrom(Base(L) + i);
    }

    // ---- the macros over tags; the ghost arguments name the word and what it holds ----

    method GetSize(p: int, ghost i: int, ghost n: int, ghost a: int) returns (r: int)
      requires mem.Valid() && p == 4 * i && mem.IsWord(i) && At(mem.words, i) == 8 * n + a && 0 <= a <= 1
      ensures r == 8 * n
    {
      var w := mem.GetWord(p, i);
      PackUnpack(n, a);
      r := SizeBits(w);
    }

    method GetAlloc(p: int, ghost i: int, ghost n: int, ghost a: int) returns (r: int)
      requires mem.Valid() && p == 4 * i && mem.IsWord(i) && At(mem.words, i) == 8 * n + a && 0 <= a <= 1
      ensures r == a
    {
      var w := mem.GetWord(p, i);
      PackUnpack(n, a);
      r := AllocBit(w);
    }

    method PutTag(p: int, size: int, alloc: int, ghost i: int, ghost n: int)
      requires mem.Valid() && p == 4 * i && InUse(i) && size == 8 * n && 0 <= alloc <= 1
      requires 0 <= 8 * n < 0xFFFF_FFF8
      modifies mem`words, mem.bytes
      ensures mem.Valid() && mem.words == old(mem.words)[i := 8 * n + alloc]
    {
      PackUnpack(n, alloc);
      mem.PutWord(p, Pack(size, alloc), i);
    }

    method Ftrp(bp: int, ghost b: int, ghost n: int, ghost a: int) returns (r: int)
      requires mem.Valid() && bp == 8 * b && mem.IsWord(2 * b - 1) && At(mem.words, 2 * b - 1) == 8 * n + a
      requires 0 <= a <= 1
      ensures r == 8 * (b + n) - 8
    {
      var size := GetSize(bp - WSIZE, 2 * b - 1, n, a);
      r := bp + size - DSIZE;
    }

    method NextBlkp(bp: int, ghost b: int, ghost n: int, ghost a: int) returns (r: int)
      requires mem.Valid() && bp == 8 * b && mem.IsWord(2 * b - 1) && At(mem.words, 2 * b - 1) == 8 * n + a
      requires 0 <= a <= 1
      ensures r == 8 * (b + n)
    {
      var size := GetSize(bp - WSIZE, 2 * b - 1, n, a);
      r := bp + size;
    }

    method PrevBlkp(bp: int, ghost b: int, ghost n: int, ghost a: int) returns (r: int)
      requires mem.Valid() && bp == 8 * b && mem.IsWord(2 * b - 2) && At(mem.words, 2 * b - 2) == 8 * n + a
      requires 0 <= a <= 1
      ensures r == 8 * (b - n)
    {
      var size := GetSize(bp - DSIZE, 2 * b - 2, n, a);
      r := bp - size;
    }

    /** Header and footer of block b of the layout `to` are stored, and nothing else. */
    method PutTags(bp: int, size: int, alloc: int, ghost b: int, ghost to: Layout)
      requires mem.Valid() && bp == 8 * b && b in to.size && size == 8 * to.size[b] && alloc == Bit(to, b)
      requires 2 <= to.size[b] && InUse(2 * b - 1) && InUse(2 * (b + to.size[b]) - 2)
      modifies mem`words, mem.bytes
      ensures mem.Valid() && 0 <= Tag(to, b) < 0x1_0000_0000 && mem.words == Retagged(old(mem.words), to, b)
    {
      PutTag(bp - WSIZE, size, alloc, 2 * b - 1, to.size[b]);
      var ftr := Ftrp(bp, b, to.size[b], alloc);
      PutTag(ftr, size, alloc, 2 * (b + to.size[b]) - 2, to.size[b]);
    }

    /** New tags for block b, cut to n double words, and for what is split off behind it. */
    method PutSplitTags(bp: int, size: int, rest: int, alloc: int, ghost b: int, ghost n: int, ghost to: Layout)
      returns (nextBp: int)
      requires mem.Valid() && Tiled(to) && bp == 8 * b && b in to.size && to.size[b] == n && size == 8 * n && 2 <= n
      requires b + n in to.size && 2 <= to.size[b + n] && rest == 8 * to.size[b + n]
      requires Bit(to, b) == ALLOCATED && alloc == Bit(to, b + n)
      requires InUse(2 * b - 1) && InUse(2 * (b + n) - 2)
      requires InUse(2 * (b + n) - 1) && InUse(2 * (b + n + to.size[b + n]) - 2)
      modifies mem`words, mem.bytes
      ensures mem.Valid() && nextBp == 8 * (b + n) && OnlyTagsOf(old(mem.words), mem.words, to, {b, b + n})
      ensures Tagged(mem.words, to, b) && Tagged(mem.words, to, b + n)
    {
      ghost var w := mem.words;
      PutTags(bp, size, ALLOCATED, b, to);
      nextBp := NextBlkp(bp, b, n, 1);
      PutTags(nextBp, rest, alloc, b + n, to);
      RetaggedTwo(w, to, b, b + n);
    }

    /** Case 2 of coalesce: only the next block is free. */
    method JoinNextBlock(bp: int, ghost b: int, ghost c: int)
      requires Mid(L.free - {b}) && b in L.free && bp == 8 * b && c == b + L.size[b]
      requires c in L.free && JoinStart(L, b) == b
      modifies this`L, this`fl, mem`words, mem.bytes
      ensures L == Joined(old(L), b) && Mid(L.free - {b})
      ensures Kept(old(mem.words), old(L), mem.words, L, Allocated(L))
    {
      BlockInUse(b);
      BlockInUse(c);
      assert Tagged(mem.words, L, b) && Tagged(mem.words, L, c);
      JoinedShape(L, b);
      var size := GetSize(bp - WSIZE, 2 * b - 1, L.size[b], 0);
      var nextBp := NextBlkp(bp, b, L.size[b], 0);
      var nextSize := GetSize(nextBp - WSIZE, 2 * c - 1, L.size[c], 0);
      DeleteNode(nextBp, nextSize, c, L.free - {b});
      assert L.free - {b} - {c} == Joined(L, b).free - {b};
      JoinTags(bp, size + nextSize, b, b, old(mem.words));
    }

    /** Case 3: only the previous block is free; it becomes the start of the joined block. */
    method JoinPrevBlock(bp0: int, ghost a: int, ghost b: int) returns (bp: int)
      requires Mid(L.free - {b}) && b in L.free && bp0 == 8 * b && b + L.size[b] !in L.free
      requires a in L.free && IsPrev(L, a, b) && JoinStart(L, b) == a
      modifies this`L, this`fl, mem`words, mem.bytes
      ensures L == Joined(old(L), b) && bp == 8 * a && Mid(L.free - {a})
      ensures Kept(old(mem.words), old(L), mem.words, L, Allocated(L))
    {
      BlockInUse(b);
      BlockInUse(a);
      assert Tagged(mem.words, L, b) && Tagged(mem.words, L, a);
      JoinedShape(L, b);
      var size := GetSize(bp0 - WSIZE, 2 * b - 1, L.size[b], 0);
      bp := PrevBlkp(bp0, b, L.size[a], 0);
      var prevSize := GetSize(bp - WSIZE, 2 * a - 1, L.size[a], 0);
      DeleteNode(bp, prevSize, a, L.free - {b});
      assert L.free - {b} - {a} == Joined(L, b).free - {a};
      JoinTags(bp, size + prevSize, a, b, old(mem.words));
    }

    method JoinTags(bp: int, size: int, ghost a: int, ghost b: int, ghost w0: map<int, Word>)
      requires Geometry() && Tags(mem.words, L) && b in L.free && a == JoinStart(L, b) && a in Joined(L, b).free
      requires Lists(mem.words, Base(L), fl, L.size, Joined(L, b).free - {a})
      requires Kept(w0, L, mem.words, L, Allocated(L))
      requires bp == 8 * a && a in Joined(L, b).size && size == 8 * Joined(L, b).size[a]
      modifies this`L, mem`words, mem.bytes
      ensures L == Joined(old(L), b) && Mid(L.free - {a})
      ensures Kept(w0, old(L), mem.words, L, Allocated(L))
    {
      ghost var J, w := Joined(L, b), mem.words;
      JoinedInUse(b);
      PutTags(bp, size, FREE, a, J);
      FinishJoin(w0, w, b);
      L := J;
    }

    lemma JoinedInUse(b: int)
      requires Geometry() && b in L.free
      ensures var J, a := Joined(L, b), JoinStart(L, b);
              a in J.size && 2 <= J.size[a] && InUse(2 * a - 1) && InUse(2 * (a + J.size[a]) - 2)
    {
      JoinedTiled(L, b);
      JoinedShape(L, b);
      assert BlockOk(Joined(L, b), JoinStart(L, b));
    }

    /** Case 4: both are free. The footer is found through tags that are already stale. */
    method JoinBothBlocks(bp0: int, ghost a: int, ghost b: int, ghost c: int) returns (bp: int)
      requires Mid(L.free - {b}) && b in L.free && bp0 == 8 * b && c == b + L.size[b] && c in L.free
      requires a in L.free && IsPrev(L, a, b) && JoinStart(L, b) == a
      modifies this`L, this`fl, mem`words, mem.bytes
      ensures L == Joined(old(L), b) && bp == 8 * a && Mid(L.free - {a})
      ensures Kept(old(mem.words), old(L), mem.words, L, Allocated(L))
    {
      BlockInUse(a);
      BlockInUse(b);
      BlockInUse(c);
      assert Tagged(mem.words, L, a) && Tagged(mem.words, L, b) && Tagged(mem.words, L, c);
      var size := GetSize(bp0 - WSIZE, 2 * b - 1, L.size[b], 0);
      var pbp := PrevBlkp(bp0, b, L.size[a], 0);
      var nbp := NextBlkp(bp0, b, L.size[b], 0);
      var prevSize := GetSize(pbp - WSIZE, 2 * a - 1, L.size[a], 0);
      var nextSize := GetSize(nbp - WSIZE, 2 * c - 1, L.size[c], 0);
      size := size + (prevSize + nextSize);
      JoinBothDelete(bp0, pbp, prevSize, a, b, c);
      bp := JoinBothTags(bp0, size, a, b, c, old(mem.words));
    }

    method JoinBothDelete(bp: int, pbp: int, prevSize: int, ghost a: int, ghost b: int, ghost c: int)
      requires Mid(L.free - {b}) && b in L.free && bp == 8 * b && c == b + L.size[b] && c in L.free
      requires a in L.free && IsPrev(L, a, b) && pbp == 8 * a && prevSize == 8 * L.size[a]
      modifies this`fl, mem`words, mem.bytes
      ensures Mid(L.free - {a, b, c}) && Kept(old(mem.words), L, mem.words, L, Allocated(L))
    {
      ghost var w0 := mem.words;
      BlockInUse(a);
      BlockInUse(b);
      BlockInUse(c);
      DeleteNode(pbp, prevSize, a, L.free - {b});
      ghost var w1 := mem.words;
      assert Tagged(mem.words, L, b) && Tagged(mem.words, L, c);
      var nbp := NextBlkp(bp, b, L.size[b], 0);
      var nextSize := GetSize(nbp - WSIZE, 2 * c - 1, L.size[c], 0);
      DeleteNode(nbp, nextSize, c, L.free - {b} - {a});
      assert L.free - {b} - {a} - {c} == L.free - {a, b, c};
      KeptTwice(w0, L, w1, L, mem.words, L, Allocated(L), Allocated(L));
      assert Allocated(L) * Allocated(L) == Allocated(L);
    }

    method JoinBothTags(bp0: int, size: int, ghost a: int, ghost b: int, ghost c: int, ghost w0: map<int, Word>)
      returns (bp: int)
      requires Mid(L.free - {a, b, c}) && b in L.free && bp0 == 8 * b && c == b + L.size[b] && c in L.free
      requires a in L.free && IsPrev(L, a, b) && JoinStart(L, b) == a
      requires size == 8 * (L.size[a] + L.size[b] + L.size[c])
      requires Kept(w0, L, mem.words, L, Allocated(L))
      modifies this`L, mem`words, mem.bytes
      ensures L == Joined(old(L), b) && bp == 8 * a && Mid(L.free - {a})
      ensures Kept(w0, old(L), mem.words, L, Allocated(L))
    {
      ghost var J, w := Joined(L, b), mem.words;
      BothInUse(a, b, c);
      bp := PutOuterTags(bp0, size, L.size[a], b, L.size[b], c, L.size[c]);
      FinishJoin(w0, w, b);
      L := J;
    }

    /** What the writes of case 4 find, and what they will leave. */
    lemma BothInUse(a: int, b: int, c: int)
      requires Geometry() && Tags(mem.words, L) && b in L.free && c == b + L.size[b] && c in L.free
      requires a in L.free && IsPrev(L, a, b) && JoinStart(L, b) == a
      ensures 0 < L.size[a] && 0 < L.size[b] && 0 < L.size[c]
      ensures InUse(2 * a - 1) && InUse(2 * b - 2) && InUse(2 * b - 1) && InUse(2 * c - 1)
      ensures InUse(2 * (c + L.size[c]) - 2)
      ensures At(mem.words, 2 * b - 2) == 8 * L.size[a] && At(mem.words, 2 * b - 1) == 8 * L.size[b]
      ensures At(mem.words, 2 * c - 1) == 8 * L.size[c]
      ensures var J := Joined(L, b);
              && a in J.free && a in J.size && J.size[a] == L.size[a] + L.size[b] + L.size[c]
              && L.free - {a, b, c} == J.free - {a}
    {
      BlockInUse(a);
      BlockInUse(b);
      BlockInUse(c);
      assert BlockOk(L, b);
      InUseFrom(2 * b - 2);
      assert Tagged(mem.words, L, a) && Tagged(mem.words, L, b) && Tagged(mem.words, L, c);
      JoinedShape(L, b);
    }

    /** The two writes of case 4; between them only the first header has changed. */
    method PutOuterTags(bp0: int, size: int, ghost an: int, ghost b: int, ghost bn: int, ghost c: int, ghost cn: int)
      returns (bp: int)
      requires mem.Valid() && bp0 == 8 * b && b + bn == c && 0 < an && 0 < bn && 0 < cn && size == 8 * (an + bn + cn)
      requires InUse(2 * (b - an) - 1) && InUse(2 * b - 2) && InUse(2 * b - 1) && InUse(2 * c - 1)
      requires InUse(2 * (c + cn) - 2)
      requires At(mem.words, 2 * b - 2) == 8 * an && At(mem.words, 2 * b - 1) == 8 * bn
      requires At(mem.words, 2 * c - 1) == 8 * cn
      modifies mem`words, mem.bytes
      ensures mem.Valid() && bp == 8 * (b - an) && 0 <= size < 0x1_0000_0000
      ensures mem.words == old(mem.words)[2 * (b - an) - 1 := size][2 * (c + cn) - 2 := size]
    {
      var pbp := PrevBlkp(bp0, b, an, 0);
      PutTag(pbp - WSIZE, size, FREE, 2 * (b - an) - 1, an + bn + cn);
      var nbp := NextBlkp(bp0, b, bn, 0);
      var ftr := Ftrp(nbp, c, cn, 0);
      PutTag(ftr, size, FREE, 2 * (c + cn) - 2, an + bn + cn);
      bp := PrevBlkp(bp0, b, an, 0);
    }

    lemma FinishJoin(w0: map<int, Word>, w: map<int, Word>, b: int)
      requires Geometry() && b in L.free && Tags(w, L)
      requires var J, a := Joined(L, b), JoinStart(L, b);
               && Lists(w, Base(L), fl, L.size, J.free - {a})
               && a in J.size && 0 <= Tag(J, a) < 0x1_0000_0000 && mem.words == Retagged(w, J, a)
      requires Kept(w0, L, w, L, Allocated(L))
      ensures var J, a := Joined(L, b), JoinStart(L, b);
              && Tiled(J) && J.first == L.first && J.end == L.end
              && Tags(mem.words, J) && Lists(mem.words, Base(J), fl, J.size, J.free - {a})
              && Kept(w0, L, mem.words, J, Allocated(J))
    {
      JoinedTiled(L, b);
      JoinedAllocated(L, b);
      JoinRewritten(w, L, mem.words, b, fl, Joined(L, b).free - {JoinStart(L, b)});
      KeptTwice(w0, L, w, L, mem.words, Joined(L, b), Allocated(L), Allocated(L));
      assert Allocated(L) * Allocated(L) == Allocated(Joined(L, b));
    }

    method Coalesce(bp0: int, ghost b: int) returns (bp: int)
      requires Mid(L.free - {b}) && b in L.free && bp0 == 8 * b && Coalesced(L, {b})
      modifies this`L, this`fl, mem`words, mem.bytes
      ensures Valid() && L == Joined(old(L), b) && bp == 8 * JoinStart(old(L), b)
      ensures Kept(old(mem.words), old(L), mem.words, L, Allocated(L))
    {
      bp := bp0;
      ghost var L0, w0 := L, mem.words;
      bp := Join(bp0, b);
      ghost var w1, a := mem.words, JoinStart(L0, b);
      JoinedShape(L0, b);
      NotEmpty(L, a);
      JoinedCoalesced(L0, b);
      InsertNode(bp, a, L.free - {a});
      assert L.free - {a} + {a} == L.free;
      KeptTwice(w0, L0, w1, L, mem.words, L, Allocated(L), Allocated(L));
      assert Allocated(L) * Allocated(L) == Allocated(L);
    }

    /** The four cases of coalesce. */
    method Join(bp0: int, ghost b: int) returns (bp: int)
      requires Mid(L.free - {b}) && b in L.free && bp0 == 8 * b
      modifies this`L, this`fl, mem`words, mem.bytes
      ensures L == Joined(old(L), b) && bp == 8 * JoinStart(old(L), b) && Mid(L.free - {JoinStart(old(L), b)})
      ensures Kept(old(mem.words), old(L), mem.words, L, Allocated(L))
    {
      bp := bp0;
      ghost var a, pn, pa, c, nn, na := Neighbours(mem.words, L, b);
      BlockInUse(b);
      InUseFrom(2 * a - 1);
      InUseFrom(2 * c - 1);
      assert Tagged(mem.words, L, b);
      var prevBp := PrevBlkp(bp, b, pn, pa);
      var prevFtr := Ftrp(prevBp, a, pn, pa);
      var prevAlloc := GetAlloc(prevFtr, 2 * b - 2, pn, pa);
      var nextBp := NextBlkp(bp, b, L.size[b], 0);
      var nextAlloc := GetAlloc(nextBp - WSIZE, 2 * c - 1, nn, na);
      JoinStartIs(L, a, b, pa);
      if prevAlloc != 0 && nextAlloc != 0 {
        NothingToJoin(L, b);
      } else if prevAlloc != 0 && nextAlloc == 0 {
        JoinNextBlock(bp, b, c);
      } else if prevAlloc == 0 && nextAlloc != 0 {
        bp := JoinPrevBlock(bp, a, b);
      } else {
        bp := JoinBothBlocks(bp, a, b, c);
      }
    }

    method Place(bp: int, asize: int, ghost b: int, ghost n: int)
      requires Valid() && b in L.free && bp == 8 * b && asize == 8 * n && 2 <= n <= L.size[b]
      modifies this`L, this`fl, mem`words, mem.bytes
      ensures Valid() && L == Placed(old(L), b, n)
      ensures Kept(old(mem.words), old(L), mem.words, L, Allocated(old(L)))
    {
      ghost var w0, L0 := mem.words, L;
      BlockInUse(b);
      assert Tagged(mem.words, L, b);
      var csize := GetSize(bp - WSIZE, 2 * b - 1, L.size[b], 0);
      DeleteNode(bp, csize, b, L.free);
      PlacedAllocated(L, b, n);
      if csize - asize >= 2 * DSIZE {
        ghost var w1 := mem.words;
        Carve(bp, csize, asize, b, n);
        KeptTwice(w0, L0, w1, L0, mem.words, L, Allocated(L0), Allocated(L0));
      } else {
        ghost var w1 := mem.words;
        TakeWhole(bp, csize, b);
        KeptTwice(w0, L0, w1, L0, mem.words, L, Allocated(L0), Allocated(L0));
      }
      assert Allocated(L0) * Allocated(L0) == Allocated(L0);
    }

    /** place's else branch */
    method TakeWhole(bp: int, csize: int, ghost b: int)
      requires Mid(L.free - {b}) && Coalesced(L, {}) && b in L.free && bp == 8 * b && csize == 8 * L.size[b]
      modifies this`L, mem`words, mem.bytes
      ensures Valid() && L == Mark(old(L), b, false)
      ensures Kept(old(mem.words), old(L), mem.words, L, Allocated(old(L)))
    {
      ghost var M, w := Mark(L, b, false), mem.words;
      BlockInUse(b);
      MarkTiled(L, b, false);
      NotEmpty(L, b);
      TakenCoalesced(L, b);
      PutTags(bp, csize, ALLOCATED, b, M);
      RetaggedOne(w, M, b);
      Rewritten(w, L, mem.words, M, {b}, fl, L.free - {b}, Allocated(L));
      L := M;
    }

    /** place's first branch: split, then coalesce the rest (which has nothing to join). */
    method Carve(bp: int, csize: int, asize: int, ghost b: int, ghost n: int)
      requires Mid(L.free - {b}) && Coalesced(L, {}) && b in L.free && bp == 8 * b
      requires csize == 8 * L.size[b] && asize == 8 * n && 2 <= n <= L.size[b] - 2
      modifies this`L, this`fl, mem`words, mem.bytes
      ensures Valid() && L == Carved(old(L), b, n)
      ensures Kept(old(mem.words), old(L), mem.words, L, Allocated(old(L)))
    {
      ghost var w0, L0 := mem.words, L;
      CarvedAlone(L, b, n);
      PlacedAllocated(L, b, n);
      var nextBp := CarveTags(bp, csize, asize, b, n);
      ghost var w1 := mem.words;
      var _ := Coalesce(nextBp, b + n);
      KeptTwice(w0, L0, w1, L, mem.words, L, Allocated(L0), Allocated(L));
      assert Allocated(L0) * Allocated(L) == Allocated(L0);
    }

    method CarveTags(bp: int, csize: int, asize: int, ghost b: int, ghost n: int) returns (nextBp: int)
      requires Mid(L.free - {b}) && b in L.free && bp == 8 * b
      requires csize == 8 * L.size[b] && asize == 8 * n && 2 <= n <= L.size[b] - 2
      modifies this`L, mem`words, mem.bytes
      ensures L == Carved(old(L), b, n) && nextBp == 8 * (b + n) && Mid(L.free - {b + n})
      ensures Kept(old(mem.words), old(L), mem.words, L, Allocated(old(L)))
    {
      ghost var C, w := Carved(L, b, n), mem.words;
      BlockInUse(b);
      CarvedTiled(L, b, n);
      CarvedInUse(b, n);
      nextBp := PutSplitTags(bp, asize, csize - asize, FREE, b, n, C);
      PlacedAllocated(L, b, n);
      Rewritten(w, L, mem.words, C, {b, b + n}, fl, L.free - {b}, Allocated(L));
      L := C;
      assert L.free - {b + n} == old(L).free - {b};
    }

    lemma CarvedInUse(b: int, n: int)
      requires Geometry() && b in L.size && 2 <= n <= L.size[b] - 2
      ensures InUse(2 * (b + n) - 2) && InUse(2 * (b + n) - 1)
    {
      assert BlockOk(L, b);
      InUseFrom(2 * (b + n) - 2);
      InUseFrom(2 * (b + n) - 1);
    }

    /** The first k blocks of list i are all shorter than asize bytes. */
    ghost predicate Rejected(i: int, k: int, asize: int)
      reads this
    {
      0 <= i < |fl| && k <= |fl[i]| && forall j :: 0 <= j < k ==> fl[i][j] in L.size && 8 * L.size[fl[i][j]] < asize
    }

    ghost predicate AllRejected(i: int, asize: int)
      reads this
    {
      0 <= i < |fl| && Rejected(i, |fl[i]|, asize)
    }

    /** First fit: the earliest block, in list order from the list of asize on, that is long enough. */
    method FindFit(asize: nat) returns (bp: int, ghost b: int, ghost k: int)
      requires Valid() && asize >= 16
      ensures bp == NULL ==> forall c :: c in L.free ==> 8 * L.size[c] < asize
      ensures bp != NULL ==> b in L.free && bp == 8 * b && asize <= 8 * L.size[b]
      ensures bp != NULL ==>
                var i := ListOf(L.size, b);
                && (forall j :: ListIndex(asize) <= j < i ==> AllRejected(j, asize))
                && 0 <= i < |fl| && 0 <= k < |fl[i]| && fl[i][k] == b && Rejected(i, k, asize)
      ensures bp != NULL ==> InLowestClass(L, asize, b)
    {
      b, k := 0, 0;
      var listIdx := GetFreeListIdx(asize);
      ListIndexMonotone(16, asize);
      while listIdx < LISTS
        invariant ListIndex(asize) <= listIdx <= LISTS
        invariant forall j :: ListIndex(asize) <= j < listIdx ==> AllRejected(j, asize)
      {
        NodesScannable(listIdx);
        bp, b, k := Scan(listIdx, asize, Base(L) + listIdx);
        if bp != NULL {
          assert ListOk(mem.words, Base(L), fl, L.size, L.free, listIdx) && b in fl[listIdx];
          LowestClass(asize, b);
          return;
        }
        listIdx := listIdx + 1;
      }
      bp := NULL;
      forall c | c in L.free
        ensures 8 * L.size[c] < asize
      {
        NoFit(asize, c);
      }
    }

    /** What the scan meets at node k of list s: a free block, its size, and the next node. */
    ghost predicate Node(s: seq<int>, k: int)
      reads this, mem
    {
      0 <= k < |s| && var b := s[k];
      && b > 0 && b in L.free && b in L.size
      && InUse(2 * b - 1) && InUse(2 * b)
      && At(mem.words, 2 * b - 1) == 8 * L.size[b] && At(mem.words, 2 * b) == Ref(s, k + 1)
    }

    lemma NodesScannable(i: int)
      requires Valid() && 0 <= i < LISTS
      ensures InUse(Base(L) + i) && At(mem.words, Base(L) + i) == Ref(fl[i], 0)
      ensures forall k {:trigger Node(fl[i], k)} :: 0 <= k < |fl[i]| ==> Node(fl[i], k)
    {
      InUseFrom(Base(L) + i);
      assert ListOk(mem.words, Base(L), fl, L.size, L.free, i);
      forall k | 0 <= k < |fl[i]|
        ensures Node(fl[i], k)
      {
        var b := fl[i][k];
        assert b in fl[i] && Linked(mem.words, fl[i], k);
        BlockInUse(b);
        assert Tagged(mem.words, L, b);
      }
    }

    /** The inner loop of find_fit. */
    method Scan(listIdx: nat, asize: nat, ghost head: int) returns (bp: int, ghost b: int, ghost k: int)
      requires mem.Valid() && listIdx < |fl| && freeList + 4 * listIdx == 4 * head && InUse(head)
      requires At(mem.words, head) == Ref(fl[listIdx], 0)
      requires forall k {:trigger Node(fl[listIdx], k)} :: 0 <= k < |fl[listIdx]| ==> Node(fl[listIdx], k)
      ensures bp == NULL ==> AllRejected(listIdx, asize)
      ensures bp != NULL ==> b in L.free && b in L.size && bp == 8 * b && asize <= 8 * L.size[b]
      ensures bp != NULL ==> 0 <= k < |fl[listIdx]| && fl[listIdx][k] == b && Rejected(listIdx, k, asize)
    {
      ghost var s := fl[listIdx];
      b, k := 0, 0;
      bp := mem.GetWord(freeList + 4 * listIdx, head);
      assert |s| > 0 ==> Node(s, 0);
      var alloc := Peek(bp, s, k);
      while bp != NULL && alloc == FREE
        invariant 0 <= k <= |s| && bp == Ref(s, k) && alloc == FREE && (k < |s| ==> Node(s, k))
        invariant Rejected(listIdx, k, asize)
        decreases |s| - k
      {
        b := s[k];
        var size := GetSize(bp - WSIZE, 2 * b - 1, L.size[b], 0);
        if asize <= size {
          return;
        }
        bp := GetSucc(bp, b);
        k := k + 1;
        assert k < |s| ==> Node(s, k);
        alloc := Peek(bp, s, k);
      }
    }

    /** The second half of the loop guard: the allocated bit of the node at bp, if there is one. */
    method Peek(bp: int, ghost s: seq<int>, ghost k: nat) returns (alloc: int)
      requires mem.Valid() && k <= |s| && bp == Ref(s, k) && (k < |s| ==> Node(s, k))
      ensures alloc == FREE
    {
      alloc := FREE;
      if bp != NULL {
        alloc := GetAlloc(bp - WSIZE, 2 * s[k] - 1, L.size[s[k]], 0);
      }
    }

    lemma LowestClass(asize: nat, b: int)
      requires Valid() && asize >= 16 && b in L.free
      requires forall j :: ListIndex(asize) <= j < ListOf(L.size, b) ==> AllRejected(j, asize)
      ensures InLowestClass(L, asize, b)
    {
      forall c, k: nat | c in L.free && asize <= 8 * L.size[c] && 4 < k < 10
        ensures !(8 * L.size[c] < Pow2(k) <= 8 * L.size[b])
      {
        assert BlockOk(L, b) && BlockOk(L, c) && OnItsList(Base(L), fl, L.size, c);
        var i := ListOf(L.size, c);
        ListIndexMonotone(asize, 8 * L.size[c]);
        assert i < ListOf(L.size, b) ==> AllRejected(i, asize);
        if 8 * L.size[c] < Pow2(k) <= 8 * L.size[b] {
          ClassesApart(8 * L.size[c], 8 * L.size[b], k);
          assert false;
        }
      }
    }

    /** Blocks on the lists before that of asize are too small as well. */
    lemma NoFit(asize: nat, c: int)
      requires Valid() && asize >= 16 && c in L.free
      requires forall j :: ListIndex(asize) <= j < LISTS ==> AllRejected(j, asize)
      ensures 8 * L.size[c] < asize
    {
      assert BlockOk(L, c);
      var i := ListOf(L.size, c);
      assert OnItsList(Base(L), fl, L.size, c);
      if asize <= 8 * L.size[c] {
        ListIndexMonotone(asize, 8 * L.size[c]);
      }
      assert ListIndex(asize) <= i ==> AllRejected(i, asize);
    }

    method ExtendHeap(words: nat, ghost n: int) returns (bp: int)
      requires Settled() && 2 <= n && (words == 2 * n || words == 2 * n - 1) && 8 * n < 0x1_0000_0000
      modifies this`L, this`fl, mem`words, mem`brk, mem.bytes
      ensures Settled() && (bp != NULL ==> Valid())
      ensures bp == NULL ==> L == old(L) && fl == old(fl) && mem.words == old(mem.words) && mem.brk == old(mem.brk)
      ensures bp == NULL <==> 8 * n >= 0x8000_0000 || old(mem.brk) + 8 * n > mem.MaxAddr()
      ensures bp != NULL ==>
                L == Extended(old(L), n) && bp == 8 * ExtendedStart(old(L), n) && mem.brk == old(mem.brk) + 8 * n
      ensures bp != NULL ==> ExtendedStart(old(L), n) in L.free && n <= L.size[ExtendedStart(old(L), n)]
      ensures Kept(old(mem.words), old(L), mem.words, L, Allocated(old(L))) && Allocated(L) == Allocated(old(L))
    {
      ghost var e, w0, L0 := L.end, mem.words, L;
      var size := if words % 2 != 0 then (words + 1) * WSIZE else words * WSIZE;
      assert size == 8 * n;
      bp := mem.Sbrk(ToInt(size));
      if bp == -1 {
        return NULL;
      }
      NewBlock(bp, size, n);
      ghost var w1 := mem.words;
      bp := Coalesce(bp, e);
      ExtendedShape(L0, n);
      KeptTwice(w0, L0, w1, Grow(L0, n), mem.words, L, Allocated(L0), Allocated(L));
      assert Allocated(L0) * Allocated(L) == Allocated(L0);
    }

    /** extend_heap between mem_sbrk and coalesce: the old epilogue becomes a header. */
    method NewBlock(bp: int, size: int, ghost n: int)
      requires Grown(n) && bp == 8 * L.end && size == 8 * n && 2 <= n
      modifies this`L, mem`words, mem.bytes
      ensures L == Grow(old(L), n) && Tiled(L) && Mid(L.free - {old(L).end}) && old(L).end in L.free
      ensures Coalesced(L, {old(L).end}) && bp == 8 * old(L).end
      ensures Kept(old(mem.words), old(L), mem.words, L, Allocated(old(L))) && Allocated(L) == Allocated(old(L))
    {
      ghost var w, G, e := mem.words, Grow(L, n), L.end;
      GrowTiled(L, n);
      GrownCoalesced(L, n);
      GrownInUse(n);
      PutNewTags(bp, size, e, n, G);
      GrownHeap(w, mem.words, L, n, fl);
      L := G;
    }

    /** Header and footer of the new block, and the epilogue behind it. */
    method PutNewTags(bp: int, size: int, ghost e: int, ghost n: int, ghost G: Layout)
      requires mem.Valid() && bp == 8 * e && e in G.free && e in G.size && G.size[e] == n && size == 8 * n && 2 <= n
      requires InUse(2 * e - 1) && InUse(2 * (e + n) - 2) && InUse(2 * (e + n) - 1)
      modifies mem`words, mem.bytes
      ensures mem.Valid()
      ensures var i, w := 2 * (e + n) - 2, mem.words;
              && At(w, 2 * e - 1) == 8 * n && At(w, i) == 8 * n && At(w, i + 1) == 1
              && forall j :: j != 2 * e - 1 && j != i && j != i + 1 ==> At(w, j) == At(old(mem.words), j)
    {
      PutTags(bp, size, FREE, e, G);
      var nextBp := NextBlkp(bp, e, n, 0);
      PutTag(nextBp - WSIZE, 0, ALLOCATED, 2 * (e + n) - 1, 0);
    }

    /** Valid(), except that the break has already moved by n double words. */
    ghost predicate Grown(n: int)
      reads this, mem, mem.bytes
    {
      && mem.Valid()
      && freeList == 8 * (L.first - 7) && mem.origin <= L.first - 7
      && heapListp == freeList + 48
      && mem.brk == 8 * (L.end + n)
      && Tiled(L) && Tags(mem.words, L) && Lists(mem.words, Base(L), fl, L.size, L.free) && Coalesced(L, {})
    }

    lemma GrownInUse(n: int)
      requires Grown(n) && 2 <= n
      ensures InUse(2 * L.end - 1) && InUse(2 * (L.end + n) - 2) && InUse(2 * (L.end + n) - 1)
    {
    }

    // ---- the public operations ----

    /** Before the first mm_init: nothing is allocated, and there is room for the initial heap. */
    ghost predicate Fresh()
      reads this, mem, mem.bytes
    {
      && mem.Valid() && heapListp == NULL && L.size == map[] && L.free == {}
      && mem.brk == 8 * (mem.brk / 8)
      && mem.brk + INITIAL <= mem.MaxAddr()
    }

    /** The state every public operation but mm_init starts from. */
    ghost predicate Ready()
      reads this, mem, mem.bytes
    {
      if heapListp == NULL then Fresh() else Valid()
    }

    /** mm_init: the list array, prologue and epilogue, and one free block of CHUNKSIZE bytes. */
    method Init() returns (r: int)
      requires mem.Valid() && mem.brk == 8 * (mem.brk / 8)
      modifies this, mem`words, mem`brk, mem.bytes
      ensures r == 0 <==> old(mem.brk) + INITIAL <= mem.MaxAddr()
      ensures r != 0 ==> r == -1
      ensures r == 0 ==> mem.brk == old(mem.brk) + INITIAL && L.size == map[L.first := 512] && L.free == {L.first}
      ensures r == 0 ==>
                Valid() && heapListp != NULL && freeList == old(mem.brk) && L == InitialLayout(old(mem.brk) / 8 + 7)
    {
      ghost var k := mem.brk / 8;
      var roundupFreeListSize := (LISTS + 1) / 2 * 2;
      freeList := mem.Sbrk(roundupFreeListSize * 4);
      if freeList == -1 {
        return -1;
      }
      InitLists(k);
      heapListp := mem.Sbrk(4 * WSIZE);
      if heapListp == -1 {
        return -1;
      }
      InitTags(k);
      heapListp := heapListp + 2 * WSIZE;
      r := FirstChunk(k + 7);
    }

    /** The last step of mm_init: one free chunk in the heap that has only its prologue and epilogue. */
    method FirstChunk(ghost first: int) returns (r: int)
      requires mem.Valid() && Bare(first)
      modifies this`L, this`fl, mem`words, mem`brk, mem.bytes
      ensures r == 0 <==> old(mem.brk) + CHUNKSIZE <= mem.MaxAddr()
      ensures r != 0 ==> r == -1
      ensures r == 0 ==> Valid() && mem.brk == old(mem.brk) + CHUNKSIZE && L == InitialLayout(first)
    {
      StartEmpty(first);
      var newBlk := ExtendHeap(CHUNKSIZE / WSIZE, CHUNKSIZE / 8);
      r := if newBlk == NULL then -1 else 0;
    }

    /** The lists and tags just written describe a heap without blocks. */
    /** The 56 bytes of mm_init: ten empty lists, the prologue and the epilogue. */
    ghost predicate Bare(first: int)
      reads this, mem
    {
      && freeList == 8 * (first - 7) && mem.origin <= first - 7
      && heapListp == freeList + 48 && mem.brk == 8 * first
      && (forall j {:trigger At(mem.words, j)} :: 2 * (first - 7) <= j < 2 * (first - 7) + LISTS ==>
            At(mem.words, j) == NULL)
      && At(mem.words, 2 * first - 3) == 9 && At(mem.words, 2 * first - 2) == 9
      && At(mem.words, 2 * first - 1) == 1
    }

    ghost method StartEmpty(first: int)
      requires mem.Valid() && Bare(first)
      modifies this`L, this`fl
      ensures Settled() && L == Layout(first, first, map[], {})
      ensures Extended(L, CHUNKSIZE / 8) == InitialLayout(first)
    {
      L, fl := Layout(first, first, map[], {}), seq(LISTS, _ => []);
      EmptyHeap(mem.words, first);
      InitialExtended(first);
    }

    method InitLists(ghost k: int)
      requires mem.Valid() && freeList == 8 * k && mem.origin <= k && freeList + 40 <= mem.brk
      modifies mem`words, mem.bytes
      ensures mem.Valid() && forall j :: 2 * k <= j < 2 * k + LISTS ==> At(mem.words, j) == NULL
    {
      for i := 0 to LISTS
        invariant mem.Valid() && forall j :: 2 * k <= j < 2 * k + i ==> At(mem.words, j) == NULL
      {
        ghost var w := mem.words;
        mem.PutWord(freeList + 4 * i, NULL, 2 * k + i);
        assert forall j :: At(mem.words, j) == if j == 2 * k + i then 0 else At(w, j);
      }
    }

    method InitTags(ghost k: int)
      requires mem.Valid() && heapListp == 8 * k + 40 && mem.origin <= k && heapListp + 16 <= mem.brk
      modifies mem`words, mem.bytes
      ensures mem.Valid()
      ensures At(mem.words, 2 * k + 11) == 9 && At(mem.words, 2 * k + 12) == 9 && At(mem.words, 2 * k + 13) == 1
      ensures forall i :: i < 2 * k + 10 ==> At(mem.words, i) == old(At(mem.words, i))
    {
      mem.PutWord(heapListp, 0, 2 * k + 10);
      PutTag(heapListp + 1 * WSIZE, DSIZE, ALLOCATED, 2 * k + 11, 1);
      PutTag(heapListp + 2 * WSIZE, DSIZE, ALLOCATED, 2 * k + 12, 1);
      PutTag(heapListp + 3 * WSIZE, 0, ALLOCATED, 2 * k + 13, 0);
    }

    /** mm_init fixes where the list array and the prologue are, once and for all. */
    ghost predicate AnchorsKept(list: int, heap: int)
      reads this
    {
      freeList == list && heapListp == heap
    }

    /** Whether mm_malloc will succeed; before mm_init, on the heap that mm_init makes. */
    ghost predicate Grants(size: nat)
      reads this, mem
    {
      size > 0
      && if heapListp == NULL
         then Serves(InitialLayout(mem.brk / 8 + 7), Adjusted(size), mem.brk + INITIAL, mem.MaxAddr())
         else Serves(L, Adjusted(size), mem.brk, mem.MaxAddr())
    }

    ghost function GrantedBreak(size: nat): int
      reads this, mem
    {
      if heapListp == NULL
      then ServedBreak(InitialLayout(mem.brk / 8 + 7), Adjusted(size), mem.brk + INITIAL)
      else ServedBreak(L, Adjusted(size), mem.brk)
    }

    method Malloc(size: nat) returns (p: int, ghost b: int)
      requires Ready() && size + 15 < 0x1_0000_0000
      modifies this, mem`words, mem`brk, mem.bytes
      ensures Valid()
      ensures Kept(old(mem.words), old(L), mem.words, L, Allocated(old(L)))
      ensures p == NULL ==> Allocated(L) == Allocated(old(L))
      ensures p != NULL ==> p == 8 * b && b !in Allocated(old(L)) && Allocated(L) == Allocated(old(L)) + {b}
      ensures p != NULL ==> Adjusted(size) <= 8 * L.size[b] <= Adjusted(size) + 8
      // the call succeeds exactly when something fits or the heap can grow, and grows it only if nothing fits
      ensures p != NULL <==> old(Grants(size))
      ensures size == 0 ==> p == NULL
      ensures p != NULL ==> mem.brk == old(GrantedBreak(size))
      ensures p == NULL ==> mem.brk == old(mem.brk) + if old(heapListp) == NULL then INITIAL else 0
      // afterwards nothing has changed, or one block was taken from a free one
      ensures old(heapListp) != NULL && p == NULL ==> L == old(L) && fl == old(fl) && mem.words == old(mem.words)
      ensures old(heapListp) != NULL && p != NULL ==> TakenFrom(old(L), L, b, Adjusted(size) / 8)
      ensures old(heapListp) != NULL && p != NULL && Fits(old(L), Adjusted(size)) ==>
                b in old(L).free && InLowestClass(old(L), Adjusted(size), b) && mem.brk == old(mem.brk)
      ensures old(heapListp) != NULL && size > 0 && !Fits(old(L), Adjusted(size)) ==>
                var grown := Max(Adjusted(size), 4096);
                && (p != NULL <==> Adjusted(size) < 0x8000_0000 && old(mem.brk) + grown <= mem.MaxAddr())
                && (p != NULL ==> mem.brk == old(mem.brk) + grown)
      // mm_init is called on the first call only
      ensures if old(heapListp) == NULL then freeList == old(mem.brk) else AnchorsKept(old(freeList), old(heapListp))
    {
      b := 0;
      if heapListp == NULL {
        var _ := Init();
      }
      if size == 0 {
        return NULL, b;
      }
      p, b := Provide(size);
    }

    /** mm_malloc once the heap is there and there is something to allocate */
    method Provide(size: nat) returns (p: int, ghost b: int)
      requires Valid() && 0 < size && size + 15 < 0x1_0000_0000
      modifies this`L, this`fl, mem`words, mem`brk, mem.bytes
      ensures Valid() && Kept(old(mem.words), old(L), mem.words, L, Allocated(old(L)))
      ensures p == NULL ==> L == old(L) && fl == old(fl) && mem.words == old(mem.words)
      ensures p != NULL ==> p == 8 * b && b !in Allocated(old(L)) && Allocated(L) == Allocated(old(L)) + {b}
      ensures p != NULL ==> Adjusted(size) <= 8 * L.size[b] <= Adjusted(size) + 8
      ensures p != NULL ==> TakenFrom(old(L), L, b, Adjusted(size) / 8)
      ensures Fits(old(L), Adjusted(size)) ==> b in old(L).free && InLowestClass(old(L), Adjusted(size), b)
      ensures p != NULL <==> Serves(old(L), Adjusted(size), old(mem.brk), mem.MaxAddr())
      ensures mem.brk == if p == NULL then old(mem.brk) else ServedBreak(old(L), Adjusted(size), old(mem.brk))
    {
      var asize := Adjusted(size);
      AdjustedBounds(size);
      p, b := Allocate(asize, asize / 8);
    }

    /** The very first call may be mm_malloc: it then runs mm_init itself. */
    static method FirstMalloc(mem: Memory, size: nat) returns (mm: Allocator, p: int, ghost b: int)
      requires mem.Valid() && mem.brk == 8 * (mem.brk / 8) && mem.brk + INITIAL <= mem.MaxAddr()
      requires size + 15 < 0x1_0000_0000
      modifies mem`words, mem`brk, mem.bytes
      ensures fresh(mm) && mm.mem == mem && mm.Valid() && mm.freeList == old(mem.brk)
      ensures p != NULL <==>
              && size > 0
              && Serves(InitialLayout(old(mem.brk) / 8 + 7), Adjusted(size), old(mem.brk) + INITIAL, mem.MaxAddr())
      ensures Allocated(mm.L) == if p == NULL then {} else {b}
      ensures p != NULL ==> p == 8 * b && size <= 8 * mm.L.size[b] - 8
    {
      mm := new Allocator(mem);
      AdjustedBounds(size);
      p, b := mm.Malloc(size);
    }

    /**
     A heap of any size, filled to its end: the last block is refused, although the free block in front
     of it is longer than what is asked for. n is what the heap can grow by, in double words.
     */
    static method RefusedThoughFits(mem: Memory, n: nat) returns (mm: Allocator, q: int, ghost b: int, r: int)
      requires mem.Valid() && mem.brk == mem.start && mem.MaxAddr() == mem.start + INITIAL + 8 * n
      requires 512 < n && 8 * n < 0x8000_0000
      modifies mem`words, mem`brk, mem.bytes
      ensures fresh(mm) && mm.mem == mem && mm.Valid() && q != NULL && q == 8 * b
      ensures b in Allocated(mm.L) && b + mm.L.size[b] == mm.L.end
      ensures Fits(mm.L, Adjusted(4089)) && !Resizable(mm.L, b, Adjusted(4089), mem.brk, mem.MaxAddr())
      ensures r == NULL
    {
      mm := new Allocator(mem);
      var _ := mm.Init();
      b := mm.L.first + n;
      q, r := mm.FillAndAsk(n, mm.L.first);
    }

    method FillAndAsk(n: nat, ghost f: int) returns (q: int, r: int)
      requires Valid() && heapListp != NULL && L == InitialLayout(f) && mem.MaxAddr() == mem.brk + 8 * n
      requires 512 < n && 8 * n < 0x8000_0000
      modifies this, mem`words, mem`brk, mem.bytes
      ensures Valid() && L == Front(f, n).(free := {f}) && q == 8 * (f + n) && q != NULL && r == NULL
      ensures Fits(L, Adjusted(4089)) && !Resizable(L, f + n, Adjusted(4089), mem.brk, mem.MaxAddr())
    {
      var p := FillFront(n, f);
      q := FillBack(n, f);
      Free(p, f);
      FrontFreed(f, n);
      r := AskMore(q, n, f);
    }

    method AskMore(q: int, n: nat, ghost f: int) returns (r: int)
      requires Valid() && L == Front(f, n).(free := {f}) && 512 < n && mem.brk == mem.MaxAddr()
      requires q == 8 * (f + n) && q != NULL
      modifies this, mem`words, mem`brk, mem.bytes
      ensures Valid() && r == NULL && L == old(L) && mem.brk == old(mem.brk)
      ensures !Resizable(L, f + n, Adjusted(4089), mem.brk, mem.MaxAddr())
    {
      ghost var c;
      r, c := Realloc(q, 4089, f + n);
    }

    /** A call of mm_malloc that is served, as far as the layout goes. */
    method MallocServed(size: nat) returns (p: int, ghost b: int)
      requires Valid() && heapListp != NULL && 0 < size && size + 15 < 0x1_0000_0000
      requires Serves(L, Adjusted(size), mem.brk, mem.MaxAddr())
      modifies this, mem`words, mem`brk, mem.bytes
      ensures Valid() && heapListp != NULL && p == 8 * b && p != NULL
      ensures TakenFrom(old(L), L, b, Adjusted(size) / 8)
      ensures mem.brk == ServedBreak(old(L), Adjusted(size), old(mem.brk))
    {
      p, b := Malloc(size);
    }

    method FillFront(n: nat, ghost f: int) returns (p: int)
      requires Valid() && heapListp != NULL && L == InitialLayout(f) && mem.MaxAddr() == mem.brk + 8 * n
      requires 512 < n && 8 * n < 0x8000_0000
      modifies this, mem`words, mem`brk, mem.bytes
      ensures Valid() && heapListp != NULL && L == Front(f, n) && mem.brk == mem.MaxAddr()
      ensures p == 8 * f && p != NULL
    {
      FrontServed(f, n, mem.brk);
      ghost var a;
      p, a := MallocServed(8 * n - 8);
      FilledFront(f, n, L, a);
    }

    method FillBack(n: nat, ghost f: int) returns (q: int)
      requires Valid() && heapListp != NULL && L == Front(f, n) && 512 < n && mem.brk == mem.MaxAddr()
      modifies this, mem`words, mem`brk, mem.bytes
      ensures Valid() && L == Front(f, n).(free := {}) && mem.brk == mem.MaxAddr()
      ensures q == 8 * (f + n) && q != NULL
    {
      BackFits(f, n);
      ghost var b;
      q, b := MallocServed(4088);
      FilledBack(f, n, L, b);
    }

    /** mm_malloc from its find_fit on */
    method Allocate(asize: nat, ghost n: int) returns (p: int, ghost b: int)
      requires Valid() && asize == 8 * n && 2 <= n && asize < 0x1_0000_0000
      modifies this`L, this`fl, mem`words, mem`brk, mem.bytes
      ensures Valid()
      ensures Kept(old(mem.words), old(L), mem.words, L, Allocated(old(L)))
      ensures p == NULL ==> Allocated(L) == Allocated(old(L))
      ensures p != NULL ==> p == 8 * b && b !in Allocated(old(L)) && Allocated(L) == Allocated(old(L)) + {b}
      ensures p != NULL ==> n <= L.size[b] <= n + 1
      ensures p == NULL ==> L == old(L) && fl == old(fl) && mem.words == old(mem.words)
      ensures p != NULL ==> TakenFrom(old(L), L, b, n)
      ensures Fits(old(L), asize) ==> b in old(L).free && InLowestClass(old(L), asize, b)
      ensures p != NULL <==> Serves(old(L), asize, old(mem.brk), mem.MaxAddr())
      ensures mem.brk == if p == NULL then old(mem.brk) else ServedBreak(old(L), asize, old(mem.brk))
    {
      ghost var k;
      p, b, k := FindFit(asize);
      if p != NULL {
        PlacedAllocated(L, b, n);
        Place(p, asize, b, n);
        return;
      }
      p, b := AllocateAtEnd(asize, n);
    }

    /** Nothing fits: the heap is extended first. */
    method AllocateAtEnd(asize: nat, ghost n: int) returns (p: int, ghost b: int)
      requires Valid() && asize == 8 * n && 2 <= n && asize < 0x1_0000_0000 && !Fits(L, asize)
      modifies this`L, this`fl, mem`words, mem`brk, mem.bytes
      ensures Valid()
      ensures Kept(old(mem.words), old(L), mem.words, L, Allocated(old(L)))
      ensures p != NULL ==> p == 8 * b && b !in Allocated(old(L)) && Allocated(L) == Allocated(old(L)) + {b}
      ensures p != NULL ==> n <= L.size[b] <= n + 1
      ensures p == NULL ==> L == old(L) && fl == old(fl) && mem.words == old(mem.words)
      ensures p != NULL ==> TakenFrom(old(L), L, b, n)
      ensures p != NULL <==> Serves(old(L), asize, old(mem.brk), mem.MaxAddr())
      ensures mem.brk == if p == NULL then old(mem.brk) else ServedBreak(old(L), asize, old(mem.brk))
    {
      b := 0;
      ghost var w0, L0 := mem.words, L;
      var extendsize := Max(asize, CHUNKSIZE);
      ghost var m := if n > 512 then n else 512;
      p := ExtendHeap(extendsize / WSIZE, m);
      if p == NULL {
        return;
      }
      b := ExtendedStart(L0, m);
      ghost var w1, L1 := mem.words, L;
      PlacedAllocated(L, b, n);
      Place(p, asize, b, n);
      KeptTwice(w0, L0, w1, L1, mem.words, L, Allocated(L0), Allocated(L1));
      assert Allocated(L0) * Allocated(L1) == Allocated(L0);
    }

    method Free(ptr: int, ghost b: int)
      requires ptr != NULL ==> Valid() && b in Allocated(L) && ptr == 8 * b
      modifies this`L, this`fl, mem`words, mem.bytes
      ensures ptr == NULL ==>
                L == old(L) && fl == old(fl) && mem.words == old(mem.words) && mem.bytes[..] == old(mem.bytes[..])
      ensures old(Valid()) ==> Valid()
      ensures ptr != NULL ==>
                Valid() && L == Joined(Mark(old(L), b, true), b) && Allocated(L) == Allocated(old(L)) - {b}
      ensures ptr != NULL ==> Kept(old(mem.words), old(L), mem.words, L, Allocated(L))
    {
      if ptr == NULL {
        return;
      }
      ghost var w0, L0 := mem.words, L;
      MarkFree(ptr, b);
      ghost var w1, L1 := mem.words, L;
      var _ := Coalesce(ptr, b);
      JoinedAllocated(L1, b);
      KeptTwice(w0, L0, w1, L1, mem.words, L, Allocated(L0) - {b}, Allocated(L));
      assert (Allocated(L0) - {b}) * Allocated(L) == Allocated(L);
    }

    method MarkFree(ptr: int, ghost b: int)
      requires Valid() && b in Allocated(L) && ptr == 8 * b
      modifies this`L, mem`words, mem.bytes
      ensures L == Mark(old(L), b, true) && Mid(L.free - {b}) && Coalesced(L, {b}) && b in L.free
      ensures Kept(old(mem.words), old(L), mem.words, L, Allocated(old(L)) - {b})
    {
      ghost var M, w := Mark(L, b, true), mem.words;
      BlockInUse(b);
      assert Tagged(mem.words, L, b);
      MarkTiled(L, b, true);
      FreedCoalesced(L, b);
      var size := GetSize(ptr - WSIZE, 2 * b - 1, L.size[b], 1);
      PutTags(ptr, size, FREE, b, M);
      RetaggedOne(w, M, b);
      Rewritten(w, L, mem.words, M, {b}, fl, L.free, Allocated(L) - {b});
      assert M.free - {b} == L.free;
      L := M;
    }

    // ---- mm_realloc, path by path ----

    /** Shrinking by at least a block: split, and free the tail. */
    method Shrink(ptr: int, oldsize: int, reqsize: int, ghost b: int, ghost n: int)
      requires Valid() && b in Allocated(L) && ptr == 8 * b && oldsize == 8 * L.size[b]
      requires reqsize == 8 * n && 2 <= n <= L.size[b] - 2
      modifies this`L, this`fl, mem`words, mem.bytes
      ensures Valid() && Resized(old(mem.words), old(L), b, mem.words, L, b, reqsize - 8) && L.size[b] == n
      ensures b + n in L.free
    {
      ghost var w0, L0 := mem.words, L;
      var nbp := ShrinkTags(ptr, oldsize, reqsize, b, n);
      ghost var w1, L1 := mem.words, L;
      Free(nbp, b + n);
      KeptTwice(w0, L0, w1, L1, mem.words, L, Allocated(L0) - {b}, Allocated(L));
      assert KeptBlock(w1, L1, mem.words, L, b);
      TailFreed(L1, b, L);
    }

    /** Once the block behind b is no longer allocated, b is followed by a free block. */
    lemma TailFreed(L1: Layout, b: int, L': Layout)
      requires Tiled(L1) && Tiled(L') && L'.end == L1.end && b in L1.size && b in L'.size && L'.size[b] == L1.size[b]
      requires b + L1.size[b] in L1.size && Allocated(L') == Allocated(L1) - {b + L1.size[b]}
      ensures b + L'.size[b] in L'.free
    {
      assert BlockOk(L1, b + L1.size[b]) && BlockOk(L', b);
    }

    method ShrinkTags(ptr: int, oldsize: int, reqsize: int, ghost b: int, ghost n: int) returns (nbp: int)
      requires Valid() && b in Allocated(L) && ptr == 8 * b && oldsize == 8 * L.size[b]
      requires reqsize == 8 * n && 2 <= n <= L.size[b] - 2
      modifies this`L, mem`words, mem.bytes
      ensures Valid() && L == Split(old(L), b, n) && nbp == 8 * (b + n) && nbp != NULL
      ensures b + n !in old(L).size && Allocated(L) == old(Allocated(L)) + {b + n} && L.size[b] == n
      ensures Kept(old(mem.words), old(L), mem.words, L, old(Allocated(L)) - {b})
      ensures SamePayload(old(mem.words), old(L), b, mem.words, L, b)
    {
      ghost var S, w := Split(L, b, n), mem.words;
      BlockInUse(b);
      ShrunkLayout(L, b, n);
      CarvedInUse(b, n);
      nbp := PutSplitTags(ptr, reqsize, oldsize - reqsize, ALLOCATED, b, n, S);
      SplitPayload(w, mem.words, L, b, n);
      Rewritten(w, L, mem.words, S, {b, b + n}, fl, L.free, Allocated(L) - {b});
      L := S;
    }

    /** The next block is free and long enough: take all of it. */
    method Absorb(ptr: int, nbp: int, nsize: int, ghost b: int, ghost c: int)
      requires Valid() && b in Allocated(L) && ptr == 8 * b && c == b + L.size[b] && c in L.free && nbp == 8 * c
      requires nsize == 8 * (L.size[b] + L.size[c])
      modifies this`L, this`fl, mem`words, mem.bytes
      ensures Valid() && Resized(old(mem.words), old(L), b, mem.words, L, b, nsize - 8) && 8 * L.size[b] == nsize
    {
      ghost var w0, L0 := mem.words, L;
      BlockInUse(b);
      BlockInUse(c);
      assert Tagged(mem.words, L, c);
      var size := GetSize(nbp - WSIZE, 2 * c - 1, L.size[c], 0);
      DeleteNode(nbp, size, c, L.free);
      ghost var w1 := mem.words;
      AbsorbTags(ptr, nsize, b, c);
      KeptTwice(w0, L0, w1, L0, mem.words, L, Allocated(L0), Allocated(L0) - {b});
      assert Allocated(L0) * (Allocated(L0) - {b}) == Allocated(L0) - {b};
      assert KeptBlock(w0, L0, w1, L0, b);
    }

    method AbsorbTags(ptr: int, nsize: int, ghost b: int, ghost c: int)
      requires Mid(L.free - {c}) && Coalesced(L, {}) && b in Allocated(L) && ptr == 8 * b
      requires c == b + L.size[b] && c in L.free && nsize == 8 * (L.size[b] + L.size[c])
      modifies this`L, mem`words, mem.bytes
      ensures Valid() && L == Merge(old(L), b) && Allocated(L) == old(Allocated(L)) && 8 * L.size[b] == nsize
      ensures Kept(old(mem.words), old(L), mem.words, L, old(Allocated(L)) - {b})
      ensures SamePayload(old(mem.words), old(L), b, mem.words, L, b)
    {
      ghost var M, w := Merge(L, b), mem.words;
      BlockInUse(b);
      BlockInUse(c);
      AbsorbedLayout(L, b);
      NotEmpty(L, b);
      PutTags(ptr, nsize, ALLOCATED, b, M);
      RetaggedOne(w, M, b);
      Rewritten(w, L, mem.words, M, {b}, fl, L.free - {c}, Allocated(L) - {b});
      L := M;
    }

    /** Allocate elsewhere, copy, free. */
    method Move(ptr: int, size: nat, oldsize: nat, ghost b: int) returns (newptr: int, ghost c: int)
      requires Valid() && b in Allocated(L) && ptr == 8 * b && ptr != NULL && oldsize == 8 * L.size[b]
      requires 0 < size && size + 15 < 0x1_0000_0000 && oldsize - 8 <= size
      modifies this, mem`words, mem`brk, mem.bytes
      ensures Valid()
      ensures newptr == NULL ==>
                Allocated(L) == old(Allocated(L)) && Kept(old(mem.words), old(L), mem.words, L, Allocated(L))
      ensures newptr != NULL ==> newptr == 8 * c && c != b && Resized(old(mem.words), old(L), b, mem.words, L, c, size)
      ensures newptr != NULL ==> Adjusted(size) <= 8 * L.size[c] <= Adjusted(size) + 8
      ensures newptr != NULL <==> Serves(old(L), Adjusted(size), old(mem.brk), mem.MaxAddr())
      ensures mem.brk == if newptr == NULL then old(mem.brk) else ServedBreak(old(L), Adjusted(size), old(mem.brk))
      ensures newptr == NULL ==> L == old(L) && mem.words == old(mem.words)
      ensures AnchorsKept(old(freeList), old(heapListp))
    {
      ghost var w0, L0 := mem.words, L;
      newptr, c := Malloc(size);
      if newptr == NULL {
        return;
      }
      ghost var w1, L1 := mem.words, L;
      assert KeptBlock(w0, L0, w1, L1, b);
      AdjustedBounds(size);
      CopyAndFree(newptr, ptr, if size < oldsize then size else oldsize, b, c);
      MovedResized(w0, L0, w1, L1, mem.words, L, b, c, size);
    }

    method CopyAndFree(dst: int, src: int, count: nat, ghost b: int, ghost c: int)
      requires Valid() && b in Allocated(L) && c in Allocated(L) && b != c && src == 8 * b && dst == 8 * c
      requires src != NULL
      requires 8 * L.size[b] - 8 <= count <= 8 * L.size[b] && count <= 8 * L.size[c] - 8
      modifies this`L, this`fl, mem`words, mem.bytes
      ensures Valid() && Allocated(L) == old(Allocated(L)) - {b} && c in L.size && c in old(L).size
      ensures L.size[c] == old(L).size[c]
      ensures SamePayload(old(mem.words), old(L), b, mem.words, L, c)
      ensures Kept(old(mem.words), old(L), mem.words, L, old(Allocated(L)) - {b, c})
    {
      ghost var w0, L0 := mem.words, L;
      CopyPayload(dst, src, count, b, c);
      ghost var w1 := mem.words;
      Free(src, b);
      KeptTwice(w0, L0, w1, L0, mem.words, L, Allocated(L0) - {c}, Allocated(L));
      assert (Allocated(L0) - {c}) * Allocated(L) == Allocated(L0) - {b, c};
      assert KeptBlock(w1, L0, mem.words, L, c);
    }

    method CopyPayload(dst: int, src: int, count: nat, ghost b: int, ghost c: int)
      requires Valid() && b in Allocated(L) && c in Allocated(L) && b != c && src == 8 * b && dst == 8 * c
      requires 8 * L.size[b] - 8 <= count <= 8 * L.size[b] && count <= 8 * L.size[c] - 8
      modifies mem`words, mem.bytes
      ensures Valid() && Kept(old(mem.words), L, mem.words, L, Allocated(L) - {c})
      ensures forall j :: Payload(L, c, j) && Payload(L, b, j - 2 * c + 2 * b) ==>
                At(mem.words, j) == old(At(mem.words, j - 2 * c + 2 * b))
    {
      ghost var w := mem.words;
      BlockInUse(b);
      BlockInUse(c);
      assert Apart(L, b, c);
      mem.Memcpy(dst, src, count, c, b);
      PayloadWritten(w, mem.words, L, fl, c);
    }

    method Realloc(ptr: int, size: nat, ghost b: int) returns (r: int, ghost c: int)
      requires Ready() && size + 15 < 0x1_0000_0000
      requires ptr != NULL ==> heapListp != NULL && b in Allocated(L) && ptr == 8 * b
      modifies this, mem`words, mem`brk, mem.bytes
      ensures Ready() && (ptr != NULL ==> Valid())
      // size 0 is mm_free
      ensures size == 0 ==> r == NULL && Allocated(L) == old(Allocated(L)) - if ptr == NULL then {} else {b}
      ensures size == 0 ==> Kept(old(mem.words), old(L), mem.words, L, Allocated(L))
      // a NULL pointer makes it mm_malloc
      ensures ptr == NULL ==> Kept(old(mem.words), old(L), mem.words, L, old(Allocated(L)))
      ensures ptr == NULL && size > 0 && r != NULL ==>
                && r == 8 * c && c !in old(Allocated(L)) && Allocated(L) == old(Allocated(L)) + {c}
                && size + 8 <= Adjusted(size) <= 8 * L.size[c] <= Adjusted(size) + 8
      // failure leaves every block as it was, the one to be resized included
      ensures size > 0 && r == NULL ==>
                Allocated(L) == old(Allocated(L)) && Kept(old(mem.words), old(L), mem.words, L, Allocated(L))
      // it succeeds exactly when mm_malloc would, or the block can stay or be moved
      ensures size > 0 && ptr == NULL ==> (r != NULL <==> old(Grants(size)))
      ensures size > 0 && ptr != NULL ==>
                (r != NULL <==> Resizable(old(L), b, Adjusted(size), old(mem.brk), mem.MaxAddr()))
      ensures size > 0 && r != NULL ==>
                mem.brk == if ptr == NULL then old(GrantedBreak(size))
                           else ResizedBreak(old(L), b, Adjusted(size), old(mem.brk))
      ensures size > 0 && r == NULL ==>
                mem.brk == if ptr != NULL then RefusedBreak(old(L), b, Adjusted(size), old(mem.brk), mem.MaxAddr())
                           else old(mem.brk) + if old(heapListp) == NULL then INITIAL else 0
      ensures size == 0 ==> mem.brk == old(mem.brk)
      // a refusal that leaves the break alone leaves everything alone
      ensures size > 0 && r == NULL && mem.brk == old(mem.brk) ==> L == old(L) && mem.words == old(mem.words)
      ensures old(heapListp) != NULL ==> AnchorsKept(old(freeList), old(heapListp))
      // a successful call returns the same pointer exactly when one of the in-place paths applies
      ensures ptr != NULL && size > 0 && r != NULL ==>
                var s, d := old(L).size[b], b + old(L).size[b];
                r == ptr <==>
                || Adjusted(size) <= 8 * s
                || (if d == old(L).end then Adjusted(size) < 8 * s + 4096
                    else d in old(L).free && d in old(L).size && Adjusted(size) < 8 * (s + old(L).size[d]))
      // a block that is long enough is cut to the request if 16 bytes or more remain, and these are free then
      ensures ptr != NULL && size > 0 && Adjusted(size) + 16 <= 8 * old(L).size[b] ==>
                r == ptr && c == b && b in L.size && 8 * L.size[b] == Adjusted(size) && b + L.size[b] in L.free
      // success keeps the contents
      ensures ptr != NULL && size > 0 && r != NULL ==>
                r == 8 * c && Resized(old(mem.words), old(L), b, mem.words, L, c, size)
      ensures ptr != NULL && size > 0 && r != NULL ==>
                LengthIs(old(L), b, Adjusted(size), L, c, mem.brk - old(mem.brk))
    {
      c := b;
      if size == 0 {
        Free(ptr, b);
        return NULL, c;
      }
      if ptr == NULL {
        AdjustedBounds(size);
        r, c := Malloc(size);
        return;
      }
      r, c := Resize(ptr, size, b);
    }

    method Resize(ptr: int, size: nat, ghost b: int) returns (r: int, ghost c: int)
      requires Valid() && 0 < size && size + 15 < 0x1_0000_0000 && b in Allocated(L) && ptr == 8 * b && ptr != NULL
      modifies this, mem`words, mem`brk, mem.bytes
      ensures Valid()
      ensures r == NULL ==>
                Allocated(L) == old(Allocated(L)) && Kept(old(mem.words), old(L), mem.words, L, Allocated(L))
      ensures r != NULL ==> r == 8 * c && Resized(old(mem.words), old(L), b, mem.words, L, c, size)
      ensures r != NULL ==> (r == ptr <==> InPlace(old(L), b, Adjusted(size)))
      ensures r != NULL ==> LengthIs(old(L), b, Adjusted(size), L, c, mem.brk - old(mem.brk))
      // a block that is long enough is cut to the request if 16 bytes or more remain, and these are free then
      ensures Adjusted(size) + 16 <= 8 * old(L).size[b] ==>
                r == ptr && c == b && 8 * L.size[b] == Adjusted(size) && b + L.size[b] in L.free
      ensures Adjusted(size) <= 8 * old(L).size[b] < Adjusted(size) + 16 ==>
                r == ptr && L == old(L) && mem.words == old(mem.words)
      // one that is not gets all of the extension or of the next block, or moves to a block of the right size
      ensures r == ptr && Adjusted(size) > 8 * old(L).size[b] ==>
                var s, d := old(L).size[b], b + old(L).size[b];
                if d == old(L).end then 8 * L.size[b] == 8 * s + 4096 && mem.brk == old(mem.brk) + 4096
                else d in old(L).size && L.size[b] == s + old(L).size[d]
      ensures r != NULL && r != ptr ==> c != b && Adjusted(size) <= 8 * L.size[c] <= Adjusted(size) + 8
      ensures r != NULL <==> Resizable(old(L), b, Adjusted(size), old(mem.brk), mem.MaxAddr())
      ensures r != NULL ==> mem.brk == ResizedBreak(old(L), b, Adjusted(size), old(mem.brk))
      ensures r == NULL ==> mem.brk == RefusedBreak(old(L), b, Adjusted(size), old(mem.brk), mem.MaxAddr())
      ensures r == NULL && mem.brk == old(mem.brk) ==> L == old(L) && mem.words == old(mem.words)
      ensures AnchorsKept(old(freeList), old(heapListp))
    {
      c := b;
      var reqsize := Adjusted(size);
      AdjustedBounds(size);
      ghost var n := reqsize / 8;
      BlockInUse(b);
      assert Tagged(mem.words, L, b);
      var oldsize := GetSize(ptr - WSIZE, 2 * b - 1, L.size[b], 1);
      if reqsize == oldsize {
        return ptr, c;
      } else if reqsize < oldsize {
        if oldsize - reqsize < 2 * DSIZE {
          return ptr, c;
        }
        Shrink(ptr, oldsize, reqsize, b, n);
        return ptr, c;
      }
      r, c := Enlarge(ptr, size, reqsize, oldsize, b);
    }

    /** What the header after a block says: size 0 for the epilogue, allocated bit 0 for a free block. */
    method LookNext(ptr: int, ghost b: int) returns (nbp: int, nextAlloc: int, nextSize: nat)
      requires Valid() && b in Allocated(L) && ptr == 8 * b
      ensures nbp == 8 * (b + L.size[b]) && (nextSize == 0 <==> b + L.size[b] == L.end)
      ensures nextAlloc == 0 <==> b + L.size[b] in L.free
      ensures b + L.size[b] in L.free ==> nextSize == 8 * L.size[b + L.size[b]]
    {
      ghost var a, pn, pa, d, nn, na := Neighbours(mem.words, L, b);
      BlockInUse(b);
      InUseFrom(2 * d - 1);
      assert Tagged(mem.words, L, b);
      nbp := NextBlkp(ptr, b, L.size[b], 1);
      nextAlloc := GetAlloc(nbp - WSIZE, 2 * d - 1, nn, na);
      nextSize := GetSize(nbp - WSIZE, 2 * d - 1, nn, na);
    }

    /** mm_realloc when the block is too small. */
    method Enlarge(ptr: int, size: nat, reqsize: nat, oldsize: nat, ghost b: int) returns (r: int, ghost c: int)
      requires Valid() && 0 < size && b in Allocated(L) && ptr == 8 * b && ptr != NULL && oldsize == 8 * L.size[b]
      requires reqsize == Adjusted(size) && oldsize < reqsize
      requires size + 15 < 0x1_0000_0000
      modifies this, mem`words, mem`brk, mem.bytes
      ensures Valid()
      ensures r == NULL ==>
                Allocated(L) == old(Allocated(L)) && Kept(old(mem.words), old(L), mem.words, L, Allocated(L))
      ensures r != NULL ==> r == 8 * c && Resized(old(mem.words), old(L), b, mem.words, L, c, size)
      ensures r != NULL ==> (r == ptr <==> InPlace(old(L), b, reqsize))
      ensures r != NULL ==> LengthIs(old(L), b, reqsize, L, c, mem.brk - old(mem.brk))
      ensures r != NULL <==> Resizable(old(L), b, reqsize, old(mem.brk), mem.MaxAddr())
      ensures r != NULL ==> mem.brk == ResizedBreak(old(L), b, reqsize, old(mem.brk))
      ensures r == NULL ==> mem.brk == RefusedBreak(old(L), b, reqsize, old(mem.brk), mem.MaxAddr())
      ensures r == NULL && mem.brk == old(mem.brk) ==> L == old(L) && mem.words == old(mem.words)
      ensures AnchorsKept(old(freeList), old(heapListp))
    {
      var nbp, nextAlloc, nextSize := LookNext(ptr, b);
      if nextSize == 0 {
        r, c := EnlargeAtEnd(ptr, size, reqsize, oldsize, b);
      } else {
        r, c := EnlargeInside(ptr, size, reqsize, oldsize, nbp, nextAlloc, nextSize, b);
      }
    }

    /** Enlarging a block that is not the last one. */
    method EnlargeInside(ptr: int, size: nat, reqsize: nat, oldsize: nat, nbp: int, nextAlloc: int, nextSize: nat,
                         ghost b: int)
      returns (r: int, ghost c: int)
      requires Valid() && 0 < size && b in Allocated(L) && ptr == 8 * b && ptr != NULL && oldsize == 8 * L.size[b]
      requires reqsize == Adjusted(size) && oldsize < reqsize
      requires size + 15 < 0x1_0000_0000
      requires var d := b + L.size[b];
               && d != L.end && nbp == 8 * d && (nextAlloc == 0 <==> d in L.free)
               && (d in L.free ==> nextSize == 8 * L.size[d])
      modifies this, mem`words, mem`brk, mem.bytes
      ensures Valid() && AnchorsKept(old(freeList), old(heapListp))
      ensures r == NULL ==>
                Allocated(L) == old(Allocated(L)) && Kept(old(mem.words), old(L), mem.words, L, Allocated(L))
      ensures r != NULL ==> r == 8 * c && Resized(old(mem.words), old(L), b, mem.words, L, c, size)
      ensures r != NULL ==> (r == ptr <==> InPlace(old(L), b, reqsize))
      ensures r != NULL ==> LengthIs(old(L), b, reqsize, L, c, mem.brk - old(mem.brk))
      ensures r != NULL <==> InPlace(old(L), b, reqsize) || Serves(old(L), reqsize, old(mem.brk), mem.MaxAddr())
      ensures mem.brk == if r == NULL || InPlace(old(L), b, reqsize) then old(mem.brk)
                         else ServedBreak(old(L), reqsize, old(mem.brk))
      ensures r == NULL ==> L == old(L) && mem.words == old(mem.words)
    {
      AdjustedBounds(size);
      var nsize := oldsize + nextSize;
      if nextAlloc == 0 && nsize > reqsize {
        AbsorbNext(ptr, size, nbp, nsize, b);
        return ptr, b;
      }
      r, c := Move(ptr, size, oldsize, b);
    }

    method AbsorbNext(ptr: int, size: nat, nbp: int, nsize: int, ghost b: int)
      requires Valid() && b in Allocated(L) && ptr == 8 * b && 8 * L.size[b] < Adjusted(size)
      requires var d := b + L.size[b];
               && d != L.end && d in L.free && nbp == 8 * d
               && nsize == 8 * (L.size[b] + L.size[d]) && Adjusted(size) < nsize
      modifies this`L, this`fl, mem`words, mem.bytes
      ensures Valid() && Resized(old(mem.words), old(L), b, mem.words, L, b, size)
      ensures LengthIs(old(L), b, Adjusted(size), L, b, 0)
    {
      AdjustedBounds(size);
      Absorb(ptr, nbp, nsize, b, b + L.size[b]);
    }

    /**
     The block is the last one. The heap grows by at least a chunk; the extension is taken, unless
     it makes the block exactly long enough, in which case the code goes on to move the block.
     */
    method EnlargeAtEnd(ptr: int, size: nat, reqsize: nat, oldsize: nat, ghost b: int) returns (r: int, ghost c: int)
      requires Valid() && 0 < size && b in Allocated(L) && ptr == 8 * b && ptr != NULL && oldsize == 8 * L.size[b]
      requires reqsize == Adjusted(size) && oldsize < reqsize
      requires size + 15 < 0x1_0000_0000
      requires b + L.size[b] == L.end
      modifies this, mem`words, mem`brk, mem.bytes
      ensures Valid()
      ensures r == NULL ==>
                Allocated(L) == old(Allocated(L)) && Kept(old(mem.words), old(L), mem.words, L, Allocated(L))
      ensures r != NULL ==> r == 8 * c && Resized(old(mem.words), old(L), b, mem.words, L, c, size)
      ensures r != NULL ==> (r == ptr <==> InPlace(old(L), b, reqsize))
      ensures r != NULL ==> LengthIs(old(L), b, reqsize, L, c, mem.brk - old(mem.brk))
      ensures r != NULL <==> Resizable(old(L), b, reqsize, old(mem.brk), mem.MaxAddr())
      ensures r != NULL ==> mem.brk == ResizedBreak(old(L), b, reqsize, old(mem.brk))
      ensures r == NULL ==> mem.brk == RefusedBreak(old(L), b, reqsize, old(mem.brk), mem.MaxAddr())
      ensures r == NULL && mem.brk == old(mem.brk) ==> L == old(L) && mem.words == old(mem.words)
      ensures AnchorsKept(old(freeList), old(heapListp))
    {
      ghost var w0, L0 := mem.words, L;
      AdjustedBounds(size);
      var nsize := oldsize;
      var rem := ToInt(reqsize - nsize);
      var extendsize := Max(rem, CHUNKSIZE);
      ghost var m := LastExtension(b, reqsize);
      var nbp := ExtendHeap(extendsize / WSIZE, m);
      if nbp == NULL {
        return NULL, b;
      }
      ghost var w1, L1 := mem.words, L;
      nsize := nsize + extendsize;
      assert KeptBlock(w0, L0, w1, L1, b);
      if nsize > reqsize {
        AbsorbExtension(ptr, size, nbp, nsize, b, w0, L0);
        return ptr, b;
      }
      GrownFits(L0, m, reqsize);
      r, c := MoveAfterExtension(ptr, size, oldsize, b, w0, L0);
    }

    /** Taking the extension, seen from the heap w0 before it. */
    method AbsorbExtension(ptr: int, size: nat, nbp: int, nsize: int, ghost b: int,
                           ghost w0: map<int, Word>, ghost L0: Layout)
      requires Valid() && b in Allocated(L) && ptr == 8 * b && size + 8 <= nsize
      requires b + L.size[b] in L.free && nbp == 8 * (b + L.size[b]) && nsize == 8 * (L.size[b] + L.size[b + L.size[b]])
      requires Kept(w0, L0, mem.words, L, Allocated(L0)) && Allocated(L) == Allocated(L0)
      modifies this`L, this`fl, mem`words, mem.bytes
      ensures Valid() && Resized(w0, L0, b, mem.words, L, b, size) && 8 * L.size[b] == nsize
    {
      ghost var w1, L1 := mem.words, L;
      Absorb(ptr, nbp, nsize, b, b + L.size[b]);
      ResizedAfter(w0, L0, w1, L1, b, mem.words, L, b, nsize - 8, size);
    }

    /** Moving the block, seen from the heap w0 before the extension. */
    method MoveAfterExtension(ptr: int, size: nat, oldsize: nat, ghost b: int,
                              ghost w0: map<int, Word>, ghost L0: Layout)
      returns (r: int, ghost c: int)
      requires Valid() && b in Allocated(L) && ptr == 8 * b && ptr != NULL && oldsize == 8 * L.size[b]
      requires 0 < size && size + 15 < 0x1_0000_0000 && oldsize - 8 <= size
      requires Kept(w0, L0, mem.words, L, Allocated(L0)) && Allocated(L) == Allocated(L0)
      modifies this, mem`words, mem`brk, mem.bytes
      ensures Valid()
      ensures r == NULL ==> Allocated(L) == Allocated(L0) && Kept(w0, L0, mem.words, L, Allocated(L))
      ensures r != NULL ==> r == 8 * c && c != b && Resized(w0, L0, b, mem.words, L, c, size)
      ensures r != NULL ==> Adjusted(size) <= 8 * L.size[c] <= Adjusted(size) + 8
      ensures r != NULL <==> Serves(old(L), Adjusted(size), old(mem.brk), mem.MaxAddr())
      ensures mem.brk == if r == NULL then old(mem.brk) else ServedBreak(old(L), Adjusted(size), old(mem.brk))
      ensures AnchorsKept(old(freeList), old(heapListp))
    {
      ghost var w1, L1 := mem.words, L;
      r, c := Move(ptr, size, oldsize, b);
      if r != NULL {
        ResizedAfter(w0, L0, w1, L1, b, mem.words, L, c, size, size);
      } else {
        KeptTwice(w0, L0, w1, L1, mem.words, L, Allocated(L0), Allocated(L));
      }
    }

    /** The extension of the last block in double words, and what follows from taking it. */
    lemma LastExtension(b: int, reqsize: int) returns (m: int)
      requires Valid() && b in Allocated(L) && b + L.size[b] == L.end
      requires reqsize == 8 * (reqsize / 8) && 8 * L.size[b] < reqsize < 0x1_0000_0000
      ensures 512 <= m && 8 * m == Max(ToInt(reqsize - 8 * L.size[b]), CHUNKSIZE) && 8 * m < 0x8000_0000
      ensures Extended(L, m) == Grow(L, m) && ExtendedStart(L, m) == L.end && L.end !in L.size
      ensures InPlace(L, b, reqsize) <==> 8 * L.size[b] + 8 * m > reqsize
      ensures !InPlace(L, b, reqsize) ==> 8 * m < reqsize
    {
      BlockInUse(b);
      var rem := ToInt(reqsize - 8 * L.size[b]);
      m := if rem > CHUNKSIZE then reqsize / 8 - L.size[b] else CHUNKSIZE / 8;
      assert IsPrev(L, b, L.end);
      ExtendedAfterAllocated(L, m, b);
    }

    /** A client's store into the payload of one of its blocks. */
    method ClientStore(p: int, off: nat, v: Byte, ghost b: int, ghost size: nat)
      requires Valid() && b in Allocated(L) && p == 8 * b && off < size <= 8 * L.size[b] - 8
      modifies mem`words, mem.bytes
      ensures Valid() && Kept(old(mem.words), L, mem.words, L, Allocated(L) - {b})
      ensures ByteStored(old(mem.words), mem.words, b, size, off, v)
    {
      ghost var w := mem.words;
      assert BlockOk(L, b);
      mem.PutByte(p + off, v);
      assert Payload(L, b, (p + off) / 4);
      PayloadWritten(w, mem.words, L, fl, b);
    }

    // ---- what holds between calls ----

    /**
     mem_heapsize() is what lies below the list array, the 56 bytes of mm_init, and the blocks. Nothing
     lies below the list array when mm_init ran on an empty heap, and no later call moves the array.
     */
    lemma Conservation()
      requires Valid()
      ensures freeList == mem.start ==>
                mem.HeapSize() == 56 + WalkedBytes(mem.words, Walk(mem.words, L.first, L.end))
      ensures mem.HeapSize() == (freeList - mem.start) + 56 + WalkedBytes(mem.words, Walk(mem.words, L.first, L.end))
      ensures forall c :: c in Walk(mem.words, L.first, L.end) <==> c in L.size
    {
      WalkTotal(mem.words, L, L.first);
      WalkTiles(mem.words, L, L.first);
      forall c | c in L.size
        ensures L.first <= c
      {
        assert BlockOk(L, c);
      }
    }

    /** With nothing allocated the heap is one free block again, on one list. */
    lemma FullRecovery()
      requires Valid() && Allocated(L) == {}
      ensures L.size == map[L.first := L.end - L.first] && L.free == {L.first}
      ensures 8 * L.size[L.first] == mem.HeapSize() - (freeList - mem.start) - 56
      ensures freeList == mem.start ==> 8 * L.size[L.first] == mem.HeapSize() - 56
      ensures forall i :: 0 <= i < LISTS ==> fl[i] == if i == ListOf(L.size, L.first) then [L.first] else []
    {
      AllFreeIsOneBlock(L);
      OneListHoldsIt(mem.words, L, fl);
    }
  }
}
