/**
 The boundary-tag view of the mm.c heap. A layout lists the blocks between the prologue and the
 epilogue: block b has its payload at address 8 * b and is size[b] double words long, header and
 footer included. Its header is word 2 * b - 1 of the heap and its footer is word
 2 * (b + size[b]) - 2.
 */
module Blocks {
  import opened Common
  import opened Memlib
  import opened FreeLists

  datatype Layout = Layout(first: int, end: int, size: map<int, int>, free: set<int>)

  ghost predicate IsPrev(L: Layout, a: int, b: int) {
    a in L.size && a + L.size[a] == b
  }

  ghost predicate HasPrev(L: Layout, b: int) {
    b == L.first || exists a :: IsPrev(L, a, b)
  }

  ghost predicate BlockOk(L: Layout, b: int)
    requires b in L.size
  {
    && L.first <= b && 2 <= L.size[b]
    && b + L.size[b] <= L.end
    && (b + L.size[b] == L.end || b + L.size[b] in L.size)
    && HasPrev(L, b)
  }

  ghost predicate Apart(L: Layout, a: int, b: int)
    requires a in L.size && b in L.size
  {
    a + L.size[a] <= b || b + L.size[b] <= a
  }

  /** The blocks tile [first, end) exactly. */
  ghost predicate Tiled(L: Layout) {
    && L.first <= L.end && (L.first == L.end || L.first in L.size)
    && (forall b {:trigger BlockOk(L, b)} :: b in L.size ==> BlockOk(L, b))
    && (forall a, b {:trigger Apart(L, a, b)} :: a in L.size && b in L.size && a != b ==> Apart(L, a, b))
    && HasPrev(L, L.end)
    && L.free <= L.size.Keys
  }

  ghost function Allocated(L: Layout): set<int> {
    L.size.Keys - L.free
  }

  /** No two neighbours are both free, apart from pairs that involve the block `but`. */
  ghost predicate Coalesced(L: Layout, but: set<int>) {
    forall a, b {:trigger IsPrev(L, a, b)} :: a in L.free && b in L.free && IsPrev(L, a, b) ==> a in but || b in but
  }

  ghost function Bit(L: Layout, b: int): int {
    if b in L.free then 0 else 1
  }

  /** Header and footer of a block: its size in bytes, and the allocated bit. */
  ghost function Tag(L: Layout, b: int): int
    requires b in L.size
  {
    8 * L.size[b] + Bit(L, b)
  }

  ghost predicate Tagged(w: map<int, Word>, L: Layout, b: int)
    requires b in L.size
  {
    At(w, 2 * b - 1) == Tag(L, b) && At(w, 2 * (b + L.size[b]) - 2) == Tag(L, b)
  }

  /** Prologue, every block, epilogue. */
  ghost predicate Tags(w: map<int, Word>, L: Layout) {
    && At(w, 2 * L.first - 3) == 9 && At(w, 2 * L.first - 2) == 9
    && At(w, 2 * L.end - 1) == 1
    && forall b {:trigger Tagged(w, L, b)} :: b in L.size ==> Tagged(w, L, b)
  }

  ghost predicate TagWord(L: Layout, i: int) {
    || i == 2 * L.first - 3 || i == 2 * L.first - 2 || i == 2 * L.end - 1
    || exists b :: b in L.size && (i == 2 * b - 1 || i == 2 * (b + L.size[b]) - 2)
  }

  // ---- the four ways a layout changes ----

  ghost function Mark(L: Layout, b: int, isFree: bool): Layout {
    L.(free := if isFree then L.free + {b} else L.free - {b})
  }

  /** Block b gives up all but its first n double words; the rest becomes a block of the same kind. */
  ghost function Split(L: Layout, b: int, n: int): Layout
    requires b in L.size
  {
    L.(size := L.size[b := n][b + n := L.size[b] - n],
       free := if b in L.free then L.free + {b + n} else L.free)
  }

  /** Block a swallows the block after it and keeps its own state. */
  ghost function Merge(L: Layout, a: int): Layout
    requires a in L.size && a + L.size[a] in L.size
  {
    var c := a + L.size[a];
    L.(size := (L.size - {c})[a := L.size[a] + L.size[c]], free := L.free - {c})
  }

  /** The heap grows by one free block of n double words, where the epilogue was. */
  ghost function Grow(L: Layout, n: int): Layout {
    L.(end := L.end + n, size := L.size[L.end := n], free := L.free + {L.end})
  }

  // ---- neighbours ----

  lemma PrevUnique(L: Layout, a: int, a': int, b: int)
    requires Tiled(L) && IsPrev(L, a, b) && IsPrev(L, a', b)
    ensures a == a'
  {
    assert BlockOk(L, a) && BlockOk(L, a') && (a != a' ==> Apart(L, a, a'));
  }

  /** The footer before a block is that of its predecessor, or the prologue's. */
  lemma PrevTag(w: map<int, Word>, L: Layout, b: int) returns (a: int)
    requires Tiled(L) && Tags(w, L) && (b in L.size || b == L.end)
    ensures b == L.first ==> At(w, 2 * b - 2) == 9
    ensures b != L.first ==> IsPrev(L, a, b) && At(w, 2 * b - 2) == Tag(L, a) && At(w, 2 * a - 1) == Tag(L, a)
  {
    assert HasPrev(L, b) by {
      if b in L.size {
        assert BlockOk(L, b);
      }
    }
    a := b;
    if b != L.first {
      a :| IsPrev(L, a, b);
      assert Tagged(w, L, a);
    }
  }

  /** The header after a block is that of its successor, or the epilogue's. */
  lemma NextTag(w: map<int, Word>, L: Layout, b: int)
    requires Tiled(L) && Tags(w, L) && b in L.size
    ensures var c := b + L.size[b];
            if c in L.size then c < L.end && At(w, 2 * c - 1) == Tag(L, c) else c == L.end && At(w, 2 * c - 1) == 1
  {
    assert BlockOk(L, b);
    var c := b + L.size[b];
    if c in L.size {
      assert BlockOk(L, c) && Tagged(w, L, c);
    }
  }

  lemma NotEmpty(L: Layout, b: int)
    requires Tiled(L) && b in L.size
    ensures L.first < L.end
  {
    assert BlockOk(L, b);
  }

  // ---- tiling is preserved ----

  lemma SplitTiled(L: Layout, b: int, n: int)
    requires Tiled(L) && b in L.size && 2 <= n <= L.size[b] - 2
    ensures Tiled(Split(L, b, n)) && b + n !in L.size
  {
    var S := Split(L, b, n);
    assert BlockOk(L, b);
    forall c | c in L.size
      ensures c != b + n
    {
      assert BlockOk(L, c) && (c != b ==> Apart(L, b, c));
    }
    SplitApart(L, b, n);
    forall c | c in S.size
      ensures BlockOk(S, c)
    {
      if c == b + n {
        assert IsPrev(S, b, c);
      } else {
        assert BlockOk(L, c);
        SplitPrev(L, b, n, c);
      }
    }
    SplitPrev(L, b, n, L.end);
  }

  lemma SplitApart(L: Layout, b: int, n: int)
    requires Tiled(L) && b in L.size && 2 <= n <= L.size[b] - 2 && b + n !in L.size
    ensures var S := Split(L, b, n);
            forall c, d {:trigger Apart(S, c, d)} :: c in S.size && d in S.size && c != d ==> Apart(S, c, d)
  {
    var S := Split(L, b, n);
    forall c, d | c in S.size && d in S.size && c != d
      ensures Apart(S, c, d)
    {
      var c', d' := if c == b + n then b else c, if d == b + n then b else d;
      assert c' != d' ==> Apart(L, c', d');
    }
  }

  lemma SplitPrev(L: Layout, b: int, n: int, c: int)
    requires b in L.size && 2 <= n <= L.size[b] - 2 && b + n !in L.size
    requires HasPrev(L, c)
    ensures HasPrev(Split(L, b, n), c)
  {
    if c != L.first {
      var a :| IsPrev(L, a, c);
      assert IsPrev(Split(L, b, n), if a == b then b + n else a, c);
    }
  }

  lemma MergeTiled(L: Layout, a: int)
    requires Tiled(L) && a in L.size && a + L.size[a] in L.size
    ensures Tiled(Merge(L, a))
  {
    var M := Merge(L, a);
    assert BlockOk(L, a) && BlockOk(L, a + L.size[a]);
    forall b | b in M.size
      ensures BlockOk(M, b)
    {
      MergeBlock(L, a, b);
    }
    MergeApart(L, a);
    MergePrev(L, a, L.end);
  }

  lemma MergeBlock(L: Layout, a: int, b: int)
    requires Tiled(L) && a in L.size && a + L.size[a] in L.size && b in L.size && b != a + L.size[a]
    ensures BlockOk(Merge(L, a), b)
  {
    var c := a + L.size[a];
    assert BlockOk(L, a) && BlockOk(L, b) && BlockOk(L, c);
    MergePrev(L, a, b);
    if b + L.size[b] == c {
      PrevUnique(L, a, b, c);
    }
  }

  lemma MergeApart(L: Layout, a: int)
    requires Tiled(L) && a in L.size && a + L.size[a] in L.size
    ensures var M := Merge(L, a);
            forall b, d {:trigger Apart(M, b, d)} :: b in M.size && d in M.size && b != d ==> Apart(M, b, d)
  {
    var M, c := Merge(L, a), a + L.size[a];
    forall b, d | b in M.size && d in M.size && b != d
      ensures Apart(M, b, d)
    {
      assert Apart(L, b, d) && Apart(L, b, c) && Apart(L, d, c);
      assert BlockOk(L, b) && BlockOk(L, d) && BlockOk(L, c);
    }
  }

  lemma MergePrev(L: Layout, a: int, b: int)
    requires Tiled(L) && a in L.size && a + L.size[a] in L.size
    requires HasPrev(L, b) && b != a + L.size[a]
    ensures HasPrev(Merge(L, a), b)
  {
    if b != L.first {
      var p :| IsPrev(L, p, b);
      assert IsPrev(Merge(L, a), if p == a + L.size[a] then a else p, b);
    }
  }

  lemma GrowTiled(L: Layout, n: int)
    requires Tiled(L) && 2 <= n
    ensures Tiled(Grow(L, n)) && L.end !in L.size
  {
    var G := Grow(L, n);
    assert L.end in L.size ==> BlockOk(L, L.end);
    assert IsPrev(G, L.end, G.end);
    forall b | b in G.size
      ensures BlockOk(G, b)
    {
      assert b in L.size ==> BlockOk(L, b);
      GrowPrev(L, n, b);
    }
    GrowApart(L, n);
  }

  lemma GrowApart(L: Layout, n: int)
    requires Tiled(L) && 2 <= n && L.end !in L.size
    ensures var G := Grow(L, n);
            forall b, d {:trigger Apart(G, b, d)} :: b in G.size && d in G.size && b != d ==> Apart(G, b, d)
  {
    var G := Grow(L, n);
    forall b, d | b in G.size && d in G.size && b != d
      ensures Apart(G, b, d)
    {
      assert b in L.size ==> BlockOk(L, b);
      assert d in L.size ==> BlockOk(L, d);
      assert b in L.size && d in L.size ==> Apart(L, b, d);
    }
  }

  lemma GrowPrev(L: Layout, n: int, b: int)
    requires HasPrev(L, b) && L.end !in L.size
    ensures HasPrev(Grow(L, n), b)
  {
    if b != L.first {
      var a :| IsPrev(L, a, b);
      assert IsPrev(Grow(L, n), a, b);
    }
  }

  // ---- which words belong to whom ----

  /** The word number of the first list head: the list array is 56 bytes before the first block. */
  ghost function Base(L: Layout): int {
    2 * L.first - 14
  }

  ghost predicate Payload(L: Layout, b: int, i: int)
    requires b in L.size
  {
    2 * b <= i < 2 * (b + L.size[b]) - 2
  }

  /** Byte `off` of the payload of block b. */
  ghost function PayloadByte(w: map<int, Word>, b: int, off: nat): Byte {
    ByteAt(w, 8 * b + off)
  }

  /** Of the first size bytes of the payload of block b, only the one at off changes, to v. */
  ghost predicate ByteStored(w: map<int, Word>, w': map<int, Word>, b: int, size: nat, off: nat, v: Byte) {
    forall o: nat {:trigger PayloadByte(w', b, o)} :: o < size ==>
      PayloadByte(w', b, o) == if o == off then v else PayloadByte(w, b, o)
  }

  ghost predicate TagOf(L: Layout, D: set<int>, i: int) {
    exists d :: d in D && d in L.size && (i == 2 * d - 1 || i == 2 * (d + L.size[d]) - 2)
  }

  /** The tags of block b against the link words and the payload of block q. */
  lemma TagVersusBlock(L: Layout, b: int, q: int)
    requires Tiled(L) && b in L.size && q in L.size
    ensures forall i :: i == 2 * b - 1 || i == 2 * (b + L.size[b]) - 2 ==>
              i != 2 * q && i != 2 * q + 1 && !Payload(L, q, i)
  {
    assert BlockOk(L, b) && BlockOk(L, q) && (b != q ==> Apart(L, b, q));
  }

  lemma PayloadIsNotTag(L: Layout, b: int, i: int)
    requires Tiled(L) && b in L.size && Payload(L, b, i)
    ensures !TagWord(L, i)
  {
    assert BlockOk(L, b);
    forall d | d in L.size
      ensures i != 2 * d - 1 && i != 2 * (d + L.size[d]) - 2
    {
      TagVersusBlock(L, d, b);
    }
  }

  lemma TagIsNotLink(L: Layout, listed: set<int>, i: int)
    requires Tiled(L) && listed <= L.size.Keys && TagWord(L, i)
    ensures !LinkWord(Base(L), listed, i)
  {
    forall q | q in listed
      ensures i != 2 * q && i != 2 * q + 1
    {
      assert BlockOk(L, q);
      assert Payload(L, q, 2 * q) && Payload(L, q, 2 * q + 1);
      if i == 2 * q || i == 2 * q + 1 {
        PayloadIsNotTag(L, q, i);
      }
    }
    forall b | b in L.size
      ensures L.first <= b && 2 <= L.size[b]
    {
      assert BlockOk(L, b);
    }
  }

  lemma PayloadIsNotLink(L: Layout, listed: set<int>, b: int, i: int)
    requires Tiled(L) && listed <= L.size.Keys && b in L.size && b !in listed && Payload(L, b, i)
    ensures !LinkWord(Base(L), listed, i)
  {
    assert BlockOk(L, b);
    forall q | q in listed
      ensures i != 2 * q && i != 2 * q + 1
    {
      assert BlockOk(L, q) && Apart(L, b, q);
    }
  }

  // ---- tags, lists and live payloads under writes ----

  ghost predicate OnlyLinks(w: map<int, Word>, w': map<int, Word>, L: Layout, listed: set<int>) {
    forall i {:trigger LinkWord(Base(L), listed, i)} :: !LinkWord(Base(L), listed, i) ==> At(w', i) == At(w, i)
  }

  ghost predicate OnlyTags(w: map<int, Word>, w': map<int, Word>, L: Layout) {
    forall i {:trigger TagWord(L, i)} :: !TagWord(L, i) ==> At(w', i) == At(w, i)
  }

  ghost predicate OnlyTagsOf(w: map<int, Word>, w': map<int, Word>, L: Layout, D: set<int>) {
    forall i {:trigger TagOf(L, D, i)} :: !TagOf(L, D, i) ==> At(w', i) == At(w, i)
  }

  /** Blocks S are allocated before and after, with the same size and the same payload words. */
  ghost predicate Kept(w: map<int, Word>, L: Layout, w': map<int, Word>, L': Layout, S: set<int>) {
    && S <= Allocated(L) && S <= Allocated(L')
    && forall b {:trigger KeptBlock(w, L, w', L', b)} :: b in S ==> KeptBlock(w, L, w', L', b)
  }

  ghost predicate KeptBlock(w: map<int, Word>, L: Layout, w': map<int, Word>, L': Layout, b: int)
    requires b in L.size && b in L'.size
  {
    L'.size[b] == L.size[b] && forall i {:trigger At(w', i)} :: Payload(L, b, i) ==> At(w', i) == At(w, i)
  }

  lemma KeptByLinks(w: map<int, Word>, w': map<int, Word>, L: Layout, listed: set<int>)
    requires Tiled(L) && listed <= L.free && OnlyLinks(w, w', L, listed)
    ensures Kept(w, L, w', L, Allocated(L))
  {
    forall b, i | b in Allocated(L) && Payload(L, b, i)
      ensures At(w', i) == At(w, i)
    {
      PayloadIsNotLink(L, listed, b, i);
    }
  }

  lemma KeptByTags(w: map<int, Word>, L: Layout, w': map<int, Word>, L': Layout, S: set<int>)
    requires Tiled(L') && OnlyTags(w, w', L')
    requires S <= Allocated(L) && S <= Allocated(L') && forall b :: b in S ==> L'.size[b] == L.size[b]
    ensures Kept(w, L, w', L', S)
  {
    forall b, i | b in S && Payload(L, b, i)
      ensures At(w', i) == At(w, i)
    {
      PayloadIsNotTag(L', b, i);
    }
  }

  lemma TagsUnderLinks(w: map<int, Word>, w': map<int, Word>, L: Layout, listed: set<int>)
    requires Tiled(L) && Tags(w, L) && listed <= L.size.Keys && OnlyLinks(w, w', L, listed)
    ensures Tags(w', L)
  {
    forall i | TagWord(L, i)
      ensures At(w', i) == At(w, i)
    {
      TagIsNotLink(L, listed, i);
    }
    forall b | b in L.size
      ensures Tagged(w', L, b)
    {
      assert Tagged(w, L, b) && TagWord(L, 2 * b - 1) && TagWord(L, 2 * (b + L.size[b]) - 2);
    }
  }

  /** Moving blocks in and out of the lists disturbs neither the tags nor any live payload. */
  lemma Relinked(w: map<int, Word>, w': map<int, Word>, L: Layout, listed: set<int>)
    requires Tiled(L) && Tags(w, L) && listed <= L.free && OnlyLinks(w, w', L, listed)
    ensures Tags(w', L) && Kept(w, L, w', L, Allocated(L))
  {
    TagsUnderLinks(w, w', L, listed);
    KeptByLinks(w, w', L, listed);
  }

  /** Taking node k off list i keeps everything else. */
  lemma Unlinking(w: map<int, Word>, L: Layout, fl: seq<seq<int>>, listed: set<int>, i: int, k: int)
    requires Tiled(L) && Tags(w, L) && listed <= L.free && Lists(w, Base(L), fl, L.size, listed)
    requires 0 <= i < LISTS && 0 <= k < |fl[i]| && Chain(w, Base(L) + i, fl[i])
    ensures var w' := Unlinked(w, Base(L) + i, fl[i], k);
            && Lists(w', Base(L), fl[i := Without(fl[i], k)], L.size, listed - {fl[i][k]})
            && Tags(w', L) && Kept(w, L, w', L, Allocated(L))
  {
    UnlinkedLists(w, Base(L), fl, L.size, listed, i, k);
    Relinked(w, Unlinked(w, Base(L) + i, fl[i], k), L, listed);
  }

  /** Putting free block b on its list keeps everything else. */
  lemma Linking(w: map<int, Word>, L: Layout, fl: seq<seq<int>>, listed: set<int>, b: int)
    requires Tiled(L) && Tags(w, L) && listed <= L.free && Lists(w, Base(L), fl, L.size, listed)
    requires b in L.free && b !in listed && 0 <= Base(L) && Base(L) + LISTS < 2 * b
    requires 0 < 8 * b < 0x1_0000_0000 && 0 <= ListOf(L.size, b) < LISTS
    ensures var i := ListOf(L.size, b);
            var w' := Pushed(w, Base(L) + i, fl[i], b);
            && Lists(w', Base(L), fl[i := [b] + fl[i]], L.size, listed + {b})
            && Tags(w', L) && Kept(w, L, w', L, Allocated(L))
  {
    var i := ListOf(L.size, b);
    PushedLists(w, Base(L), fl, L.size, listed, b);
    Relinked(w, Pushed(w, Base(L) + i, fl[i], b), L, listed + {b});
  }

  lemma KeptTwice(w: map<int, Word>, L: Layout, w': map<int, Word>, L': Layout, w'': map<int, Word>, L'': Layout,
                  S: set<int>, T: set<int>)
    requires Kept(w, L, w', L', S) && Kept(w', L', w'', L'', T)
    ensures Kept(w, L, w'', L'', S * T)
  {
    forall b | b in S * T
      ensures KeptBlock(w, L, w'', L'', b)
    {
      assert KeptBlock(w, L, w', L', b) && KeptBlock(w', L', w'', L'', b);
      forall i | Payload(L, b, i)
        ensures At(w'', i) == At(w, i)
      {
        assert At(w', i) == At(w, i);
      }
    }
  }

  lemma ListsUnderTags(w: map<int, Word>, w': map<int, Word>, L: Layout, L': Layout, fl: seq<seq<int>>,
                       listed: set<int>)
    requires Tiled(L') && L.first == L'.first && OnlyTags(w, w', L')
    requires Lists(w, Base(L), fl, L.size, listed) && listed <= L'.size.Keys
    requires forall b :: b in listed ==> b in L.size && L'.size[b] == L.size[b]
    ensures Lists(w', Base(L'), fl, L'.size, listed)
  {
    forall i | LinkWord(Base(L), listed, i)
      ensures At(w', i) == At(w, i)
    {
      if TagWord(L', i) {
        TagIsNotLink(L', listed, i);
      }
    }
    ListsFrame(w, w', Base(L), fl, L.size, L'.size, listed);
  }

  /** Rewriting the tags of the blocks in D is all it takes to go from L to L'. */
  lemma Retag(w: map<int, Word>, L: Layout, w': map<int, Word>, L': Layout, D: set<int>)
    requires Tiled(L') && Tags(w, L) && L'.first == L.first && L'.end == L.end
    requires forall b :: b in L'.size && b !in D ==> b in L.size && L'.size[b] == L.size[b] && Bit(L', b) == Bit(L, b)
    requires forall d {:trigger Tagged(w', L', d)} :: d in D && d in L'.size ==> Tagged(w', L', d)
    requires OnlyTagsOf(w, w', L', D)
    ensures Tags(w', L') && OnlyTags(w, w', L')
  {
    RetagEnds(L', D);
    RetagOnly(w, w', L', D);
    forall b | b in L'.size
      ensures Tagged(w', L', b)
    {
      if b !in D {
        assert Tagged(w, L, b);
        RetagMisses(L', D, b);
      }
    }
  }

  lemma RetagOnly(w: map<int, Word>, w': map<int, Word>, L: Layout, D: set<int>)
    requires OnlyTagsOf(w, w', L, D)
    ensures OnlyTags(w, w', L)
  {
    forall i | !TagWord(L, i)
      ensures At(w', i) == At(w, i)
    {
      assert !TagOf(L, D, i);
    }
  }

  lemma RetagEnds(L: Layout, D: set<int>)
    requires Tiled(L)
    ensures !TagOf(L, D, 2 * L.first - 3) && !TagOf(L, D, 2 * L.first - 2) && !TagOf(L, D, 2 * L.end - 1)
  {
    forall d | d in D && d in L.size
      ensures L.first <= d && 2 <= L.size[d] && d + L.size[d] <= L.end
    {
      assert BlockOk(L, d);
    }
  }

  lemma RetagMisses(L: Layout, D: set<int>, b: int)
    requires Tiled(L) && b in L.size && b !in D
    ensures !TagOf(L, D, 2 * b - 1) && !TagOf(L, D, 2 * (b + L.size[b]) - 2)
  {
    assert BlockOk(L, b);
    forall d | d in D && d in L.size
      ensures 2 * b - 1 != 2 * d - 1 && 2 * (b + L.size[b]) - 2 != 2 * (d + L.size[d]) - 2
    {
      assert BlockOk(L, d) && Apart(L, d, b);
    }
  }

  /** The epilogue becomes the header of the new block, and a new epilogue is written. */
  lemma GrowTags(w: map<int, Word>, w': map<int, Word>, L: Layout, n: int)
    requires Tiled(L) && Tags(w, L) && 2 <= n
    requires var i := 2 * (L.end + n) - 2;
             && At(w', 2 * L.end - 1) == 8 * n && At(w', i) == 8 * n && At(w', i + 1) == 1
             && forall j :: j != 2 * L.end - 1 && j != i && j != i + 1 ==> At(w', j) == At(w, j)
    ensures Tags(w', Grow(L, n)) && OnlyTags(w, w', Grow(L, n))
  {
    var G := Grow(L, n);
    GrowTiled(L, n);
    forall b | b in G.size
      ensures Tagged(w', G, b)
    {
      if b != L.end {
        assert BlockOk(L, b) && Tagged(w, L, b);
        assert b in L.free <==> b in G.free;
      }
    }
    assert L.end in G.size;
  }

  // ---- tag rewrites as the code does them ----

  /** w with both tags of block d of L stored. */
  ghost function Retagged(w: map<int, Word>, L: Layout, d: int): map<int, Word>
    requires d in L.size && 0 <= Tag(L, d) < 0x1_0000_0000
  {
    w[2 * d - 1 := Tag(L, d)][2 * (d + L.size[d]) - 2 := Tag(L, d)]
  }

  lemma RetaggedOne(w: map<int, Word>, L: Layout, d: int)
    requires d in L.size && 2 <= L.size[d] && 0 <= Tag(L, d) < 0x1_0000_0000
    ensures Tagged(Retagged(w, L, d), L, d) && OnlyTagsOf(w, Retagged(w, L, d), L, {d})
  {
  }

  lemma RetaggedTwo(w: map<int, Word>, L: Layout, d: int, e: int)
    requires Tiled(L) && d in L.size && e in L.size && d != e
    requires 0 <= Tag(L, d) < 0x1_0000_0000 && 0 <= Tag(L, e) < 0x1_0000_0000
    ensures var w' := Retagged(Retagged(w, L, d), L, e);
            Tagged(w', L, d) && Tagged(w', L, e) && OnlyTagsOf(w, w', L, {d, e})
  {
    assert BlockOk(L, d) && BlockOk(L, e) && Apart(L, d, e);
    assert d in {d, e} && e in {d, e};
  }

  /** Everything the invariant needs after the tags of the blocks in D were rewritten. */
  lemma Rewritten(w: map<int, Word>, L: Layout, w': map<int, Word>, L': Layout, D: set<int>,
                  fl: seq<seq<int>>, listed: set<int>, S: set<int>)
    requires Tiled(L') && Tags(w, L) && Lists(w, Base(L), fl, L.size, listed)
    requires L'.first == L.first && L'.end == L.end
    requires forall b :: b in L'.size && b !in D ==> b in L.size && L'.size[b] == L.size[b] && Bit(L', b) == Bit(L, b)
    requires forall d {:trigger Tagged(w', L', d)} :: d in D && d in L'.size ==> Tagged(w', L', d)
    requires OnlyTagsOf(w, w', L', D)
    requires listed <= L'.size.Keys && listed !! D
    requires S <= Allocated(L) && S <= Allocated(L') && S !! D
    ensures Tags(w', L') && Lists(w', Base(L'), fl, L'.size, listed) && Kept(w, L, w', L', S)
  {
    Retag(w, L, w', L', D);
    ListsUnderTags(w, w', L, L', fl, listed);
    KeptByTags(w, L, w', L', S);
  }

  /** The tags around block b, with the prologue and the epilogue as the outermost neighbours. */
  lemma Neighbours(w: map<int, Word>, L: Layout, b: int) returns (a: int, pn: int, pa: int, c: int, nn: int, na: int)
    requires Tiled(L) && Tags(w, L) && b in L.size
    ensures a + pn == b && 0 <= pa <= 1 && At(w, 2 * a - 1) == At(w, 2 * b - 2) == 8 * pn + pa
    ensures L.first - 1 <= a && 1 <= pn
    ensures if pa == 0 then a in L.free && L.size[a] == pn else forall p :: IsPrev(L, p, b) ==> p !in L.free
    ensures c == b + L.size[b] && 0 <= na <= 1 && At(w, 2 * c - 1) == 8 * nn + na
    ensures c <= L.end
    ensures if na == 0 then c in L.free && L.size[c] == nn else c !in L.free
    ensures nn == 0 <==> c == L.end
    ensures c != L.end ==> c in L.size && nn == L.size[c]
  {
    var p := PrevTag(w, L, b);
    if b == L.first {
      a, pn, pa := b - 1, 1, 1;
      forall p | p in L.size
        ensures p + L.size[p] != b
      {
        assert BlockOk(L, p);
      }
    } else {
      a, pn, pa := p, L.size[p], Bit(L, p);
      assert BlockOk(L, p);
      forall q | IsPrev(L, q, b)
        ensures q == p
      {
        PrevUnique(L, p, q, b);
      }
    }
    assert BlockOk(L, b);
    NextTag(w, L, b);
    c := b + L.size[b];
    if c in L.size {
      nn, na := L.size[c], Bit(L, c);
      assert BlockOk(L, c);
    } else {
      nn, na := 0, 1;
    }
  }

  lemma GrownHeap(w: map<int, Word>, w': map<int, Word>, L: Layout, n: int, fl: seq<seq<int>>)
    requires Tiled(L) && Tags(w, L) && Lists(w, Base(L), fl, L.size, L.free) && 2 <= n
    requires var i := 2 * (L.end + n) - 2;
             && At(w', 2 * L.end - 1) == 8 * n && At(w', i) == 8 * n && At(w', i + 1) == 1
             && forall j :: j != 2 * L.end - 1 && j != i && j != i + 1 ==> At(w', j) == At(w, j)
    ensures var G := Grow(L, n);
            && Tiled(G) && Tags(w', G) && Lists(w', Base(G), fl, G.size, L.free) && G.free - {L.end} == L.free
            && Kept(w, L, w', G, Allocated(L)) && Allocated(G) == Allocated(L)
  {
    var G := Grow(L, n);
    GrowTiled(L, n);
    GrowTags(w, w', L, n);
    ListsUnderTags(w, w', L, G, fl, L.free);
    KeptByTags(w, L, w', G, Allocated(L));
  }

  /** Prologue, epilogue and ten NULL heads make an empty heap. */
  lemma EmptyHeap(w: map<int, Word>, first: int)
    requires At(w, 2 * first - 3) == 9 && At(w, 2 * first - 2) == 9 && At(w, 2 * first - 1) == 1
    requires forall i :: 2 * first - 14 <= i < 2 * first - 4 ==> At(w, i) == 0
    ensures var L := Layout(first, first, map[], {});
            Tiled(L) && Tags(w, L) && Coalesced(L, {}) && Lists(w, Base(L), seq(LISTS, _ => []), L.size, {})
  {
  }
}
