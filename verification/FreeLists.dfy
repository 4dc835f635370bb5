/**
 The ten intrusive doubly linked free lists of mm.c. A node is a free block; its SUCC and PRED
 pointers are the first two words of its payload, and the ten heads are the first ten words of
 the heap. A block is named by its double-word number b, so its address is 8 * b, SUCC is
 word 2 * b of the heap and PRED is word 2 * b + 1.
 */
module FreeLists {
  import opened Common
  import opened Memlib

  const LISTS := 10

  /** The pointer to node k of a chain; NULL outside it. */
  ghost function Ref(s: seq<int>, k: int): int {
    if 0 <= k < |s| then 8 * s[k] else 0
  }

  ghost predicate Linked(w: map<int, Word>, s: seq<int>, k: int)
    requires 0 <= k < |s|
  {
    At(w, 2 * s[k]) == Ref(s, k + 1) && At(w, 2 * s[k] + 1) == Ref(s, k - 1)
  }

  /** Following SUCC from the head word visits exactly s, and PRED is its inverse. */
  ghost predicate Chain(w: map<int, Word>, head: int, s: seq<int>) {
    && At(w, head) == Ref(s, 0)
    && (forall k :: 0 <= k < |s| ==> Linked(w, s, k))
    && NoRepeats(s)
    && (forall k :: 0 <= k < |s| ==> head < 2 * s[k])
  }

  /** Unlinking node k: its predecessor's SUCC (or the head) and its successor's PRED change. */
  ghost predicate UnlinkWrites(w: map<int, Word>, w': map<int, Word>, head: int, s: seq<int>, k: int)
    requires 0 <= k < |s|
  {
    var before := if k == 0 then head else 2 * s[k - 1];
    && At(w', before) == Ref(s, k + 1)
    && (k + 1 < |s| ==> At(w', 2 * s[k + 1] + 1) == Ref(s, k - 1))
    && (forall i :: i != before && (k + 1 < |s| ==> i != 2 * s[k + 1] + 1) ==> At(w', i) == At(w, i))
  }

  ghost function Unlinked(w: map<int, Word>, head: int, s: seq<int>, k: int): map<int, Word>
    requires 0 <= k < |s| && Chain(w, head, s)
  {
    var before := if k == 0 then head else 2 * s[k - 1];
    assert Linked(w, s, k);
    if k + 1 < |s| then w[before := At(w, 2 * s[k])][2 * s[k + 1] + 1 := At(w, 2 * s[k] + 1)]
    else w[before := At(w, 2 * s[k])]
  }

  lemma UnlinkedWrites(w: map<int, Word>, head: int, s: seq<int>, k: int)
    requires Chain(w, head, s) && 0 <= k < |s|
    ensures UnlinkWrites(w, Unlinked(w, head, s, k), head, s, k)
  {
    assert Linked(w, s, k);
    assert k + 1 < |s| ==> head < 2 * s[k + 1];
  }

  lemma UnlinkChain(w: map<int, Word>, w': map<int, Word>, head: int, s: seq<int>, k: int)
    requires Chain(w, head, s) && 0 <= k < |s| && UnlinkWrites(w, w', head, s, k)
    ensures Chain(w', head, Without(s, k))
  {
    var t := Without(s, k);
    forall j | 0 <= j < |t|
      ensures Linked(w', t, j)
    {
      if j < k {
        assert Linked(w, s, j);
      } else {
        assert Linked(w, s, j + 1);
      }
    }
  }

  /** Pushing b: its own two words, the head, and the old first node's PRED change. */
  ghost predicate PushWrites(w: map<int, Word>, w': map<int, Word>, head: int, s: seq<int>, b: int) {
    && At(w', head) == 8 * b
    && At(w', 2 * b) == Ref(s, 0) && At(w', 2 * b + 1) == 0
    && (|s| > 0 ==> At(w', 2 * s[0] + 1) == 8 * b)
    && (forall i :: i != head && i != 2 * b && i != 2 * b + 1 && (|s| > 0 ==> i != 2 * s[0] + 1) ==>
          At(w', i) == At(w, i))
  }

  ghost function Pushed(w: map<int, Word>, head: int, s: seq<int>, b: int): map<int, Word>
    requires 0 <= 8 * b < 0x1_0000_0000
  {
    var w1 := if At(w, head) != 0 && |s| > 0 then w[2 * s[0] + 1 := 8 * b] else w;
    w1[2 * b + 1 := 0][2 * b := At(w, head)][head := 8 * b]
  }

  lemma PushedWrites(w: map<int, Word>, head: int, s: seq<int>, b: int)
    requires Chain(w, head, s) && b !in s && 0 < 8 * b < 0x1_0000_0000 && head < 2 * b
    requires |s| > 0 ==> s[0] > 0
    ensures PushWrites(w, Pushed(w, head, s, b), head, s, b)
  {
  }

  lemma PushChain(w: map<int, Word>, w': map<int, Word>, head: int, s: seq<int>, b: int)
    requires Chain(w, head, s) && b !in s && head < 2 * b && PushWrites(w, w', head, s, b)
    ensures Chain(w', head, [b] + s)
  {
    var t := [b] + s;
    forall j | 0 <= j < |t|
      ensures Linked(w', t, j)
    {
      if j > 0 {
        assert t[j] == s[j - 1] && Linked(w, s, j - 1);
      }
    }
  }

  /** floor(log2(n)), and 0 for n = 0 */
  function FloorLog2(n: nat): nat {
    if n < 2 then 0 else 1 + FloorLog2(n / 2)
  }

  /** What get_free_list_idx returns for a block of n bytes. */
  function ListIndex(n: nat): int {
    (if FloorLog2(n) < LISTS - 1 then FloorLog2(n) else LISTS - 1) - 3
  }

  lemma {:induction false} FloorLog2Is(n: nat)
    requires n > 0
    ensures Pow2(FloorLog2(n)) <= n < Pow2(FloorLog2(n) + 1)
  {
    if n > 1 {
      FloorLog2Is(n / 2);
    }
  }

  /** List r, counted from -3, is for the sizes from 2^(r + 3) up to twice that; the last takes all that are larger. */
  lemma ListIndexIs(n: nat)
    ensures n == 0 ==> ListIndex(n) == -3
    ensures n > 0 ==> -3 <= ListIndex(n) <= 6 && Pow2(ListIndex(n) + 3) <= n
    ensures n > 0 && ListIndex(n) < 6 ==> n < Pow2(ListIndex(n) + 4)
  {
    if n > 0 {
      FloorLog2Is(n);
      Pow2Monotone(9, FloorLog2(n));
    }
  }

  lemma Pow2Monotone(m: nat, n: nat)
    ensures m <= n ==> Pow2(m) <= Pow2(n)
  {
    if m < n {
      Pow2Order(m, n);
    }
  }

  lemma FloorLog2Monotone(m: nat, n: nat)
    requires m <= n
    ensures FloorLog2(m) <= FloorLog2(n)
  {
  }

  /** The list a bigger block lives in is never an earlier one, and every legal size has a list. */
  lemma ListIndexMonotone(m: nat, n: nat)
    requires 16 <= m <= n
    ensures 1 <= ListIndex(m) <= ListIndex(n) < LISTS
  {
    FloorLog2Monotone(m, n);
    FloorLog2Monotone(16, m);
    assert FloorLog2(16) == 4 by {
      assert FloorLog2(8) == 3;
    }
  }

  /** The words the list operations may touch: the ten heads, and the links of listed blocks. */
  ghost predicate LinkWord(base: int, listed: set<int>, i: int) {
    base <= i < base + LISTS || IsLinkOf(listed, i)
  }

  ghost predicate IsLinkOf(listed: set<int>, i: int) {
    exists b :: b in listed && (i == 2 * b || i == 2 * b + 1)
  }

  /** List i is a chain of listed blocks whose size belongs there. */
  ghost predicate ListOk(w: map<int, Word>, base: int, fl: seq<seq<int>>, size: map<int, int>, listed: set<int>, i: int)
    requires 0 <= i < |fl|
  {
    Chain(w, base + i, fl[i]) && forall b :: b in fl[i] ==> b in listed && ListOf(size, b) == i
  }

  /** Block b is on the list of its size. */
  ghost predicate OnItsList(base: int, fl: seq<seq<int>>, size: map<int, int>, b: int)
    requires |fl| == LISTS
  {
    base + LISTS < 2 * b && 0 <= ListOf(size, b) < LISTS && b in fl[ListOf(size, b)]
  }

  /**
   The ten lists hold exactly the blocks in `listed`, each in the list of its current size.
   Heads are the words base .. base + 9.
   */
  ghost predicate Lists(w: map<int, Word>, base: int, fl: seq<seq<int>>, size: map<int, int>, listed: set<int>) {
    && |fl| == LISTS
    && (forall i {:trigger ListOk(w, base, fl, size, listed, i)} :: 0 <= i < LISTS ==>
          ListOk(w, base, fl, size, listed, i))
    && (forall b {:trigger OnItsList(base, fl, size, b)} :: b in listed ==> OnItsList(base, fl, size, b))
  }

  ghost function ListOf(size: map<int, int>, b: int): int {
    if b in size && size[b] >= 2 then ListIndex(8 * size[b]) else -1
  }

  /** Only the link words matter, and only the sizes of the listed blocks. */
  lemma ListsFrame(w: map<int, Word>, w': map<int, Word>, base: int, fl: seq<seq<int>>,
                   size: map<int, int>, size': map<int, int>, listed: set<int>)
    requires Lists(w, base, fl, size, listed)
    requires forall i :: LinkWord(base, listed, i) ==> At(w', i) == At(w, i)
    requires forall b :: b in listed ==> b in size && b in size' && size'[b] == size[b]
    ensures Lists(w', base, fl, size', listed)
  {
    forall b | b in listed
      ensures ListOf(size', b) == ListOf(size, b) && OnItsList(base, fl, size', b)
    {
      assert OnItsList(base, fl, size, b);
    }
    forall i | 0 <= i < LISTS
      ensures ListOk(w', base, fl, size', listed, i)
    {
      assert ListOk(w, base, fl, size, listed, i);
      ChainFrame(w, w', base, i, fl[i], listed);
    }
  }

  lemma ChainFrame(w: map<int, Word>, w': map<int, Word>, base: int, i: int, s: seq<int>, listed: set<int>)
    requires Chain(w, base + i, s) && 0 <= i < LISTS
    requires forall b :: b in s ==> b in listed
    requires forall i :: LinkWord(base, listed, i) ==> At(w', i) == At(w, i)
    ensures Chain(w', base + i, s)
  {
    assert LinkWord(base, listed, base + i);
    forall k | 0 <= k < |s|
      ensures Linked(w', s, k)
    {
      assert Linked(w, s, k) && s[k] in listed;
      assert LinkWord(base, listed, 2 * s[k]) && LinkWord(base, listed, 2 * s[k] + 1);
    }
  }

  lemma UnlinkChains(w: map<int, Word>, w': map<int, Word>, base: int, fl: seq<seq<int>>,
                     size: map<int, int>, listed: set<int>, i: int, k: int)
    requires Lists(w, base, fl, size, listed)
    requires 0 <= i < LISTS && 0 <= k < |fl[i]|
    requires UnlinkWrites(w, w', base + i, fl[i], k)
    ensures var fl', rest := fl[i := Without(fl[i], k)], listed - {fl[i][k]};
            forall j {:trigger ListOk(w', base, fl', size, rest, j)} :: 0 <= j < LISTS ==>
              ListOk(w', base, fl', size, rest, j)
  {
    var fl', rest := fl[i := Without(fl[i], k)], listed - {fl[i][k]};
    assert ListOk(w, base, fl, size, listed, i) && fl[i][k] in fl[i];
    UnlinkChain(w, w', base + i, fl[i], k);
    forall j | 0 <= j < LISTS
      ensures ListOk(w', base, fl', size, rest, j)
    {
      assert ListOk(w, base, fl, size, listed, j);
      if j == i {
        forall c
          ensures c in Without(fl[i], k) <==> c in fl[i] && c != fl[i][k]
        {
          WithoutMembers(fl[i], k, c);
        }
      } else {
        OtherChain(w, w', base, fl, size, listed, i, j, k);
      }
    }
  }

  lemma UnlinkMembers(w: map<int, Word>, base: int, fl: seq<seq<int>>, size: map<int, int>, listed: set<int>, i: int,
                      k: int, c: int)
    requires Lists(w, base, fl, size, listed) && 0 <= i < LISTS && 0 <= k < |fl[i]|
    requires c in listed && c != fl[i][k]
    ensures OnItsList(base, fl[i := Without(fl[i], k)], size, c)
  {
    assert OnItsList(base, fl, size, c) && ListOk(w, base, fl, size, listed, i);
    WithoutMembers(fl[i], k, c);
  }

  /** Removing one block from its list. */
  lemma UnlinkLists(w: map<int, Word>, w': map<int, Word>, base: int, fl: seq<seq<int>>,
                    size: map<int, int>, listed: set<int>, i: int, k: int)
    requires Lists(w, base, fl, size, listed)
    requires 0 <= i < LISTS && 0 <= k < |fl[i]|
    requires UnlinkWrites(w, w', base + i, fl[i], k)
    ensures Lists(w', base, fl[i := Without(fl[i], k)], size, listed - {fl[i][k]})
    ensures forall j :: !LinkWord(base, listed - {fl[i][k]}, j) ==> At(w', j) == At(w, j)
  {
    UnlinkChains(w, w', base, fl, size, listed, i, k);
    forall c | c in listed - {fl[i][k]}
      ensures OnItsList(base, fl[i := Without(fl[i], k)], size, c)
    {
      UnlinkMembers(w, base, fl, size, listed, i, k, c);
    }
    UnlinkTouches(w, w', base, fl, size, listed, i, k);
  }

  lemma UnlinkedLists(w: map<int, Word>, base: int, fl: seq<seq<int>>,
                      size: map<int, int>, listed: set<int>, i: int, k: int)
    requires Lists(w, base, fl, size, listed) && 0 <= i < LISTS && 0 <= k < |fl[i]| && Chain(w, base + i, fl[i])
    ensures var w' := Unlinked(w, base + i, fl[i], k);
            && Lists(w', base, fl[i := Without(fl[i], k)], size, listed - {fl[i][k]})
            && forall j {:trigger LinkWord(base, listed, j)} :: !LinkWord(base, listed, j) ==> At(w', j) == At(w, j)
  {
    assert ListOk(w, base, fl, size, listed, i);
    var w' := Unlinked(w, base + i, fl[i], k);
    UnlinkedWrites(w, base + i, fl[i], k);
    UnlinkLists(w, w', base, fl, size, listed, i, k);
    forall j | !LinkWord(base, listed, j)
      ensures At(w', j) == At(w, j)
    {
      assert !LinkWord(base, listed - {fl[i][k]}, j);
    }
  }

  lemma PushedLists(w: map<int, Word>, base: int, fl: seq<seq<int>>, size: map<int, int>, listed: set<int>, b: int)
    requires Lists(w, base, fl, size, listed) && 0 < 8 * b < 0x1_0000_0000
    requires b !in listed && base + LISTS < 2 * b && 0 <= ListOf(size, b) < LISTS
    requires 0 <= base
    ensures var i := ListOf(size, b);
            var w' := Pushed(w, base + i, fl[i], b);
            && Lists(w', base, fl[i := [b] + fl[i]], size, listed + {b})
            && forall j {:trigger LinkWord(base, listed + {b}, j)} :: !LinkWord(base, listed + {b}, j) ==>
                 At(w', j) == At(w, j)
  {
    var i := ListOf(size, b);
    assert ListOk(w, base, fl, size, listed, i);
    assert |fl[i]| > 0 ==> fl[i][0] in fl[i] && OnItsList(base, fl, size, fl[i][0]);
    assert b !in fl[i];
    PushedWrites(w, base + i, fl[i], b);
    PushLists(w, Pushed(w, base + i, fl[i], b), base, fl, size, listed, b);
  }

  lemma WithoutMembers(s: seq<int>, k: int, c: int)
    requires NoRepeats(s) && 0 <= k < |s|
    ensures c in Without(s, k) <==> c in s && c != s[k]
  {
  }

  lemma UnlinkTouches(w: map<int, Word>, w': map<int, Word>, base: int, fl: seq<seq<int>>,
                      size: map<int, int>, listed: set<int>, i: int, k: int)
    requires Lists(w, base, fl, size, listed)
    requires 0 <= i < LISTS && 0 <= k < |fl[i]|
    requires UnlinkWrites(w, w', base + i, fl[i], k)
    ensures forall j :: !LinkWord(base, listed - {fl[i][k]}, j) ==> At(w', j) == At(w, j)
  {
    var s, rest := fl[i], listed - {fl[i][k]};
    assert ListOk(w, base, fl, size, listed, i);
    assert k > 0 ==> s[k - 1] in s && s[k - 1] in rest;
    assert k + 1 < |s| ==> s[k + 1] in s && s[k + 1] in rest;
  }

  /** Nodes of different lists are different blocks, and no node is a head. */
  lemma NodeApart(w: map<int, Word>, base: int, fl: seq<seq<int>>, size: map<int, int>, listed: set<int>, i: int,
                  k: int)
    requires Lists(w, base, fl, size, listed)
    requires 0 <= i < LISTS && 0 <= k < |fl[i]|
    ensures fl[i][k] in listed && base + LISTS < 2 * fl[i][k]
    ensures forall j :: 0 <= j < LISTS && j != i ==> fl[i][k] !in fl[j]
  {
    assert ListOk(w, base, fl, size, listed, i) && fl[i][k] in fl[i];
    assert OnItsList(base, fl, size, fl[i][k]);
    forall j | 0 <= j < LISTS && j != i
      ensures fl[i][k] !in fl[j]
    {
      assert ListOk(w, base, fl, size, listed, j);
    }
  }

  /** A chain survives writes that miss its head and its nodes' links. */
  lemma ChainKept(w: map<int, Word>, w': map<int, Word>, head: int, t: seq<int>)
    requires Chain(w, head, t) && At(w', head) == At(w, head)
    requires forall b :: b in t ==> At(w', 2 * b) == At(w, 2 * b) && At(w', 2 * b + 1) == At(w, 2 * b + 1)
    ensures Chain(w', head, t)
  {
    forall m | 0 <= m < |t|
      ensures Linked(w', t, m)
    {
      assert Linked(w, t, m) && t[m] in t;
    }
  }

  lemma OtherChain(w: map<int, Word>, w': map<int, Word>, base: int, fl: seq<seq<int>>,
                   size: map<int, int>, listed: set<int>, i: int, j: int, k: int)
    requires Lists(w, base, fl, size, listed)
    requires 0 <= i < LISTS && 0 <= j < LISTS && i != j && 0 <= k < |fl[i]|
    requires UnlinkWrites(w, w', base + i, fl[i], k)
    ensures Chain(w', base + j, fl[j])
  {
    if k > 0 {
      NodeApart(w, base, fl, size, listed, i, k - 1);
    }
    if k + 1 < |fl[i]| {
      NodeApart(w, base, fl, size, listed, i, k + 1);
    }
    assert ListOk(w, base, fl, size, listed, j);
    forall b | b in fl[j]
      ensures b in listed && base + LISTS < 2 * b
    {
      assert OnItsList(base, fl, size, b);
    }
    ChainKept(w, w', base + j, fl[j]);
  }

  lemma PushOther(w: map<int, Word>, w': map<int, Word>, base: int, fl: seq<seq<int>>,
                  size: map<int, int>, listed: set<int>, i: int, j: int, b: int)
    requires Lists(w, base, fl, size, listed)
    requires 0 <= i < LISTS && 0 <= j < LISTS && i != j
    requires b !in listed && base + LISTS < 2 * b
    requires PushWrites(w, w', base + i, fl[i], b)
    ensures Chain(w', base + j, fl[j])
  {
    if |fl[i]| > 0 {
      NodeApart(w, base, fl, size, listed, i, 0);
    }
    assert ListOk(w, base, fl, size, listed, j);
    forall c | c in fl[j]
      ensures c in listed && base + LISTS < 2 * c
    {
      assert OnItsList(base, fl, size, c);
    }
    ChainKept(w, w', base + j, fl[j]);
  }

  /** Adding one block at the front of the list of its size. */
  lemma PushLists(w: map<int, Word>, w': map<int, Word>, base: int, fl: seq<seq<int>>,
                  size: map<int, int>, listed: set<int>, b: int)
    requires Lists(w, base, fl, size, listed)
    requires b !in listed && base + LISTS < 2 * b && 0 <= ListOf(size, b) < LISTS
    requires PushWrites(w, w', base + ListOf(size, b), fl[ListOf(size, b)], b)
    ensures var i := ListOf(size, b); Lists(w', base, fl[i := [b] + fl[i]], size, listed + {b})
    ensures forall j :: !LinkWord(base, listed + {b}, j) ==> At(w', j) == At(w, j)
  {
    var i := ListOf(size, b);
    var fl' := fl[i := [b] + fl[i]];
    forall j | 0 <= j < LISTS
      ensures ListOk(w', base, fl', size, listed + {b}, j)
    {
      assert ListOk(w, base, fl, size, listed, j);
      if j == i {
        assert b !in fl[i];
        PushChain(w, w', base + i, fl[i], b);
      } else {
        PushOther(w, w', base, fl, size, listed, i, j, b);
      }
    }
    forall c | c in listed + {b}
      ensures OnItsList(base, fl', size, c)
    {
      assert c != b ==> OnItsList(base, fl, size, c);
    }
    PushTouches(w, w', base, fl, size, listed, b);
  }

  lemma PushTouches(w: map<int, Word>, w': map<int, Word>, base: int, fl: seq<seq<int>>,
                    size: map<int, int>, listed: set<int>, b: int)
    requires Lists(w, base, fl, size, listed)
    requires 0 <= ListOf(size, b) < LISTS
    requires PushWrites(w, w', base + ListOf(size, b), fl[ListOf(size, b)], b)
    ensures forall j :: !LinkWord(base, listed + {b}, j) ==> At(w', j) == At(w, j)
  {
    var s := fl[ListOf(size, b)];
    assert ListOk(w, base, fl, size, listed, ListOf(size, b));
    assert |s| > 0 ==> s[0] in s && s[0] in listed + {b};
    forall j | !LinkWord(base, listed + {b}, j)
      ensures At(w', j) == At(w, j)
    {
      assert b in listed + {b};
    }
  }
}
