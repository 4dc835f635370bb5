/**
 The simulated heap of memlib.c: an array of bytes with a break pointer that only grows.
 The allocator reads and writes it as little-endian four-byte words (the -m32 build).
 The ghost field `words` is that word view of the same bytes; it is what the allocator's
 invariants speak about.
 */
module Memlib {
  import opened Common

  type Word = x: int | 0 <= x < 0x1_0000_0000

  /** The word an x86 load of four bytes yields. */
  function LittleEndian(b0: Byte, b1: Byte, b2: Byte, b3: Byte): Word {
    b0 + 0x100 * b1 + 0x1_0000 * b2 + 0x100_0000 * b3
  }

  /** Byte k of a word in memory order. */
  function ByteOf(v: Word, k: nat): Byte
    requires k < 4
  {
    if k == 0 then v % 0x100
    else if k == 1 then v / 0x100 % 0x100
    else if k == 2 then v / 0x100 / 0x100 % 0x100
    else v / 0x100 / 0x100 / 0x100
  }

  /** Storing a word byte by byte and loading it back are inverse. */
  lemma StoreThenLoad(v: Word)
    ensures LittleEndian(ByteOf(v, 0), ByteOf(v, 1), ByteOf(v, 2), ByteOf(v, 3)) == v
  {
    var h := v / 0x100;
    var q := h / 0x100;
    assert v == v % 0x100 + 0x100 * h && h == h % 0x100 + 0x100 * q;
    assert q == q % 0x100 + 0x100 * (q / 0x100);
  }

  lemma LoadThenByte(b0: Byte, b1: Byte, b2: Byte, b3: Byte)
    ensures var v := LittleEndian(b0, b1, b2, b3);
            ByteOf(v, 0) == b0 && ByteOf(v, 1) == b1 && ByteOf(v, 2) == b2 && ByteOf(v, 3) == b3
            && v == b0 + 256 * (b1 + 256 * (b2 + 256 * b3))
  {
    var v := LittleEndian(b0, b1, b2, b3);
    assert v / 0x100 == b1 + 0x100 * b2 + 0x1_0000 * b3;
    assert v / 0x100 / 0x100 == b2 + 0x100 * b3;
  }

  /** Word i of the view, which is the one at address 4 * i; outside the heap it reads as 0. */
  ghost function At(words: map<int, Word>, i: int): Word {
    if i in words then words[i] else 0
  }

  /** The byte at address a, as the word view has it. */
  ghost function ByteAt(words: map<int, Word>, a: int): Byte {
    ByteOf(At(words, a / 4), a % 4)
  }

  ghost function Load(b: seq<Byte>, j: int): Word
    requires 0 <= j && j + 4 <= |b|
  {
    LittleEndian(b[j], b[j + 1], b[j + 2], b[j + 3])
  }

  /** Word i of a byte array whose first byte has address 4 * first. */
  ghost function WordAt(b: seq<Byte>, first: int, i: int): Word {
    if first <= i && 4 * (i - first) + 4 <= |b| then Load(b, 4 * (i - first)) else 0
  }

  ghost function View(b: seq<Byte>, first: int): (w: map<int, Word>)
    ensures Tied(b, first, w)
  {
    map i | first <= i < first + |b| / 4 :: WordAt(b, first, i)
  }

  /** The word view w describes the bytes b. */
  ghost predicate Tied(b: seq<Byte>, first: int, w: map<int, Word>) {
    forall i {:trigger WordAt(b, first, i)} :: At(w, i) == WordAt(b, first, i)
  }

  lemma TiedAfterPutWord(b: seq<Byte>, first: int, w: map<int, Word>, i: int, v: Word, c: seq<Byte>)
    requires first <= i && 4 * (i - first) + 4 <= |b| == |c| && Tied(b, first, w)
    requires forall j :: 0 <= j < |b| ==>
               var d := j - 4 * (i - first); c[j] == if 0 <= d < 4 then ByteOf(v, d) else b[j]
    ensures Tied(c, first, w[i := v])
  {
    forall k
      ensures At(w[i := v], k) == WordAt(c, first, k)
    {
      assert At(w, k) == WordAt(b, first, k);
      WordAfterPut(b, first, i, v, c, k);
    }
  }

  lemma WordAfterPut(b: seq<Byte>, first: int, i: int, v: Word, c: seq<Byte>, k: int)
    requires first <= i && 4 * (i - first) + 4 <= |b| == |c|
    requires forall j :: 0 <= j < |b| ==>
               var d := j - 4 * (i - first); c[j] == if 0 <= d < 4 then ByteOf(v, d) else b[j]
    ensures WordAt(c, first, k) == if k == i then v else WordAt(b, first, k)
  {
    var j := 4 * (k - first);
    if k == i {
      StoreThenLoad(v);
    }
    if 0 <= j && j + 4 <= |b| {
      assert WordAt(c, first, k) == LittleEndian(c[j], c[j + 1], c[j + 2], c[j + 3]);
    }
  }

  lemma LoadedByte(b: seq<Byte>, j: int, r: int)
    requires 0 <= j && j + 4 <= |b| && 0 <= r < 4
    ensures ByteOf(Load(b, j), r) == b[j + r]
  {
    LoadThenByte(b[j], b[j + 1], b[j + 2], b[j + 3]);
  }

  lemma TiedByte(b: seq<Byte>, first: int, w: map<int, Word>, a: int)
    requires Tied(b, first, w) && 4 * first <= a && 4 * (a / 4 - first) + 4 <= |b|
    ensures ByteAt(w, a) == b[a - 4 * first]
  {
    assert At(w, a / 4) == WordAt(b, first, a / 4);
    LoadedByte(b, 4 * (a / 4 - first), a % 4);
  }

  lemma WordAfterPutByte(b: seq<Byte>, first: int, a: int, c: seq<Byte>, i: int)
    requires |c| == |b|
    requires forall j :: 0 <= j < |b| && j != a - 4 * first ==> c[j] == b[j]
    requires i != a / 4
    ensures WordAt(c, first, i) == WordAt(b, first, i)
  {
  }

  lemma BytesAfterPutByte(b: seq<Byte>, w: map<int, Word>, w': map<int, Word>, origin: int, extent: nat, a: int,
                          v: Byte, c: int)
    requires |b| == 8 * extent
    requires 8 * origin <= a < 8 * origin + 8 * extent && 8 * origin <= c < 8 * origin + 8 * extent
    requires Tied(b, 2 * origin, w) && Tied(b[a - 8 * origin := v], 2 * origin, w')
    ensures ByteAt(w', c) == if c == a then v else ByteAt(w, c)
  {
    WordInside(c, origin, extent);
    TiedByte(b, 2 * origin, w, c);
    TiedByte(b[a - 8 * origin := v], 2 * origin, w', c);
  }

  lemma WordInside(c: int, origin: int, extent: nat)
    requires 8 * origin <= c < 8 * origin + 8 * extent
    ensures 4 * (c / 4 - 2 * origin) + 4 <= 8 * extent
  {
  }

  /** What memcpy leaves: bytes [d, d + n) now hold what [s, s + n) held. */
  ghost predicate Copied(b: seq<Byte>, c: seq<Byte>, d: int, s: int, n: nat)
    requires 0 <= s && s + n <= |b| && 0 <= d && d + n <= |b|
  {
    && |c| == |b|
    && forall j :: 0 <= j < |b| ==> c[j] == b[if d <= j < d + n then s + (j - d) else j]
  }

  lemma WordAfterCopy(b: seq<Byte>, c: seq<Byte>, first: int, d: int, s: int, n: nat, i: int)
    requires 0 <= s && 4 * s + n <= |b| && 0 <= d && 4 * d + n <= |b|
    requires Copied(b, c, 4 * d, 4 * s, n)
    ensures i < first + d || 4 * (first + d) + n <= 4 * i ==> WordAt(c, first, i) == WordAt(b, first, i)
    ensures first + d <= i && 4 * i + 4 <= 4 * (first + d) + n ==> WordAt(c, first, i) == WordAt(b, first, i - d + s)
  {
  }

  lemma WordsAfterCopy(b: seq<Byte>, c: seq<Byte>, w: map<int, Word>, w': map<int, Word>,
                       origin: int, d: int, s: int, n: nat)
    requires origin <= s && 8 * (s - origin) + n <= |b| && origin <= d && 8 * (d - origin) + n <= |b|
    requires Copied(b, c, 8 * (d - origin), 8 * (s - origin), n)
    requires Tied(b, 2 * origin, w) && Tied(c, 2 * origin, w')
    ensures forall i :: i < 2 * d || 8 * d + n <= 4 * i ==> At(w', i) == At(w, i)
    ensures forall i :: 2 * d <= i && 4 * i + 4 <= 8 * d + n ==> At(w', i) == At(w, i - 2 * d + 2 * s)
  {
    forall i
      ensures i < 2 * d || 8 * d + n <= 4 * i ==> At(w', i) == At(w, i)
      ensures 2 * d <= i && 4 * i + 4 <= 8 * d + n ==> At(w', i) == At(w, i - 2 * d + 2 * s)
    {
      WordAfterCopy(b, c, 2 * origin, 2 * d - 2 * origin, 2 * s - 2 * origin, n, i);
      var j := i - 2 * d + 2 * s;
      assert At(w, i) == WordAt(b, 2 * origin, i) && At(w', i) == WordAt(c, 2 * origin, i);
      assert At(w, j) == WordAt(b, 2 * origin, j);
    }
  }

  class Memory {
    const start: int           // mem_start_brk
    ghost const origin: int    // start and MAX_HEAP in double words
    ghost const extent: int
    const bytes: array<Byte>   // the MAX_HEAP bytes behind it
    var brk: int               // mem_brk
    ghost var words: map<int, Word>

    /** Whether word i, the one at address 4 * i, is inside the heap's storage. */
    ghost predicate IsWord(i: int) {
      2 * origin <= i < 2 * origin + 2 * extent
    }

    ghost predicate Valid()
      reads this, bytes
    {
      && start > 0 && start == 8 * origin && bytes.Length == 8 * extent
      && start + bytes.Length < 0x1_0000_0000
      && start <= brk <= start + bytes.Length
      && Tied(bytes[..], 2 * origin, words)
    }

    /** mem_init: malloc's result and MAX_HEAP are parameters. */
    constructor (start: int, maxHeap: nat)
      requires start > 0 && start == 8 * (start / 8) && maxHeap == 8 * (maxHeap / 8)
      requires start + maxHeap < 0x1_0000_0000
      ensures Valid() && fresh(bytes) && this.start == start && brk == start && bytes.Length == maxHeap
    {
      this.start := start;
      origin, extent := start / 8, maxHeap / 8;
      bytes := new Byte[maxHeap];
      brk := start;
      new;
      words := View(bytes[..], 2 * origin);
    }

    function MaxAddr(): int {
      start + bytes.Length
    }

    /** mem_heapsize */
    function HeapSize(): int
      reads this
    {
      brk - start
    }

    /** mem_reset_brk */
    method ResetBrk()
      requires Valid()
      modifies this`brk
      ensures Valid() && brk == start
    {
      brk := start;
    }

    /** mem_sbrk: the heap cannot shrink, and stops at the largest legal address. */
    method Sbrk(incr: int) returns (r: int)
      requires Valid()
      modifies this`brk
      ensures Valid()
      ensures incr < 0 || old(brk) + incr > MaxAddr() ==> r == -1 && brk == old(brk)
      ensures 0 <= incr && old(brk) + incr <= MaxAddr() ==> r == old(brk) && brk == old(brk) + incr
    {
      var oldBrk := brk;
      if incr < 0 || brk + incr > MaxAddr() {
        return -1;
      }
      brk := brk + incr;
      return oldBrk;
    }

    /** A four-byte load; the ghost argument is the number of the word. */
    method GetWord(p: int, ghost i: int) returns (r: Word)
      requires Valid() && p == 4 * i && IsWord(i)
      ensures r == At(words, i)
    {
      var j := p - start;
      r := LittleEndian(bytes[j], bytes[j + 1], bytes[j + 2], bytes[j + 3]);
      assert At(words, i) == WordAt(bytes[..], 2 * origin, i);
    }

    /** A four-byte store below the break. */
    method PutWord(p: int, v: Word, ghost i: int)
      requires Valid() && p == 4 * i && IsWord(i) && p + 4 <= brk
      modifies this`words, bytes
      ensures Valid() && words == old(words)[i := v]
    {
      var j := p - start;
      ghost var was := bytes[..];
      bytes[j], bytes[j + 1], bytes[j + 2], bytes[j + 3] := ByteOf(v, 0), ByteOf(v, 1), ByteOf(v, 2), ByteOf(v, 3);
      TiedAfterPutWord(was, 2 * origin, words, i, v, bytes[..]);
      words := words[i := v];
    }

    /** A client's one-byte load. */
    method GetByte(a: int) returns (b: Byte)
      requires Valid() && start <= a < MaxAddr()
      ensures b == ByteAt(words, a)
    {
      b := bytes[a - start];
      TiedByte(bytes[..], 2 * origin, words, a);
    }

    /** A client's one-byte store: it changes one word, and in it one byte. */
    method PutByte(a: int, v: Byte)
      requires Valid() && start <= a < brk
      modifies this`words, bytes
      ensures Valid()
      ensures forall i :: i != a / 4 ==> At(words, i) == old(At(words, i))
      ensures forall c :: start <= c < MaxAddr() ==> ByteAt(words, c) == if c == a then v else old(ByteAt(words, c))
    {
      ghost var was, first := bytes[..], 2 * origin;
      bytes[a - start] := v;
      ghost var now := bytes[..];
      assert now == was[a - start := v];
      words := View(now, first);
      forall i | i != a / 4
        ensures At(words, i) == old(At(words, i))
      {
        WordAfterPutByte(was, first, a, now, i);
        assert old(At(words, i)) == WordAt(was, first, i) && At(words, i) == WordAt(now, first, i);
      }
      forall c | start <= c < MaxAddr()
        ensures ByteAt(words, c) == if c == a then v else old(ByteAt(words, c))
      {
        BytesAfterPutByte(was, old(words), words, origin, extent, a, v, c);
      }
    }

    /** memcpy between disjoint ranges, or onto itself. */
    method Memcpy(dst: int, src: int, n: nat, ghost d: int, ghost s: int)
      requires Valid() && start <= src && start <= dst && dst == 8 * d && src == 8 * s
      requires src + n <= MaxAddr() && dst + n <= brk
      requires src == dst || src + n <= dst || dst + n <= src
      modifies this`words, bytes
      ensures Valid()
      ensures forall i :: i < 2 * d || 8 * d + n <= 4 * i ==> At(words, i) == old(At(words, i))
      ensures forall i :: 2 * d <= i && 4 * i + 4 <= 8 * d + n ==>
                At(words, i) == old(At(words, i - 2 * d + 2 * s))
    {
      ghost var was, first := bytes[..], 2 * origin;
      CopyBytes(dst - start, src - start, n);
      ghost var now := bytes[..];
      words := View(now, first);
      WordsAfterCopy(was, now, old(words), words, origin, d, s, n);
    }

    method CopyBytes(d: nat, s: nat, n: nat)
      requires s + n <= bytes.Length && d + n <= bytes.Length
      requires s == d || s + n <= d || d + n <= s
      modifies bytes
      ensures Copied(old(bytes[..]), bytes[..], d, s, n)
    {
      for i := 0 to n
        invariant Copied(old(bytes[..]), bytes[..], d, s, i)
      {
        bytes[d + i] := bytes[s + i];
      }
    }
  }
}
