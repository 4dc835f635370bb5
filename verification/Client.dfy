/**
 Whole runs of the allocator, as mdriver.c drives it: requests name their blocks by an index, and
 between requests the client stores bytes into the blocks it holds. The run refines a plain table
 from index to requested size and bytes stored so far. A refused request does not end the run.
 */
module Client {
  import opened Common
  import opened FreeLists
  import opened HeapFacts
  import opened Memlib
  import opened Blocks
  import opened Resizing
  import opened Mm

  datatype Op =
    | Alloc(id: nat, size: nat)
    | Resize(id: nat, size: nat)
    | Release(id: nat)
    | Store(id: nat, off: nat, v: Byte)

  /** What the client knows of one of its blocks. */
  datatype Entry = Entry(size: nat, bytes: map<nat, Byte>)

  type Table = map<nat, Entry>

  /**
   The requests a careful client may make. An index without a block stands for the NULL pointer, so
   it may be resized and released. Sizes are those for which size + 15 does not wrap.
   */
  predicate Legal(t: Table, op: Op) {
    match op
    case Alloc(id, size) => id !in t && size + 15 < 0x1_0000_0000
    case Resize(id, size) => size + 15 < 0x1_0000_0000
    case Release(id) => true
    case Store(id, off, v) => id in t && off < t[id].size
  }

  function Trim(e: Entry, size: nat): Entry {
    Entry(size, map off | off in e.bytes && off < size :: e.bytes[off])
  }

  function Stored(t: Table, id: nat, off: nat, v: Byte): Table
    requires id in t
  {
    t[id := Entry(t[id].size, t[id].bytes[off := v])]
  }

  /** The table after a request that returned a block, or did not. */
  function Apply(t: Table, op: Op, served: bool): Table
    requires Legal(t, op)
  {
    match op
    case Alloc(id, size) => if served then t[id := Entry(size, map[])] else t
    case Resize(id, size) =>
      if size == 0 then t - {id}
      else if !served then t
      else t[id := if id in t then Trim(t[id], size) else Entry(size, map[])]
    case Release(id) => t - {id}
    case Store(id, off, v) => Stored(t, id, off, v)
  }

  /** A careful client leaves out what is not legal. */
  function Advance(t: Table, op: Op, served: bool): Table {
    if Legal(t, op) then Apply(t, op, served) else t
  }

  /** The table after all of ops and their answers. */
  function TableAfter(t: Table, ops: seq<Op>, served: seq<bool>): Table
    requires |ops| == |served|
  {
    if ops == [] then t
    else
      var n := |ops| - 1;
      Advance(TableAfter(t, ops[..n], served[..n]), ops[n], served[n])
  }

  /** now is the table after the requests that were answered so far. */
  ghost predicate Answered(t: Table, ops: seq<Op>, served: seq<bool>, now: Table) {
    |served| <= |ops| && now == TableAfter(t, ops[..|served|], served)
  }

  lemma AnsweredStep(t: Table, ops: seq<Op>, served: seq<bool>, now: Table, s: bool)
    requires |served| < |ops| && Answered(t, ops, served, now)
    ensures Answered(t, ops, served + [s], Advance(now, ops[|served|], s))
  {
    var k := |served|;
    assert ops[..k + 1][..k] == ops[..k] && (served + [s])[..k] == served;
  }

  lemma AllAnswered(t: Table, ops: seq<Op>, served: seq<bool>, now: Table)
    requires Answered(t, ops, served, now) && |served| == |ops|
    ensures now == TableAfter(t, ops, served)
  {
    assert ops[..|served|] == ops;
  }

  // ---- what the table says, from the requests alone ----

  /** The request leaves byte off of block id as it is. */
  predicate LeavesByte(op: Op, served: bool, id: nat, off: nat) {
    match op
    case Alloc(i, size) => true
    case Resize(i, size) => i == id ==> size > 0 && (served ==> off < size)
    case Release(i) => i != id
    case Store(i, o, v) => i != id || o != off
  }

  /** The table holds the byte that was last stored, if the block has not been released or cut since. */
  lemma {:induction false} LastStoreStays(t: Table, ops: seq<Op>, served: seq<bool>, k: nat, id: nat, off: nat, v: Byte)
    requires |ops| == |served| && k < |ops| && ops[k] == Store(id, off, v)
    requires var now := TableAfter(t, ops[..k], served[..k]); id in now && off < now[id].size
    requires forall j :: k < j < |ops| ==> LeavesByte(ops[j], served[j], id, off)
    ensures var u := TableAfter(t, ops, served); id in u && off in u[id].bytes && u[id].bytes[off] == v
  {
    var n := |ops| - 1;
    if k < n {
      assert ops[..n][..k] == ops[..k] && served[..n][..k] == served[..k];
      LastStoreStays(t, ops[..n], served[..n], k, id, off, v);
    }
  }

  /** The request gives block id this size. */
  predicate Sets(op: Op, served: bool, id: nat, size: nat) {
    served && (op == Alloc(id, size) || (op == Resize(id, size) && size > 0))
  }

  /** The request leaves the size of block id as it is. */
  predicate LeavesSize(op: Op, served: bool, id: nat) {
    match op
    case Alloc(i, size) => true
    case Resize(i, size) => i == id ==> size > 0 && !served
    case Release(i) => i != id
    case Store(i, o, v) => true
  }

  /** The table holds the size of the last request that was served for the block. */
  lemma {:induction false} LastSizeStays(t: Table, ops: seq<Op>, served: seq<bool>, k: nat, id: nat, size: nat)
    requires |ops| == |served| && k < |ops| && Sets(ops[k], served[k], id, size) && size + 15 < 0x1_0000_0000
    requires ops[k].Alloc? ==> id !in TableAfter(t, ops[..k], served[..k])
    requires forall j :: k < j < |ops| ==> LeavesSize(ops[j], served[j], id)
    ensures var u := TableAfter(t, ops, served); id in u && u[id].size == size
  {
    var n := |ops| - 1;
    if k < n {
      assert ops[..n][..k] == ops[..k] && served[..n][..k] == served[..k];
      LastSizeStays(t, ops[..n], served[..n], k, id, size);
    }
  }

  /** A released block is gone until a request for that index is served. */
  lemma {:induction false} ReleasedStaysGone(t: Table, ops: seq<Op>, served: seq<bool>, k: nat, id: nat)
    requires |ops| == |served| && k < |ops| && (ops[k] == Release(id) || ops[k] == Resize(id, 0))
    requires forall j :: k < j < |ops| && served[j] ==> !(ops[j].Alloc? && ops[j].id == id)
    requires forall j :: k < j < |ops| && served[j] ==> !(ops[j].Resize? && ops[j].id == id)
    ensures id !in TableAfter(t, ops, served)
  {
    var n := |ops| - 1;
    if k < n {
      ReleasedStaysGone(t, ops[..n], served[..n], k, id);
    }
  }

  /** Block b holds what the table says about it. */
  ghost predicate Holds(w: map<int, Word>, L: Layout, b: int, e: Entry) {
    && b in Allocated(L) && e.size <= 8 * L.size[b] - 8
    && forall off :: off in e.bytes ==> off < e.size && PayloadByte(w, b, off) == e.bytes[off]
  }

  lemma ByteIndex(b: int, off: nat)
    ensures (8 * b + off) / 4 == 2 * b + off / 4 && (8 * b + off) % 4 == off % 4
  {
  }

  lemma HoldsKept(w: map<int, Word>, L: Layout, w': map<int, Word>, L': Layout, S: set<int>, b: int, e: Entry)
    requires Holds(w, L, b, e) && Kept(w, L, w', L', S) && b in S
    ensures Holds(w', L', b, e)
  {
    assert KeptBlock(w, L, w', L', b);
    forall off | off in e.bytes
      ensures PayloadByte(w', b, off) == PayloadByte(w, b, off)
    {
      ByteIndex(b, off);
      assert Payload(L, b, 2 * b + off / 4);
    }
  }

  lemma HoldsResized(w: map<int, Word>, L: Layout, w': map<int, Word>, L': Layout, b: int, c: int, e: Entry, size: nat)
    requires Holds(w, L, b, e) && Resized(w, L, b, w', L', c, size)
    ensures Holds(w', L', c, Trim(e, size))
  {
    forall off | off in e.bytes && off < size
      ensures PayloadByte(w', c, off) == PayloadByte(w, b, off)
    {
      ByteIndex(b, off);
      ByteIndex(c, off);
      var j := 2 * c + off / 4;
      assert Payload(L', c, j) && Payload(L, b, j - 2 * c + 2 * b);
    }
  }

  /** No two indices share a block. */
  ghost predicate Injective(at: map<nat, int>) {
    forall i, j {:trigger at[i], at[j]} :: i in at && j in at && i != j ==> at[i] != at[j]
  }

  /** The heap refines the table: index id lives in block at[id], no two in the same. */
  ghost predicate Refines(w: map<int, Word>, L: Layout, at: map<nat, int>, t: Table) {
    && at.Keys == t.Keys
    && (forall id {:trigger at[id]} :: id in at ==> Holds(w, L, at[id], t[id]))
    && Injective(at)
  }

  lemma RefinesKept(w: map<int, Word>, L: Layout, w': map<int, Word>, L': Layout, S: set<int>, at: map<nat, int>,
                    t: Table)
    requires Refines(w, L, at, t) && Kept(w, L, w', L', S) && forall id :: id in at ==> at[id] in S
    ensures Refines(w', L', at, t)
  {
    forall id | id in at
      ensures Holds(w', L', at[id], t[id])
    {
      HoldsKept(w, L, w', L', S, at[id], t[id]);
    }
  }

  lemma RefinesAlloc(w: map<int, Word>, L: Layout, w': map<int, Word>, L': Layout, at: map<nat, int>, t: Table,
                     id: nat, b: int, size: nat)
    requires Refines(w, L, at, t) && Kept(w, L, w', L', Allocated(L)) && id !in t
    requires b !in Allocated(L) && b in Allocated(L') && size <= 8 * L'.size[b] - 8
    ensures Refines(w', L', at[id := b], t[id := Entry(size, map[])])
  {
    RefinesKept(w, L, w', L', Allocated(L), at, t);
  }

  /** Taking index `id` out leaves a table that the remaining blocks still refine. */
  lemma RefinesWithout(w: map<int, Word>, L: Layout, w': map<int, Word>, L': Layout, at: map<nat, int>, t: Table,
                       id: nat)
    requires Refines(w, L, at, t) && id in t && Kept(w, L, w', L', Allocated(L) - {at[id]})
    ensures Refines(w', L', at - {id}, t - {id})
  {
    RefinesKept(w, L, w', L', Allocated(L) - {at[id]}, at - {id}, t - {id});
  }

  lemma RefinesResize(w: map<int, Word>, L: Layout, w': map<int, Word>, L': Layout, at: map<nat, int>, t: Table,
                      id: nat, c: int, size: nat)
    requires Refines(w, L, at, t) && id in t && Resized(w, L, at[id], w', L', c, size)
    ensures Refines(w', L', at[id := c], t[id := Trim(t[id], size)])
  {
    RefinesWithout(w, L, w', L', at, t, id);
    HoldsResized(w, L, w', L', at[id], c, t[id], size);
    NotHeld(w, L, at, t, id, c);
    RefinesPut(w', L', at - {id}, t - {id}, id, c, Trim(t[id], size));
    assert (at - {id})[id := c] == at[id := c];
    assert (t - {id})[id := Trim(t[id], size)] == t[id := Trim(t[id], size)];
  }

  lemma NotHeld(w: map<int, Word>, L: Layout, at: map<nat, int>, t: Table, id: nat, c: int)
    requires Refines(w, L, at, t) && id in t && (c == at[id] || c !in Allocated(L))
    ensures c !in (at - {id}).Values
  {
    forall i | i in at && i != id
      ensures at[i] != c
    {
      assert Holds(w, L, at[i], t[i]);
    }
  }

  lemma RefinesPut(w: map<int, Word>, L: Layout, at: map<nat, int>, t: Table, id: nat, b: int, e: Entry)
    requires Refines(w, L, at, t) && Holds(w, L, b, e) && id !in at && b !in at.Values
    ensures Refines(w, L, at[id := b], t[id := e])
  {
    forall i | i in at
      ensures at[i] != b
    {
      assert at[i] in at.Values;
    }
  }

  lemma RefinesStore(w: map<int, Word>, L: Layout, w': map<int, Word>, at: map<nat, int>, t: Table,
                                        id: nat, off: nat, v: Byte)
    requires Refines(w, L, at, t) && id in t && off < t[id].size
    requires Kept(w, L, w', L, Allocated(L) - {at[id]})
    requires ByteStored(w, w', at[id], t[id].size, off, v)
    ensures Refines(w', L, at, Stored(t, id, off, v))
  {
    RefinesWithout(w, L, w', L, at, t, id);
    var at0 := at - {id};
    forall i | i in at && i != id
      ensures Holds(w', L, at[i], t[i])
    {
      assert at0[i] == at[i];
    }
  }

  /** The client's pointers are the addresses of the blocks, none of them NULL. */
  ghost predicate Pointers(blocks: map<nat, int>, at: map<nat, int>) {
    && blocks.Keys == at.Keys
    && forall id {:trigger blocks[id]} :: id in at ==> blocks[id] == 8 * at[id] && blocks[id] != NULL
  }

  /** The sizes the client keeps are those of the table. */
  ghost predicate Sizes(sizes: map<nat, nat>, t: Table) {
    sizes.Keys == t.Keys && forall id {:trigger sizes[id]} :: id in t ==> sizes[id] == t[id].size
  }

  /** The client's own records are in order. */
  ghost predicate Recorded(blocks: map<nat, int>, sizes: map<nat, nat>, at: map<nat, int>, t: Table) {
    Pointers(blocks, at) && Sizes(sizes, t)
  }

  lemma RecordedAdd(blocks: map<nat, int>, sizes: map<nat, nat>, at: map<nat, int>, t: Table,
                    id: nat, p: int, b: int, e: Entry)
    requires Recorded(blocks, sizes, at, t) && p == 8 * b && p != NULL
    ensures Recorded(blocks[id := p], sizes[id := e.size], at[id := b], t[id := e])
  {
  }

  lemma RecordedDrop(blocks: map<nat, int>, sizes: map<nat, nat>, at: map<nat, int>, t: Table, id: nat)
    requires Recorded(blocks, sizes, at, t)
    ensures Recorded(blocks - {id}, sizes - {id}, at - {id}, t - {id})
  {
  }

  lemma RecordedStore(blocks: map<nat, int>, sizes: map<nat, nat>, at: map<nat, int>, t: Table,
                      id: nat, off: nat, v: Byte)
    requires Recorded(blocks, sizes, at, t) && id in t
    ensures Recorded(blocks, sizes, at, Stored(t, id, off, v))
  {
  }

  // ---- which blocks the client holds ----

  lemma ValuesAdd(at: map<nat, int>, id: nat, b: int)
    requires id !in at
    ensures at[id := b].Values == at.Values + {b}
  {
    var at' := at[id := b];
    assert at'[id] == b;
    forall v | v in at.Values
      ensures v in at'.Values
    {
      var i :| i in at && at[i] == v;
      assert at'[i] == v;
    }
  }

  lemma ValuesDrop(at: map<nat, int>, id: nat)
    requires id in at && Injective(at)
    ensures (at - {id}).Values == at.Values - {at[id]}
  {
    var at' := at - {id};
    forall v | v in at.Values - {at[id]}
      ensures v in at'.Values
    {
      var i :| i in at && at[i] == v;
      assert at'[i] == v;
    }
    forall v | v in at'.Values
      ensures v in at.Values - {at[id]}
    {
      var i :| i in at' && at'[i] == v;
      assert at[i] == v;
    }
  }

  lemma ValuesMove(at: map<nat, int>, id: nat, c: int)
    requires id in at && Injective(at)
    ensures at[id := c].Values == at.Values - {at[id]} + {c}
  {
    ValuesDrop(at, id);
    ValuesAdd(at - {id}, id, c);
    assert (at - {id})[id := c] == at[id := c];
  }

  // ---- which requests are served ----

  /** What decides the answers: the blocks, the break, and which blocks the client holds. */
  datatype Heap = Heap(L: Layout, brk: int, at: map<nat, int>, table: Table)

  /** A request gets a block exactly when the allocator can serve it from this heap, of which max is the end. */
  ghost predicate Serviceable(h: Heap, op: Op, max: int) {
    match op
    case Alloc(id, size) => size > 0 && Serves(h.L, Adjusted(size), h.brk, max)
    case Resize(id, size) =>
      && size > 0
      && if id in h.at && h.at[id] in h.L.size then Resizable(h.L, h.at[id], Adjusted(size), h.brk, max)
         else Serves(h.L, Adjusted(size), h.brk, max)
    case _ => false
  }

  ghost function BreakAfter(h: Heap, op: Op, served: bool, max: int): int {
    match op
    case Alloc(id, size) => if served then ServedBreak(h.L, Adjusted(size), h.brk) else h.brk
    case Resize(id, size) =>
      if size == 0 then h.brk
      else if id in h.at && h.at[id] in h.L.size then
        if served then ResizedBreak(h.L, h.at[id], Adjusted(size), h.brk)
        else RefusedBreak(h.L, h.at[id], Adjusted(size), h.brk, max)
      else if served then ServedBreak(h.L, Adjusted(size), h.brk) else h.brk
    case _ => h.brk
  }

  /**
   The heap up to the break is tiled and coalesced, and the client holds the allocated blocks, each
   long enough.
   */
  ghost predicate Sound(h: Heap) {
    && Tiled(h.L) && Coalesced(h.L, {}) && 8 * h.L.end == h.brk
    && Allocated(h.L) == h.at.Values && h.at.Keys == h.table.Keys && Injective(h.at)
    && forall id {:trigger h.at[id]} :: id in h.at && h.at[id] in h.L.size ==>
         h.table[id].size <= 8 * h.L.size[h.at[id]] - 8
  }

  /** Apart from those that changed, the client's blocks are where they were, and as long. */
  ghost predicate SameBlocks(h: Heap, h': Heap, changed: set<nat>) {
    forall i {:trigger h'.at[i]} :: i in h'.at && i !in changed ==>
      && i in h.at && h'.at[i] == h.at[i]
      && h.at[i] in h.L.size && h.at[i] in h'.L.size && h'.L.size[h.at[i]] == h.L.size[h.at[i]]
  }

  /** The index whose block comes, goes or moves. */
  ghost function Changed(op: Op, served: bool): set<nat> {
    match op
    case Alloc(id, size) => if served then {id} else {}
    case Resize(id, size) => if served || size == 0 then {id} else {}
    case Release(id) => {id}
    case Store(id, off, v) => {}
  }

  /** How long the block is that the request was given. */
  ghost predicate NewLength(h: Heap, op: Op, h': Heap) {
    match op
    case Alloc(id, size) => Fitting(h', id, size)
    case Resize(id, size) =>
      if id in h.at then
        && id in h'.at && h.at[id] in h.L.size && h'.at[id] in h'.L.size
        && LengthIs(h.L, h.at[id], Adjusted(size), h'.L, h'.at[id], h'.brk - h.brk)
      else Fitting(h', id, size)
    case _ => true
  }

  /** The block of index id has the size for the request, or one double word more. */
  ghost predicate Fitting(h: Heap, id: nat, size: nat) {
    && id in h.at && h.at[id] in h.L.size
    && Adjusted(size) <= 8 * h.L.size[h.at[id]] <= Adjusted(size) + 8
  }

  /** A legal request: whether it is served, and what comes of it. */
  ghost predicate Handled(h: Heap, op: Op, served: bool, h': Heap, max: int)
    requires Legal(h.table, op)
  {
    && (served <==> Serviceable(h, op, max))
    && h'.table == Apply(h.table, op, served) && h'.brk == BreakAfter(h, op, served, max)
    && SameBlocks(h, h', Changed(op, served)) && (served ==> NewLength(h, op, h'))
  }

  /** One request and the heap afterwards. */
  ghost predicate Turn(h: Heap, op: Op, served: bool, h': Heap, max: int) {
    if Legal(h.table, op) then Handled(h, op, served, h', max) && Sound(h') && h'.L.first == h.L.first
    else !served && h' == h
  }

  lemma HandledResize(h: Heap, h': Heap, id: nat, size: nat, served: bool, c: int, max: int)
    requires id in h.at && id in h.table && h.at[id] in h.L.size && 0 < size && size + 15 < 0x1_0000_0000
    requires served <==> Resizable(h.L, h.at[id], Adjusted(size), h.brk, max)
    requires h'.brk == if served then ResizedBreak(h.L, h.at[id], Adjusted(size), h.brk)
                       else RefusedBreak(h.L, h.at[id], Adjusted(size), h.brk, max)
    requires h'.at == if served then h.at[id := c] else h.at
    requires h'.table == if served then h.table[id := Trim(h.table[id], size)] else h.table
    requires SameBlocks(h, h', if served then {id} else {})
    requires served ==> c in h'.L.size && LengthIs(h.L, h.at[id], Adjusted(size), h'.L, c, h'.brk - h.brk)
    ensures Handled(h, Resize(id, size), served, h', max)
  {
  }

  /** The client's blocks and the break decide the heap, down to the last free block. */
  lemma HeapDecided(h: Heap, k: Heap)
    requires Sound(h) && Sound(k) && h.L.first == k.L.first && h.brk == k.brk && h.at == k.at
    requires forall id :: id in h.at && h.at[id] in h.L.size && h.at[id] in k.L.size ==>
               h.L.size[h.at[id]] == k.L.size[h.at[id]]
    ensures h.L == k.L
  {
    forall b | b in Allocated(h.L)
      ensures h.L.size[b] == k.L.size[b]
    {
      var id :| id in h.at && h.at[id] == b;
    }
    LiveBlocksDecide(h.L, k.L);
  }

  ghost predicate TurnAt(heaps: seq<Heap>, ops: seq<Op>, served: seq<bool>, max: int, k: nat)
    requires k < |served| <= |ops| && |heaps| == |served| + 1
  {
    Turn(heaps[k], ops[k], served[k], heaps[k + 1], max)
  }

  /** The heaps before, between and after the requests that were answered so far. */
  ghost predicate Course(heaps: seq<Heap>, ops: seq<Op>, served: seq<bool>, max: int) {
    && |served| <= |ops| && |heaps| == |served| + 1
    && forall k: nat {:trigger TurnAt(heaps, ops, served, max, k)} :: k < |served| ==>
         TurnAt(heaps, ops, served, max, k)
  }

  lemma CourseStep(heaps: seq<Heap>, ops: seq<Op>, served: seq<bool>, max: int, s: bool, h: Heap)
    requires Course(heaps, ops, served, max) && |served| < |ops|
    requires Turn(heaps[|served|], ops[|served|], s, h, max)
    ensures Course(heaps + [h], ops, served + [s], max)
  {
    forall k: nat | k < |served| + 1
      ensures TurnAt(heaps + [h], ops, served + [s], max, k)
    {
      assert k < |served| ==> TurnAt(heaps, ops, served, max, k);
    }
  }

  lemma TurnAdvances(h: Heap, op: Op, served: bool, h': Heap, max: int)
    requires Turn(h, op, served, h', max)
    ensures h'.table == Advance(h.table, op, served)
  {
  }

  // ---- the heap and the blocks that the client holds, before and after a call ----

  /** The words refine the table, and the client holds exactly the allocated blocks. */
  ghost predicate Held(w: map<int, Word>, h: Heap) {
    Refines(w, h.L, h.at, h.table) && Allocated(h.L) == h.at.Values
  }

  lemma HeldBlock(w: map<int, Word>, h: Heap, id: nat)
    requires Held(w, h) && id in h.at
    ensures h.at[id] in Allocated(h.L) && h.table[id].size <= 8 * h.L.size[h.at[id]] - 8
  {
    assert Holds(w, h.L, h.at[id], h.table[id]);
  }

  lemma SameKept(w: map<int, Word>, h: Heap, w': map<int, Word>, h': Heap, S: set<int>, changed: set<nat>)
    requires Kept(w, h.L, w', h'.L, S)
    requires forall i {:trigger h'.at[i]} :: i in h'.at && i !in changed ==>
               i in h.at && h'.at[i] == h.at[i] && h.at[i] in S
    ensures SameBlocks(h, h', changed)
  {
    forall i | i in h'.at && i !in changed
      ensures h.at[i] in h.L.size && h.at[i] in h'.L.size && h'.L.size[h.at[i]] == h.L.size[h.at[i]]
    {
      assert KeptBlock(w, h.L, w', h'.L, h.at[i]);
    }
  }

  lemma HeldSame(w: map<int, Word>, h: Heap, w': map<int, Word>, h': Heap, changed: set<nat>)
    requires Held(w, h) && Kept(w, h.L, w', h'.L, Allocated(h.L)) && Allocated(h'.L) == Allocated(h.L)
    requires h'.at == h.at && h'.table == h.table
    ensures Held(w', h') && SameBlocks(h, h', changed)
  {
    RefinesKept(w, h.L, w', h'.L, Allocated(h.L), h.at, h.table);
    SameKept(w, h, w', h', Allocated(h.L), changed);
  }

  lemma HeldAdd(w: map<int, Word>, h: Heap, w': map<int, Word>, h': Heap, id: nat, b: int, size: nat)
    requires Held(w, h) && Kept(w, h.L, w', h'.L, Allocated(h.L)) && id !in h.table
    requires b !in Allocated(h.L) && Allocated(h'.L) == Allocated(h.L) + {b} && size <= 8 * h'.L.size[b] - 8
    requires h'.at == h.at[id := b] && h'.table == h.table[id := Entry(size, map[])]
    ensures Held(w', h') && SameBlocks(h, h', {id})
  {
    RefinesAlloc(w, h.L, w', h'.L, h.at, h.table, id, b, size);
    ValuesAdd(h.at, id, b);
    SameKept(w, h, w', h', Allocated(h.L), {id});
  }

  lemma HeldMove(w: map<int, Word>, h: Heap, w': map<int, Word>, h': Heap, id: nat, c: int, size: nat)
    requires Held(w, h) && id in h.at && Resized(w, h.L, h.at[id], w', h'.L, c, size)
    requires h'.at == h.at[id := c] && h'.table == h.table[id := Trim(h.table[id], size)]
    ensures Held(w', h') && SameBlocks(h, h', {id})
  {
    RefinesResize(w, h.L, w', h'.L, h.at, h.table, id, c, size);
    ValuesMove(h.at, id, c);
    SameKept(w, h, w', h', Allocated(h.L) - {h.at[id]}, {id});
  }

  lemma HeldDrop(w: map<int, Word>, h: Heap, w': map<int, Word>, h': Heap, id: nat)
    requires Held(w, h) && id in h.at && Kept(w, h.L, w', h'.L, Allocated(h.L) - {h.at[id]})
    requires Allocated(h'.L) == Allocated(h.L) - {h.at[id]}
    requires h'.at == h.at - {id} && h'.table == h.table - {id}
    ensures Held(w', h') && SameBlocks(h, h', {id})
  {
    RefinesWithout(w, h.L, w', h'.L, h.at, h.table, id);
    ValuesDrop(h.at, id);
    SameKept(w, h, w', h', Allocated(h.L) - {h.at[id]}, {id});
  }

  lemma HeldStill(w: map<int, Word>, h: Heap, id: nat)
    requires Held(w, h) && id !in h.at
    ensures SameBlocks(h, h, {id}) && h.table - {id} == h.table
  {
    forall i | i in h.at
      ensures h.at[i] in h.L.size
    {
      HeldBlock(w, h, i);
    }
  }

  lemma HeldStore(w: map<int, Word>, h: Heap, w': map<int, Word>, id: nat, off: nat, v: Byte)
    requires Held(w, h) && id in h.at && off < h.table[id].size
    requires Kept(w, h.L, w', h.L, Allocated(h.L) - {h.at[id]})
    requires ByteStored(w, w', h.at[id], h.table[id].size, off, v)
    ensures Held(w', h.(table := Stored(h.table, id, off, v)))
    ensures SameBlocks(h, h.(table := Stored(h.table, id, off, v)), {})
  {
    RefinesStore(w, h.L, w', h.at, h.table, id, off, v);
    forall i | i in h.at
      ensures h.at[i] in h.L.size
    {
      HeldBlock(w, h, i);
    }
  }

  class Driver {
    const mm: Allocator
    var blocks: map<nat, int>    // trace->blocks: the pointer for each index
    var sizes: map<nat, nat>     // trace->block_sizes
    ghost var at: map<nat, int>  // the pointers as double-word numbers
    ghost var table: Table

    /** The client holds exactly the allocated blocks, in a heap that starts with mm_init's data. */
    ghost predicate Valid()
      reads this, mm, mm.mem, mm.mem.bytes
    {
      && mm.Valid() && mm.freeList == mm.mem.start
      && Held(mm.mem.words, Now())
      && Recorded(blocks, sizes, at, table)
    }

    constructor (mm: Allocator)
      ensures this.mm == mm
    {
      this.mm := mm;
      blocks, sizes, at, table := map[], map[], map[], map[];
    }

    ghost function Now(): Heap
      reads this, mm, mm.mem
    {
      Heap(mm.L, mm.mem.brk, at, table)
    }

    /** What mm_init leaves: one free chunk, and nothing held. */
    ghost function FirstHeap(): Heap {
      Heap(InitialLayout(mm.mem.start / 8 + 7), mm.mem.start + INITIAL, map[], map[])
    }

    /** Each trace starts on a reset heap. */
    method Start() returns (ok: bool)
      requires mm.mem.Valid()
      modifies this, mm, mm.mem`words, mm.mem`brk, mm.mem.bytes
      ensures ok <==> mm.mem.start + INITIAL <= mm.mem.MaxAddr()
      ensures ok ==> Valid() && Now() == FirstHeap()
    {
      mm.mem.ResetBrk();
      var r := mm.Init();
      ok := r >= 0;
      blocks, sizes, at, table := map[], map[], map[], map[];
    }

    lemma SoundNow()
      requires Valid()
      ensures Sound(Now())
    {
      forall id | id in at
        ensures table[id].size <= 8 * mm.L.size[at[id]] - 8
      {
        HeldBlock(mm.mem.words, Now(), id);
      }
    }

    /** Stores a pointer that the allocator returned. */
    method Record(id: nat, p: int, ghost b: int, size: nat, ghost e: Entry)
      requires mm.Valid() && mm.freeList == mm.mem.start
      requires Held(mm.mem.words, Heap(mm.L, mm.mem.brk, at[id := b], table[id := e]))
      requires Recorded(blocks, sizes, at, table) && p == 8 * b && p != NULL && e.size == size
      modifies this
      ensures Valid() && Now() == old(Now()).(at := old(at)[id := b], table := old(table)[id := e])
    {
      RecordedAdd(blocks, sizes, at, table, id, p, b, e);
      blocks, sizes, at, table := blocks[id := p], sizes[id := size], at[id := b], table[id := e];
    }

    /** Forgets a pointer whose block is gone. */
    method Forget(id: nat)
      requires mm.Valid() && mm.freeList == mm.mem.start
      requires Held(mm.mem.words, Heap(mm.L, mm.mem.brk, at - {id}, table - {id}))
      requires Recorded(blocks, sizes, at, table)
      modifies this
      ensures Valid() && at == old(at) - {id} && table == old(table) - {id}
    {
      RecordedDrop(blocks, sizes, at, table, id);
      blocks, sizes, at, table := blocks - {id}, sizes - {id}, at - {id}, table - {id};
    }

    method DoAlloc(id: nat, size: nat) returns (ok: bool)
      requires Valid() && id !in table && size + 15 < 0x1_0000_0000
      modifies this, mm, mm.mem`words, mm.mem`brk, mm.mem.bytes
      ensures Valid() && Handled(old(Now()), Alloc(id, size), ok, Now(), mm.mem.MaxAddr())
    {
      ghost var w, h := mm.mem.words, Now();
      var p, b := mm.Malloc(size);
      ok := p != NULL;
      if ok {
        AdjustedBounds(size);
        HeldAdd(w, h, mm.mem.words, Heap(mm.L, mm.mem.brk, at[id := b], table[id := Entry(size, map[])]), id, b, size);
        Record(id, p, b, size, Entry(size, map[]));
      } else {
        HeldSame(w, h, mm.mem.words, Now(), {});
      }
    }

    /** mm_realloc of a live block to another size than 0, without regard to whose it is */
    method ResizeBlock(ptr: int, size: nat, ghost b: int) returns (p: int, ghost c: int)
      requires mm.Valid() && b in Allocated(mm.L) && ptr == 8 * b && ptr != NULL
      requires 0 < size && size + 15 < 0x1_0000_0000
      modifies mm, mm.mem`words, mm.mem`brk, mm.mem.bytes
      ensures mm.Valid() && mm.freeList == old(mm.freeList)
      ensures p != NULL <==> Resizable(old(mm.L), b, Adjusted(size), old(mm.mem.brk), mm.mem.MaxAddr())
      ensures mm.mem.brk == if p != NULL then ResizedBreak(old(mm.L), b, Adjusted(size), old(mm.mem.brk))
                            else RefusedBreak(old(mm.L), b, Adjusted(size), old(mm.mem.brk), mm.mem.MaxAddr())
      ensures p == NULL ==> Allocated(mm.L) == Allocated(old(mm.L))
      ensures p == NULL ==> Kept(old(mm.mem.words), old(mm.L), mm.mem.words, mm.L, Allocated(mm.L))
      ensures p != NULL ==> p == 8 * c && Resized(old(mm.mem.words), old(mm.L), b, mm.mem.words, mm.L, c, size)
      ensures p != NULL ==> LengthIs(old(mm.L), b, Adjusted(size), mm.L, c, mm.mem.brk - old(mm.mem.brk))
    {
      p, c := mm.Realloc(ptr, size, b);
    }

    /** mm_realloc of a block the client holds, to another size than 0 */
    method DoResize(id: nat, size: nat) returns (ok: bool)
      requires Valid() && id in table && 0 < size && size + 15 < 0x1_0000_0000
      modifies this, mm, mm.mem`words, mm.mem`brk, mm.mem.bytes
      ensures Valid() && Handled(old(Now()), Resize(id, size), ok, Now(), mm.mem.MaxAddr())
    {
      ghost var w, h := mm.mem.words, Now();
      HeldBlock(w, h, id);
      var p, c := ResizeBlock(blocks[id], size, at[id]);
      ok := p != NULL;
      ghost var e := Trim(table[id], size);
      ghost var h' := if ok then Heap(mm.L, mm.mem.brk, at[id := c], table[id := e]) else Now();
      if ok {
        HeldMove(w, h, mm.mem.words, h', id, c, size);
        Record(id, p, c, size, e);
      } else {
        HeldSame(w, h, mm.mem.words, h', {});
      }
      HandledResize(h, h', id, size, ok, c, mm.mem.MaxAddr());
    }

    /** mm_realloc of the NULL pointer */
    method DoResizeNull(id: nat, size: nat) returns (ok: bool)
      requires Valid() && id !in table && 0 < size && size + 15 < 0x1_0000_0000
      modifies this, mm, mm.mem`words, mm.mem`brk, mm.mem.bytes
      ensures Valid() && Handled(old(Now()), Resize(id, size), ok, Now(), mm.mem.MaxAddr())
    {
      ghost var w, h := mm.mem.words, Now();
      var p, b := mm.Realloc(NULL, size, 0);
      ok := p != NULL;
      if ok {
        HeldAdd(w, h, mm.mem.words, Heap(mm.L, mm.mem.brk, at[id := b], table[id := Entry(size, map[])]), id, b, size);
        Record(id, p, b, size, Entry(size, map[]));
      } else {
        HeldSame(w, h, mm.mem.words, Now(), {});
      }
    }

    /** The request that gives a block back: mm_realloc to size 0, or mm_free. */
    ghost function Releasing(id: nat, byRealloc: bool): Op {
      if byRealloc then Resize(id, 0) else Release(id)
    }

    method GiveBack(ptr: int, byRealloc: bool, ghost b: int)
      requires mm.Valid() && b in Allocated(mm.L) && ptr == 8 * b && ptr != NULL
      modifies mm, mm.mem`words, mm.mem`brk, mm.mem.bytes
      ensures mm.Valid() && mm.freeList == old(mm.freeList) && mm.mem.brk == old(mm.mem.brk)
      ensures Allocated(mm.L) == old(Allocated(mm.L)) - {b}
      ensures Kept(old(mm.mem.words), old(mm.L), mm.mem.words, mm.L, Allocated(mm.L))
    {
      if byRealloc {
        var _, _ := mm.Realloc(ptr, 0, b);
      } else {
        mm.Free(ptr, b);
      }
    }

    method DoRelease(id: nat, byRealloc: bool)
      requires Valid() && id in table
      modifies this, mm, mm.mem`words, mm.mem`brk, mm.mem.bytes
      ensures Valid() && Handled(old(Now()), Releasing(id, byRealloc), false, Now(), mm.mem.MaxAddr())
    {
      ghost var w, h := mm.mem.words, Now();
      HeldBlock(w, h, id);
      GiveBack(blocks[id], byRealloc, at[id]);
      HeldDrop(w, h, mm.mem.words, Heap(mm.L, mm.mem.brk, at - {id}, table - {id}), id);
      Forget(id);
    }

    /** The same for the NULL pointer */
    method DoReleaseNull(id: nat, byRealloc: bool)
      requires Valid() && id !in table
      modifies mm, mm.mem`words, mm.mem`brk, mm.mem.bytes
      ensures Valid() && Handled(old(Now()), Releasing(id, byRealloc), false, Now(), mm.mem.MaxAddr())
    {
      ghost var w, h := mm.mem.words, Now();
      HeldStill(w, h, id);
      if byRealloc {
        var _, _ := mm.Realloc(NULL, 0, 0);
        HeldSame(w, h, mm.mem.words, Now(), {id});
      } else {
        mm.Free(NULL, 0);
      }
    }

    ghost method NoteByte(id: nat, off: nat, v: Byte)
      requires mm.Valid() && mm.freeList == mm.mem.start && Recorded(blocks, sizes, at, table) && id in table
      requires Held(mm.mem.words, Now().(table := Stored(table, id, off, v)))
      modifies this`table
      ensures Valid() && Now() == old(Now()).(table := Stored(old(table), id, off, v))
    {
      RecordedStore(blocks, sizes, at, table, id, off, v);
      table := Stored(table, id, off, v);
    }

    method DoStore(id: nat, off: nat, v: Byte)
      requires Valid() && id in table && off < table[id].size
      modifies this, mm.mem`words, mm.mem.bytes
      ensures Valid() && Handled(old(Now()), Store(id, off, v), false, Now(), mm.mem.MaxAddr())
    {
      ghost var w, h := mm.mem.words, Now();
      HeldBlock(w, h, id);
      mm.ClientStore(blocks[id], off, v, at[id], table[id].size);
      HeldStore(w, h, mm.mem.words, id, off, v);
      NoteByte(id, off, v);
    }

    /** mm_realloc, whatever the pointer and the size */
    method Reallocate(id: nat, size: nat) returns (served: bool)
      requires Valid() && size + 15 < 0x1_0000_0000
      modifies this, mm, mm.mem`words, mm.mem`brk, mm.mem.bytes
      ensures Valid() && Handled(old(Now()), Resize(id, size), served, Now(), mm.mem.MaxAddr())
    {
      served := false;
      if id in blocks && size > 0 {
        served := DoResize(id, size);
      } else if id in blocks {
        DoRelease(id, true);
      } else if size > 0 {
        served := DoResizeNull(id, size);
      } else {
        DoReleaseNull(id, true);
      }
    }

    method IsLegal(op: Op) returns (legal: bool)
      requires Valid()
      ensures legal <==> Legal(table, op)
    {
      match op {
        case Alloc(id, size) => legal := id !in blocks && size + 15 < 0x1_0000_0000;
        case Resize(id, size) => legal := size + 15 < 0x1_0000_0000;
        case Release(id) => legal := true;
        case Store(id, off, v) => legal := id in sizes && off < sizes[id];
      }
    }

    method Step(op: Op) returns (served: bool)
      requires Valid() && Legal(table, op)
      modifies this, mm, mm.mem`words, mm.mem`brk, mm.mem.bytes
      ensures Valid() && Handled(old(Now()), op, served, Now(), mm.mem.MaxAddr())
    {
      served := false;
      match op {
        case Alloc(id, size) => served := DoAlloc(id, size);
        case Resize(id, size) => served := Reallocate(id, size);
        case Release(id) =>
          if id in blocks {
            DoRelease(id, false);
          } else {
            DoReleaseNull(id, false);
          }
        case Store(id, off, v) => DoStore(id, off, v);
      }
    }

    /** A request, left out if it is not legal. */
    method Attempt(op: Op) returns (served: bool)
      requires Valid()
      modifies this, mm, mm.mem`words, mm.mem`brk, mm.mem.bytes
      ensures Valid() && Turn(old(Now()), op, served, Now(), mm.mem.MaxAddr())
    {
      served := IsLegal(op);
      if served {
        served := Step(op);
        SoundNow();
      }
    }

    /**
     A whole run of requests: each is served exactly when the allocator can serve it from the heap of that
     moment, and afterwards the heap holds exactly what the plain table says for these answers.
     */
    method Run(ops: seq<Op>) returns (served: seq<bool>, ghost heaps: seq<Heap>)
      requires Valid()
      modifies this, mm, mm.mem`words, mm.mem`brk, mm.mem.bytes
      ensures Valid() && |served| == |ops| && Course(heaps, ops, served, mm.mem.MaxAddr())
      ensures heaps[0] == old(Now()) && heaps[|ops|] == Now()
      ensures table == TableAfter(old(table), ops, served)
    {
      served, heaps := [], [Now()];
      while |served| < |ops|
        invariant Course(heaps, ops, served, mm.mem.MaxAddr())
        invariant heaps[0] == old(Now()) && heaps[|served|] == Now()
        invariant Answered(old(table), ops, served, table) && Valid()
      {
        ghost var h := Now();
        var ok := Attempt(ops[|served|]);
        TurnAdvances(h, ops[|served|], ok, Now(), mm.mem.MaxAddr());
        AnsweredStep(old(table), ops, served, h.table, ok);
        CourseStep(heaps, ops, served, mm.mem.MaxAddr(), ok, Now());
        served, heaps := served + [ok], heaps + [Now()];
      }
      AllAnswered(old(table), ops, served, table);
    }

    /** Reset, initialise and run, as for each trace: the heap is then accounted for to the last byte. */
    method EvalTrace(ops: seq<Op>) returns (ok: bool, served: seq<bool>, ghost heaps: seq<Heap>)
      requires mm.mem.Valid()
      modifies this, mm, mm.mem`words, mm.mem`brk, mm.mem.bytes
      ensures ok <==> mm.mem.start + INITIAL <= mm.mem.MaxAddr()
      ensures ok ==> Valid() && |served| == |ops| && table == TableAfter(map[], ops, served)
      ensures ok ==> Course(heaps, ops, served, mm.mem.MaxAddr()) && heaps[0] == FirstHeap() && heaps[|ops|] == Now()
      ensures ok ==> Accounted() && (table == map[] ==> Recovered())
    {
      served, heaps := [], [];
      ok := Start();
      if ok {
        served, heaps := Run(ops);
        HeapAccounts();
      }
    }

    /** mem_heapsize() is the 56 bytes of mm_init and the blocks that the walk finds. */
    ghost predicate Accounted()
      reads mm, mm.mem
    {
      var w, L := mm.mem.words, mm.L;
      mm.mem.HeapSize() == 56 + WalkedBytes(w, Walk(w, L.first, L.end))
    }

    /** One free block of all but those 56 bytes, on one list; the other lists are empty. */
    ghost predicate Recovered()
      reads mm, mm.mem
    {
      var L, fl := mm.L, mm.fl;
      && L.size == map[L.first := (mm.mem.HeapSize() - 56) / 8] && L.free == {L.first}
      && 8 * L.size[L.first] == mm.mem.HeapSize() - 56
      && |fl| == LISTS
      && exists i :: 0 <= i < LISTS && fl[i] == [L.first] && forall j :: 0 <= j < LISTS && j != i ==> fl[j] == []
    }

    /** In every heap that a client can reach. */
    lemma HeapAccounts()
      requires Valid()
      ensures Accounted()
      ensures table == map[] ==> Recovered()
    {
      mm.Conservation();
      if table == map[] {
        assert at.Keys == {};
        assert at.Values == {};
        mm.FullRecovery();
        var i := ListOf(mm.L.size, mm.L.first);
        assert OnItsList(Base(mm.L), mm.fl, mm.L.size, mm.L.first);
        assert mm.fl[i] == [mm.L.first];
      }
    }

    /** Reading back through the client's pointer gives the byte last stored there. */
    method Load(id: nat, off: nat) returns (v: Byte)
      requires Valid() && id in table && off in table[id].bytes
      ensures v == table[id].bytes[off]
    {
      LoadInHeap(id, off);
      v := mm.mem.GetByte(blocks[id] + off);
    }

    lemma LoadInHeap(id: nat, off: nat)
      requires Valid() && id in table && off in table[id].bytes
      ensures mm.mem.start <= 8 * at[id] + off < mm.mem.MaxAddr()
      ensures ByteAt(mm.mem.words, 8 * at[id] + off) == table[id].bytes[off]
    {
      assert Holds(mm.mem.words, mm.L, at[id], table[id]);
      assert BlockOk(mm.L, at[id]);
    }
  }
}
