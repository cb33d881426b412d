/** mm_Explicit.c: one explicit free list, last in first out, threaded
    through the payloads of the free blocks.  The 16-byte prologue is the
    list's tail sentinel: the last free block's successor word names the
    prologue's payload, and find_fit stops at the first block whose header
    says allocated, which on a well-formed list is the prologue. */
module ExplicitAllocator {
  import opened BoundaryTags
  import opened HeapLayout
  import opened HeapEdits
  import opened FreeBlocks
  import opened FreeLinks
  import opened Outcomes
  import opened Memory

  /** The prologue holds its header, a predecessor and a successor word and
      its footer. */
  const PROLOGUE: nat := 16

  /** The prologue's payload, where every list ends. */
  const SENTINEL: nat := 2

  /** The list xs is linked in m, starts at head, repeats no block and
      holds exactly the free blocks not in `out` (the blocks an operation
      has taken off the list for the moment). */
  ghost predicate ListOk(m: seq<nat>, view: seq<Blk>, xs: seq<Blk>, head: nat, out: set<Blk>)
  {
    && Linked(m, xs, SENTINEL) && head == Head(xs, SENTINEL) && Distinct(xs)
    && Elems(xs) == Frees(view) - out
  }

  /** The heap invariant: the layout, heap_listp at the start of the region,
      no free neighbours except around the block at `hole`, and the list. */
  ghost predicate HeapOk(m: seq<nat>, view: seq<Blk>, heapListp: nat, head: nat, xs: seq<Blk>,
                         hole: nat, out: set<Blk>)
  {
    && Layout(m, view, PROLOGUE) && heapListp == NULL
    && NoAdjacentFree(view, hole) && ListOk(m, view, xs, head, out)
  }

  /** The free list after place on the free block j: the block leaves the
      list and, on a split, the free remainder goes in front. */
  ghost function PlacedList(view: seq<Blk>, xs: seq<Blk>, j: nat, asize: nat): seq<Blk>
    requires j < |view| && asize <= view[j].size
  {
    var rest := Without(xs, {view[j]});
    if view[j].size - asize >= MIN_BLOCK then [Placed(view, j, asize)[j + 1]] + rest else rest
  }

  /** The free list after coalesce on the free block k: the blocks merged
      with it leave the list and the merged block goes in front. */
  ghost function CoalescedList(view: seq<Blk>, xs: seq<Blk>, k: nat): seq<Blk>
    requires 1 <= k < |view|
  {
    var lo := CoalesceLo(view, k);
    [Coalesced(view, k)[lo]] + Without(xs, Elems(view[lo..CoalesceHi(view, k)]))
  }

  /** The one state in which mm_malloc returns NULL for a request of asize
      bytes: no free block is that large, and the region, now `words`
      words long, cannot grow by extend_heap's 2 * MAX(asize, CHUNKSIZE)
      bytes. */
  ghost predicate MallocFails(view: seq<Blk>, words: nat, capacity: nat, asize: nat)
  {
    && (forall b :: b in Frees(view) ==> b.size < asize)
    && words + Max(asize, CHUNKSIZE) / 2 > capacity
  }

  /** The heap after an mm_malloc of asize bytes that succeeded, from view
      and free list xs with the region `words` words long: the list's first
      fit placed, or else the 2 * MAX(asize, CHUNKSIZE)-byte extension
      coalesced and the merged block placed. view' and xs' are the new view
      and list. */
  ghost predicate Malloced(view: seq<Blk>, xs: seq<Blk>, words: nat, asize: nat,
                           view': seq<Blk>, xs': seq<Blk>)
    requires |view| >= 1
  {
    var k := FitFrom(xs, 0, asize);
    if k < |xs| then
      exists j ::
        && 1 <= j < |view| && view[j] == xs[k] && asize <= view[j].size
        && view' == Placed(view, j, asize) && xs' == PlacedList(view, xs, j, asize)
    else
      var n := |view|;
      var grown := view + [Blk(words, 2 * Max(asize, CHUNKSIZE), true)];
      var lo := CoalesceLo(grown, n);
      var v1 := Coalesced(grown, n);
      && lo < |v1| && asize <= v1[lo].size
      && view' == Placed(v1, lo, asize)
      && xs' == PlacedList(v1, CoalescedList(grown, xs, n), lo, asize)
  }

  /** The heap after mm_free(bp): the block retagged free and coalesced, the
      merged block at the head of the list and the absorbed neighbours off it. */
  ghost predicate Freed(view: seq<Blk>, xs: seq<Blk>, bp: nat, view': seq<Blk>, xs': seq<Blk>)
  {
    exists k ::
      && 1 <= k < |view| && view[k].bp == bp
      && view' == Coalesced(Retagged(view, k, true), k)
      && xs' == CoalescedList(Retagged(view, k, true), xs, k)
  }

  /** The sentinel's words: its predecessor word is scratch, and its header
      says allocated. */
  lemma SentinelFacts(m: seq<nat>, view: seq<Blk>)
    requires Layout(m, view, PROLOGUE)
    ensures End(view[0]) == 6 && 6 <= |m|
    ensures Scratch(view, SENTINEL) && AllocOf(m[SENTINEL - 1]) == 1
  {
    assert Fits(m, view, 0);
    TagOf(view[0]);
    assert Inside(view[0], SENTINEL);
  }

  /** putFreeBlock: bp's successor word gets the old head, its predecessor
      word NULL, and the old head's predecessor word (the sentinel's when
      the list is empty) bp; bp becomes the head. */
  method PushBlock(lib: MemLib, ghost view: seq<Blk>, ghost xs: seq<Blk>, ghost out: set<Blk>,
                   head: nat, ghost b: Blk, bp: nat) returns (newHead: nat)
    requires Layout(lib.mem, view, PROLOGUE) && ListOk(lib.mem, view, xs, head, out)
    requires b in out && b in Frees(view) && b.bp == bp
    modifies lib
    ensures newHead == bp && ListOk(lib.mem, view, [b] + xs, newHead, out - {b})
    ensures Layout(lib.mem, view, PROLOGUE) && |lib.mem| == |old(lib.mem)|
    ensures Untouched(old(lib.mem), lib.mem, Allocs(view))
  {
    ghost var m0 := lib.mem;
    PushReads(m0, view, xs, out, head, b);
    lib.Put(bp + 1, head);
    lib.Put(bp, NULL);
    lib.Put(head, bp);
    PushWrites(m0, lib.mem, view, xs, out, head, b);
    newHead := bp;
  }

  /** The words putFreeBlock writes: bp's link words and the head's (or
      the sentinel's) predecessor word, all scratch and apart. */
  lemma PushReads(m: seq<nat>, view: seq<Blk>, xs: seq<Blk>, out: set<Blk>, head: nat, b: Blk)
    requires Layout(m, view, PROLOGUE) && ListOk(m, view, xs, head, out)
    requires b in out && b in Frees(view)
    ensures b.bp + 1 < |m| && head < |m| && (head + 2 <= b.bp || b.bp + 2 <= head)
    ensures Scratch(view, b.bp) && Scratch(view, b.bp + 1) && Scratch(view, head)
    ensures Spaced(xs) && Clear(xs, b.bp, b.bp + 2)
  {
    var ys := [b] + xs;
    PushElems(xs, b);
    NodesApart(m, view, PROLOGUE, ys);
    var _ := NodeFacts(m, view, PROLOGUE, ys, 0);
    SentinelFacts(m, view);
    if xs != [] {
      var _ := NodeFacts(m, view, PROLOGUE, xs, 0);
      assert LinksApart(ys, 0, 1);
    }
    forall i | 0 <= i < |xs| ensures xs[i].bp + 2 <= b.bp || b.bp + 2 <= xs[i].bp {
      assert LinksApart(ys, 0, i + 1) && ys[i + 1] == xs[i];
    }
    NodesApart(m, view, PROLOGUE, xs);
  }

  /** putFreeBlock's three writes make b the head of the list. */
  lemma PushWrites(m: seq<nat>, m3: seq<nat>, view: seq<Blk>, xs: seq<Blk>, out: set<Blk>, head: nat, b: Blk)
    requires Layout(m, view, PROLOGUE) && ListOk(m, view, xs, head, out)
    requires b in out && b in Frees(view) && b.bp + 1 < |m| && head < |m|
    requires m3 == m[b.bp + 1 := head][b.bp := NULL][head := b.bp]
    ensures ListOk(m3, view, [b] + xs, b.bp, out - {b})
    ensures Layout(m3, view, PROLOGUE) && |m3| == |m| && Untouched(m, m3, Allocs(view))
  {
    PushReads(m, view, xs, out, head, b);
    PushElems(xs, b);
    var m1 := m[b.bp + 1 := head];
    var m2 := m1[b.bp := NULL];
    ScratchWrite(m, view, PROLOGUE, b.bp + 1, head);
    ScratchWrite(m1, view, PROLOGUE, b.bp, NULL);
    ScratchWrite(m2, view, PROLOGUE, head, b.bp);
    LinkedPush(m, xs, SENTINEL, b);
    if xs == [] {
      assert [b] + xs == [b];
      LinkedKept(m2, m3, [b], SENTINEL, SENTINEL, SENTINEL + 1);
    }
    UntouchedTrans(m, m1, m2, Allocs(view), Allocs(view));
    UntouchedTrans(m, m2, m3, Allocs(view), Allocs(view));
  }

  /** removeBlock: the head leaves by clearing its successor's predecessor
      word and advancing the head; any other node by pointing its
      predecessor's successor word past it and, in turn, its successor's
      predecessor word (the sentinel's when it is last) back.  No NULL
      checks: the sentinel is always there. */
  method UnlinkBlock(lib: MemLib, ghost view: seq<Blk>, ghost xs: seq<Blk>, ghost out: set<Blk>,
                     head: nat, ghost t: nat, bp: nat) returns (newHead: nat)
    requires Layout(lib.mem, view, PROLOGUE) && ListOk(lib.mem, view, xs, head, out)
    requires t < |xs| && xs[t].bp == bp
    modifies lib
    ensures ListOk(lib.mem, view, Remove(xs, t), newHead, out + {xs[t]})
    ensures Layout(lib.mem, view, PROLOGUE) && |lib.mem| == |old(lib.mem)|
    ensures Untouched(old(lib.mem), lib.mem, Allocs(view))
  {
    NodesApart(lib.mem, view, PROLOGUE, xs);
    HeadIndex(xs, t);
    RemoveElems(xs, t);
    if bp == head {
      newHead := UnlinkFirst(lib, view, xs, out, bp);
      assert Remove(xs, 0) == xs[1..];
    } else {
      UnlinkInner(lib, view, xs, out, t, bp);
      newHead := head;
    }
  }

  /** removeBlock on the head. */
  method UnlinkFirst(lib: MemLib, ghost view: seq<Blk>, ghost xs: seq<Blk>, ghost out: set<Blk>, bp: nat)
    returns (newHead: nat)
    requires Layout(lib.mem, view, PROLOGUE) && Elems(xs) <= Frees(view)
    requires Linked(lib.mem, xs, SENTINEL) && Spaced(xs) && 0 < |xs| && xs[0].bp == bp
    modifies lib
    ensures Linked(lib.mem, xs[1..], SENTINEL) && newHead == Head(xs[1..], SENTINEL)
    ensures Layout(lib.mem, view, PROLOGUE) && |lib.mem| == |old(lib.mem)|
    ensures Untouched(old(lib.mem), lib.mem, Allocs(view))
  {
    ghost var m0 := lib.mem;
    SentinelFacts(m0, view);
    assert Node(m0, xs, 0, SENTINEL);
    if 1 < |xs| {
      var _ := NodeFacts(m0, view, PROLOGUE, xs, 1);
    }
    var _ := NodeFacts(m0, view, PROLOGUE, xs, 0);
    var succ := lib.Get(bp + 1);
    LinkedPopClear(m0, xs, SENTINEL);
    lib.Put(succ, NULL);
    ScratchWrite(m0, view, PROLOGUE, succ, NULL);
    newHead := lib.Get(bp + 1);
  }

  /** removeBlock on a node t past the head. */
  method UnlinkInner(lib: MemLib, ghost view: seq<Blk>, ghost xs: seq<Blk>, ghost out: set<Blk>,
                     ghost t: nat, bp: nat)
    requires Layout(lib.mem, view, PROLOGUE) && Elems(xs) <= Frees(view) && Distinct(xs)
    requires Linked(lib.mem, xs, SENTINEL) && Spaced(xs) && 0 < t < |xs| && xs[t].bp == bp
    modifies lib
    ensures Linked(lib.mem, Remove(xs, t), SENTINEL)
    ensures Layout(lib.mem, view, PROLOGUE) && |lib.mem| == |old(lib.mem)|
    ensures Untouched(old(lib.mem), lib.mem, Allocs(view))
  {
    ghost var m0 := lib.mem;
    BypassReads(m0, view, xs, t);
    var pred := lib.Get(bp);
    lib.Put(pred + 1, lib.Get(bp + 1));
    ghost var m1 := lib.mem;
    var succ := lib.Get(bp + 1);
    lib.Put(succ, lib.Get(bp));
    BypassWrites(m0, m1, lib.mem, view, xs, t);
  }

  /** The words removeBlock reads on a node t past the head: its links, and
      its neighbours' link words, all scratch. */
  lemma BypassReads(m: seq<nat>, view: seq<Blk>, xs: seq<Blk>, t: nat)
    requires Layout(m, view, PROLOGUE) && Elems(xs) <= Frees(view)
    requires Linked(m, xs, SENTINEL) && Spaced(xs) && 0 < t < |xs|
    ensures xs[t].bp + 1 < |m| && m[xs[t].bp] == xs[t - 1].bp && m[xs[t].bp + 1] == Succ(xs, t, SENTINEL)
    ensures LinksApart(xs, t - 1, t)
    ensures xs[t - 1].bp + 1 < |m| && Succ(xs, t, SENTINEL) < |m|
    ensures Scratch(view, xs[t - 1].bp + 1) && Scratch(view, Succ(xs, t, SENTINEL))
    ensures Scratch(view, xs[t].bp) && Scratch(view, xs[t].bp + 1)
  {
    SentinelFacts(m, view);
    assert Node(m, xs, t, SENTINEL);
    assert LinksApart(xs, t - 1, t);
    var _ := NodeFacts(m, view, PROLOGUE, xs, t);
    var _ := NodeFacts(m, view, PROLOGUE, xs, t - 1);
    if t + 1 < |xs| {
      var _ := NodeFacts(m, view, PROLOGUE, xs, t + 1);
    }
  }

  /** The two writes of removeBlock past the head keep the layout and
      spell out the list without node t. */
  lemma BypassWrites(m: seq<nat>, m1: seq<nat>, m2: seq<nat>, view: seq<Blk>, xs: seq<Blk>, t: nat)
    requires Layout(m, view, PROLOGUE) && Elems(xs) <= Frees(view) && Distinct(xs)
    requires Linked(m, xs, SENTINEL) && Spaced(xs) && 0 < t < |xs|
    requires xs[t - 1].bp + 1 < |m| && Succ(xs, t, SENTINEL) < |m|
    requires m1 == m[xs[t - 1].bp + 1 := Succ(xs, t, SENTINEL)]
    requires m2 == m1[Succ(xs, t, SENTINEL) := xs[t - 1].bp]
    ensures Linked(m2, Remove(xs, t), SENTINEL)
    ensures Layout(m2, view, PROLOGUE) && |m2| == |m| && Untouched(m, m2, Allocs(view))
  {
    BypassReads(m, view, xs, t);
    LinkedBypass(m, xs, SENTINEL, t);
    ScratchWrite(m, view, PROLOGUE, xs[t - 1].bp + 1, Succ(xs, t, SENTINEL));
    ScratchWrite(m1, view, PROLOGUE, Succ(xs, t, SENTINEL), xs[t - 1].bp);
    if t + 1 == |xs| {
      SentinelWrite(m, m1, view, xs, t, xs[t - 1].bp);
    }
    UntouchedTrans(m, m1, m2, Allocs(view), Allocs(view));
  }

  /** Unlinking the last node writes the sentinel's predecessor word, which
      is no node's link word. */
  lemma SentinelWrite(m: seq<nat>, m1: seq<nat>, view: seq<Blk>, xs: seq<Blk>, t: nat, v: nat)
    requires Layout(m, view, PROLOGUE) && Elems(xs) <= Frees(view) && Distinct(xs)
    requires t < |xs| && Linked(m1, Remove(xs, t), SENTINEL) && SENTINEL < |m1|
    ensures Linked(m1[SENTINEL := v], Remove(xs, t), SENTINEL)
  {
    RemoveElems(xs, t);
    NodesApart(m, view, PROLOGUE, Remove(xs, t));
    LinkedKept(m1, m1[SENTINEL := v], Remove(xs, t), SENTINEL, SENTINEL, SENTINEL + 1);
  }

  /** find_fit's scan, on the list: the first block of the list holding
      asize bytes is a free block that big, and the scan comes up empty
      exactly when no free block is that big. */
  lemma FirstFitInList(view: seq<Blk>, xs: seq<Blk>, asize: nat)
    requires Elems(xs) == Frees(view)
    ensures var k := FitFrom(xs, 0, asize);
      && k <= |xs|
      && (k < |xs| ==> xs[k] in Frees(view) && asize <= xs[k].size)
      && (forall j :: 0 <= j < k ==> xs[j].size < asize)
      && (k == |xs| <==> forall b :: b in Frees(view) ==> b.size < asize)
  {
    var k := FitFrom(xs, 0, asize);
    FitFromIsFirst(xs, 0, asize);
    if k < |xs| {
      assert xs[k] in Elems(xs);
    } else {
      forall b | b in Frees(view) ensures b.size < asize {
        var i := IndexOf(xs, b);
      }
    }
  }

  /** Blocks a walk of the list stops at: a free node, or the sentinel. */
  lemma NodeHeader(m: seq<nat>, view: seq<Blk>, xs: seq<Blk>, i: nat)
    requires Layout(m, view, PROLOGUE) && Elems(xs) <= Frees(view) && i < |xs|
    ensures 1 <= xs[i].bp && xs[i].bp + 1 < |m|
    ensures AllocOf(m[xs[i].bp - 1]) == 0 && SizeOf(m[xs[i].bp - 1]) == xs[i].size
  {
    var _ := NodeFacts(m, view, PROLOGUE, xs, i);
    TagReads(m, xs[i]);
  }

  /** extend_heap's writes append a free block b, not yet on the list and
      the only block that may have a free neighbour. */
  lemma ExtendOk(m: seq<nat>, view: seq<Blk>, head: nat, xs: seq<Blk>, grant: seq<nat>)
    requires HeapOk(m, view, NULL, head, xs, NULL, {}) && |grant| >= 4 && |grant| % 2 == 0
    ensures var b := Blk(|m|, 4 * |grant|, true);
      var m' := ExtendWrites(m, grant);
      && HeapOk(m', view + [b], NULL, head, xs, b.bp, {b})
      && Untouched(m, m', Allocs(view)) && Allocs(view + [b]) == Allocs(view)
  {
    var b := Blk(|m|, 4 * |grant|, true);
    var m' := ExtendWrites(m, grant);
    Extend(m, view, PROLOGUE, grant);
    Payloads(m, view, PROLOGUE);
    NoAdjacentAfterExtend(view, b);
    AppendAllocs(view, b);
    AppendFrees(view, b);
    assert b !in Frees(view);
    EpilogueClear(m, view, PROLOGUE, xs);
    LinkedKept(m, m', xs, SENTINEL, |m| - 1, |m|);
  }

  /** place's tag writes, once block j is off the list: the list still
      stands and holds every free block but the remainder of a split. */
  lemma PlaceOk(m: seq<nat>, view: seq<Blk>, head: nat, xs: seq<Blk>, j: nat, asize: nat)
    requires 1 <= j < |view| && view[j].free && HeapOk(m, view, NULL, head, xs, NULL, {view[j]})
    requires asize % 8 == 0 && MIN_BLOCK <= asize <= view[j].size
    ensures Fits(m, view, j)
    ensures var b := view[j];
      var m' := PlaceWrites(m, b, asize);
      var view' := Placed(view, j, asize);
      var split := b.size - asize >= MIN_BLOCK;
      && |m'| == |m| && Untouched(m, m', Allocs(view))
      && (split ==> j + 1 < |view'| && view'[j + 1] in Frees(view'))
      && HeapOk(m', view', NULL, head, xs, NULL, if split then {view'[j + 1]} else {})
  {
    var b := view[j];
    ElemsOne(view, j);
    RunClear(m, view, PROLOGUE, xs, j, j + 1);
    PlaceLayout(m, view, PROLOGUE, j, asize);
    PlaceOutside(m, b, asize);
    var m' := PlaceWrites(m, b, asize);
    LinkedKept(m, m', xs, SENTINEL, b.bp - 1, End(b) - 1);
    Payloads(m, view, PROLOGUE);
    Payloads(m', Placed(view, j, asize), PROLOGUE);
    PlacedFrees(view, j, asize);
    if b.size - asize >= MIN_BLOCK {
      NoAdjacentAfterSplit(view, j, asize);
    } else {
      NoAdjacentAfterAllocate(view, j);
    }
  }

  /** mm_free's retag: the freed block is free and not yet on the list. */
  lemma FreeOk(m: seq<nat>, view: seq<Blk>, head: nat, xs: seq<Blk>, k: nat)
    requires HeapOk(m, view, NULL, head, xs, NULL, {}) && 1 <= k < |view| && !view[k].free
    ensures Fits(m, view, k)
    ensures var nb := view[k].(free := true);
      var m' := PutTags(m, nb);
      var view' := Retagged(view, k, true);
      && view'[k] == nb
      && HeapOk(m', view', NULL, head, xs, nb.bp, {nb})
      && Untouched(m, m', Allocs(view) - {view[k]})
      && Allocs(view') == Allocs(view) - {view[k]}
  {
    var b := view[k];
    Retag(m, view, PROLOGUE, k, true);
    Payloads(m, view, PROLOGUE);
    NoAdjacentAfterFree(view, k);
    RetaggedAllocs(view, k);
    RetaggedFrees(view, k);
    ElemsOne(view, k);
    RunClear(m, view, PROLOGUE, xs, k, k + 1);
    PutTagsOutside(m, b.(free := true));
    LinkedKept(m, PutTags(m, b.(free := true)), xs, SENTINEL, b.bp - 1, End(b) - 1);
  }

  /** coalesce's tag writes, once the run around the free block k is off
      the list: the merged block (k itself when nothing merges) is the one
      free block not on it. */
  lemma CoalesceOk(m: seq<nat>, view: seq<Blk>, head: nat, xs: seq<Blk>, k: nat)
    requires 1 <= k < |view| && view[k].free
    requires HeapOk(m, view, NULL, head, xs, view[k].bp,
                    Elems(view[CoalesceLo(view, k)..CoalesceHi(view, k)]))
    ensures var lo := CoalesceLo(view, k);
      var mb := Merged(view, lo, CoalesceHi(view, k), true);
      var view' := Coalesced(view, k);
      && 1 <= mb.bp && 8 <= mb.size && End(mb) <= |m|
      && var m' := if view' == view then m else PutTags(m, mb);
      && lo < |view'| && view'[lo] in Frees(view')
      && HeapOk(m', view', NULL, head, xs, NULL, {view'[lo]})
      && Untouched(m, m', Allocs(view)) && Allocs(view') == Allocs(view)
  {
    var lo := CoalesceLo(view, k);
    var hi := CoalesceHi(view, k);
    var mb := Merged(view, lo, hi, true);
    CoalesceLayout(m, view, PROLOGUE, k);
    Payloads(m, view, PROLOGUE);
    NoAdjacentAfterCoalesce(view, k);
    CoalescedAllocs(view, k);
    if Coalesced(view, k) != view {
      RunClear(m, view, PROLOGUE, xs, lo, hi);
      PutTagsOutside(m, mb);
      LinkedKept(m, PutTags(m, mb), xs, SENTINEL, view[lo].bp - 1, End(view[hi - 1]) - 1);
      Payloads(PutTags(m, mb), Coalesced(view, k), PROLOGUE);
    }
    CoalescedFrees(view, k);
  }

  /** The removeBlock calls of coalesce on the free block k: the previous
      block first when it is free, then the next one when it is free.  The
      whole run coalesce merges is then off the list. */
  method UnlinkNeighbours(lib: MemLib, ghost view: seq<Blk>, ghost xs: seq<Blk>, head: nat,
                          ghost k: nat, bp: nat, prevAlloc: nat, nextAlloc: nat)
    returns (newHead: nat, ghost ys: seq<Blk>)
    requires Layout(lib.mem, view, PROLOGUE) && 1 <= k < |view| && view[k].bp == bp && view[k].free
    requires ListOk(lib.mem, view, xs, head, {view[k]})
    requires prevAlloc == (if view[k - 1].free then 0 else 1)
    requires nextAlloc == (if k + 1 < |view| && view[k + 1].free then 0 else 1)
    modifies lib
    ensures ListOk(lib.mem, view, ys, newHead, Elems(view[CoalesceLo(view, k)..CoalesceHi(view, k)]))
    ensures ys == Without(xs, Elems(view[CoalesceLo(view, k)..CoalesceHi(view, k)]))
    ensures prevAlloc == 1 && nextAlloc == 1 ==> ys == xs && newHead == head
    ensures Layout(lib.mem, view, PROLOGUE) && |lib.mem| == |old(lib.mem)|
    ensures Untouched(old(lib.mem), lib.mem, Allocs(view))
  {
    ghost var m0 := lib.mem;
    Payloads(m0, view, PROLOGUE);
    CoalesceRun(view, k);
    UntouchedSelf(m0, view, PROLOGUE);
    Navigate(m0, view, PROLOGUE, k);
    ghost var out := {view[k]};
    assert forall i :: 0 <= i < |xs| ==> xs[i] in Elems(xs);
    WithoutNone(xs, out);
    ys := xs;
    newHead := head;
    if prevAlloc == 0 {
      assert view[k - 1] in Frees(view) - out;
      ghost var t := IndexOf(ys, view[k - 1]);
      var prev := PrevBlkp(lib.mem, bp);
      newHead := UnlinkBlock(lib, view, ys, out, newHead, t, prev);
      RemoveIsWithout(ys, t);
      WithoutTwice(xs, out, {view[k - 1]});
      out := out + {view[k - 1]};
      ys := Remove(ys, t);
    }
    ghost var m1 := lib.mem;
    if nextAlloc == 0 {
      Navigate(m1, view, PROLOGUE, k);
      assert view[k + 1] in Frees(view) - out;
      ghost var t := IndexOf(ys, view[k + 1]);
      var next := NextBlkp(lib.mem, bp);
      newHead := UnlinkBlock(lib, view, ys, out, newHead, t, next);
      RemoveIsWithout(ys, t);
      WithoutTwice(xs, out, {view[k + 1]});
      out := out + {view[k + 1]};
      ys := Remove(ys, t);
    }
    assert out == Elems(view[CoalesceLo(view, k)..CoalesceHi(view, k)]);
    UntouchedTrans(m0, m1, lib.mem, Allocs(view), Allocs(view));
  }

  /** coalesce: take the free neighbours of the free block k off the
      list, merge them with it (four cases), and push the result at the
      head. */
  method CoalesceBlock(lib: MemLib, ghost view: seq<Blk>, ghost xs: seq<Blk>, head: nat, ghost k: nat, bp: nat)
    returns (r: nat, newHead: nat, ghost ys: seq<Blk>)
    requires 1 <= k < |view| && view[k].bp == bp && view[k].free
    requires HeapOk(lib.mem, view, NULL, head, xs, bp, {view[k]})
    modifies lib
    ensures var lo := CoalesceLo(view, k);
      var view' := Coalesced(view, k);
      && HeapOk(lib.mem, view', NULL, newHead, ys, NULL, {}) && |lib.mem| == |old(lib.mem)|
      && lo < |view'| && r == view'[lo].bp && r == view[lo].bp && view'[lo].free
      && view'[lo].size == SumSizes(view[lo..CoalesceHi(view, k)])
      && view[k].size <= view'[lo].size
      && |ys| > 0 && ys[0] == view'[lo]
      && (view' == view ==> ys == [view[k]] + xs)
      && Allocs(view') == Allocs(view)
    ensures ys == CoalescedList(view, xs, k)
    ensures Untouched(old(lib.mem), lib.mem, Allocs(view))
  {
    ghost var m0 := lib.mem;
    ghost var lo := CoalesceLo(view, k);
    var prevAlloc, nextAlloc, size := NeighbourTags(lib, view, PROLOGUE, k, bp);
    ghost var zs;
    newHead, zs := UnlinkNeighbours(lib, view, xs, head, k, bp, prevAlloc, nextAlloc);
    ghost var m1 := lib.mem;
    CoalesceOk(m1, view, newHead, zs, k);
    CoalescedBlock(m1, view, PROLOGUE, k);
    r := bp;
    if prevAlloc == 0 || nextAlloc == 0 {
      r := MergeAround(lib, view, PROLOGUE, k, bp, prevAlloc, nextAlloc, size);
    }
    ghost var m2 := lib.mem;
    ghost var view' := Coalesced(view, k);
    newHead := PushBlock(lib, view', zs, {view'[lo]}, newHead, view'[lo], r);
    ys := [view'[lo]] + zs;
    UntouchedTrans(m1, m2, lib.mem, Allocs(view), Allocs(view'));
    UntouchedTrans(m0, m1, lib.mem, Allocs(view), Allocs(view));
  }

  /** place: take the free block j off the list, then allocate asize
      bytes of it, splitting off the remainder as a free block pushed at
      the head exactly when it is at least 16 bytes. */
  method PlaceBlock(lib: MemLib, ghost view: seq<Blk>, ghost xs: seq<Blk>, head: nat,
                    ghost j: nat, bp: nat, asize: nat) returns (newHead: nat, ghost ys: seq<Blk>)
    requires HeapOk(lib.mem, view, NULL, head, xs, NULL, {})
    requires 1 <= j < |view| && view[j].bp == bp && view[j].free
    requires asize % 8 == 0 && MIN_BLOCK <= asize <= view[j].size
    modifies lib
    ensures var view' := Placed(view, j, asize);
      && HeapOk(lib.mem, view', NULL, newHead, ys, NULL, {}) && |lib.mem| == |old(lib.mem)|
      && exists t ::
        (&& 0 <= t < |xs| && xs[t] == view[j]
         && ys == if view[j].size - asize >= MIN_BLOCK then [view'[j + 1]] + Remove(xs, t)
                  else Remove(xs, t))
    ensures ys == PlacedList(view, xs, j, asize)
    ensures Untouched(old(lib.mem), lib.mem, Allocs(view))
  {
    ghost var m0 := lib.mem;
    ghost var b := view[j];
    assert b in Frees(view);
    ghost var t := IndexOf(xs, b);
    RemoveIsWithout(xs, t);
    Navigate(m0, view, PROLOGUE, j);
    var bsize := SizeOf(lib.Get(Hdrp(bp)));
    newHead := UnlinkBlock(lib, view, xs, {}, head, t, bp);
    ghost var m1 := lib.mem;
    newHead, ys := SplitBlock(lib, view, Remove(xs, t), newHead, j, bp, bsize, asize);
    UntouchedTrans(m0, m1, lib.mem, Allocs(view), Allocs(view));
  }

  /** place's tag writes on the free block j, already off the list, and on
      a split the push of the remainder. */
  method SplitBlock(lib: MemLib, ghost view: seq<Blk>, ghost xs: seq<Blk>, head: nat,
                    ghost j: nat, bp: nat, bsize: nat, asize: nat) returns (newHead: nat, ghost ys: seq<Blk>)
    requires 1 <= j < |view| && view[j].bp == bp && view[j].free && bsize == view[j].size
    requires HeapOk(lib.mem, view, NULL, head, xs, NULL, {view[j]})
    requires asize % 8 == 0 && MIN_BLOCK <= asize <= view[j].size
    modifies lib
    ensures var view' := Placed(view, j, asize);
      && HeapOk(lib.mem, view', NULL, newHead, ys, NULL, {}) && |lib.mem| == |old(lib.mem)|
      && ys == if view[j].size - asize >= MIN_BLOCK then [view'[j + 1]] + xs else xs
    ensures Untouched(old(lib.mem), lib.mem, Allocs(view))
  {
    ghost var m1 := lib.mem;
    ghost var b := view[j];
    PlaceOk(m1, view, head, xs, j, asize);
    Payloads(m1, view, PROLOGUE);
    PlacedAllocs(view, j, asize);
    PlaceTags(lib, b, bp, bsize, asize);
    ghost var m2 := lib.mem;
    ghost var view' := Placed(view, j, asize);
    ys := xs;
    newHead := head;
    if bsize - asize >= 2 * DSIZE {
      Navigate(m2, view', PROLOGUE, j);
      var next := NextBlkp(lib.mem, bp);
      newHead := PushBlock(lib, view', ys, {view'[j + 1]}, newHead, view'[j + 1], next);
      ys := [view'[j + 1]] + ys;
      UntouchedTrans(m1, m2, lib.mem, Allocs(view), Allocs(view'));
    }
  }

  /** extend_heap: a new free block of words * DSIZE bytes over the old
      epilogue, a new epilogue after it, then coalesce, which puts the
      result at the head of the list; NULL when sbrk fails, with nothing
      changed. */
  method ExtendBlock(lib: MemLib, ghost view: seq<Blk>, ghost xs: seq<Blk>, head: nat, words: nat)
    returns (bp: nat, newHead: nat, ghost view': seq<Blk>, ghost ys: seq<Blk>)
    requires HeapOk(lib.mem, view, NULL, head, xs, NULL, {}) && words >= 2
    modifies lib
    ensures HeapOk(lib.mem, view', NULL, newHead, ys, NULL, {}) && Allocs(view') == Allocs(view)
    ensures Untouched(old(lib.mem), lib.mem, Allocs(view))
    ensures |old(lib.mem)| + 2 * words > lib.capacity ==>
      && bp == NULL && lib.mem == old(lib.mem) && view' == view && ys == xs && newHead == head
    ensures |old(lib.mem)| + 2 * words <= lib.capacity ==>
      var grown := view + [Blk(|old(lib.mem)|, DSIZE * words, true)];
      var lo := CoalesceLo(grown, |view|);
      && |lib.mem| == |old(lib.mem)| + 2 * words
      && view' == Coalesced(grown, |view|)
      && 1 <= lo < |view'| && bp == view'[lo].bp && bp != NULL
      && view'[lo].free && DSIZE * words <= view'[lo].size
      && |ys| > 0 && ys[0] == view'[lo]
      && (view' == grown ==> ys == [view'[lo]] + xs)
      && ys == CoalescedList(grown, xs, |view|)
  {
    ghost var m0 := lib.mem;
    bp := SbrkBlock(lib, view, xs, head, words);
    if bp == NULL {
      UntouchedSelf(m0, view, PROLOGUE);
      return NULL, head, view, xs;
    }
    ghost var m1 := lib.mem;
    ghost var grown := view + [Blk(|m0|, DSIZE * words, true)];
    bp, newHead, ys := CoalesceBlock(lib, grown, xs, head, |view|, bp);
    view' := Coalesced(grown, |view|);
    UntouchedTrans(m0, m1, lib.mem, Allocs(view), Allocs(view));
    Payloads(lib.mem, view', PROLOGUE);
  }

  /** The first half of extend_heap: mem_sbrk, then the new block's tags
      and the new epilogue. */
  method SbrkBlock(lib: MemLib, ghost view: seq<Blk>, ghost xs: seq<Blk>, head: nat, words: nat)
    returns (bp: nat)
    requires HeapOk(lib.mem, view, NULL, head, xs, NULL, {}) && words >= 2
    modifies lib
    ensures |old(lib.mem)| + 2 * words > lib.capacity ==> bp == NULL && lib.mem == old(lib.mem)
    ensures |old(lib.mem)| + 2 * words <= lib.capacity ==>
      var b := Blk(|old(lib.mem)|, DSIZE * words, true);
      && bp == b.bp && bp != NULL && |lib.mem| == |old(lib.mem)| + 2 * words
      && HeapOk(lib.mem, view + [b], NULL, head, xs, b.bp, {b})
      && Untouched(old(lib.mem), lib.mem, Allocs(view)) && Allocs(view + [b]) == Allocs(view)
  {
    var size := words * DSIZE;
    DoubleWords(words);
    ghost var m0 := lib.mem;
    var p := lib.Sbrk(size);
    if p == -1 {
      return NULL;
    }
    bp := p;
    ghost var grant := lib.mem[|m0|..];
    assert lib.mem == m0 + grant;
    assert |grant| == 2 * words;
    WriteExtension(lib, m0, grant, bp, size);
    ExtendOk(m0, view, head, xs, grant);
  }

  /** realloc's memcpy writes only the new, allocated block's payload,
      which holds no link word. */
  lemma CopyOk(m: seq<nat>, m': seq<nat>, view: seq<Blk>, head: nat, xs: seq<Blk>, j: nat)
    requires HeapOk(m, view, NULL, head, xs, NULL, {}) && 1 <= j < |view| && !view[j].free
    requires Layout(m', view, PROLOGUE) && AgreeOutside(m, m', view[j].bp, End(view[j]) - 2)
    ensures HeapOk(m', view, NULL, head, xs, NULL, {})
  {
    ElemsOne(view, j);
    RunClear(m, view, PROLOGUE, xs, j, j + 1);
    LinkedKept(m, m', xs, SENTINEL, view[j].bp - 1, End(view[j]) - 1);
  }

  class ExplicitHeap {
    const lib: MemLib
    /** heap_listp: the start of the region, used only by mm_init. */
    var heapListp: nat
    /** free_listp: the head of the free list. */
    var freeListp: nat
    /** The blocks in address order, the prologue first. */
    ghost var view: seq<Blk>
    /** The free list, head first. */
    ghost var free: seq<Blk>

    ghost predicate Valid()
      reads this, lib
    {
      HeapOk(lib.mem, view, heapListp, freeListp, free, NULL, {})
    }

    /** A process start: an empty region. */
    constructor (capacity: nat)
      ensures fresh(lib) && lib.mem == [] && lib.capacity == capacity
    {
      lib := new MemLib(capacity);
    }

    /** mm_init: padding, a (16,1) prologue whose two link words are NULL,
        the epilogue, free_listp at the prologue's payload, then a first
        free block of (CHUNKSIZE / DSIZE) * DSIZE bytes; -1 when either
        sbrk fails. */
    method Init() returns (r: int)
      requires lib.mem == []
      modifies this, lib
      ensures r == 0 <==> 6 + CHUNKSIZE / 4 <= lib.capacity
      ensures r == 0 ==> Valid() && view == [Blk(2, PROLOGUE, false), Blk(6, CHUNKSIZE, true)]
      ensures r == 0 ==> free == [view[1]] && freeListp == 6
      ensures r != 0 ==> r == -1
    {
      var p := lib.Sbrk(6 * WSIZE);
      if p == -1 {
        return -1;
      }
      heapListp := p;
      lib.Put(p, 0);
      lib.Put(p + 1, Pack(PROLOGUE, 1));
      lib.Put(p + 2, NULL);
      lib.Put(p + 3, NULL);
      lib.Put(p + 4, Pack(PROLOGUE, 1));
      lib.Put(p + 5, Pack(0, 1));
      freeListp := p + 2;
      view := [Blk(2, PROLOGUE, false)];
      free := [];
      assert Fits(lib.mem, view, 0);
      assert Frees(view) == {};
      var bp := ExtendHeap(CHUNKSIZE / DSIZE);
      if bp == NULL {
        return -1;
      }
      return 0;
    }

    /** extend_heap by words double words. */
    method ExtendHeap(words: nat) returns (bp: nat)
      requires Valid() && words >= 2
      modifies this, lib
      ensures Valid() && Allocs(view) == old(Allocs(view)) && heapListp == old(heapListp)
      ensures Untouched(old(lib.mem), lib.mem, old(Allocs(view)))
      ensures |old(lib.mem)| + 2 * words > lib.capacity ==>
        && bp == NULL && lib.mem == old(lib.mem) && view == old(view)
        && free == old(free) && freeListp == old(freeListp)
      ensures |old(lib.mem)| + 2 * words <= lib.capacity ==>
        var grown := old(view) + [Blk(|old(lib.mem)|, DSIZE * words, true)];
        var lo := CoalesceLo(grown, |old(view)|);
        && |lib.mem| == |old(lib.mem)| + 2 * words
        && view == Coalesced(grown, |old(view)|)
        && 1 <= lo < |view| && bp == view[lo].bp && bp != NULL
        && view[lo].free && DSIZE * words <= view[lo].size
        && |free| > 0 && free[0] == view[lo]
        && (view == grown ==> free == [view[lo]] + old(free))
        && free == CoalescedList(grown, old(free), |old(view)|)
    {
      ghost var view', ys;
      bp, freeListp, view', ys := ExtendBlock(lib, view, free, freeListp, words);
      view := view';
      free := ys;
    }

    /** find_fit, first fit: follow the successor links from free_listp
        until a header says allocated (the sentinel), returning the first
        block of at least asize bytes. */
    method FindFit(asize: nat) returns (bp: nat)
      requires Valid()
      ensures var k := FitFrom(free, 0, asize);
        && (k < |free| ==> bp == free[k].bp) && (k == |free| ==> bp == NULL)
    {
      SentinelFacts(lib.mem, view);
      if free != [] {
        NodeHeader(lib.mem, view, free, 0);
      }
      bp := freeListp;
      ghost var i := 0;
      while AllocOf(lib.Get(Hdrp(bp))) == 0
        invariant i <= |free| && 1 <= bp < |lib.mem|
        invariant i < |free| ==> bp == free[i].bp
        invariant i == |free| ==> bp == SENTINEL
        invariant FitFrom(free, i, asize) == FitFrom(free, 0, asize)
        decreases |free| - i
      {
        NodeHeader(lib.mem, view, free, i);
        if SizeOf(lib.Get(Hdrp(bp))) >= asize {
          return;
        }
        assert Node(lib.mem, free, i, SENTINEL);
        bp := lib.Get(bp + 1);
        i := i + 1;
        if i < |free| {
          NodeHeader(lib.mem, view, free, i);
        }
      }
      if i < |free| {
        NodeHeader(lib.mem, view, free, i);
      }
      return NULL;
    }

    /** place on the free block j. */
    method Place(ghost j: nat, bp: nat, asize: nat)
      requires Valid() && 1 <= j < |view| && view[j].bp == bp && view[j].free
      requires asize % 8 == 0 && MIN_BLOCK <= asize <= view[j].size
      modifies this, lib
      ensures Valid() && |lib.mem| == |old(lib.mem)| && heapListp == old(heapListp)
      ensures view == Placed(old(view), j, asize)
      ensures Untouched(old(lib.mem), lib.mem, old(Allocs(view)))
      ensures exists t ::
        (&& 0 <= t < |old(free)| && old(free)[t] == old(view)[j]
         && free == if old(view)[j].size - asize >= MIN_BLOCK then [view[j + 1]] + Remove(old(free), t)
                    else Remove(old(free), t))
      ensures free == PlacedList(old(view), old(free), j, asize)
    {
      ghost var ys;
      freeListp, ys := PlaceBlock(lib, view, free, freeListp, j, bp, asize);
      view := Placed(view, j, asize);
      free := ys;
    }

    /** coalesce on the free block k, the only free block not on the list. */
    method Coalesce(ghost k: nat, bp: nat) returns (r: nat)
      requires 1 <= k < |view| && view[k].bp == bp && view[k].free
      requires HeapOk(lib.mem, view, heapListp, freeListp, free, bp, {view[k]})
      modifies this, lib
      ensures Valid() && |lib.mem| == |old(lib.mem)| && heapListp == old(heapListp)
      ensures view == Coalesced(old(view), k)
      ensures var lo := CoalesceLo(old(view), k);
        && lo < |view| && r == view[lo].bp && r == old(view)[lo].bp && view[lo].free
        && view[lo].size == SumSizes(old(view)[lo..CoalesceHi(old(view), k)])
        && old(view)[k].size <= view[lo].size
        && |free| > 0 && free[0] == view[lo]
      ensures view == old(view) ==> free == [view[k]] + old(free)
      ensures free == CoalescedList(old(view), old(free), k)
      ensures Allocs(view) == old(Allocs(view))
      ensures Untouched(old(lib.mem), lib.mem, old(Allocs(view)))
    {
      ghost var ys;
      r, freeListp, ys := CoalesceBlock(lib, view, free, freeListp, k, bp);
      view := Coalesced(view, k);
      free := ys;
    }

    /** mm_malloc: NULL for a zero request; otherwise the first fit on the
        list, or else a block from a fresh extension, which extend_heap's
        doubling makes 2 * MAX(asize, CHUNKSIZE) bytes; NULL only when no
        free block fits and the heap cannot grow by that much. */
    method Malloc(size: nat) returns (r: nat)
      requires Valid()
      modifies this, lib
      ensures Valid() && heapListp == old(heapListp)
      ensures Untouched(old(lib.mem), lib.mem, old(Allocs(view)))
      ensures size == 0 ==> r == NULL && lib.mem == old(lib.mem) && view == old(view) && free == old(free)
      ensures size > 0 && r != NULL ==> Granted(old(Allocs(view)), Allocs(view), r, AdjustSize(size))
      ensures size > 0 && FitFrom(old(free), 0, AdjustSize(size)) < |old(free)| ==>
        r == old(free)[FitFrom(old(free), 0, AdjustSize(size))].bp
      ensures size > 0 && r == NULL ==>
        && MallocFails(old(view), |old(lib.mem)|, lib.capacity, AdjustSize(size))
        && lib.mem == old(lib.mem) && view == old(view) && free == old(free)
      ensures size > 0 && r != NULL ==>
        Malloced(old(view), old(free), |old(lib.mem)|, AdjustSize(size), view, free)
    {
      if size == 0 {
        UntouchedSelf(lib.mem, view, PROLOGUE);
        return NULL;
      }
      var asize := AdjustSize(size);
      ghost var v0 := view;
      ghost var m0 := lib.mem;
      FirstFitInList(view, free, asize);
      Payloads(m0, view, PROLOGUE);
      ghost var l0 := free;
      r := FindFit(asize);
      if r != NULL {
        ghost var k := FitFrom(free, 0, asize);
        ghost var j := NodeFacts(lib.mem, view, PROLOGUE, free, k);
        PlacedAllocs(view, j, asize);
        Place(j, r, asize);
        assert 1 <= j < |v0| && v0[j] == l0[k] && asize <= v0[j].size;
        return;
      }
      var extendsize := Max(asize, CHUNKSIZE);
      Quarter(extendsize);
      assert DSIZE * (extendsize / WSIZE) == 2 * extendsize;
      r := ExtendHeap(extendsize / WSIZE);
      if r != NULL {
        ghost var j := CoalesceLo(v0 + [Blk(|m0|, DSIZE * (extendsize / WSIZE), true)], |v0|);
        ghost var m1 := lib.mem;
        Payloads(m1, view, PROLOGUE);
        PlacedAllocs(view, j, asize);
        Place(j, r, asize);
        UntouchedTrans(m0, m1, lib.mem, Allocs(v0), Allocs(v0));
      }
    }

    /** mm_free: the block keeps its size and becomes free, then coalesces. */
    method Free(bp: nat)
      requires Valid() && Allocated(view, bp)
      modifies this, lib
      ensures Valid() && |lib.mem| == |old(lib.mem)| && heapListp == old(heapListp)
      ensures Released(old(Allocs(view)), Allocs(view), bp)
      ensures Untouched(old(lib.mem), lib.mem, Allocs(view))
      ensures Freed(old(view), old(free), bp, view, free)
    {
      ghost var b := BlockAt(view, bp);
      ghost var k := InAllocs(view, b);
      ghost var m0 := lib.mem;
      ghost var v0 := view;
      ghost var l0 := free;
      FreeOk(m0, view, freeListp, free, k);
      FreeTags(lib, b, bp);
      ghost var m1 := lib.mem;
      view := Retagged(view, k, true);
      var _ := Coalesce(k, bp);
      assert view == Coalesced(Retagged(v0, k, true), k);
      assert free == CoalescedList(Retagged(v0, k, true), l0, k);
      UntouchedTrans(m0, m1, lib.mem, Allocs(view), Allocs(view));
    }

    /** mm_realloc: free for a zero size, malloc for NULL, otherwise a new
        block that starts with the old payload, the old block freed only
        once the new one exists. */
    method Realloc(bp: nat, size: nat) returns (r: nat)
      requires Valid()
      requires bp != NULL ==> Allocated(view, bp)
      requires bp == NULL ==> size > 0
      modifies this, lib
      ensures Valid()
      ensures size == 0 ==> r == NULL && Released(old(Allocs(view)), Allocs(view), bp)
      ensures size == 0 ==> Freed(old(view), old(free), bp, view, free)
      ensures bp == NULL && r != NULL ==> Granted(old(Allocs(view)), Allocs(view), r, AdjustSize(size))
      ensures bp == NULL && r != NULL ==>
        Malloced(old(view), old(free), |old(lib.mem)|, AdjustSize(size), view, free)
      ensures bp != NULL && size > 0 && r != NULL ==>
        exists v1, l1 ::
          Malloced(old(view), old(free), |old(lib.mem)|, AdjustSize(size), v1, l1)
          && Freed(v1, l1, bp, view, free)
      ensures r == NULL && size > 0 ==> Allocs(view) == old(Allocs(view))
      ensures size > 0 && r == NULL ==>
        && MallocFails(old(view), |old(lib.mem)|, lib.capacity, AdjustSize(size))
        && lib.mem == old(lib.mem) && view == old(view) && free == old(free)
      ensures size > 0 && FitFrom(old(free), 0, AdjustSize(size)) < |old(free)| ==>
        r == old(free)[FitFrom(old(free), 0, AdjustSize(size))].bp
      ensures bp != NULL && size > 0 && r != NULL ==>
        var ob := BlockAt(old(view), bp);
        && Granted(old(Allocs(view)) - {ob}, Allocs(view), r, AdjustSize(size))
        && Preserved(old(lib.mem), lib.mem, bp, r, Min((size + 3) / 4, PayloadWords(ob)))
      ensures Untouched(old(lib.mem), lib.mem, old(Allocs(view)) * Allocs(view))
    {
      if size == 0 {
        Free(bp);
        return NULL;
      }
      if bp == NULL {
        r := Malloc(size);
        return;
      }
      ghost var v1, l1;
      r, v1, l1 := Relocate(bp, size);
    }

    /** The moving path of mm_realloc: malloc, memcpy of the first size
        bytes of the old payload, then free of the old block. */
    method Relocate(bp: nat, size: nat) returns (r: nat, ghost v1: seq<Blk>, ghost l1: seq<Blk>)
      requires Valid() && Allocated(view, bp) && size > 0
      modifies this, lib
      ensures Valid()
      ensures r == NULL ==> Allocs(view) == old(Allocs(view))
      ensures r == NULL ==>
        && MallocFails(old(view), |old(lib.mem)|, lib.capacity, AdjustSize(size))
        && lib.mem == old(lib.mem) && view == old(view) && free == old(free)
      ensures FitFrom(old(free), 0, AdjustSize(size)) < |old(free)| ==>
        r == old(free)[FitFrom(old(free), 0, AdjustSize(size))].bp
      ensures r != NULL ==>
        && Malloced(old(view), old(free), |old(lib.mem)|, AdjustSize(size), v1, l1)
        && Freed(v1, l1, bp, view, free)
      ensures r != NULL ==>
        var ob := BlockAt(old(view), bp);
        && Granted(old(Allocs(view)) - {ob}, Allocs(view), r, AdjustSize(size))
        && Preserved(old(lib.mem), lib.mem, bp, r, Min((size + 3) / 4, PayloadWords(ob)))
      ensures Untouched(old(lib.mem), lib.mem, old(Allocs(view)) * Allocs(view))
    {
      ghost var ob := BlockAt(view, bp);
      ghost var a0 := Allocs(view);
      ghost var m0 := lib.mem;
      var newp := Malloc(size);
      v1, l1 := view, free;
      if newp == NULL {
        return NULL, v1, l1;
      }
      ghost var nb := GrantedBlock(a0, Allocs(view), newp, AdjustSize(size));
      ghost var a1 := Allocs(view);
      ghost var i := InAllocs(view, ob);
      ghost var j := InAllocs(view, nb);
      OrderedAll(lib.mem, view, PROLOGUE);
      ghost var m1 := lib.mem;
      ghost var n := CopyPayload(lib, view, PROLOGUE, i, j, bp, newp, size);
      ghost var m2 := lib.mem;
      assert Fits(m1, view, i) && Fits(m1, view, j);
      assert ob.size % 8 == 0 && MIN_BLOCK <= ob.size && nb.size % 8 == 0;
      assert Untouched(m1, m2, a1 - {nb});
      CopyOk(m1, m2, view, freeListp, free, j);
      Free(bp);
      r := newp;
      ghost var a2 := Allocs(view);
      assert Released(a1, a2, ob.bp);
      assert Untouched(m2, lib.mem, a2);
      Moved(m0, m1, m2, lib.mem, a0, a1, Allocs(view), v1, ob, nb, size, n);
      assert Freed(v1, l1, bp, view, free);
    }
  }
}
