/** mm_Implicit.c: the implicit free list.  Nothing but the boundary tags
    records which blocks are free; find_fit walks the heap block by block,
    starting from a roving cursor prev_bp (next fit). */
module ImplicitAllocator {
  import opened BoundaryTags
  import opened HeapLayout
  import opened HeapEdits
  import opened FreeBlocks
  import opened Outcomes
  import opened Memory

  /** The prologue block holds only its header and footer. */
  const PROLOGUE: nat := 8

  /** p names an ordinary block. */
  ghost predicate IsBlock(view: seq<Blk>, p: nat)
  {
    exists i :: 1 <= i < |view| && view[i].bp == p
  }

  /** The block where the scan starts: the cursor's, or the prologue. */
  ghost function StartIndex(view: seq<Blk>, cursor: nat): (i: nat)
    requires |view| >= 1 && (cursor == NULL || IsBlock(view, cursor))
    ensures i < |view| && (cursor == NULL ==> i == 0)
    ensures cursor != NULL ==> 1 <= i && view[i].bp == cursor
  {
    if cursor == NULL then 0
    else var i :| 1 <= i < |view| && view[i].bp == cursor; i
  }

  /** The block is free and holds asize bytes. */
  ghost predicate Fit(b: Blk, asize: nat)
  {
    b.free && asize <= b.size
  }

  /** Reference search: the first fitting block at or after index i, or |view|. */
  ghost function FirstFitFrom(view: seq<Blk>, i: nat, asize: nat): nat
    decreases |view| - i
  {
    if i >= |view| then |view|
    else if Fit(view[i], asize) then i
    else FirstFitFrom(view, i + 1, asize)
  }

  /** Next fit: the first fit from the cursor to the end of the heap, and
      failing that the first fit from the start. */
  ghost function NextFit(view: seq<Blk>, start: nat, asize: nat): nat
  {
    var k := FirstFitFrom(view, start, asize);
    if k < |view| then k else FirstFitFrom(view, 0, asize)
  }

  lemma {:induction false} FirstFitFromIsFirst(view: seq<Blk>, i: nat, asize: nat)
    ensures var k := FirstFitFrom(view, i, asize);
      && k <= |view|
      && (k < |view| ==> i <= k && Fit(view[k], asize))
      && forall j :: i <= j < k ==> !Fit(view[j], asize)
    decreases |view| - i
  {
    if i < |view| && !Fit(view[i], asize) {
      FirstFitFromIsFirst(view, i + 1, asize);
    }
  }

  /** next fit returns a fitting block: the first one from the cursor on,
      or, when there is none there, the first one in the heap; it finds
      nothing exactly when no block anywhere fits. */
  lemma NextFitCorrect(view: seq<Blk>, start: nat, asize: nat)
    requires start <= |view|
    ensures var k := NextFit(view, start, asize);
      && k <= |view|
      && (k < |view| ==> Fit(view[k], asize))
      && (start <= k ==> forall j :: start <= j < k ==> !Fit(view[j], asize))
      && (k < start ==>
            (forall j :: start <= j < |view| ==> !Fit(view[j], asize))
            && (forall j :: 0 <= j < k ==> !Fit(view[j], asize)))
      && (k == |view| <==> forall j :: 0 <= j < |view| ==> !Fit(view[j], asize))
  {
    FirstFitFromIsFirst(view, start, asize);
    FirstFitFromIsFirst(view, 0, asize);
  }

  lemma CursorAfterRetag(view: seq<Blk>, j: nat, free: bool, p: nat)
    requires j < |view| && IsBlock(view, p)
    ensures IsBlock(Retagged(view, j, free), p)
  {
    var i :| 1 <= i < |view| && view[i].bp == p;
    assert Retagged(view, j, free)[i].bp == p;
  }

  lemma CursorAfterSplit(view: seq<Blk>, j: nat, a: nat, p: nat)
    requires j < |view| && a <= view[j].size && IsBlock(view, p)
    ensures IsBlock(SplitView(view, j, a), p)
  {
    var view' := SplitView(view, j, a);
    var i :| 1 <= i < |view| && view[i].bp == p;
    if i <= j {
      assert view'[i].bp == p;
    } else {
      assert view'[i + 1].bp == p;
    }
  }

  lemma CursorAfterAppend(view: seq<Blk>, b: Blk, p: nat)
    requires IsBlock(view, p)
    ensures IsBlock(view + [b], p)
  {
    var i :| 1 <= i < |view| && view[i].bp == p;
    assert (view + [b])[i].bp == p;
  }

  /** The heap invariant: the layout, heap_listp at the prologue, every
      neighbour pair apart except those of the block at `hole`, and the
      cursor NULL or at a block. */
  ghost predicate HeapOk(mem: seq<nat>, view: seq<Blk>, heapListp: nat, cursor: nat, hole: nat)
  {
    && Layout(mem, view, PROLOGUE)
    && heapListp == view[0].bp
    && NoAdjacentFree(view, hole)
    && (cursor == NULL || IsBlock(view, cursor))
  }

  /** The one state in which mm_malloc returns NULL for a request of asize
      bytes: no free block is that large, and the region, now `words`
      words long, cannot grow by MAX(asize, CHUNKSIZE) bytes. */
  ghost predicate MallocFails(view: seq<Blk>, words: nat, capacity: nat, asize: nat)
  {
    && (forall i :: 0 <= i < |view| ==> !Fit(view[i], asize))
    && words + Max(asize, CHUNKSIZE) / 4 > capacity
  }

  /** The heap after an mm_malloc of asize bytes that returned r, from view
      with the region `words` words long and prev_bp at cursor: the next-fit
      block placed, or else the MAX(asize, CHUNKSIZE)-byte extension
      coalesced and the merged block placed. view' and cursor' are the new
      view and prev_bp. */
  ghost predicate Malloced(view: seq<Blk>, words: nat, cursor: nat, asize: nat, r: nat,
                           view': seq<Blk>, cursor': nat)
    requires |view| >= 1 && (cursor == NULL || IsBlock(view, cursor))
  {
    var k := NextFit(view, StartIndex(view, cursor), asize);
    if k < |view| then
      && asize <= view[k].size
      && view' == Placed(view, k, asize) && cursor' == r
    else
      var n := |view|;
      var grown := view + [Blk(words, Max(asize, CHUNKSIZE), true)];
      var lo := CoalesceLo(grown, n);
      var v1 := Coalesced(grown, n);
      && lo < |v1| && asize <= v1[lo].size
      && view' == Placed(v1, lo, asize)
      && cursor' == if v1 == grown then cursor else r
  }

  /** The heap after mm_free(bp): the block retagged free and coalesced, and
      prev_bp moved to the merged block exactly when something merged. */
  ghost predicate Freed(view: seq<Blk>, cursor: nat, bp: nat, view': seq<Blk>, cursor': nat)
  {
    exists k ::
      && 1 <= k < |view| && view[k].bp == bp
      && var v1 := Retagged(view, k, true);
      && view' == Coalesced(v1, k)
      && cursor' == if view' == v1 then cursor else v1[CoalesceLo(v1, k)].bp
  }

  /** extend_heap's writes append a free block, the only one that may have a
      free neighbour. */
  lemma ExtendOk(m: seq<nat>, view: seq<Blk>, hl: nat, cur: nat, grant: seq<nat>)
    requires HeapOk(m, view, hl, cur, NULL) && |grant| >= 4 && |grant| % 2 == 0
    ensures var b := Blk(|m|, 4 * |grant|, true);
      && HeapOk(ExtendWrites(m, grant), view + [b], hl, cur, b.bp)
      && Untouched(m, ExtendWrites(m, grant), Allocs(view))
      && Allocs(view + [b]) == Allocs(view)
  {
    var b := Blk(|m|, 4 * |grant|, true);
    Extend(m, view, PROLOGUE, grant);
    Payloads(m, view, PROLOGUE);
    NoAdjacentAfterExtend(view, b);
    AppendAllocs(view, b);
    if cur != NULL {
      CursorAfterAppend(view, b, cur);
    }
  }

  /** place keeps the invariant. */
  lemma PlaceOk(m: seq<nat>, view: seq<Blk>, hl: nat, cur: nat, j: nat, asize: nat)
    requires HeapOk(m, view, hl, cur, NULL) && 1 <= j < |view| && view[j].free
    requires asize % 8 == 0 && MIN_BLOCK <= asize <= view[j].size
    ensures Fits(m, view, j)
    ensures var m' := PlaceWrites(m, view[j], asize);
      && HeapOk(m', Placed(view, j, asize), hl, cur, NULL)
      && |m'| == |m| && Untouched(m, m', Allocs(view))
  {
    PlaceLayout(m, view, PROLOGUE, j, asize);
    Payloads(m, view, PROLOGUE);
    if view[j].size - asize >= MIN_BLOCK {
      NoAdjacentAfterSplit(view, j, asize);
      if cur != NULL {
        CursorAfterSplit(view, j, asize, cur);
      }
    } else {
      NoAdjacentAfterAllocate(view, j);
      if cur != NULL {
        CursorAfterRetag(view, j, false, cur);
      }
    }
  }

  /** mm_free's retag leaves only the freed block's pairs in question. */
  lemma FreeOk(m: seq<nat>, view: seq<Blk>, hl: nat, cur: nat, k: nat)
    requires HeapOk(m, view, hl, cur, NULL) && 1 <= k < |view| && !view[k].free
    ensures Fits(m, view, k)
    ensures var m' := PutTags(m, view[k].(free := true));
      && HeapOk(m', Retagged(view, k, true), hl, cur, view[k].bp)
      && Untouched(m, m', Allocs(view) - {view[k]})
      && Allocs(Retagged(view, k, true)) == Allocs(view) - {view[k]}
  {
    Retag(m, view, PROLOGUE, k, true);
    Payloads(m, view, PROLOGUE);
    NoAdjacentAfterFree(view, k);
    RetaggedAllocs(view, k);
    if cur != NULL {
      CursorAfterRetag(view, k, true, cur);
    }
  }

  /** coalesce restores the invariant; the cursor moves to the merged block
      exactly when something merged, so it never dangles. */
  lemma CoalesceOk(m: seq<nat>, view: seq<Blk>, hl: nat, cur: nat, k: nat)
    requires 1 <= k < |view| && HeapOk(m, view, hl, cur, view[k].bp) && view[k].free
    ensures var mb := Merged(view, CoalesceLo(view, k), CoalesceHi(view, k), true);
      && 1 <= mb.bp && 8 <= mb.size && End(mb) <= |m|
      && var merged := Coalesced(view, k) != view;
      && var m' := if merged then PutTags(m, mb) else m;
      && HeapOk(m', Coalesced(view, k), hl, if merged then mb.bp else cur, NULL)
      && Untouched(m, m', Allocs(view)) && Allocs(Coalesced(view, k)) == Allocs(view)
  {
    var lo := CoalesceLo(view, k);
    CoalesceLayout(m, view, PROLOGUE, k);
    Payloads(m, view, PROLOGUE);
    NoAdjacentAfterCoalesce(view, k);
    CoalescedAllocs(view, k);
    if Coalesced(view, k) != view {
      assert Coalesced(view, k)[lo].bp == view[lo].bp;
    }
  }

  /** One of find_fit's walks: along NEXT_BLKP from block i0 (payload bp0)
      up to the epilogue, stopping at the first free block of at least asize
      bytes; NULL when the walk reaches the epilogue. */
  method WalkFit(lib: MemLib, ghost view: seq<Blk>, ghost i0: nat, bp0: nat, asize: nat) returns (bp: nat)
    requires Layout(lib.mem, view, PROLOGUE) && i0 < |view| && view[i0].bp == bp0
    ensures var k := FirstFitFrom(view, i0, asize);
      && (k < |view| ==> bp == view[k].bp) && (k == |view| ==> bp == NULL)
  {
    Payloads(lib.mem, view, PROLOGUE);
    NavigateEpilogue(lib.mem, view, PROLOGUE);
    bp := bp0;
    ghost var i := i0;
    while SizeOf(lib.Get(Hdrp(bp))) > 0
      invariant i0 <= i <= |view|
      invariant i < |view| ==> bp == view[i].bp
      invariant i == |view| ==> bp == |lib.mem|
      invariant FirstFitFrom(view, i, asize) == FirstFitFrom(view, i0, asize)
      decreases |view| - i
    {
      Navigate(lib.mem, view, PROLOGUE, i);
      if AllocOf(lib.Get(Hdrp(bp))) == 0 && asize <= SizeOf(lib.Get(Hdrp(bp))) {
        return;
      }
      bp := NextBlkp(lib.mem, bp);
      i := i + 1;
    }
    if i < |view| {
      Navigate(lib.mem, view, PROLOGUE, i);
    }
    return NULL;
  }

  /** extend_heap up to coalesce: sbrk of words * 4 bytes, then a free
      block over the old epilogue and the grant and a new epilogue after it;
      NULL when sbrk fails, with nothing changed. */
  method GrowHeap(lib: MemLib, ghost view: seq<Blk>, ghost hl: nat, ghost cur: nat, words: nat)
    returns (bp: nat)
    requires HeapOk(lib.mem, view, hl, cur, NULL) && words >= 4 && words % 2 == 0
    modifies lib
    ensures |old(lib.mem)| + words > lib.capacity ==> bp == NULL && lib.mem == old(lib.mem)
    ensures |old(lib.mem)| + words <= lib.capacity ==>
      var b := Blk(|old(lib.mem)|, 4 * words, true);
      && bp == b.bp && bp != NULL && |lib.mem| == |old(lib.mem)| + words
      && HeapOk(lib.mem, view + [b], hl, cur, b.bp) && Allocs(view + [b]) == Allocs(view)
    ensures Untouched(old(lib.mem), lib.mem, Allocs(view))
  {
    var size := words * WSIZE;
    ghost var m0 := lib.mem;
    var p := lib.Sbrk(size);
    if p == -1 {
      UntouchedSelf(m0, view, PROLOGUE);
      return NULL;
    }
    bp := p;
    ghost var grant := lib.mem[|m0|..];
    assert lib.mem == m0 + grant;
    EvenWords(words);
    WriteExtension(lib, m0, grant, bp, size);
    ExtendOk(m0, view, hl, cur, grant);
    Payloads(m0, view, PROLOGUE);
  }

  class ImplicitHeap {
    const lib: MemLib
    /** heap_listp: the prologue's payload. */
    var heapListp: nat
    /** prev_bp: where the last search succeeded or the last merge ended. */
    var prevBp: nat
    /** The blocks in address order, the prologue first. */
    ghost var view: seq<Blk>

    ghost predicate Valid()
      reads this, lib
    {
      HeapOk(lib.mem, view, heapListp, prevBp, NULL)
    }

    /** A process start: an empty region and a NULL cursor. */
    constructor (capacity: nat)
      ensures fresh(lib) && lib.mem == [] && lib.capacity == capacity && prevBp == NULL
    {
      lib := new MemLib(capacity);
      prevBp := NULL;
    }

    /** mm_init: padding, an (8,1) prologue and the epilogue, then a first
        free block of CHUNKSIZE bytes; -1 when either sbrk fails. */
    method Init() returns (r: int)
      requires lib.mem == [] && prevBp == NULL
      modifies this, lib
      ensures r == 0 <==> 4 + CHUNKSIZE / 4 <= lib.capacity
      ensures r == 0 ==> Valid() && view == [Blk(2, PROLOGUE, false), Blk(4, CHUNKSIZE, true)]
      ensures r != 0 ==> r == -1
    {
      var p := lib.Sbrk(4 * WSIZE);
      if p == -1 {
        return -1;
      }
      lib.Put(p, 0);
      lib.Put(p + 1, Pack(DSIZE, 1));
      lib.Put(p + 2, Pack(DSIZE, 1));
      lib.Put(p + 3, Pack(0, 1));
      heapListp := p + 2;
      view := [Blk(2, PROLOGUE, false)];
      assert Fits(lib.mem, view, 0);
      var bp := ExtendHeap(CHUNKSIZE / WSIZE);
      if bp == NULL {
        return -1;
      }
      return 0;
    }

    /** extend_heap: a new free block of words*4 bytes over the old
        epilogue, a new epilogue after it, then coalesce; NULL when sbrk
        fails, with nothing changed. */
    method ExtendHeap(words: nat) returns (bp: nat)
      requires Valid() && words >= 4 && words % 2 == 0
      modifies this, lib
      ensures Valid() && Allocs(view) == old(Allocs(view)) && heapListp == old(heapListp)
      ensures Untouched(old(lib.mem), lib.mem, old(Allocs(view)))
      ensures |old(lib.mem)| + words > lib.capacity ==>
        bp == NULL && lib.mem == old(lib.mem) && view == old(view) && prevBp == old(prevBp)
      ensures |old(lib.mem)| + words <= lib.capacity ==>
        var grown := old(view) + [Blk(|old(lib.mem)|, 4 * words, true)];
        var lo := CoalesceLo(grown, |old(view)|);
        && |lib.mem| == |old(lib.mem)| + words
        && view == Coalesced(grown, |old(view)|)
        && 1 <= lo < |view| && bp == view[lo].bp && bp != NULL
        && view[lo].free && 4 * words <= view[lo].size
        && prevBp == if view == grown then old(prevBp) else bp
    {
      ghost var m0 := lib.mem;
      ghost var v0 := view;
      bp := GrowHeap(lib, view, heapListp, prevBp, words);
      if bp == NULL {
        return;
      }
      ghost var m1 := lib.mem;
      view := view + [Blk(bp, 4 * words, true)];
      bp := Coalesce(|view| - 1, bp);
      UntouchedTrans(m0, m1, lib.mem, Allocs(v0), Allocs(v0));
      Payloads(lib.mem, view, PROLOGUE);
    }

    /** find_fit, next fit: two walks along NEXT_BLKP, from the cursor (or
        the prologue) to the epilogue and then from the prologue; a hit
        moves the cursor to it. */
    method FindFit(asize: nat) returns (bp: nat)
      requires Valid()
      modifies this
      ensures Valid() && view == old(view) && heapListp == old(heapListp)
      ensures var k := NextFit(view, StartIndex(view, old(prevBp)), asize);
        && (k == |view| ==> bp == NULL && prevBp == old(prevBp))
        && (k < |view| ==> bp == view[k].bp && prevBp == bp)
    {
      ghost var start := StartIndex(view, prevBp);
      ghost var k := FirstFitFrom(view, start, asize);
      FirstFitFromIsFirst(view, start, asize);
      Payloads(lib.mem, view, PROLOGUE);
      bp := if prevBp != NULL then prevBp else heapListp;
      bp := WalkFit(lib, view, start, bp, asize);
      if bp != NULL {
        assert 1 <= k < |view| && view[k].bp == bp;
        prevBp := bp;
        return;
      }
      k := FirstFitFrom(view, 0, asize);
      FirstFitFromIsFirst(view, 0, asize);
      bp := WalkFit(lib, view, 0, heapListp, asize);
      if bp != NULL {
        assert 1 <= k < |view| && view[k].bp == bp;
        prevBp := bp;
      }
    }

    /** place: allocate asize bytes of the free block j, splitting off the
        remainder as a free block exactly when it is at least 16 bytes. */
    method Place(ghost j: nat, bp: nat, asize: nat)
      requires Valid() && 1 <= j < |view| && view[j].bp == bp && view[j].free
      requires asize % 8 == 0 && MIN_BLOCK <= asize <= view[j].size
      modifies this, lib
      ensures Valid() && |lib.mem| == |old(lib.mem)| && prevBp == old(prevBp) && heapListp == old(heapListp)
      ensures view == Placed(old(view), j, asize)
      ensures Untouched(old(lib.mem), lib.mem, old(Allocs(view)))
    {
      ghost var m0 := lib.mem;
      Navigate(m0, view, PROLOGUE, j);
      assert Fits(m0, view, j);
      var bsize := SizeOf(lib.Get(Hdrp(bp)));
      PlaceTags(lib, view[j], bp, bsize, asize);
      PlaceOk(m0, view, heapListp, prevBp, j, asize);
      view := Placed(view, j, asize);
    }

    /** coalesce: merge the free block k with its free neighbours (four
        cases).  Only when something merged does the cursor move, to the
        merged block. */
    method Coalesce(ghost k: nat, bp: nat) returns (r: nat)
      requires 1 <= k < |view| && HeapOk(lib.mem, view, heapListp, prevBp, bp)
      requires view[k].bp == bp && view[k].free
      modifies this, lib
      ensures Valid() && |lib.mem| == |old(lib.mem)| && heapListp == old(heapListp)
      ensures view == Coalesced(old(view), k)
      ensures var lo := CoalesceLo(old(view), k);
        && lo < |view| && r == view[lo].bp && r == old(view)[lo].bp && view[lo].free
        && view[lo].size == SumSizes(old(view)[lo..CoalesceHi(old(view), k)])
        && old(view)[k].size <= view[lo].size
      ensures prevBp == if view == old(view) then old(prevBp) else r
      ensures Allocs(view) == old(Allocs(view))
      ensures Untouched(old(lib.mem), lib.mem, old(Allocs(view)))
    {
      ghost var m0 := lib.mem;
      ghost var cur := prevBp;
      var prevAlloc, nextAlloc, size := NeighbourTags(lib, view, PROLOGUE, k, bp);
      if prevAlloc == 1 && nextAlloc == 1 {
        CoalesceOk(m0, view, heapListp, cur, k);
        CoalescedBlock(m0, view, PROLOGUE, k);
        return bp;
      }
      r := MergeAround(lib, view, PROLOGUE, k, bp, prevAlloc, nextAlloc, size);
      CoalesceOk(m0, view, heapListp, cur, k);
      CoalescedBlock(m0, view, PROLOGUE, k);
      view := Coalesced(view, k);
      prevBp := r;
    }

    /** mm_malloc: NULL for a zero request; otherwise a fit, or else a fresh
        MAX(asize, CHUNKSIZE)-byte extension; NULL only when there is no
        fit and the heap cannot grow. */
    method Malloc(size: nat) returns (r: nat)
      requires Valid()
      modifies this, lib
      ensures Valid() && heapListp == old(heapListp)
      ensures Untouched(old(lib.mem), lib.mem, old(Allocs(view)))
      ensures size == 0 ==> r == NULL && lib.mem == old(lib.mem) && view == old(view) && prevBp == old(prevBp)
      ensures size > 0 && r != NULL ==> Granted(old(Allocs(view)), Allocs(view), r, AdjustSize(size))
      ensures size > 0 ==>
        var k := NextFit(old(view), StartIndex(old(view), old(prevBp)), AdjustSize(size));
        k < |old(view)| ==> r == old(view)[k].bp
      ensures size > 0 && r == NULL ==>
        && MallocFails(old(view), |old(lib.mem)|, lib.capacity, AdjustSize(size))
        && lib.mem == old(lib.mem) && view == old(view) && prevBp == old(prevBp)
      ensures size > 0 && r != NULL ==>
        Malloced(old(view), |old(lib.mem)|, old(prevBp), AdjustSize(size), r, view, prevBp)
    {
      if size == 0 {
        UntouchedSelf(lib.mem, view, PROLOGUE);
        return NULL;
      }
      var asize := AdjustSize(size);
      ghost var v0 := view;
      ghost var m0 := lib.mem;
      NextFitCorrect(view, StartIndex(view, prevBp), asize);
      Payloads(lib.mem, view, PROLOGUE);
      ghost var j := NextFit(view, StartIndex(view, prevBp), asize);
      r := FindFit(asize);
      if r != NULL {
        PlacedAllocs(view, j, asize);
        Place(j, r, asize);
        return;
      }
      var extendsize := Max(asize, CHUNKSIZE);
      Quarter(extendsize);
      r := ExtendHeap(extendsize / WSIZE);
      if r != NULL {
        j := CoalesceLo(v0 + [Blk(|m0|, extendsize, true)], |v0|);
        ghost var m1 := lib.mem;
        Payloads(lib.mem, view, PROLOGUE);
        PlacedAllocs(view, j, asize);
        Place(j, r, asize);
        UntouchedTrans(m0, m1, lib.mem, Allocs(v0), Allocs(v0));
      }
    }

    /** mm_free: the block keeps its size and becomes free, then coalesces. */
    method Free(bp: nat)
      requires Valid() && Allocated(view, bp)
      modifies this, lib
      ensures Valid() && |lib.mem| == |old(lib.mem)| && heapListp == old(heapListp)
      ensures Released(old(Allocs(view)), Allocs(view), bp)
      ensures Untouched(old(lib.mem), lib.mem, Allocs(view))
      ensures Freed(old(view), old(prevBp), bp, view, prevBp)
    {
      ghost var b := BlockAt(view, bp);
      ghost var k := InAllocs(view, b);
      ghost var m0 := lib.mem;
      ghost var v0 := view;
      ghost var cur := prevBp;
      FreeOk(m0, view, heapListp, prevBp, k);
      FreeTags(lib, b, bp);
      ghost var m1 := lib.mem;
      view := Retagged(view, k, true);
      var _ := Coalesce(k, bp);
      ghost var v1 := Retagged(v0, k, true);
      assert view == Coalesced(v1, k);
      assert prevBp == if view == v1 then cur else v1[CoalesceLo(v1, k)].bp;
      UntouchedTrans(m0, m1, lib.mem, Allocs(view), Allocs(view));
    }

    /** mm_realloc: free for a zero size, malloc for NULL, otherwise a new
        block that starts with the old payload, the old block freed only
        once the new one exists. */
    method Realloc(bp: nat, size: nat) returns (r: nat)
      requires Valid()
      requires bp != NULL ==> Allocated(view, bp)
      requires bp == NULL ==> size > 0
      modifies this, lib
      ensures Valid()
      ensures size == 0 ==> r == NULL && Released(old(Allocs(view)), Allocs(view), bp)
      ensures size == 0 ==> Freed(old(view), old(prevBp), bp, view, prevBp)
      ensures bp == NULL && r != NULL ==> Granted(old(Allocs(view)), Allocs(view), r, AdjustSize(size))
      ensures bp == NULL && r != NULL ==>
        Malloced(old(view), |old(lib.mem)|, old(prevBp), AdjustSize(size), r, view, prevBp)
      ensures bp != NULL && size > 0 && r != NULL ==>
        exists v1, c1 ::
          Malloced(old(view), |old(lib.mem)|, old(prevBp), AdjustSize(size), r, v1, c1)
          && Freed(v1, c1, bp, view, prevBp)
      ensures r == NULL && size > 0 ==> Allocs(view) == old(Allocs(view))
      ensures size > 0 && r == NULL ==>
        && MallocFails(old(view), |old(lib.mem)|, lib.capacity, AdjustSize(size))
        && lib.mem == old(lib.mem) && view == old(view) && prevBp == old(prevBp)
      ensures size > 0 ==>
        var k := NextFit(old(view), StartIndex(old(view), old(prevBp)), AdjustSize(size));
        k < |old(view)| ==> r == old(view)[k].bp
      ensures bp != NULL && size > 0 && r != NULL ==>
        var ob := BlockAt(old(view), bp);
        && Granted(old(Allocs(view)) - {ob}, Allocs(view), r, AdjustSize(size))
        && Preserved(old(lib.mem), lib.mem, bp, r, Min((size + 3) / 4, PayloadWords(ob)))
      ensures Untouched(old(lib.mem), lib.mem, old(Allocs(view)) * Allocs(view))
    {
      if size == 0 {
        Free(bp);
        return NULL;
      }
      if bp == NULL {
        r := Malloc(size);
        return;
      }
      ghost var v1, c1;
      r, v1, c1 := Relocate(bp, size);
    }

    /** The moving path of mm_realloc: malloc, memcpy of the first size
        bytes of the old payload, then free of the old block. */
    method Relocate(bp: nat, size: nat) returns (r: nat, ghost v1: seq<Blk>, ghost c1: nat)
      requires Valid() && Allocated(view, bp) && size > 0
      modifies this, lib
      ensures Valid()
      ensures r == NULL ==> Allocs(view) == old(Allocs(view))
      ensures r == NULL ==>
        && MallocFails(old(view), |old(lib.mem)|, lib.capacity, AdjustSize(size))
        && lib.mem == old(lib.mem) && view == old(view) && prevBp == old(prevBp)
      ensures var k := NextFit(old(view), StartIndex(old(view), old(prevBp)), AdjustSize(size));
        k < |old(view)| ==> r == old(view)[k].bp
      ensures r != NULL ==>
        && Malloced(old(view), |old(lib.mem)|, old(prevBp), AdjustSize(size), r, v1, c1)
        && Freed(v1, c1, bp, view, prevBp)
      ensures r != NULL ==>
        var ob := BlockAt(old(view), bp);
        && Granted(old(Allocs(view)) - {ob}, Allocs(view), r, AdjustSize(size))
        && Preserved(old(lib.mem), lib.mem, bp, r, Min((size + 3) / 4, PayloadWords(ob)))
      ensures Untouched(old(lib.mem), lib.mem, old(Allocs(view)) * Allocs(view))
    {
      ghost var ob := BlockAt(view, bp);
      ghost var a0 := Allocs(view);
      ghost var m0 := lib.mem;
      var newp := Malloc(size);
      v1, c1 := view, prevBp;
      if newp == NULL {
        return NULL, v1, c1;
      }
      ghost var nb := GrantedBlock(a0, Allocs(view), newp, AdjustSize(size));
      ghost var a1 := Allocs(view);
      ghost var i := InAllocs(view, ob);
      ghost var j := InAllocs(view, nb);
      OrderedAll(lib.mem, view, PROLOGUE);
      ghost var m1 := lib.mem;
      ghost var n := CopyPayload(lib, view, PROLOGUE, i, j, bp, newp, size);
      ghost var m2 := lib.mem;
      assert Fits(m1, view, i) && Fits(m1, view, j);
      assert ob.size % 8 == 0 && MIN_BLOCK <= ob.size && nb.size % 8 == 0;
      assert Untouched(m1, m2, a1 - {nb});
      Free(bp);
      r := newp;
      ghost var a2 := Allocs(view);
      assert Released(a1, a2, ob.bp);
      assert Untouched(m2, lib.mem, a2);
      Moved(m0, m1, m2, lib.mem, a0, a1, Allocs(view), v1, ob, nb, size, n);
      assert Freed(v1, c1, bp, view, prevBp);
    }
  }
}
