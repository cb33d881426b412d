/** The physical layout of the managed region, shared by the three
    allocators: a prologue block, ordinary blocks tiling the region, and the
    epilogue header in the last word.  Each block carries a header and a
    footer word holding PACK(size, alloc).

    `view` is the ghost list of blocks in address order: view[0] is the
    prologue, view[1..] the ordinary blocks; the epilogue header is the last
    word of `mem` and is not part of `view`.  `Layout` ties the tags stored in
    `mem` to `view`; the lemmas below say how the allocators' tag writes
    transform `view`. */
module HeapLayout {
  import opened BoundaryTags

  datatype Blk = Blk(bp: nat, size: nat, free: bool)

  /** NEXT_BLKP of a block: one past its footer. */
  function End(b: Blk): nat
  {
    b.bp + b.size / 4
  }

  /** The header and footer word of a block. */
  function Tag(b: Blk): nat
  {
    b.size + AllocBit(b)
  }

  /** The flag PACK stores for a block. */
  function AllocBit(b: Blk): nat
  {
    if b.free then 0 else 1
  }

  /** GET_SIZE and GET_ALLOC recover a block's size and flag from its tag. */
  lemma TagOf(b: Blk)
    requires b.size % 8 == 0
    ensures SizeOf(Tag(b)) == b.size && AllocOf(Tag(b)) == AllocBit(b)
  {
    AlignedPlus(b.size, AllocBit(b));
  }

  /** Block i is well formed and sits where the tags in `mem` say. */
  ghost predicate Fits(mem: seq<nat>, view: seq<Blk>, i: nat)
    requires i < |view|
  {
    var b := view[i];
    && 2 <= b.bp && b.bp % 2 == 0 && b.size % 8 == 0
    && (if i == 0 then DSIZE <= b.size else MIN_BLOCK <= b.size)
    && End(b) <= |mem|
    && End(b) == (if i + 1 < |view| then view[i + 1].bp else |mem|)
    && mem[b.bp - 1] == Tag(b) && mem[End(b) - 2] == Tag(b)
  }

  /** The tiling invariant: the prologue (allocated, `prologue` bytes, payload
      at word 2), then blocks laid end to end, each with header == footer,
      a size that is a multiple of 8 and at least 16, an 8-byte aligned
      payload, and finally the epilogue PACK(0, 1) in the last word. */
  ghost predicate Layout(mem: seq<nat>, view: seq<Blk>, prologue: nat)
  {
    && |view| >= 1 && view[0] == Blk(2, prologue, false)
    && |mem| >= 1 && mem[|mem| - 1] == EPILOGUE
    && forall i :: 0 <= i < |view| ==> Fits(mem, view, i)
  }

  /** Payload positions strictly increase along the view. */
  ghost predicate StrictBps(view: seq<Blk>)
  {
    forall i, j :: 0 <= i < j < |view| ==> view[i].bp < view[j].bp
  }

  lemma {:induction false} Ordered(mem: seq<nat>, view: seq<Blk>, prologue: nat, i: nat, j: nat)
    requires Layout(mem, view, prologue) && i < j < |view|
    ensures End(view[i]) <= view[j].bp
    decreases j - i
  {
    assert Fits(mem, view, i);
    if i + 1 < j {
      assert Fits(mem, view, i + 1);
      Ordered(mem, view, prologue, i + 1, j);
    }
  }

  /** Blocks never overlap: every block ends where or before a later one starts. */
  lemma OrderedAll(mem: seq<nat>, view: seq<Blk>, prologue: nat)
    requires Layout(mem, view, prologue)
    ensures forall i, j :: 0 <= i < j < |view| ==> End(view[i]) <= view[j].bp
    ensures StrictBps(view)
  {
    forall i, j | 0 <= i < j < |view|
      ensures End(view[i]) <= view[j].bp && view[i].bp < view[j].bp
    {
      Ordered(mem, view, prologue, i, j);
      assert Fits(mem, view, i);
    }
  }

  /** No block payload is NULL, and payloads strictly increase. */
  lemma Payloads(mem: seq<nat>, view: seq<Blk>, prologue: nat)
    requires Layout(mem, view, prologue)
    ensures forall i :: 0 <= i < |view| ==> 2 <= view[i].bp && view[i].bp + 2 <= |mem|
    ensures StrictBps(view)
  {
    OrderedAll(mem, view, prologue);
    forall i | 0 <= i < |view| ensures 2 <= view[i].bp && view[i].bp + 2 <= |mem| {
      assert Fits(mem, view, i);
    }
  }

  // ---------------------------------------------------------------------
  // Navigation

  /** The navigation macros read the layout correctly: HDRP and FTRP find a
      block's tags, NEXT_BLKP steps to the following block (or the epilogue)
      and PREV_BLKP back to the preceding one. */
  lemma Navigate(mem: seq<nat>, view: seq<Blk>, prologue: nat, i: nat)
    requires Layout(mem, view, prologue) && i < |view|
    ensures var b := view[i];
      && 2 <= b.bp <= |mem|
      && SizeOf(mem[Hdrp(b.bp)]) == b.size
      && AllocOf(mem[Hdrp(b.bp)]) == (if b.free then 0 else 1)
      && Ftrp(mem, b.bp) == End(b) - 2
      && NextBlkp(mem, b.bp) == End(b)
      && (i + 1 < |view| ==> NextBlkp(mem, b.bp) == view[i + 1].bp)
      && (i + 1 == |view| ==> NextBlkp(mem, b.bp) == |mem|)
      && (i >= 1 ==> PrevBlkp(mem, b.bp) == view[i - 1].bp)
  {
    var b := view[i];
    assert Fits(mem, view, i);
    TagOf(b);
    if i >= 1 {
      var a := view[i - 1];
      assert Fits(mem, view, i - 1);
      TagOf(a);
      assert mem[b.bp - 2] == Tag(a);
    }
  }

  /** The epilogue header reads as a zero-size allocated block. */
  lemma NavigateEpilogue(mem: seq<nat>, view: seq<Blk>, prologue: nat)
    requires Layout(mem, view, prologue)
    ensures |mem| >= 1 && SizeOf(mem[|mem| - 1]) == 0 && AllocOf(mem[|mem| - 1]) == 1
  {
    assert SizeOf(EPILOGUE) == 0 && AllocOf(EPILOGUE) == 1;
  }

  /** The walk of NEXT_BLKP from `bp`, k steps. */
  function Walk(mem: seq<nat>, bp: nat, k: nat): nat
    decreases k
  {
    if k == 0 || bp == 0 || bp > |mem| then bp
    else Walk(mem, NextBlkp(mem, bp), k - 1)
  }

  lemma {:induction false} WalkFrom(mem: seq<nat>, view: seq<Blk>, prologue: nat, i: nat, k: nat)
    requires Layout(mem, view, prologue) && i < |view| && i + k <= |view|
    ensures Walk(mem, view[i].bp, k) == if i + k < |view| then view[i + k].bp else |mem|
    decreases k
  {
    if k > 0 {
      Navigate(mem, view, prologue, i);
      if i + 1 < |view| {
        WalkFrom(mem, view, prologue, i + 1, k - 1);
      }
    }
  }

  /** A walk by header sizes from the prologue visits every block and lands
      exactly on the epilogue header PACK(0, 1) after |view| steps. */
  lemma WalkReachesEpilogue(mem: seq<nat>, view: seq<Blk>, prologue: nat)
    requires Layout(mem, view, prologue)
    ensures forall k :: 0 <= k < |view| ==> Walk(mem, 2, k) == view[k].bp
    ensures Walk(mem, 2, |view|) == |mem| && mem[|mem| - 1] == Pack(0, 1)
  {
    forall k | 0 <= k < |view| ensures Walk(mem, 2, k) == view[k].bp {
      WalkFrom(mem, view, prologue, 0, k);
    }
    WalkFrom(mem, view, prologue, 0, |view|);
  }

  // ---------------------------------------------------------------------
  // Sizes

  function SumSizes(view: seq<Blk>): nat
  {
    if view == [] then 0 else SumSizes(view[..|view| - 1]) + view[|view| - 1].size
  }

  lemma {:induction false} SumSizesPrefix(mem: seq<nat>, view: seq<Blk>, prologue: nat, n: nat)
    requires Layout(mem, view, prologue) && 1 <= n <= |view|
    ensures SumSizes(view[..n]) == 4 * (End(view[n - 1]) - 2)
  {
    var b := view[n - 1];
    assert Fits(mem, view, n - 1);
    Quarter(b.size);
    if n > 1 {
      SumSizesPrefix(mem, view, prologue, n - 1);
      assert view[..n][..n - 1] == view[..n - 1];
      assert Fits(mem, view, n - 2);
      assert End(b) == End(view[n - 2]) + b.size / 4;
    } else {
      assert view[..1][..0] == [];
    }
  }

  lemma SumSizes2(view: seq<Blk>, lo: nat)
    requires lo + 2 <= |view|
    ensures SumSizes(view[lo..lo + 2]) == view[lo].size + view[lo + 1].size
  {
    var run := view[lo..lo + 2];
    assert run[..1] == [view[lo]] && [view[lo]][..0] == [];
    assert SumSizes([view[lo]]) == view[lo].size;
    assert SumSizes(run) == SumSizes(run[..1]) + view[lo + 1].size;
  }

  lemma SumSizes3(view: seq<Blk>, lo: nat)
    requires lo + 3 <= |view|
    ensures SumSizes(view[lo..lo + 3]) == view[lo].size + view[lo + 1].size + view[lo + 2].size
  {
    var run := view[lo..lo + 3];
    assert run[..2] == view[lo..lo + 2];
    assert SumSizes(run) == SumSizes(run[..2]) + view[lo + 2].size;
    SumSizes2(view, lo);
  }

  /** The block sizes add up to the whole region between the padding word and
      the epilogue: no byte is lost or counted twice. */
  lemma TotalSize(mem: seq<nat>, view: seq<Blk>, prologue: nat)
    requires Layout(mem, view, prologue)
    ensures SumSizes(view) == 4 * (|mem| - 2)
  {
    SumSizesPrefix(mem, view, prologue, |view|);
    assert view[..|view|] == view;
    assert Fits(mem, view, |view| - 1);
  }

  // ---------------------------------------------------------------------
  // Which words belong to whom

  /** p lies strictly between b's header and footer. */
  ghost predicate Inside(b: Blk, p: int)
  {
    b.bp <= p < End(b) - 2
  }

  /** Words that hold no tag and belong to no allocated ordinary block: the
      interior of the prologue and of free blocks (list roots and links). */
  ghost predicate Scratch(view: seq<Blk>, p: int)
  {
    exists j :: 0 <= j < |view| && (j == 0 || view[j].free) && Inside(view[j], p)
  }

  /** The allocated ordinary blocks. */
  ghost function Allocs(view: seq<Blk>): set<Blk>
  {
    set i | 1 <= i < |view| && !view[i].free :: view[i]
  }

  ghost function Elems(view: seq<Blk>): set<Blk>
  {
    set i | 0 <= i < |view| :: view[i]
  }

  /** Header, payload and footer of b are the same in m1 and m2. */
  ghost predicate SameExtent(m1: seq<nat>, m2: seq<nat>, b: Blk)
  {
    && 1 <= b.bp && End(b) - 1 <= |m1| && End(b) - 1 <= |m2|
    && forall p :: b.bp - 1 <= p < End(b) - 1 ==> m1[p] == m2[p]
  }

  ghost predicate Untouched(m1: seq<nat>, m2: seq<nat>, s: set<Blk>)
  {
    forall b :: b in s ==> SameExtent(m1, m2, b)
  }

  lemma UntouchedTrans(m1: seq<nat>, m2: seq<nat>, m3: seq<nat>, s: set<Blk>, t: set<Blk>)
    requires Untouched(m1, m2, s) && Untouched(m2, m3, t) && s <= t
    ensures Untouched(m1, m3, s)
  {
  }

  /** Every allocated block lies within the heap. */
  lemma UntouchedSelf(m: seq<nat>, view: seq<Blk>, prologue: nat)
    requires Layout(m, view, prologue)
    ensures Untouched(m, m, Allocs(view))
  {
    forall b | b in Allocs(view) ensures SameExtent(m, m, b) {
      var i :| 1 <= i < |view| && !view[i].free && view[i] == b;
      assert Fits(m, view, i);
    }
  }

  lemma InAllocs(view: seq<Blk>, b: Blk) returns (i: nat)
    requires b in Allocs(view)
    ensures 1 <= i < |view| && view[i] == b && !b.free
  {
    i :| 1 <= i < |view| && !view[i].free && view[i] == b;
  }

  /** Rewriting only scratch words keeps the layout and every allocated
      block's extent. */
  lemma ScratchEdit(m1: seq<nat>, m2: seq<nat>, view: seq<Blk>, prologue: nat)
    requires Layout(m1, view, prologue) && |m2| == |m1|
    requires forall p :: 0 <= p < |m1| && m2[p] != m1[p] ==> Scratch(view, p)
    ensures Layout(m2, view, prologue) && Untouched(m1, m2, Allocs(view))
  {
    OrderedAll(m1, view, prologue);
    forall i | 0 <= i < |view| ensures Fits(m2, view, i) {
      assert Fits(m1, view, i);
    }
    assert Fits(m1, view, |view| - 1);
    forall b | b in Allocs(view) ensures SameExtent(m1, m2, b) {
      var i := InAllocs(view, b);
      assert Fits(m1, view, i);
    }
  }

  /** Writing only inside the payload of the allocated block j (memcpy into
      a fresh block) keeps the layout and every other allocated block. */
  lemma PayloadEdit(m1: seq<nat>, m2: seq<nat>, view: seq<Blk>, prologue: nat, j: nat)
    requires Layout(m1, view, prologue) && 1 <= j < |view| && |m2| == |m1|
    requires forall p :: 0 <= p < |m1| && m2[p] != m1[p] ==> Inside(view[j], p)
    ensures Layout(m2, view, prologue) && Untouched(m1, m2, Allocs(view) - {view[j]})
  {
    OrderedAll(m1, view, prologue);
    assert Fits(m1, view, j);
    forall i | 0 <= i < |view| ensures Fits(m2, view, i) {
      assert Fits(m1, view, i);
    }
    assert Fits(m1, view, |view| - 1);
    forall b | b in Allocs(view) - {view[j]} ensures SameExtent(m1, m2, b) {
      var i := InAllocs(view, b);
      assert Fits(m1, view, i);
    }
  }

  /** Every interior word of a free block or of the prologue is scratch. */
  lemma InsideIsScratch(view: seq<Blk>, j: nat, p: int)
    requires j < |view| && (j == 0 || view[j].free) && Inside(view[j], p)
    ensures Scratch(view, p)
  {
  }
}
