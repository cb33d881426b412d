/** How the allocators' tag writes transform the block view: rewriting one
    block's flag, splitting a block in two (place), merging a run of blocks
    into one (coalesce, realloc growing in place) and appending a block at
    the old epilogue (extend_heap).  Each edit replaces the run view[lo..hi]
    by new blocks covering the same words; the lemmas take the exact words
    the source writes and state the new layout, and that the extents of the
    allocated blocks outside the edited run are unchanged. */
module HeapEdits {
  import opened BoundaryTags
  import opened HeapLayout
  import opened Memory

  // ---------------------------------------------------------------------
  // The view transformations

  /** The run view[lo..hi] replaced by `mid`. */
  function Splice(view: seq<Blk>, lo: nat, hi: nat, mid: seq<Blk>): (r: seq<Blk>)
    requires lo <= hi <= |view|
    ensures |r| == |view| - (hi - lo) + |mid|
  {
    view[..lo] + mid + view[hi..]
  }

  /** mm_free and the no-split branch of place: same size, new flag. */
  function Retagged(view: seq<Blk>, j: nat, free: bool): seq<Blk>
    requires j < |view|
  {
    Splice(view, j, j + 1, [view[j].(free := free)])
  }

  /** place's split: an allocated front of `a` bytes and a free remainder. */
  function SplitView(view: seq<Blk>, j: nat, a: nat): seq<Blk>
    requires j < |view| && a <= view[j].size
  {
    var b := view[j];
    Splice(view, j, j + 1, [Blk(b.bp, a, false), Blk(b.bp + a / 4, b.size - a, true)])
  }

  /** The block spanning blocks lo..hi-1. */
  function Merged(view: seq<Blk>, lo: nat, hi: nat, free: bool): Blk
    requires lo < hi <= |view|
  {
    var span := End(view[hi - 1]) - view[lo].bp;
    Blk(view[lo].bp, if span >= 0 then 4 * span else 0, free)
  }

  /** Blocks lo..hi-1 become one block. */
  function MergeView(view: seq<Blk>, lo: nat, hi: nat, free: bool): seq<Blk>
    requires lo < hi <= |view|
  {
    Splice(view, lo, hi, [Merged(view, lo, hi, free)])
  }

  /** PUT(HDRP(bp), tag); PUT(FTRP(bp), tag) for block b. */
  function PutTags(m: seq<nat>, b: Blk): seq<nat>
    requires 1 <= b.bp && 8 <= b.size && End(b) <= |m|
  {
    m[b.bp - 1 := Tag(b)][End(b) - 2 := Tag(b)]
  }

  /** Block x's header and footer both hold its tag in m. */
  ghost predicate Tagged(m: seq<nat>, x: Blk)
  {
    && 1 <= x.bp && x.size % 8 == 0 && 8 <= x.size && End(x) <= |m|
    && m[x.bp - 1] == Tag(x) && m[End(x) - 2] == Tag(x)
  }

  /** What the macros read from a tagged block: its size and flag from
      either tag, FTRP and NEXT_BLKP from the header, and PREV_BLKP of the
      block after it from its footer. */
  lemma TagReads(m: seq<nat>, x: Blk)
    requires Tagged(m, x)
    ensures SizeOf(m[x.bp - 1]) == x.size && SizeOf(m[End(x) - 2]) == x.size
    ensures AllocOf(m[x.bp - 1]) == AllocBit(x) && AllocOf(m[End(x) - 2]) == AllocBit(x)
    ensures x.bp <= |m| && Ftrp(m, x.bp) == End(x) - 2 && NextBlkp(m, x.bp) == End(x)
    ensures 2 <= End(x) && PrevBlkp(m, End(x)) == x.bp
  {
    TagOf(x);
  }

  /** PUT(HDRP(bp), PACK(size, alloc)) and then PUT(FTRP(bp), PACK(size,
      alloc)), FTRP reading the header just written: b's two tags. */
  method WriteTags(lib: MemLib, b: Blk)
    requires 1 <= b.bp && 8 <= b.size && b.size % 8 == 0 && End(b) <= |lib.mem|
    modifies lib
    ensures lib.mem == PutTags(old(lib.mem), b)
    ensures NextBlkp(lib.mem, b.bp) == End(b)
  {
    lib.Put(Hdrp(b.bp), Pack(b.size, AllocBit(b)));
    lib.Put(Ftrp(lib.mem, b.bp), Pack(b.size, AllocBit(b)));
  }

  /** m2 differs from m1 at most in words from..to-1. */
  ghost predicate AgreeOutside(m1: seq<nat>, m2: seq<nat>, from: int, to: int)
  {
    && |m2| == |m1|
    && forall p :: 0 <= p < |m1| && (p < from || to <= p) ==> m2[p] == m1[p]
  }

  // ---------------------------------------------------------------------
  // Blocks outside an edited run

  /** A block that an edit leaves alone, with its tags and its successor's
      position unchanged, still fits at its new index. */
  lemma Carry(m: seq<nat>, view: seq<Blk>, m': seq<nat>, view': seq<Blk>, k: nat, i: nat)
    requires k < |view| && i < |view'| && Fits(m, view, k) && view'[i] == view[k]
    requires (i == 0) == (k == 0)
    requires End(view[k]) <= |m'|
    requires m'[view[k].bp - 1] == m[view[k].bp - 1] && m'[End(view[k]) - 2] == m[End(view[k]) - 2]
    requires k + 1 < |view| ==> i + 1 < |view'| && view'[i + 1].bp == view[k + 1].bp
    requires k + 1 == |view| ==> i + 1 == |view'| && |m'| == |m|
    ensures Fits(m', view', i)
  {
  }

  /** Every block before or after a spliced run still fits, when the words
      outside the run are unchanged and the new blocks cover the same words. */
  lemma SpliceFitsOutside(m: seq<nat>, view: seq<Blk>, prologue: nat, lo: nat, hi: nat,
                          mid: seq<Blk>, m': seq<nat>, i: nat)
    requires Layout(m, view, prologue) && 1 <= lo < hi <= |view|
    requires |mid| >= 1 && mid[0].bp == view[lo].bp && End(mid[|mid| - 1]) == End(view[hi - 1])
    requires AgreeOutside(m, m', view[lo].bp - 1, End(view[hi - 1]) - 1)
    requires i < lo || lo + |mid| <= i < |view| - (hi - lo) + |mid|
    ensures Fits(m', Splice(view, lo, hi, mid), i)
  {
    var view' := Splice(view, lo, hi, mid);
    if i < lo {
      assert view'[i] == view[i];
      assert Fits(m, view, i);
      Ordered(m, view, prologue, i, lo);
      if i + 1 < lo {
        assert view'[i + 1] == view[i + 1];
      } else {
        assert view'[i + 1] == mid[0];
      }
      Carry(m, view, m', view', i, i);
    } else {
      var k := i - lo - |mid| + hi;
      assert view'[i] == view[k];
      assert Fits(m, view, k);
      assert Fits(m, view, hi - 1);
      if hi - 1 < k {
        Ordered(m, view, prologue, hi - 1, k);
      }
      if k + 1 < |view| {
        assert view'[i + 1] == view[k + 1];
      }
      Carry(m, view, m', view', k, i);
    }
  }

  /** The allocated blocks outside a spliced run keep their extents. */
  lemma SpliceUntouched(m: seq<nat>, view: seq<Blk>, prologue: nat, lo: nat, hi: nat, m': seq<nat>)
    requires Layout(m, view, prologue) && 1 <= lo < hi <= |view|
    requires AgreeOutside(m, m', view[lo].bp - 1, End(view[hi - 1]) - 1)
    ensures Untouched(m, m', Allocs(view) - Elems(view[lo..hi]))
  {
    forall c | c in Allocs(view) - Elems(view[lo..hi]) ensures SameExtent(m, m', c) {
      var i := InAllocs(view, c);
      assert Fits(m, view, i);
      if i < lo {
        Ordered(m, view, prologue, i, lo);
      } else if i >= hi {
        Ordered(m, view, prologue, hi - 1, i);
      }
    }
  }

  /** A new block of a spliced run is well formed, carries its tags in m'
      and ends where the next new block starts. */
  ghost predicate MidFits(m': seq<nat>, mid: seq<Blk>, t: nat)
    requires t < |mid|
  {
    var b := mid[t];
    && 2 <= b.bp && b.bp % 2 == 0 && b.size % 8 == 0 && MIN_BLOCK <= b.size
    && End(b) <= |m'| && m'[b.bp - 1] == Tag(b) && m'[End(b) - 2] == Tag(b)
    && (t + 1 < |mid| ==> End(b) == mid[t + 1].bp)
  }

  lemma SpliceFitsInside(m: seq<nat>, view: seq<Blk>, prologue: nat, lo: nat, hi: nat,
                         mid: seq<Blk>, m': seq<nat>, i: nat)
    requires Layout(m, view, prologue) && 1 <= lo < hi <= |view|
    requires |mid| >= 1 && End(mid[|mid| - 1]) == End(view[hi - 1])
    requires |m'| == |m|
    requires lo <= i < lo + |mid| && MidFits(m', mid, i - lo)
    ensures Fits(m', Splice(view, lo, hi, mid), i)
  {
    var view' := Splice(view, lo, hi, mid);
    assert view'[i] == mid[i - lo];
    assert Fits(m, view, hi - 1);
    if i + 1 < lo + |mid| {
      assert view'[i + 1] == mid[i + 1 - lo];
    } else if hi < |view| {
      assert view'[i + 1] == view[hi];
    }
  }

  /** Splicing in new blocks that fit, over the same words, keeps the layout. */
  lemma SpliceLayout(m: seq<nat>, view: seq<Blk>, prologue: nat, lo: nat, hi: nat,
                     mid: seq<Blk>, m': seq<nat>)
    requires Layout(m, view, prologue) && 1 <= lo < hi <= |view|
    requires |mid| >= 1 && mid[0].bp == view[lo].bp && End(mid[|mid| - 1]) == End(view[hi - 1])
    requires AgreeOutside(m, m', view[lo].bp - 1, End(view[hi - 1]) - 1)
    requires forall t :: 0 <= t < |mid| ==> MidFits(m', mid, t)
    ensures Layout(m', Splice(view, lo, hi, mid), prologue)
  {
    var view' := Splice(view, lo, hi, mid);
    forall i | 0 <= i < |view'| ensures Fits(m', view', i) {
      if lo <= i < lo + |mid| {
        SpliceFitsInside(m, view, prologue, lo, hi, mid, m', i);
      } else {
        SpliceFitsOutside(m, view, prologue, lo, hi, mid, m', i);
      }
    }
    assert view'[0] == view[0];
    assert Fits(m, view, hi - 1);
    assert Fits(m, view, |view| - 1);
  }

  // ---------------------------------------------------------------------
  // Tag writes

  /** mm_free and the no-split branch of place: the same size, a new flag. */
  lemma Retag(m: seq<nat>, view: seq<Blk>, prologue: nat, j: nat, free: bool)
    requires Layout(m, view, prologue) && 1 <= j < |view|
    ensures Fits(m, view, j)
    ensures var m' := PutTags(m, view[j].(free := free));
      && Layout(m', Retagged(view, j, free), prologue)
      && Untouched(m, m', Allocs(view) - {view[j]})
  {
    var b := view[j].(free := free);
    assert Fits(m, view, j);
    var m' := PutTags(m, b);
    assert MidFits(m', [b], 0);
    SpliceLayout(m, view, prologue, j, j + 1, [b], m');
    SpliceUntouched(m, view, prologue, j, j + 1, m');
    assert Elems(view[j..j + 1]) == {view[j]};
  }

  /** The four tag words of a split land inside the old block, each new
      block carrying its own tags. */
  lemma SplitTags(m: seq<nat>, b: Blk, a: nat)
    requires 2 <= b.bp && b.bp % 2 == 0 && b.size % 8 == 0 && End(b) <= |m|
    requires a % 8 == 0 && MIN_BLOCK <= a && a + MIN_BLOCK <= b.size
    ensures var front := Blk(b.bp, a, false);
      var rest := Blk(b.bp + a / 4, b.size - a, true);
      var m' := PutTags(PutTags(m, front), rest);
      && End(front) == rest.bp && End(rest) == End(b)
      && MidFits(m', [front, rest], 0) && MidFits(m', [front, rest], 1)
      && AgreeOutside(m, m', b.bp - 1, End(b) - 1)
  {
    var front := Blk(b.bp, a, false);
    var rest := Blk(b.bp + a / 4, b.size - a, true);
    Parts(b.size, a);
    EvenEnd(b.bp, a);
    Quarter(a);
    Quarter(b.size - a);
    assert End(front) == rest.bp && End(rest) == End(b);
    var m1 := PutTags(m, front);
    var m' := PutTags(m1, rest);
    assert m1[front.bp - 1] == Tag(front) && m1[End(front) - 2] == Tag(front);
    assert m'[front.bp - 1] == Tag(front) && m'[End(front) - 2] == Tag(front);
  }

  /** place's split of block j into (a, allocated) and (size - a, free). */
  lemma Split(m: seq<nat>, view: seq<Blk>, prologue: nat, j: nat, a: nat)
    requires Layout(m, view, prologue) && 1 <= j < |view|
    requires a % 8 == 0 && MIN_BLOCK <= a && a + MIN_BLOCK <= view[j].size
    ensures Fits(m, view, j)
    ensures var b := view[j];
      var front := Blk(b.bp, a, false);
      var rest := Blk(b.bp + a / 4, b.size - a, true);
      && End(front) == rest.bp && End(rest) == End(b)
      && var m' := PutTags(PutTags(m, front), rest);
      && Layout(m', SplitView(view, j, a), prologue)
      && Untouched(m, m', Allocs(view) - {b})
  {
    var b := view[j];
    assert Fits(m, view, j);
    var front := Blk(b.bp, a, false);
    var rest := Blk(b.bp + a / 4, b.size - a, true);
    var m' := PutTags(PutTags(m, front), rest);
    var mid := [front, rest];
    SplitTags(m, b, a);
    SpliceLayout(m, view, prologue, j, j + 1, mid, m');
    SpliceUntouched(m, view, prologue, j, j + 1, m');
    assert Elems(view[j..j + 1]) == {view[j]};
  }

  /** A run lo..hi-1 merged into one block: the header of the first block
      and the footer of the last are rewritten. */
  lemma Merge(m: seq<nat>, view: seq<Blk>, prologue: nat, lo: nat, hi: nat, free: bool)
    requires Layout(m, view, prologue) && 1 <= lo < hi <= |view|
    ensures Fits(m, view, lo) && Fits(m, view, hi - 1)
    ensures var mb := Merged(view, lo, hi, free);
      && mb.bp == view[lo].bp && End(mb) == End(view[hi - 1]) && MIN_BLOCK <= mb.size
      && var m' := PutTags(m, mb);
      && Layout(m', MergeView(view, lo, hi, free), prologue)
      && Untouched(m, m', Allocs(view) - Elems(view[lo..hi]))
  {
    var mb := Merged(view, lo, hi, free);
    assert Fits(m, view, lo);
    assert Fits(m, view, hi - 1);
    if lo < hi - 1 {
      Ordered(m, view, prologue, lo, hi - 1);
    }
    EvenEnd(view[hi - 1].bp, view[hi - 1].size);
    Span(view[lo].bp, End(view[hi - 1]));
    var m' := PutTags(m, mb);
    assert MidFits(m', [mb], 0);
    SpliceLayout(m, view, prologue, lo, hi, [mb], m');
    SpliceUntouched(m, view, prologue, lo, hi, m');
  }

  /** Blocks lo..hi-1 have sizes that are multiples of 8 and lie end to end. */
  ghost predicate Tiled(view: seq<Blk>, lo: nat, hi: nat)
    requires lo <= hi <= |view|
  {
    forall i :: lo <= i < hi ==> view[i].size % 8 == 0 && (i + 1 < hi ==> End(view[i]) == view[i + 1].bp)
  }

  /** A run of blocks laid end to end spans exactly their sizes together. */
  lemma {:induction false} RunSize(view: seq<Blk>, lo: nat, hi: nat, free: bool)
    requires lo < hi <= |view| && Tiled(view, lo, hi)
    ensures view[lo].bp <= End(view[hi - 1])
    ensures Merged(view, lo, hi, free).size == SumSizes(view[lo..hi])
    decreases hi - lo
  {
    var b := view[hi - 1];
    assert b.size % 8 == 0;
    Quarter(b.size);
    var run := view[lo..hi];
    assert SumSizes(run) == SumSizes(run[..hi - 1 - lo]) + b.size;
    assert run[..hi - 1 - lo] == view[lo..hi - 1];
    if lo + 1 == hi {
      assert run[..0] == [];
    } else {
      RunSize(view, lo, hi - 1, free);
      assert End(view[hi - 2]) == b.bp;
      var span' := End(view[hi - 2]) - view[lo].bp;
      var span := End(b) - view[lo].bp;
      assert span == span' + b.size / 4;
      assert Merged(view, lo, hi, free).size == 4 * span == 4 * span' + b.size;
    }
  }

  /** The merged block is exactly as large as the blocks it absorbs together. */
  lemma MergedSize(m: seq<nat>, view: seq<Blk>, prologue: nat, lo: nat, hi: nat, free: bool)
    requires Layout(m, view, prologue) && lo < hi <= |view|
    ensures Merged(view, lo, hi, free).size == SumSizes(view[lo..hi])
  {
    forall i | lo <= i < hi
      ensures view[i].size % 8 == 0 && (i + 1 < hi ==> End(view[i]) == view[i + 1].bp)
    {
      assert Fits(m, view, i);
    }
    RunSize(view, lo, hi, free);
  }

  /** coalesce writes the footer before the header; for two different words
      the order does not matter. */
  lemma FooterFirst(m: seq<nat>, b: Blk)
    requires 1 <= b.bp && 8 <= b.size && End(b) <= |m|
    ensures m[End(b) - 2 := Tag(b)][b.bp - 1 := Tag(b)] == PutTags(m, b)
  {
  }

  /** The words extend_heap writes over the old epilogue and the grant. */
  function ExtendWrites(m: seq<nat>, grant: seq<nat>): seq<nat>
    requires |m| >= 1 && |grant| >= 2
  {
    var b := Blk(|m|, 4 * |grant|, true);
    PutTags(m + grant, b)[End(b) - 1 := EPILOGUE]
  }

  /** extend_heap's PUTs after sbrk granted the words `grant` at bp: the new
      free block's header (over the old epilogue) and footer, then the new
      epilogue header, found by NEXT_BLKP. */
  method WriteExtension(lib: MemLib, ghost m: seq<nat>, ghost grant: seq<nat>, bp: nat, size: nat)
    requires |m| >= 1 && |grant| >= 2 && lib.mem == m + grant
    requires bp == |m| && size == 4 * |grant| && size % 8 == 0
    modifies lib
    ensures lib.mem == ExtendWrites(m, grant)
  {
    WriteTags(lib, Blk(bp, size, true));
    lib.Put(Hdrp(NextBlkp(lib.mem, bp)), Pack(0, 1));
  }

  /** extend_heap: the old epilogue word becomes the header of a new free
      block over the granted words, whose last word becomes the epilogue. */
  lemma Extend(m: seq<nat>, view: seq<Blk>, prologue: nat, grant: seq<nat>)
    requires Layout(m, view, prologue) && |grant| >= 4 && |grant| % 2 == 0
    ensures var b := Blk(|m|, 4 * |grant|, true);
      var m' := ExtendWrites(m, grant);
      && End(b) == |m| + |grant| == |m'|
      && Layout(m', view + [b], prologue)
      && Untouched(m, m', Allocs(view))
  {
    var b := Blk(|m|, 4 * |grant|, true);
    var m' := ExtendWrites(m, grant);
    var view' := view + [b];
    assert Fits(m, view, |view| - 1);
    EvenEnd(view[|view| - 1].bp, view[|view| - 1].size);
    EvenWords(|grant|);
    assert 4 * |grant| == |grant| * WSIZE;
    assert End(b) == |m| + |grant|;
    assert m'[b.bp - 1] == Tag(b) && m'[End(b) - 2] == Tag(b);
    assert Fits(m', view', |view|);
    forall i | 0 <= i < |view| ensures Fits(m', view', i) {
      KeptBelow(m, view, prologue, m', view', i);
    }
    forall c | c in Allocs(view) ensures SameExtent(m, m', c) {
      var i := InAllocs(view, c);
      KeptBelow(m, view, prologue, m', view', i);
    }
  }

  /** An old block still fits when the heap grows past the old epilogue
      and every word below the old epilogue is kept. */
  lemma KeptBelow(m: seq<nat>, view: seq<Blk>, prologue: nat, m': seq<nat>, view': seq<Blk>, i: nat)
    requires Layout(m, view, prologue) && i < |view| && |m'| > |m|
    requires forall p :: 0 <= p < |m| - 1 ==> m'[p] == m[p]
    requires |view'| == |view| + 1 && view'[..|view|] == view && view'[|view|].bp == |m|
    ensures Fits(m', view', i) && SameExtent(m, m', view[i])
  {
    assert Fits(m, view, i);
    assert view'[i] == view[i];
    if i < |view| - 1 {
      assert view'[i + 1] == view[i + 1];
      Ordered(m, view, prologue, i, |view| - 1);
      assert Fits(m, view, |view| - 1);
    }
  }
}
