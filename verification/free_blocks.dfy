/** Which blocks are free, which are allocated, and the coalescing
    discipline: after every public operation no two free blocks are
    neighbours, so each free run is a single block. */
module FreeBlocks {
  import opened BoundaryTags
  import opened HeapLayout
  import opened HeapEdits
  import opened Memory

  /** The free ordinary blocks. */
  ghost function Frees(view: seq<Blk>): set<Blk>
  {
    set i | 1 <= i < |view| && view[i].free :: view[i]
  }

  ghost function FreesOf(s: seq<Blk>): set<Blk>
  {
    set i | 0 <= i < |s| && s[i].free :: s[i]
  }

  ghost function AllocsOf(s: seq<Blk>): set<Blk>
  {
    set i | 0 <= i < |s| && !s[i].free :: s[i]
  }

  lemma SpliceFreesSub(view: seq<Blk>, lo: nat, hi: nat, mid: seq<Blk>)
    requires 1 <= lo <= hi <= |view| && StrictBps(view)
    ensures Frees(Splice(view, lo, hi, mid)) <= Frees(view) - Elems(view[lo..hi]) + FreesOf(mid)
  {
    var view' := Splice(view, lo, hi, mid);
    forall x | x in Frees(view') ensures x in Frees(view) - Elems(view[lo..hi]) + FreesOf(mid) {
      var i :| 1 <= i < |view'| && view'[i].free && view'[i] == x;
      if i < lo {
        assert view'[i] == view[i];
        forall t | 0 <= t < hi - lo ensures view[lo..hi][t] != x {
          assert view[lo..hi][t] == view[lo + t];
        }
      } else if i < lo + |mid| {
        assert view'[i] == mid[i - lo];
      } else {
        var k := i - lo - |mid| + hi;
        assert view'[i] == view[k];
        forall t | 0 <= t < hi - lo ensures view[lo..hi][t] != x {
          assert view[lo..hi][t] == view[lo + t];
        }
      }
    }
  }

  lemma SpliceFreesSup(view: seq<Blk>, lo: nat, hi: nat, mid: seq<Blk>)
    requires 1 <= lo <= hi <= |view|
    ensures Frees(view) - Elems(view[lo..hi]) + FreesOf(mid) <= Frees(Splice(view, lo, hi, mid))
  {
    var view' := Splice(view, lo, hi, mid);
    forall x | x in Frees(view) - Elems(view[lo..hi]) + FreesOf(mid) ensures x in Frees(view') {
      if x in FreesOf(mid) {
        var t :| 0 <= t < |mid| && mid[t].free && mid[t] == x;
        assert view'[lo + t] == mid[t];
      } else {
        var i :| 1 <= i < |view| && view[i].free && view[i] == x;
        if i < lo {
          assert view'[i] == view[i];
        } else if i >= hi {
          assert view'[i - hi + lo + |mid|] == view[i];
        }
      }
    }
  }

  /** Replacing a run after the prologue changes the free blocks by exactly
      the run's blocks out and the new free blocks in. */
  lemma SpliceFrees(view: seq<Blk>, lo: nat, hi: nat, mid: seq<Blk>)
    requires 1 <= lo <= hi <= |view| && StrictBps(view)
    ensures Frees(Splice(view, lo, hi, mid)) == Frees(view) - Elems(view[lo..hi]) + FreesOf(mid)
  {
    SpliceFreesSub(view, lo, hi, mid);
    SpliceFreesSup(view, lo, hi, mid);
  }

  lemma SpliceAllocsSub(view: seq<Blk>, lo: nat, hi: nat, mid: seq<Blk>)
    requires 1 <= lo <= hi <= |view| && StrictBps(view)
    ensures Allocs(Splice(view, lo, hi, mid)) <= Allocs(view) - Elems(view[lo..hi]) + AllocsOf(mid)
  {
    var view' := Splice(view, lo, hi, mid);
    forall x | x in Allocs(view') ensures x in Allocs(view) - Elems(view[lo..hi]) + AllocsOf(mid) {
      var i :| 1 <= i < |view'| && !view'[i].free && view'[i] == x;
      if i < lo {
        assert view'[i] == view[i];
        forall t | 0 <= t < hi - lo ensures view[lo..hi][t] != x {
          assert view[lo..hi][t] == view[lo + t];
        }
      } else if i < lo + |mid| {
        assert view'[i] == mid[i - lo];
      } else {
        var k := i - lo - |mid| + hi;
        assert view'[i] == view[k];
        forall t | 0 <= t < hi - lo ensures view[lo..hi][t] != x {
          assert view[lo..hi][t] == view[lo + t];
        }
      }
    }
  }

  lemma SpliceAllocsSup(view: seq<Blk>, lo: nat, hi: nat, mid: seq<Blk>)
    requires 1 <= lo <= hi <= |view|
    ensures Allocs(view) - Elems(view[lo..hi]) + AllocsOf(mid) <= Allocs(Splice(view, lo, hi, mid))
  {
    var view' := Splice(view, lo, hi, mid);
    forall x | x in Allocs(view) - Elems(view[lo..hi]) + AllocsOf(mid) ensures x in Allocs(view') {
      if x in AllocsOf(mid) {
        var t :| 0 <= t < |mid| && !mid[t].free && mid[t] == x;
        assert view'[lo + t] == mid[t];
      } else {
        var i :| 1 <= i < |view| && !view[i].free && view[i] == x;
        if i < lo {
          assert view'[i] == view[i];
        } else if i >= hi {
          assert view'[i - hi + lo + |mid|] == view[i];
        }
      }
    }
  }

  /** Replacing a run after the prologue changes the allocated blocks by
      exactly the run's blocks out and the new allocated blocks in. */
  lemma SpliceAllocs(view: seq<Blk>, lo: nat, hi: nat, mid: seq<Blk>)
    requires 1 <= lo <= hi <= |view| && StrictBps(view)
    ensures Allocs(Splice(view, lo, hi, mid)) == Allocs(view) - Elems(view[lo..hi]) + AllocsOf(mid)
  {
    SpliceAllocsSub(view, lo, hi, mid);
    SpliceAllocsSup(view, lo, hi, mid);
  }

  /** mm_free's retag takes exactly the freed block out of the allocated set. */
  lemma RetaggedAllocs(view: seq<Blk>, k: nat)
    requires 1 <= k < |view| && !view[k].free && StrictBps(view)
    ensures Allocs(Retagged(view, k, true)) == Allocs(view) - {view[k]}
  {
    SpliceAllocs(view, k, k + 1, [view[k].(free := true)]);
    assert Elems(view[k..k + 1]) == {view[k]};
    assert AllocsOf([view[k].(free := true)]) == {};
  }

  /** A block appended free adds nothing to the allocated set. */
  lemma AppendAllocs(view: seq<Blk>, b: Blk)
    requires b.free
    ensures Allocs(view + [b]) == Allocs(view)
  {
    var view' := view + [b];
    forall x | x in Allocs(view) ensures x in Allocs(view') {
      var i :| 1 <= i < |view| && !view[i].free && view[i] == x;
      assert view'[i] == x;
    }
  }

  /** When the new view still has distinct payloads, the new free blocks
      are none of the free blocks kept from the old view. */
  lemma SpliceFreesDisjoint(view: seq<Blk>, lo: nat, hi: nat, mid: seq<Blk>)
    requires 1 <= lo <= hi <= |view| && StrictBps(Splice(view, lo, hi, mid))
    ensures (Frees(view) - Elems(view[lo..hi])) * FreesOf(mid) == {}
  {
    var view' := Splice(view, lo, hi, mid);
    forall x | x in FreesOf(mid) && x in Frees(view) ensures x in Elems(view[lo..hi]) {
      var t :| 0 <= t < |mid| && mid[t].free && mid[t] == x;
      assert view'[lo + t] == x;
      forall i | 1 <= i < |view| && (i < lo || hi <= i) ensures view[i] != x {
        if i < lo {
          assert view'[i] == view[i];
        } else {
          assert view'[i - hi + lo + |mid|] == view[i];
        }
      }
      var i :| 1 <= i < |view| && view[i].free && view[i] == x;
      assert x == view[lo..hi][i - lo];
    }
  }

  lemma FreesOfOne(a: Blk)
    ensures FreesOf([a]) == if a.free then {a} else {}
  {
    if a.free {
      assert [a][0] == a;
    }
  }

  lemma FreesOfTwo(a: Blk, b: Blk)
    ensures FreesOf([a, b]) == (if a.free then {a} else {}) + (if b.free then {b} else {})
  {
    var s := [a, b];
    assert s[0] == a && s[1] == b;
  }

  /** Growing the heap adds the new block to the free blocks. */
  lemma AppendFrees(view: seq<Blk>, b: Blk)
    requires |view| >= 1 && b.free
    ensures Frees(view + [b]) == Frees(view) + {b}
  {
    var view' := view + [b];
    assert view'[|view|] == b;
    forall x | x in Frees(view) ensures x in Frees(view') {
      var i :| 1 <= i < |view| && view[i].free && view[i] == x;
      assert view'[i] == x;
    }
  }

  /** mm_free's retag adds the freed block, which was not free before. */
  lemma RetaggedFrees(view: seq<Blk>, k: nat)
    requires 1 <= k < |view| && !view[k].free && StrictBps(view)
    ensures var nb := view[k].(free := true);
      && Retagged(view, k, true)[k] == nb && nb !in Frees(view)
      && Frees(Retagged(view, k, true)) == Frees(view) + {nb}
  {
    var nb := view[k].(free := true);
    SpliceFrees(view, k, k + 1, [nb]);
    assert Elems(view[k..k + 1]) == {view[k]};
    FreesOfOne(nb);
    forall i | 1 <= i < |view| && view[i].free ensures view[i] != nb {
      assert view[i].bp != view[k].bp;
    }
  }

  // ---------------------------------------------------------------------
  // place

  /** The block place hands out: the front of a split, or the whole block. */
  function PlacedBlock(view: seq<Blk>, j: nat, asize: nat): Blk
    requires j < |view| && asize <= view[j].size
  {
    var b := view[j];
    Blk(b.bp, if b.size - asize >= MIN_BLOCK then asize else b.size, false)
  }

  /** The view after place(view[j].bp, asize): split exactly when the
      remainder could hold a block of its own, else allocate it whole. */
  function Placed(view: seq<Blk>, j: nat, asize: nat): seq<Blk>
    requires j < |view| && asize <= view[j].size
  {
    if view[j].size - asize >= MIN_BLOCK then SplitView(view, j, asize)
    else Retagged(view, j, false)
  }

  /** place adds exactly one allocated block, new, at the chosen payload
      and at least as large as asked for; the allocated blocks stay. */
  lemma PlacedAllocs(view: seq<Blk>, j: nat, asize: nat)
    requires 1 <= j < |view| && view[j].free && asize <= view[j].size && StrictBps(view)
    ensures var nb := PlacedBlock(view, j, asize);
      && nb.bp == view[j].bp && asize <= nb.size && nb !in Allocs(view)
      && Allocs(Placed(view, j, asize)) == Allocs(view) + {nb}
  {
    var b := view[j];
    var nb := PlacedBlock(view, j, asize);
    var mid := if b.size - asize >= MIN_BLOCK then [nb, Blk(b.bp + asize / 4, b.size - asize, true)] else [nb];
    SpliceAllocs(view, j, j + 1, mid);
    assert Elems(view[j..j + 1]) == {b};
    assert AllocsOf(mid) == {nb};
  }

  /** The tag words place writes into the free block b: front header and
      footer, then remainder header and footer; or both tags of b. */
  ghost function PlaceWrites(m: seq<nat>, b: Blk, asize: nat): seq<nat>
    requires 1 <= b.bp && b.size % 8 == 0 && End(b) <= |m|
    requires asize % 8 == 0 && MIN_BLOCK <= asize <= b.size
  {
    if b.size - asize >= MIN_BLOCK then
      Parts(b.size, asize);
      PutTags(PutTags(m, Blk(b.bp, asize, false)), Blk(b.bp + asize / 4, b.size - asize, true))
    else
      PutTags(m, b.(free := false))
  }

  /** The PUTs of place on the free block b, whose header holds bsize: the
      two tags of an allocated front of asize bytes and, found by NEXT_BLKP,
      the two tags of a free remainder; or, when the remainder would be
      under 16 bytes, the tags of the whole block, now allocated. */
  method PlaceTags(lib: MemLib, ghost b: Blk, bp: nat, bsize: nat, asize: nat)
    requires b.bp == bp && bsize == b.size && 2 <= bp && bp % 2 == 0
    requires bsize % 8 == 0 && End(b) <= |lib.mem|
    requires asize % 8 == 0 && MIN_BLOCK <= asize <= bsize
    modifies lib
    ensures lib.mem == PlaceWrites(old(lib.mem), b, asize)
  {
    ghost var m0 := lib.mem;
    if bsize - asize >= 2 * DSIZE {
      ghost var front := Blk(bp, asize, false);
      ghost var rest := Blk(bp + asize / 4, bsize - asize, true);
      Parts(bsize, asize);
      assert PlaceWrites(m0, b, asize) == PutTags(PutTags(m0, front), rest);
      WriteTags(lib, Blk(bp, asize, false));
      ghost var m1 := lib.mem;
      var next := NextBlkp(lib.mem, bp);
      assert next == rest.bp;
      WriteTags(lib, Blk(next, bsize - asize, true));
      assert lib.mem == PutTags(PutTags(m0, front), rest);
    } else {
      assert b.(free := false) == Blk(bp, bsize, false);
      WriteTags(lib, Blk(bp, bsize, false));
      assert lib.mem == PlaceWrites(m0, b, asize);
    }
  }

  /** place's tag writes produce the placed view and touch no allocated block. */
  lemma PlaceLayout(m: seq<nat>, view: seq<Blk>, prologue: nat, j: nat, asize: nat)
    requires Layout(m, view, prologue) && 1 <= j < |view| && view[j].free
    requires asize % 8 == 0 && MIN_BLOCK <= asize <= view[j].size
    ensures Fits(m, view, j)
    ensures var m' := PlaceWrites(m, view[j], asize);
      && |m'| == |m| && Layout(m', Placed(view, j, asize), prologue)
      && Untouched(m, m', Allocs(view))
  {
    assert Fits(m, view, j);
    assert Allocs(view) - {view[j]} == Allocs(view);
    if view[j].size - asize >= MIN_BLOCK {
      Split(m, view, prologue, j, asize);
    } else {
      Retag(m, view, prologue, j, false);
    }
  }

  /** place takes block j out of the free blocks and, on a split, adds the
      free remainder, a block that was not free before. */
  lemma PlacedFrees(view: seq<Blk>, j: nat, asize: nat)
    requires 1 <= j < |view| && view[j].free && asize <= view[j].size
    requires StrictBps(view) && StrictBps(Placed(view, j, asize))
    ensures var b := view[j];
      var rest := Blk(b.bp + asize / 4, b.size - asize, true);
      && (b.size - asize >= MIN_BLOCK ==>
            && Placed(view, j, asize)[j + 1] == rest
            && rest !in Frees(view) - {b}
            && Frees(Placed(view, j, asize)) == Frees(view) - {b} + {rest})
      && (b.size - asize < MIN_BLOCK ==> Frees(Placed(view, j, asize)) == Frees(view) - {b})
  {
    var b := view[j];
    assert Elems(view[j..j + 1]) == {b} by {
      assert view[j..j + 1] == [b];
    }
    if b.size - asize >= MIN_BLOCK {
      SplitFrees(view, j, asize);
    } else {
      SpliceFrees(view, j, j + 1, [b.(free := false)]);
      FreesOfOne(b.(free := false));
    }
  }

  lemma SplitFrees(view: seq<Blk>, j: nat, asize: nat)
    requires 1 <= j < |view| && asize <= view[j].size && Elems(view[j..j + 1]) == {view[j]}
    requires StrictBps(view) && StrictBps(SplitView(view, j, asize))
    ensures var b := view[j];
      var rest := Blk(b.bp + asize / 4, b.size - asize, true);
      && SplitView(view, j, asize)[j + 1] == rest
      && rest !in Frees(view) - {b}
      && Frees(SplitView(view, j, asize)) == Frees(view) - {b} + {rest}
  {
    var b := view[j];
    var rest := Blk(b.bp + asize / 4, b.size - asize, true);
    var mid := [Blk(b.bp, asize, false), rest];
    assert SplitView(view, j, asize) == Splice(view, j, j + 1, mid);
    SpliceFrees(view, j, j + 1, mid);
    FreesOfTwo(Blk(b.bp, asize, false), rest);
    assert FreesOf(mid) == {rest};
    SpliceFreesDisjoint(view, j, j + 1, mid);
    assert (Frees(view) - {b}) * {rest} == {};
  }

  // ---------------------------------------------------------------------
  // coalesce

  /** Coalescing merges free blocks only: the allocated set stays. */
  lemma CoalescedAllocs(view: seq<Blk>, k: nat)
    requires 1 <= k < |view| && view[k].free && !view[0].free && StrictBps(view)
    ensures Allocs(Coalesced(view, k)) == Allocs(view)
  {
    var lo := CoalesceLo(view, k);
    var hi := CoalesceHi(view, k);
    if !(lo == k && hi == k + 1) {
      var mb := Merged(view, lo, hi, true);
      SpliceAllocs(view, lo, hi, [mb]);
      assert AllocsOf([mb]) == {};
      forall x | x in Elems(view[lo..hi]) ensures x !in Allocs(view) {
        var t :| 0 <= t < hi - lo && view[lo..hi][t] == x;
        assert x == view[lo + t] && x.free;
      }
    }
  }

  /** coalesce's tag writes (none when both neighbours are allocated)
      produce the coalesced view and touch no allocated block. */
  lemma CoalesceLayout(m: seq<nat>, view: seq<Blk>, prologue: nat, k: nat)
    requires Layout(m, view, prologue) && 1 <= k < |view| && view[k].free
    ensures var mb := Merged(view, CoalesceLo(view, k), CoalesceHi(view, k), true);
      && 1 <= mb.bp && 8 <= mb.size && End(mb) <= |m|
      && mb.bp == view[CoalesceLo(view, k)].bp && End(mb) == End(view[CoalesceHi(view, k) - 1])
      && var m' := if Coalesced(view, k) == view then m else PutTags(m, mb);
      && Layout(m', Coalesced(view, k), prologue) && Untouched(m, m', Allocs(view))
  {
    var lo := CoalesceLo(view, k);
    var hi := CoalesceHi(view, k);
    Merge(m, view, prologue, lo, hi, true);
    assert Fits(m, view, k);
    if lo == k && hi == k + 1 {
      assert Merged(view, lo, hi, true) == view[k];
      UntouchedSelf(m, view, prologue);
    } else {
      assert Coalesced(view, k) != view by {
        assert |Coalesced(view, k)| < |view|;
      }
      forall x | x in Elems(view[lo..hi]) ensures x !in Allocs(view) {
        var t :| 0 <= t < hi - lo && view[lo..hi][t] == x;
        assert x == view[lo + t];
      }
      assert Allocs(view) - Elems(view[lo..hi]) == Allocs(view);
    }
  }

  /** The run coalesce merges: block k and whichever neighbours are free. */
  lemma CoalesceRun(view: seq<Blk>, k: nat)
    requires 1 <= k < |view|
    ensures Elems(view[CoalesceLo(view, k)..CoalesceHi(view, k)])
      == {view[k]} + (if view[k - 1].free then {view[k - 1]} else {})
         + (if CoalesceHi(view, k) == k + 2 then {view[k + 1]} else {})
  {
    var lo := CoalesceLo(view, k);
    var hi := CoalesceHi(view, k);
    if hi == k + 2 {
      if lo == k - 1 {
        assert view[lo..hi] == [view[k - 1], view[k], view[k + 1]];
      } else {
        assert view[lo..hi] == [view[k], view[k + 1]];
      }
    } else if lo == k - 1 {
      assert view[lo..hi] == [view[k - 1], view[k]];
    } else {
      assert view[lo..hi] == [view[k]];
    }
  }

  /** A run of one block holds just that block. */
  lemma ElemsOne(view: seq<Blk>, k: nat)
    requires k < |view|
    ensures Elems(view[k..k + 1]) == {view[k]}
  {
    var s := view[k..k + 1];
    assert |s| == 1 && s[0] == view[k];
    forall x | x in Elems(s) ensures x == view[k] {
      var i :| 0 <= i < |s| && s[i] == x;
    }
  }

  /** The merged block (block k itself when nothing merges) replaces the
      run among the free blocks and is none of the others. */
  lemma CoalescedFrees(view: seq<Blk>, k: nat)
    requires 1 <= k < |view| && view[k].free && !view[0].free
    requires StrictBps(view) && StrictBps(Coalesced(view, k))
    ensures var lo := CoalesceLo(view, k);
      var hi := CoalesceHi(view, k);
      && lo < |Coalesced(view, k)|
      && var nb := Coalesced(view, k)[lo];
      && nb.free && nb !in Frees(view) - Elems(view[lo..hi])
      && Frees(Coalesced(view, k)) == Frees(view) - Elems(view[lo..hi]) + {nb}
  {
    var lo := CoalesceLo(view, k);
    var hi := CoalesceHi(view, k);
    if lo == k && hi == k + 1 {
      ElemsOne(view, k);
      assert view[k] in Frees(view);
    } else {
      var mb := Merged(view, lo, hi, true);
      SpliceFrees(view, lo, hi, [mb]);
      FreesOfOne(mb);
      SpliceFreesDisjoint(view, lo, hi, [mb]);
      assert Coalesced(view, k)[lo] == mb;
    }
  }

  /** coalesce's three reads on the free block k at bp: the allocation bit
      of the previous block's footer, of the next block's header (the
      epilogue's when k is last) and bp's own size.  Nothing merges exactly
      when both bits are 1. */
  method NeighbourTags(lib: MemLib, ghost view: seq<Blk>, ghost prologue: nat, ghost k: nat, bp: nat)
    returns (prevAlloc: nat, nextAlloc: nat, size: nat)
    requires Layout(lib.mem, view, prologue) && 1 <= k < |view| && view[k].bp == bp && view[k].free
    ensures size == view[k].size
    ensures prevAlloc == (if view[k - 1].free then 0 else 1)
    ensures nextAlloc == (if k + 1 < |view| && view[k + 1].free then 0 else 1)
    ensures (prevAlloc == 1 && nextAlloc == 1) == (CoalesceLo(view, k) == k && CoalesceHi(view, k) == k + 1)
  {
    Neighbours(lib.mem, view, prologue, k);
    var last := k + 1 == |view|;
    ghost var c := if k + 1 < |view| then view[k + 1] else view[k];
    assert last ==> End(view[k]) == |lib.mem| && lib.mem[|lib.mem| - 1] == EPILOGUE by {
      assert Fits(lib.mem, view, k);
    }
    prevAlloc, nextAlloc, size := ReadNeighbours(lib, view[k - 1], view[k], c, last, bp);
  }

  /** The reads of coalesce around b at bp, preceded by a and followed by c
      or, when b is last, by the epilogue header. */
  method ReadNeighbours(lib: MemLib, ghost a: Blk, ghost b: Blk, ghost c: Blk, ghost last: bool, bp: nat)
    returns (prevAlloc: nat, nextAlloc: nat, size: nat)
    requires Tagged(lib.mem, a) && Tagged(lib.mem, b) && End(a) == b.bp && b.bp == bp
    requires last ==> End(b) == |lib.mem| && lib.mem[|lib.mem| - 1] == EPILOGUE
    requires !last ==> Tagged(lib.mem, c) && End(b) == c.bp
    ensures size == b.size && prevAlloc == AllocBit(a)
    ensures nextAlloc == if last then 1 else AllocBit(c)
  {
    TagReads(lib.mem, a);
    TagReads(lib.mem, b);
    if !last {
      TagReads(lib.mem, c);
    }
    assert SizeOf(EPILOGUE) == 0 && AllocOf(EPILOGUE) == 1;
    prevAlloc := AllocOf(lib.Get(Ftrp(lib.mem, PrevBlkp(lib.mem, bp))));
    nextAlloc := AllocOf(lib.Get(Hdrp(NextBlkp(lib.mem, bp))));
    size := SizeOf(lib.Get(Hdrp(bp)));
  }

  /** mm_free's PUTs on the allocated block b at bp: its header and footer
      keep the size read from the header and get the flag 0. */
  method FreeTags(lib: MemLib, ghost b: Blk, bp: nat)
    requires Tagged(lib.mem, b) && b.bp == bp
    modifies lib
    ensures lib.mem == PutTags(old(lib.mem), b.(free := true))
  {
    TagReads(lib.mem, b);
    var size := SizeOf(lib.Get(Hdrp(bp)));
    assert b.(free := true) == Blk(bp, size, true);
    WriteTags(lib, Blk(bp, size, true));
  }

  /** The free block coalesce makes of b and, when they are free, its
      neighbours a (before) and c (after). */
  function Absorbed(a: Blk, b: Blk, c: Blk, prevFree: bool, nextFree: bool): Blk
  {
    Blk(if prevFree then a.bp else b.bp,
        (if prevFree then a.size else 0) + b.size + (if nextFree then c.size else 0), true)
  }

  /** coalesce's case "previous allocated, next free" on the free block b at
      bp followed by the free block c: the size grows by c's, read from its
      header, and the footer of c and then the header of b are rewritten. */
  method MergeNext(lib: MemLib, ghost b: Blk, ghost c: Blk, bp: nat, size: nat)
    requires Tagged(lib.mem, b) && Tagged(lib.mem, c) && End(b) == c.bp && b.bp == bp && size == b.size
    modifies lib
    ensures var mb := Absorbed(b, b, c, false, true);
      && 1 <= mb.bp && 8 <= mb.size && End(mb) == End(c) <= |old(lib.mem)|
      && lib.mem == PutTags(old(lib.mem), mb)
  {
    ghost var m0: seq<nat> := lib.mem;
    ghost var mb := Absorbed(b, b, c, false, true);
    NextNeighbour(m0, b, c);
    var total := size + SizeOf(lib.Get(Hdrp(NextBlkp(lib.mem, bp))));
    assert total == mb.size;
    lib.Put(Ftrp(lib.mem, NextBlkp(lib.mem, bp)), Pack(total, 0));
    lib.Put(Hdrp(bp), Pack(total, 0));
    assert lib.mem == m0[End(mb) - 2 := Tag(mb)][mb.bp - 1 := Tag(mb)];
  }

  /** coalesce's case "previous free, next allocated" on the free block b at
      bp preceded by the free block a: the size grows by a's, read from its
      header, b's footer is rewritten, and then the header of a, which is
      returned. */
  method MergePrev(lib: MemLib, ghost a: Blk, ghost b: Blk, bp: nat, size: nat) returns (r: nat)
    requires Tagged(lib.mem, a) && Tagged(lib.mem, b) && End(a) == b.bp && b.bp == bp && size == b.size
    modifies lib
    ensures var mb := Absorbed(a, b, b, true, false);
      && r == a.bp && 1 <= mb.bp && 8 <= mb.size && End(mb) == End(b) <= |old(lib.mem)|
      && lib.mem == PutTags(old(lib.mem), mb)
  {
    ghost var m0: seq<nat> := lib.mem;
    ghost var mb := Absorbed(a, b, b, true, false);
    PrevNeighbour(m0, a, b);
    var total := size + SizeOf(lib.Get(Hdrp(PrevBlkp(lib.mem, bp))));
    assert total == mb.size;
    lib.Put(Ftrp(lib.mem, bp), Pack(total, 0));
    assert lib.mem[bp - 2] == m0[End(a) - 2];
    r := PrevBlkp(lib.mem, bp);
    lib.Put(Hdrp(r), Pack(total, 0));
    assert lib.mem == m0[End(mb) - 2 := Tag(mb)][mb.bp - 1 := Tag(mb)];
  }

  /** coalesce's case "both free" on the free block b at bp between the free
      blocks a and c: the size grows by a's (from its header) and c's (from
      its footer), the footer of c is rewritten and then the header of a,
      which is returned. */
  method MergeBoth(lib: MemLib, ghost a: Blk, ghost b: Blk, ghost c: Blk, bp: nat, size: nat) returns (r: nat)
    requires Tagged(lib.mem, a) && Tagged(lib.mem, b) && Tagged(lib.mem, c)
    requires End(a) == b.bp && End(b) == c.bp && b.bp == bp && size == b.size
    modifies lib
    ensures var mb := Absorbed(a, b, c, true, true);
      && r == a.bp && 1 <= mb.bp && 8 <= mb.size && End(mb) == End(c) <= |old(lib.mem)|
      && lib.mem == PutTags(old(lib.mem), mb)
  {
    ghost var m0: seq<nat> := lib.mem;
    ghost var mb := Absorbed(a, b, c, true, true);
    BothNeighbours(m0, a, b, c);
    var total := size + SizeOf(lib.Get(Hdrp(PrevBlkp(lib.mem, bp))))
                      + SizeOf(lib.Get(Ftrp(lib.mem, NextBlkp(lib.mem, bp))));
    assert total == mb.size;
    lib.Put(Ftrp(lib.mem, NextBlkp(lib.mem, bp)), Pack(total, 0));
    assert lib.mem == m0[End(mb) - 2 := Tag(mb)];
    assert lib.mem[bp - 2] == m0[End(a) - 2];
    r := PrevBlkp(lib.mem, bp);
    assert r == a.bp;
    lib.Put(Hdrp(r), Pack(total, 0));
  }

  /** What the next-free case of coalesce reads around b: NEXT_BLKP finds
      c and its header gives c's size; the merged block's tags may be
      written footer first. */
  lemma NextNeighbour(m: seq<nat>, b: Blk, c: Blk)
    requires Tagged(m, b) && Tagged(m, c) && End(b) == c.bp
    ensures var mb := Absorbed(b, b, c, false, true);
      && 1 <= mb.bp && 8 <= mb.size && mb.size % 8 == 0 && End(mb) == End(c) <= |m|
      && NextBlkp(m, b.bp) == c.bp && SizeOf(m[c.bp - 1]) == c.size && Ftrp(m, c.bp) == End(c) - 2
      && m[End(mb) - 2 := Tag(mb)][mb.bp - 1 := Tag(mb)] == PutTags(m, mb)
  {
    var mb := Absorbed(b, b, c, false, true);
    TagReads(m, b);
    TagReads(m, c);
    SumAligned(b.size, c.size);
    FooterFirst(m, mb);
  }

  /** What the previous-free case of coalesce reads around b: PREV_BLKP
      finds a and its header gives a's size; the merged block's tags may be
      written footer first. */
  lemma PrevNeighbour(m: seq<nat>, a: Blk, b: Blk)
    requires Tagged(m, a) && Tagged(m, b) && End(a) == b.bp
    ensures var mb := Absorbed(a, b, b, true, false);
      && 1 <= mb.bp && 8 <= mb.size && mb.size % 8 == 0 && End(mb) == End(b) <= |m|
      && PrevBlkp(m, b.bp) == a.bp && SizeOf(m[a.bp - 1]) == a.size && Ftrp(m, b.bp) == End(b) - 2
      && m[End(mb) - 2 := Tag(mb)][mb.bp - 1 := Tag(mb)] == PutTags(m, mb)
  {
    var mb := Absorbed(a, b, b, true, false);
    TagReads(m, a);
    TagReads(m, b);
    SumAligned(a.size, b.size);
    FooterFirst(m, mb);
  }

  /** What the both-free case of coalesce reads around b: PREV_BLKP finds
      a, NEXT_BLKP finds c, the sizes come from a's header and c's footer,
      and the merged block's tags may be written footer first. */
  lemma BothNeighbours(m: seq<nat>, a: Blk, b: Blk, c: Blk)
    requires Tagged(m, a) && Tagged(m, b) && Tagged(m, c) && End(a) == b.bp && End(b) == c.bp
    ensures var mb := Absorbed(a, b, c, true, true);
      && 1 <= mb.bp && 8 <= mb.size && mb.size % 8 == 0 && End(mb) == End(c) <= |m|
      && PrevBlkp(m, b.bp) == a.bp && SizeOf(m[a.bp - 1]) == a.size
      && NextBlkp(m, b.bp) == c.bp && Ftrp(m, c.bp) == End(c) - 2 && SizeOf(m[End(c) - 2]) == c.size
      && m[End(mb) - 2 := Tag(mb)][mb.bp - 1 := Tag(mb)] == PutTags(m, mb)
  {
    var mb := Absorbed(a, b, c, true, true);
    TagReads(m, a);
    TagReads(m, b);
    TagReads(m, c);
    SumAligned(a.size, b.size);
    SumAligned(a.size + b.size, c.size);
    FooterFirst(m, mb);
  }

  /** The three merging cases of coalesce on the free block k at bp, chosen
      by the allocation bits read from its neighbours: the tags of the
      merged run are written and its payload returned. */
  method MergeAround(lib: MemLib, ghost view: seq<Blk>, ghost prologue: nat, ghost k: nat,
                     bp: nat, prevAlloc: nat, nextAlloc: nat, size: nat) returns (r: nat)
    requires Layout(lib.mem, view, prologue) && 1 <= k < |view| && view[k].bp == bp && view[k].free
    requires size == view[k].size
    requires prevAlloc == (if view[k - 1].free then 0 else 1)
    requires nextAlloc == (if k + 1 < |view| && view[k + 1].free then 0 else 1)
    requires prevAlloc == 0 || nextAlloc == 0
    modifies lib
    ensures Coalesced(view, k) != view
    ensures var mb := Merged(view, CoalesceLo(view, k), CoalesceHi(view, k), true);
      && r == mb.bp && 1 <= mb.bp && 8 <= mb.size && End(mb) <= |old(lib.mem)|
      && lib.mem == PutTags(old(lib.mem), mb)
  {
    ghost var c := if k + 1 < |view| then view[k + 1] else view[k];
    assert |Coalesced(view, k)| < |view|;
    Neighbours(lib.mem, view, prologue, k);
    AbsorbedIsMerged(lib.mem, view, prologue, k);
    r := MergeCases(lib, view[k - 1], view[k], c, k + 1 == |view|, bp, prevAlloc, nextAlloc, size);
  }

  /** The dispatch of coalesce on the allocation bits read around b at bp:
      the merged block's tags are written and its payload returned. */
  method MergeCases(lib: MemLib, ghost a: Blk, ghost b: Blk, ghost c: Blk, ghost last: bool,
                    bp: nat, prevAlloc: nat, nextAlloc: nat, size: nat) returns (r: nat)
    requires Tagged(lib.mem, a) && Tagged(lib.mem, b) && End(a) == b.bp && b.bp == bp && size == b.size
    requires !last ==> Tagged(lib.mem, c) && End(b) == c.bp
    requires prevAlloc == AllocBit(a) && nextAlloc == (if last then 1 else AllocBit(c))
    requires prevAlloc == 0 || nextAlloc == 0
    modifies lib
    ensures var mb := Absorbed(a, b, c, prevAlloc == 0, nextAlloc == 0);
      && r == mb.bp && 1 <= mb.bp && 8 <= mb.size && End(mb) <= |old(lib.mem)|
      && lib.mem == PutTags(old(lib.mem), mb)
  {
    if prevAlloc == 1 && nextAlloc == 0 {
      MergeNext(lib, b, c, bp, size);
      r := bp;
    } else if prevAlloc == 0 && nextAlloc == 1 {
      r := MergePrev(lib, a, b, bp, size);
    } else {
      r := MergeBoth(lib, a, b, c, bp, size);
    }
  }

  /** What coalesce finds around the free block k: the tags of blocks k-1,
      k and (when there is one) k+1 in place, and the blocks adjacent. */
  lemma Neighbours(m: seq<nat>, view: seq<Blk>, prologue: nat, k: nat)
    requires Layout(m, view, prologue) && 1 <= k < |view| && view[k].free
    ensures var c := if k + 1 < |view| then view[k + 1] else view[k];
      && Tagged(m, view[k - 1]) && Tagged(m, view[k]) && End(view[k - 1]) == view[k].bp
      && (k + 1 < |view| ==> Tagged(m, c) && End(view[k]) == c.bp)
  {
    assert Fits(m, view, k - 1) && Fits(m, view, k);
    if k + 1 < |view| {
      assert Fits(m, view, k + 1);
    }
  }

  /** When something merges around the free block k, the block made of the
      free ones among k-1, k and k+1 is the merged run of the view. */
  lemma AbsorbedIsMerged(m: seq<nat>, view: seq<Blk>, prologue: nat, k: nat)
    requires Layout(m, view, prologue) && 1 <= k < |view| && view[k].free
    requires Coalesced(view, k) != view
    ensures var c := if k + 1 < |view| then view[k + 1] else view[k];
      Absorbed(view[k - 1], view[k], c, view[k - 1].free, k + 1 < |view| && view[k + 1].free)
      == Merged(view, CoalesceLo(view, k), CoalesceHi(view, k), true)
  {
    var lo := CoalesceLo(view, k);
    var hi := CoalesceHi(view, k);
    MergedSize(m, view, prologue, lo, hi, true);
    if hi - lo == 2 {
      SumSizes2(view, lo);
    } else {
      SumSizes3(view, lo);
    }
  }

  /** The block coalesce returns: free, at the first merged payload, and as
      large as the blocks it absorbed together. */
  lemma CoalescedBlock(m: seq<nat>, view: seq<Blk>, prologue: nat, k: nat)
    requires Layout(m, view, prologue) && 1 <= k < |view| && view[k].free && !view[0].free
    ensures var lo := CoalesceLo(view, k);
      var view' := Coalesced(view, k);
      && lo < |view'| && view'[lo].bp == view[lo].bp && view'[lo].free
      && view'[lo].size == SumSizes(view[lo..CoalesceHi(view, k)])
      && view'[lo].size >= view[k].size
  {
    var lo := CoalesceLo(view, k);
    var hi := CoalesceHi(view, k);
    if lo == k && hi == k + 1 {
      assert view[k..k + 1] == [view[k]] && [view[k]][..0] == [];
    } else {
      MergedSize(m, view, prologue, lo, hi, true);
      if hi - lo == 2 {
        SumSizes2(view, lo);
      } else {
        SumSizes3(view, lo);
      }
    }
  }

  // ---------------------------------------------------------------------
  // No two free neighbours

  ghost predicate Apart(view: seq<Blk>, i: nat)
    requires i + 1 < |view|
  {
    !(view[i].free && view[i + 1].free)
  }

  /** Every pair of neighbours not involving the block at `hole` has at
      least one allocated member; with hole == NULL it is every pair. */
  ghost predicate NoAdjacentFree(view: seq<Blk>, hole: nat)
  {
    forall i :: 0 <= i < |view| - 1 && view[i].bp != hole && view[i + 1].bp != hole ==> Apart(view, i)
  }

  /** The range coalesce merges around block k: the previous block when it
      is free, block k, and the next block when it is free. */
  function CoalesceLo(view: seq<Blk>, k: nat): nat
    requires 1 <= k < |view|
  {
    if view[k - 1].free then k - 1 else k
  }

  function CoalesceHi(view: seq<Blk>, k: nat): nat
    requires 1 <= k < |view|
  {
    if k + 1 < |view| && view[k + 1].free then k + 2 else k + 1
  }

  /** The view after coalesce(view[k].bp). */
  function Coalesced(view: seq<Blk>, k: nat): seq<Blk>
    requires 1 <= k < |view|
  {
    var lo := CoalesceLo(view, k);
    var hi := CoalesceHi(view, k);
    if lo == k && hi == k + 1 then view else MergeView(view, lo, hi, true)
  }

  /** Freeing one block leaves only that block's pairs in question. */
  lemma NoAdjacentAfterFree(view: seq<Blk>, k: nat)
    requires NoAdjacentFree(view, NULL) && 1 <= k < |view| && StrictBps(view)
    requires forall i :: 0 <= i < |view| ==> view[i].bp != NULL
    ensures NoAdjacentFree(Retagged(view, k, true), view[k].bp)
  {
    var view' := Retagged(view, k, true);
    forall i | 0 <= i < |view'| - 1 && view'[i].bp != view[k].bp && view'[i + 1].bp != view[k].bp
      ensures Apart(view', i)
    {
      assert view'[i] == view[i] && view'[i + 1] == view[i + 1];
      assert Apart(view, i);
    }
  }

  /** A block appended by extend_heap is the only one in question. */
  lemma NoAdjacentAfterExtend(view: seq<Blk>, b: Blk)
    requires NoAdjacentFree(view, NULL) && StrictBps(view) && |view| >= 1
    requires forall i :: 0 <= i < |view| ==> view[i].bp != NULL && view[i].bp < b.bp
    ensures NoAdjacentFree(view + [b], b.bp)
  {
    var view' := view + [b];
    forall i | 0 <= i < |view'| - 1 && view'[i].bp != b.bp && view'[i + 1].bp != b.bp
      ensures Apart(view', i)
    {
      assert Apart(view, i);
    }
  }

  /** Coalescing around the only block in question removes the question. */
  lemma NoAdjacentAfterCoalesce(view: seq<Blk>, k: nat)
    requires 1 <= k < |view| && view[k].free && !view[0].free && StrictBps(view)
    requires NoAdjacentFree(view, view[k].bp)
    ensures NoAdjacentFree(Coalesced(view, k), NULL)
  {
    var lo := CoalesceLo(view, k);
    var hi := CoalesceHi(view, k);
    var view' := Coalesced(view, k);
    if lo == k && hi == k + 1 {
      forall i | 0 <= i < |view| - 1 ensures Apart(view, i) {
        if i != k && i + 1 != k {
          assert Apart(view, i);
        }
      }
    } else {
      forall i | 0 <= i < |view'| - 1 ensures Apart(view', i) {
        if i + 1 < lo {
          assert view'[i] == view[i] && view'[i + 1] == view[i + 1];
          assert Apart(view, i);
        } else if i + 1 == lo {
          assert view'[i] == view[i];
          if lo == k - 1 {
            assert Apart(view, i);
          }
        } else if i == lo {
          if hi < |view| {
            assert view'[i + 1] == view[hi];
            if hi == k + 2 {
              assert Apart(view, k + 1);
            }
          }
        } else {
          var j := i - lo - 1 + hi;
          assert view'[i] == view[j] && view'[i + 1] == view[j + 1];
          assert Apart(view, j);
        }
      }
    }
  }

  /** Allocating a whole free block keeps the discipline. */
  lemma NoAdjacentAfterAllocate(view: seq<Blk>, j: nat)
    requires NoAdjacentFree(view, NULL) && 1 <= j < |view|
    requires forall i :: 0 <= i < |view| ==> view[i].bp != NULL
    ensures NoAdjacentFree(Retagged(view, j, false), NULL)
  {
    var view' := Retagged(view, j, false);
    forall i | 0 <= i < |view'| - 1 ensures Apart(view', i) {
      if i != j && i + 1 != j {
        assert view'[i] == view[i] && view'[i + 1] == view[i + 1];
        assert Apart(view, i);
      }
    }
  }

  /** Splitting a free block into an allocated front and a free remainder
      keeps the discipline: the remainder's right neighbour was already
      allocated, since the block itself was free. */
  lemma NoAdjacentAfterSplit(view: seq<Blk>, j: nat, a: nat)
    requires NoAdjacentFree(view, NULL) && 1 <= j < |view| && view[j].free && a <= view[j].size
    requires forall i :: 0 <= i < |view| ==> view[i].bp != NULL
    ensures NoAdjacentFree(SplitView(view, j, a), NULL)
  {
    var view' := SplitView(view, j, a);
    forall i | 0 <= i < |view'| - 1 ensures Apart(view', i) {
      if i + 1 < j {
        assert view'[i] == view[i] && view'[i + 1] == view[i + 1];
        assert Apart(view, i);
      } else if i == j + 1 {
        assert view'[i + 1] == view[j + 1];
        assert Apart(view, j);
      } else if i > j + 1 {
        assert view'[i] == view[i - 1] && view'[i + 1] == view[i];
        assert Apart(view, i - 1);
      }
    }
  }

  /** realloc growing an allocated block over its free right neighbour. */
  lemma NoAdjacentAfterGrow(view: seq<Blk>, k: nat)
    requires NoAdjacentFree(view, NULL) && 1 <= k && k + 1 < |view|
    requires forall i :: 0 <= i < |view| ==> view[i].bp != NULL
    ensures NoAdjacentFree(MergeView(view, k, k + 2, false), NULL)
  {
    var view' := MergeView(view, k, k + 2, false);
    forall i | 0 <= i < |view'| - 1 ensures Apart(view', i) {
      if i + 1 < k {
        assert view'[i] == view[i] && view'[i + 1] == view[i + 1];
        assert Apart(view, i);
      } else if i > k {
        assert view'[i] == view[i + 1] && view'[i + 1] == view[i + 2];
        assert Apart(view, i + 1);
      }
    }
  }
}
