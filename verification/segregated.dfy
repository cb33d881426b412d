/** mm.c: segregated free lists.  The prologue is (LISTLIMIT + 2) words
    long and its payload holds the LISTLIMIT list roots; mm_init makes no
    free block, and every extension is exactly the rounded request.
    Freed and split-off blocks go on the list of their size class, last in
    first out; find_fit scans the classes upwards from the request's own,
    first fit within each list; realloc keeps the block when it is big
    enough, grows it into a free successor when that suffices, and only
    otherwise moves it. */
module SegregatedAllocator {
  import opened BoundaryTags
  import opened HeapLayout
  import opened HeapEdits
  import opened FreeBlocks
  import opened FreeLinks
  import opened SizeClasses
  import opened SegLists
  import opened Outcomes
  import opened Memory

  /** The heap invariant: the layout, no free neighbours except around the
      block at `hole`, and the LISTLIMIT lists holding every free block not
      in `out`. */
  ghost predicate HeapOk(m: seq<nat>, view: seq<Blk>, ls: seq<seq<Blk>>, hole: nat, out: set<Blk>)
  {
    Layout(m, view, PROLOGUE) && NoAdjacentFree(view, hole) && ListsOk(m, view, ls, out)
  }

  /** The lists with b pushed on the list of its class. */
  function Pushed(ls: seq<seq<Blk>>, b: Blk): seq<seq<Blk>>
    requires |ls| == LISTLIMIT
  {
    ls[ClassOf(b.size) := [b] + ls[ClassOf(b.size)]]
  }

  /** The lists with the node t of list c unlinked. */
  function Unlinked(ls: seq<seq<Blk>>, c: nat, t: nat): seq<seq<Blk>>
    requires c < |ls| && t < |ls[c]|
  {
    ls[c := Remove(ls[c], t)]
  }

  /** A free block is on the list of its class. */
  lemma OnItsList(m: seq<nat>, view: seq<Blk>, ls: seq<seq<Blk>>, out: set<Blk>, b: Blk) returns (t: nat)
    requires ListsOk(m, view, ls, out) && b in Frees(view) && b !in out
    ensures t < |ls[ClassOf(b.size)]| && ls[ClassOf(b.size)][t] == b
  {
    var c := ClassOf(b.size);
    assert ClassOk(m, view, ls, c, out);
    assert b in Elems(ls[c]);
    t := IndexOf(ls[c], b);
  }

  /** Every list without the blocks of s. */
  function WithoutAll(ls: seq<seq<Blk>>, s: set<Blk>): (r: seq<seq<Blk>>)
    ensures |r| == |ls| && forall c :: 0 <= c < |ls| ==> r[c] == Without(ls[c], s)
  {
    seq(|ls|, c requires 0 <= c < |ls| => Without(ls[c], s))
  }

  /** Removing blocks that are on no list leaves the lists as they are. */
  lemma WithoutAllNone(ls: seq<seq<Blk>>, s: set<Blk>)
    requires forall c :: 0 <= c < |ls| ==> Elems(ls[c]) !! s
    ensures WithoutAll(ls, s) == ls
  {
    forall c | 0 <= c < |ls| ensures Without(ls[c], s) == ls[c] {
      assert forall i :: 0 <= i < |ls[c]| ==> ls[c][i] in Elems(ls[c]);
      WithoutNone(ls[c], s);
    }
  }

  /** Two rounds of removal are one round with both sets. */
  lemma WithoutAllTwice(ls: seq<seq<Blk>>, a: set<Blk>, b: set<Blk>)
    ensures WithoutAll(WithoutAll(ls, a), b) == WithoutAll(ls, a + b)
  {
    forall c | 0 <= c < |ls| ensures Without(Without(ls[c], a), b) == Without(ls[c], a + b) {
      WithoutTwice(ls[c], a, b);
    }
  }

  /** In lists that keep to their classes, a node of list c is on no other
      list and only once on its own, so removeBlock on it removes exactly
      that block from the lists. */
  lemma UnlinkIsWithout(m: seq<nat>, view: seq<Blk>, ls: seq<seq<Blk>>, out: set<Blk>, c: nat, t: nat)
    requires ListsOk(m, view, ls, out) && c < LISTLIMIT && t < |ls[c]|
    ensures Unlinked(ls, c, t) == WithoutAll(ls, {ls[c][t]})
  {
    var b := ls[c][t];
    assert ClassOk(m, view, ls, c, out);
    assert b in Elems(ls[c]);
    RemoveIsWithout(ls[c], t);
    forall d | 0 <= d < LISTLIMIT && d != c ensures Without(ls[d], {b}) == ls[d] {
      assert ClassOk(m, view, ls, d, out);
      assert forall i :: 0 <= i < |ls[d]| ==> ls[d][i] in Elems(ls[d]);
      WithoutNone(ls[d], {b});
    }
  }

  /** The lists after place on the free block j: the block leaves its list
      and, on a split, the free remainder goes in front of the list of its
      own class. */
  ghost function PlacedLists(view: seq<Blk>, ls: seq<seq<Blk>>, j: nat, asize: nat): seq<seq<Blk>>
    requires j < |view| && asize <= view[j].size && |ls| == LISTLIMIT
  {
    var rest := WithoutAll(ls, {view[j]});
    if view[j].size - asize >= MIN_BLOCK then Pushed(rest, Placed(view, j, asize)[j + 1]) else rest
  }

  /** The lists after coalesce on the free block k: the blocks merged with
      it leave their lists and the merged block goes in front of the list
      of its class. */
  ghost function CoalescedLists(view: seq<Blk>, ls: seq<seq<Blk>>, k: nat): seq<seq<Blk>>
    requires 1 <= k < |view| && |ls| == LISTLIMIT
  {
    var lo := CoalesceLo(view, k);
    Pushed(WithoutAll(ls, Elems(view[lo..CoalesceHi(view, k)])), Coalesced(view, k)[lo])
  }

  /** The one state in which mm_malloc returns NULL for a request of asize
      bytes: no free block is that large, and the region, now `words`
      words long, cannot grow by asize bytes. */
  ghost predicate MallocFails(view: seq<Blk>, words: nat, capacity: nat, asize: nat)
  {
    && (forall b :: b in Frees(view) ==> b.size < asize)
    && words + asize / WSIZE > capacity
  }

  /** The heap after an mm_malloc of asize bytes that succeeded, from view
      and class lists ls with the region `words` words long: find_fit's
      block placed, or else the asize-byte extension coalesced and the
      merged block placed. view' and ls' are the new view and lists. */
  ghost predicate Malloced(view: seq<Blk>, ls: seq<seq<Blk>>, words: nat, asize: nat,
                           view': seq<Blk>, ls': seq<seq<Blk>>)
    requires |view| >= 1 && |ls| == LISTLIMIT
  {
    var c := FitClass(ls, ClassOf(asize), asize);
    if c < LISTLIMIT then
      exists j ::
        && 1 <= j < |view| && view[j] == ls[c][FitFrom(ls[c], 0, asize)]
        && asize <= view[j].size
        && view' == Placed(view, j, asize) && ls' == PlacedLists(view, ls, j, asize)
    else
      var n := |view|;
      var grown := view + [Blk(words, asize, true)];
      var lo := CoalesceLo(grown, n);
      var v1 := Coalesced(grown, n);
      && lo < |v1| && asize <= v1[lo].size
      && view' == Placed(v1, lo, asize)
      && ls' == PlacedLists(v1, CoalescedLists(grown, ls, n), lo, asize)
  }

  /** The heap after mm_free(bp): the block retagged free and coalesced, the
      merged block at the head of its class list and the absorbed
      neighbours off theirs. */
  ghost predicate Freed(view: seq<Blk>, ls: seq<seq<Blk>>, bp: nat, view': seq<Blk>, ls': seq<seq<Blk>>)
  {
    && |ls| == LISTLIMIT
    && exists k ::
      && 1 <= k < |view| && view[k].bp == bp
      && view' == Coalesced(Retagged(view, k, true), k)
      && ls' == CoalescedLists(Retagged(view, k, true), ls, k)
  }

  /** The requests realloc serves in place: a block of s bytes with s at
      least size + DSIZE holds the rounded request. */
  lemma AdjustSizeWithin(size: nat, s: nat)
    requires size > 0 && size + DSIZE <= s && s % 8 == 0 && MIN_BLOCK <= s
    ensures AdjustSize(size) <= s
  {
    var a := AdjustSize(size);
    if a != MIN_BLOCK {
      var p, q := a / 8, s / 8;
      assert a == 8 * p && s == 8 * q;
      assert 8 * p < 8 * q + 8;
    }
  }

  // ---------------------------------------------------------------------
  // The tag writes keep the lists

  /** extend_heap's writes append a free block b, not yet on its list and
      the only block that may have a free neighbour. */
  lemma ExtendOk(m: seq<nat>, view: seq<Blk>, ls: seq<seq<Blk>>, grant: seq<nat>)
    requires HeapOk(m, view, ls, NULL, {}) && |grant| >= 4 && |grant| % 2 == 0
    ensures var b := Blk(|m|, 4 * |grant|, true);
      var m' := ExtendWrites(m, grant);
      && HeapOk(m', view + [b], ls, b.bp, {b})
      && Untouched(m, m', Allocs(view)) && Allocs(view + [b]) == Allocs(view)
  {
    var b := Blk(|m|, 4 * |grant|, true);
    var m' := ExtendWrites(m, grant);
    Extend(m, view, PROLOGUE, grant);
    Payloads(m, view, PROLOGUE);
    NoAdjacentAfterExtend(view, b);
    AppendAllocs(view, b);
    AppendFrees(view, b);
    assert b !in Frees(view);
    ListsGrown(m, m', view, ls, {});
    Reframe(m', view, view + [b], ls, {}, {b});
  }

  /** place's tag writes, once block j is off its list: the lists still
      stand and hold every free block but the remainder of a split. */
  lemma PlaceOk(m: seq<nat>, view: seq<Blk>, ls: seq<seq<Blk>>, j: nat, asize: nat)
    requires 1 <= j < |view| && view[j].free && HeapOk(m, view, ls, NULL, {view[j]})
    requires asize % 8 == 0 && MIN_BLOCK <= asize <= view[j].size
    ensures Fits(m, view, j)
    ensures var b := view[j];
      var m' := PlaceWrites(m, b, asize);
      var view' := Placed(view, j, asize);
      var split := b.size - asize >= MIN_BLOCK;
      && |m'| == |m| && Untouched(m, m', Allocs(view))
      && (split ==> j + 1 < |view'| && view'[j + 1] in Frees(view'))
      && HeapOk(m', view', ls, NULL, if split then {view'[j + 1]} else {})
  {
    var b := view[j];
    ElemsOne(view, j);
    PlaceLayout(m, view, PROLOGUE, j, asize);
    PlaceOutside(m, b, asize);
    var m' := PlaceWrites(m, b, asize);
    ListsKept(m, m', view, ls, {b}, j, j + 1);
    Payloads(m, view, PROLOGUE);
    Payloads(m', Placed(view, j, asize), PROLOGUE);
    PlacedFrees(view, j, asize);
    if b.size - asize >= MIN_BLOCK {
      NoAdjacentAfterSplit(view, j, asize);
      Reframe(m', view, Placed(view, j, asize), ls, {b}, {Placed(view, j, asize)[j + 1]});
    } else {
      NoAdjacentAfterAllocate(view, j);
      Reframe(m', view, Placed(view, j, asize), ls, {b}, {});
    }
  }

  /** mm_free's retag: the freed block is free and not yet on a list. */
  lemma FreeOk(m: seq<nat>, view: seq<Blk>, ls: seq<seq<Blk>>, k: nat)
    requires HeapOk(m, view, ls, NULL, {}) && 1 <= k < |view| && !view[k].free
    ensures Fits(m, view, k)
    ensures var nb := view[k].(free := true);
      var m' := PutTags(m, nb);
      var view' := Retagged(view, k, true);
      && view'[k] == nb
      && HeapOk(m', view', ls, nb.bp, {nb})
      && Untouched(m, m', Allocs(view) - {view[k]})
      && Allocs(view') == Allocs(view) - {view[k]}
  {
    var b := view[k];
    var nb := b.(free := true);
    Retag(m, view, PROLOGUE, k, true);
    Payloads(m, view, PROLOGUE);
    NoAdjacentAfterFree(view, k);
    RetaggedAllocs(view, k);
    RetaggedFrees(view, k);
    ElemsOne(view, k);
    assert b !in Frees(view);
    PutTagsOutside(m, nb);
    ListsKept(m, PutTags(m, nb), view, ls, {}, k, k + 1);
    Reframe(PutTags(m, nb), view, Retagged(view, k, true), ls, {}, {nb});
  }

  /** coalesce's tag writes, once the run around the free block k is off
      the lists: the merged block (k itself when nothing merges) is the one
      free block not on them. */
  lemma CoalesceOk(m: seq<nat>, view: seq<Blk>, ls: seq<seq<Blk>>, k: nat)
    requires 1 <= k < |view| && view[k].free
    requires HeapOk(m, view, ls, view[k].bp, Elems(view[CoalesceLo(view, k)..CoalesceHi(view, k)]))
    ensures var lo := CoalesceLo(view, k);
      var mb := Merged(view, lo, CoalesceHi(view, k), true);
      var view' := Coalesced(view, k);
      && 1 <= mb.bp && 8 <= mb.size && End(mb) <= |m|
      && var m' := if view' == view then m else PutTags(m, mb);
      && lo < |view'| && view'[lo] in Frees(view')
      && HeapOk(m', view', ls, NULL, {view'[lo]})
      && Untouched(m, m', Allocs(view)) && Allocs(view') == Allocs(view)
  {
    var lo := CoalesceLo(view, k);
    var hi := CoalesceHi(view, k);
    var mb := Merged(view, lo, hi, true);
    var run := Elems(view[lo..hi]);
    var view' := Coalesced(view, k);
    CoalesceLayout(m, view, PROLOGUE, k);
    Payloads(m, view, PROLOGUE);
    NoAdjacentAfterCoalesce(view, k);
    CoalescedAllocs(view, k);
    var m' := if view' == view then m else PutTags(m, mb);
    if view' != view {
      PutTagsOutside(m, mb);
      ListsKept(m, m', view, ls, run, lo, hi);
      Payloads(m', view', PROLOGUE);
    }
    CoalescedFrees(view, k);
    Reframe(m', view, view', ls, run, {view'[lo]});
  }

  /** realloc's memcpy writes only the new, allocated block's payload,
      which holds no link word. */
  lemma CopyOk(m: seq<nat>, m': seq<nat>, view: seq<Blk>, ls: seq<seq<Blk>>, j: nat)
    requires HeapOk(m, view, ls, NULL, {}) && 1 <= j < |view| && !view[j].free
    requires Layout(m', view, PROLOGUE) && AgreeOutside(m, m', view[j].bp, End(view[j]) - 2)
    ensures HeapOk(m', view, ls, NULL, {})
  {
    ElemsOne(view, j);
    assert view[j] !in Frees(view);
    ListsKept(m, m', view, ls, {}, j, j + 1);
  }

  /** realloc's growth into the free block after block k, once that block
      is off its list: the header and footer of the merged, allocated block
      keep the lists, leave every other allocated block and the old payload
      alone, and trade block k for the merged block. */
  lemma GrowOk(m: seq<nat>, view: seq<Blk>, ls: seq<seq<Blk>>, k: nat)
    requires 1 <= k && k + 1 < |view| && !view[k].free && view[k + 1].free
    requires Layout(m, view, PROLOGUE) && NoAdjacentFree(view, NULL)
    requires ListsOk(m, view, ls, {view[k + 1]})
    ensures var mb := Merged(view, k, k + 2, false);
      var view' := MergeView(view, k, k + 2, false);
      && mb == Blk(view[k].bp, view[k].size + view[k + 1].size, false)
      && 1 <= mb.bp && 8 <= mb.size && mb.size % 8 == 0 && End(mb) <= |m|
      && var m' := PutTags(m, mb);
      && view'[k] == mb
      && HeapOk(m', view', ls, NULL, {})
      && Untouched(m, m', Allocs(view) - {view[k]})
      && Allocs(view') == Allocs(view) - {view[k]} + {mb}
      && Preserved(m, m', view[k].bp, view[k].bp, PayloadWords(view[k]))
  {
    GrowSize(m, view, k);
    GrowSets(m, view, k);
    GrowLayout(m, view, k);
    GrowKeeps(m, view, k);
    GrowLists(m, view, ls, k);
  }

  /** The block realloc grows block k into: the two sizes together, from
      block k's payload to the end of block k + 1, in place of both. */
  lemma GrowSize(m: seq<nat>, view: seq<Blk>, k: nat)
    requires 1 <= k && k + 1 < |view| && Layout(m, view, PROLOGUE)
    ensures var mb := Merged(view, k, k + 2, false);
      && mb == Blk(view[k].bp, view[k].size + view[k + 1].size, false)
      && 1 <= mb.bp && 8 <= mb.size && mb.size % 8 == 0
      && End(mb) == End(view[k + 1]) <= |m|
      && MergeView(view, k, k + 2, false)[k] == mb
  {
    MergedSize(m, view, PROLOGUE, k, k + 2, false);
    SumSizes2(view, k);
    assert Fits(m, view, k) && Fits(m, view, k + 1);
    SumAligned(view[k].size, view[k + 1].size);
  }

  lemma ElemsTwo(view: seq<Blk>, k: nat)
    requires k + 1 < |view|
    ensures Elems(view[k..k + 2]) == {view[k], view[k + 1]}
  {
    var s := view[k..k + 2];
    assert s[0] == view[k] && s[1] == view[k + 1];
    forall x | x in Elems(s) ensures x == view[k] || x == view[k + 1] {
      var i :| 0 <= i < |s| && s[i] == x;
    }
  }

  /** Of the two blocks realloc merges only block k + 1 was free, and the
      merged block is allocated. */
  lemma GrowSets(m: seq<nat>, view: seq<Blk>, k: nat)
    requires 1 <= k && k + 1 < |view| && !view[k].free && view[k + 1].free
    requires Layout(m, view, PROLOGUE)
    ensures var mb := Merged(view, k, k + 2, false);
      var view' := MergeView(view, k, k + 2, false);
      && Elems(view[k..k + 2]) == {view[k], view[k + 1]}
      && Frees(view') == Frees(view) - {view[k + 1]}
      && Allocs(view') == Allocs(view) - {view[k]} + {mb}
  {
    var mb := Merged(view, k, k + 2, false);
    ElemsTwo(view, k);
    assert view[k] !in Frees(view) && view[k + 1] !in Allocs(view);
    Payloads(m, view, PROLOGUE);
    SpliceFrees(view, k, k + 2, [mb]);
    SpliceAllocs(view, k, k + 2, [mb]);
    FreesOfOne(mb);
    assert [mb][0] == mb;
    assert AllocsOf([mb]) == {mb};
  }

  /** The merged block's tags keep the layout and leave no free
      neighbours. */
  lemma GrowLayout(m: seq<nat>, view: seq<Blk>, k: nat)
    requires 1 <= k && k + 1 < |view| && !view[k].free && view[k + 1].free
    requires Layout(m, view, PROLOGUE) && NoAdjacentFree(view, NULL)
    ensures var mb := Merged(view, k, k + 2, false);
      && 1 <= mb.bp && 8 <= mb.size && End(mb) <= |m|
      && Layout(PutTags(m, mb), MergeView(view, k, k + 2, false), PROLOGUE)
      && NoAdjacentFree(MergeView(view, k, k + 2, false), NULL)
  {
    Merge(m, view, PROLOGUE, k, k + 2, false);
    Payloads(m, view, PROLOGUE);
    NoAdjacentAfterGrow(view, k);
  }

  /** The merged block's tags change nothing of the other allocated
      blocks or of block k's payload. */
  lemma GrowKeeps(m: seq<nat>, view: seq<Blk>, k: nat)
    requires 1 <= k && k + 1 < |view| && !view[k].free && view[k + 1].free
    requires Layout(m, view, PROLOGUE)
    ensures var mb := Merged(view, k, k + 2, false);
      && 1 <= mb.bp && 8 <= mb.size && End(mb) <= |m|
      && var m' := PutTags(m, mb);
      && Untouched(m, m', Allocs(view) - {view[k]})
      && Preserved(m, m', view[k].bp, view[k].bp, PayloadWords(view[k]))
  {
    var mb := Merged(view, k, k + 2, false);
    GrowSize(m, view, k);
    Merge(m, view, PROLOGUE, k, k + 2, false);
    var b := view[k];
    assert view[k..k + 2] == [view[k], view[k + 1]];
    assert Elems(view[k..k + 2]) == {view[k], view[k + 1]};
    assert view[k + 1] !in Allocs(view);
    assert Allocs(view) - Elems(view[k..k + 2]) == Allocs(view) - {b} by {
      forall x | x in Allocs(view) - {b} ensures x !in Elems(view[k..k + 2]) {
        assert x != view[k + 1];
      }
    }
    assert Fits(m, view, k) && Fits(m, view, k + 1);
    Quarter(b.size);
    Quarter(view[k + 1].size);
    assert b.bp + PayloadWords(b) + 2 == End(b) == view[k + 1].bp <= End(mb) - 4;
  }

  /** The merged block's tags keep the lists, which hold every free block
      once block k + 1 is gone. */
  lemma GrowLists(m: seq<nat>, view: seq<Blk>, ls: seq<seq<Blk>>, k: nat)
    requires 1 <= k && k + 1 < |view| && !view[k].free && view[k + 1].free
    requires Layout(m, view, PROLOGUE) && ListsOk(m, view, ls, {view[k + 1]})
    ensures var mb := Merged(view, k, k + 2, false);
      && 1 <= mb.bp && 8 <= mb.size && End(mb) <= |m|
      && ListsOk(PutTags(m, mb), MergeView(view, k, k + 2, false), ls, {})
  {
    var mb := Merged(view, k, k + 2, false);
    GrowSize(m, view, k);
    GrowSets(m, view, k);
    PutTagsOutside(m, mb);
    ListsKept(m, PutTags(m, mb), view, ls, {view[k + 1]}, k, k + 2);
    Reframe(PutTags(m, mb), view, MergeView(view, k, k + 2, false), ls, {view[k + 1]}, {});
  }

  /** realloc's move: malloc left the old block ob alone, memcpy put its
      whole extent at the start of the new block nb, and the free of ob
      left nb alone; so nb starts with ob's payload and ob was traded for
      nb. */
  lemma MovedWhole(m0: seq<nat>, m1: seq<nat>, m2: seq<nat>, m3: seq<nat>,
                   a0: set<Blk>, a1: set<Blk>, a2: set<Blk>, v1: seq<Blk>, ob: Blk, nb: Blk, size: nat)
    requires ob in a0 && nb !in a0 && a1 == a0 + {nb} && a1 == Allocs(v1) && StrictBps(v1)
    requires Released(a1, a2, ob.bp)
    requires Untouched(m0, m1, a0) && Untouched(m1, m2, a1 - {nb}) && Untouched(m2, m3, a2)
    requires size > 0 && AdjustSize(size) <= nb.size && ob.size <= nb.size
    requires Preserved(m1, m2, ob.bp, nb.bp, PayloadWords(ob))
    ensures a2 == a0 - {ob} + {nb}
    ensures Granted(a0 - {ob}, a2, nb.bp, AdjustSize(size))
    ensures Preserved(m0, m3, ob.bp, nb.bp, PayloadWords(ob))
    ensures Untouched(m0, m3, a0 * a2)
  {
    var gone :| gone in a1 && gone.bp == ob.bp && a2 == a1 - {gone};
    AllocsUnique(v1, gone, ob);
    assert a2 == a0 - {ob} + {nb};
    assert nb in a2;
    forall p | nb.bp <= p < nb.bp + PayloadWords(ob)
      ensures p < |m3| && ob.bp + (p - nb.bp) < |m0| && m3[p] == m0[ob.bp + (p - nb.bp)]
    {
      assert SameExtent(m2, m3, nb) && SameExtent(m0, m1, ob);
      assert m3[p] == m2[p];
    }
    forall b | b in a0 * a2 ensures SameExtent(m0, m3, b) {
      assert SameExtent(m0, m1, b) && SameExtent(m1, m2, b) && SameExtent(m2, m3, b);
    }
  }

  /** The merged block of an in-place growth is new, at the old payload,
      and big enough. */
  lemma GrownGranted(m: seq<nat>, view: seq<Blk>, k: nat, size: nat)
    requires Layout(m, view, PROLOGUE) && 1 <= k && k + 1 < |view| && !view[k].free
    requires size > 0 && size + DSIZE <= view[k].size + view[k + 1].size
    ensures var ob := view[k];
      var mb := Blk(ob.bp, ob.size + view[k + 1].size, false);
      && Granted(Allocs(view) - {ob}, Allocs(view) - {ob} + {mb}, ob.bp, AdjustSize(size))
      && Allocs(view) * (Allocs(view) - {ob} + {mb}) <= Allocs(view) - {ob}
  {
    var ob := view[k];
    var mb := Blk(ob.bp, ob.size + view[k + 1].size, false);
    assert Fits(m, view, k) && Fits(m, view, k + 1);
    Payloads(m, view, PROLOGUE);
    SumAligned(ob.size, view[k + 1].size);
    AdjustSizeWithin(size, mb.size);
    assert view[k] in Allocs(view);
    if mb in Allocs(view) {
      AllocsUnique(view, mb, ob);
    }
  }

  // ---------------------------------------------------------------------
  // The list operations of the allocator

  /** The removeBlock calls of coalesce on the free block k: the previous
      block first when it is free, then the next one when it is free.  The
      whole run coalesce merges is then off the lists. */
  method UnlinkNeighbours(lib: MemLib, ghost view: seq<Blk>, ghost ls: seq<seq<Blk>>,
                          ghost k: nat, bp: nat, prevAlloc: nat, nextAlloc: nat)
    returns (ghost ls': seq<seq<Blk>>)
    requires Layout(lib.mem, view, PROLOGUE) && 1 <= k < |view| && view[k].bp == bp && view[k].free
    requires ListsOk(lib.mem, view, ls, {view[k]})
    requires prevAlloc == (if view[k - 1].free then 0 else 1)
    requires nextAlloc == (if k + 1 < |view| && view[k + 1].free then 0 else 1)
    modifies lib
    ensures ListsOk(lib.mem, view, ls', Elems(view[CoalesceLo(view, k)..CoalesceHi(view, k)]))
    ensures ls' == WithoutAll(ls, Elems(view[CoalesceLo(view, k)..CoalesceHi(view, k)]))
    ensures prevAlloc == 1 && nextAlloc == 1 ==> ls' == ls
    ensures Layout(lib.mem, view, PROLOGUE) && |lib.mem| == |old(lib.mem)|
    ensures Untouched(old(lib.mem), lib.mem, Allocs(view))
  {
    ghost var m0 := lib.mem;
    Payloads(m0, view, PROLOGUE);
    CoalesceRun(view, k);
    UntouchedSelf(m0, view, PROLOGUE);
    Navigate(m0, view, PROLOGUE, k);
    ghost var out := {view[k]};
    forall c | 0 <= c < LISTLIMIT ensures Elems(ls[c]) !! out {
      assert ClassOk(lib.mem, view, ls, c, out);
    }
    WithoutAllNone(ls, out);
    ls' := ls;
    if prevAlloc == 0 {
      ghost var a := view[k - 1];
      assert a in Frees(view) && a !in out;
      ghost var t := OnItsList(lib.mem, view, ls', out, a);
      UnlinkIsWithout(lib.mem, view, ls', out, ClassOf(a.size), t);
      WithoutAllTwice(ls, out, {a});
      var prev := PrevBlkp(lib.mem, bp);
      UnlinkBlock(lib, view, ls', out, ClassOf(a.size), t, prev);
      out := out + {a};
      ls' := Unlinked(ls', ClassOf(a.size), t);
    }
    ghost var m1 := lib.mem;
    if nextAlloc == 0 {
      Navigate(m1, view, PROLOGUE, k);
      ghost var c := view[k + 1];
      assert c in Frees(view) && c !in out;
      ghost var t := OnItsList(lib.mem, view, ls', out, c);
      UnlinkIsWithout(lib.mem, view, ls', out, ClassOf(c.size), t);
      WithoutAllTwice(ls, out, {c});
      var next := NextBlkp(lib.mem, bp);
      UnlinkBlock(lib, view, ls', out, ClassOf(c.size), t, next);
      out := out + {c};
      ls' := Unlinked(ls', ClassOf(c.size), t);
    }
    assert out == Elems(view[CoalesceLo(view, k)..CoalesceHi(view, k)]);
    UntouchedTrans(m0, m1, lib.mem, Allocs(view), Allocs(view));
  }

  /** coalesce: take the free neighbours of the free block k off their
      lists, merge them with it (three cases), and push the result on the
      list of its class. */
  method CoalesceBlock(lib: MemLib, ghost view: seq<Blk>, ghost ls: seq<seq<Blk>>, ghost k: nat, bp: nat)
    returns (r: nat, ghost ls': seq<seq<Blk>>)
    requires 1 <= k < |view| && view[k].bp == bp && view[k].free
    requires HeapOk(lib.mem, view, ls, bp, {view[k]})
    modifies lib
    ensures var lo := CoalesceLo(view, k);
      var view' := Coalesced(view, k);
      && HeapOk(lib.mem, view', ls', NULL, {}) && |lib.mem| == |old(lib.mem)|
      && lo < |view'| && r == view'[lo].bp && r == view[lo].bp && view'[lo].free
      && view'[lo].size == SumSizes(view[lo..CoalesceHi(view, k)])
      && view[k].size <= view'[lo].size
      && ls'[ClassOf(view'[lo].size)] != [] && ls'[ClassOf(view'[lo].size)][0] == view'[lo]
      && (view' == view ==> ls' == Pushed(ls, view[k]))
      && Allocs(view') == Allocs(view)
    ensures ls' == CoalescedLists(view, ls, k)
    ensures Untouched(old(lib.mem), lib.mem, Allocs(view))
  {
    ghost var m0 := lib.mem;
    ghost var lo := CoalesceLo(view, k);
    var prevAlloc, nextAlloc, size := NeighbourTags(lib, view, PROLOGUE, k, bp);
    ghost var zs := UnlinkNeighbours(lib, view, ls, k, bp, prevAlloc, nextAlloc);
    ghost var m1 := lib.mem;
    CoalesceOk(m1, view, zs, k);
    CoalescedBlock(m1, view, PROLOGUE, k);
    r := bp;
    if prevAlloc == 0 || nextAlloc == 0 {
      r := MergeAround(lib, view, PROLOGUE, k, bp, prevAlloc, nextAlloc, size);
    }
    ghost var m2 := lib.mem;
    ghost var view' := Coalesced(view, k);
    ls' := Release(lib, view', zs, view'[lo], r);
    UntouchedTrans(m1, m2, lib.mem, Allocs(view), Allocs(view'));
    UntouchedTrans(m0, m1, lib.mem, Allocs(view), Allocs(view));
  }

  /** place: take the free block j off its list, then allocate asize bytes
      of it, splitting off the remainder as a free block pushed on the list
      of its class exactly when it is at least 16 bytes. */
  method PlaceBlock(lib: MemLib, ghost view: seq<Blk>, ghost ls: seq<seq<Blk>>,
                    ghost j: nat, bp: nat, asize: nat) returns (ghost ls': seq<seq<Blk>>)
    requires HeapOk(lib.mem, view, ls, NULL, {})
    requires 1 <= j < |view| && view[j].bp == bp && view[j].free
    requires asize % 8 == 0 && MIN_BLOCK <= asize <= view[j].size
    modifies lib
    ensures var view' := Placed(view, j, asize);
      var c := ClassOf(view[j].size);
      && HeapOk(lib.mem, view', ls', NULL, {}) && |lib.mem| == |old(lib.mem)|
      && exists t ::
        (&& 0 <= t < |ls[c]| && ls[c][t] == view[j]
         && ls' == if view[j].size - asize >= MIN_BLOCK then Pushed(Unlinked(ls, c, t), view'[j + 1])
                   else Unlinked(ls, c, t))
    ensures ls' == PlacedLists(view, ls, j, asize)
    ensures Untouched(old(lib.mem), lib.mem, Allocs(view))
  {
    ghost var m0 := lib.mem;
    ghost var b := view[j];
    assert b in Frees(view);
    ghost var t := OnItsList(m0, view, ls, {}, b);
    UnlinkIsWithout(m0, view, ls, {}, ClassOf(b.size), t);
    Navigate(m0, view, PROLOGUE, j);
    var bsize := SizeOf(lib.Get(Hdrp(bp)));
    UnlinkBlock(lib, view, ls, {}, ClassOf(b.size), t, bp);
    assert {} + {b} == {view[j]};
    ghost var m1 := lib.mem;
    ls' := SplitBlock(lib, view, Unlinked(ls, ClassOf(b.size), t), j, bp, bsize, asize);
    UntouchedTrans(m0, m1, lib.mem, Allocs(view), Allocs(view));
  }

  /** place's tag writes on the free block j, already off its list, and on
      a split the push of the remainder. */
  method SplitBlock(lib: MemLib, ghost view: seq<Blk>, ghost ls: seq<seq<Blk>>,
                    ghost j: nat, bp: nat, bsize: nat, asize: nat) returns (ghost ls': seq<seq<Blk>>)
    requires 1 <= j < |view| && view[j].bp == bp && view[j].free && bsize == view[j].size
    requires HeapOk(lib.mem, view, ls, NULL, {view[j]})
    requires asize % 8 == 0 && MIN_BLOCK <= asize <= view[j].size
    modifies lib
    ensures var view' := Placed(view, j, asize);
      && HeapOk(lib.mem, view', ls', NULL, {}) && |lib.mem| == |old(lib.mem)|
      && ls' == if view[j].size - asize >= MIN_BLOCK then Pushed(ls, view'[j + 1]) else ls
    ensures Untouched(old(lib.mem), lib.mem, Allocs(view))
  {
    ghost var m1 := lib.mem;
    ghost var b := view[j];
    PlaceOk(m1, view, ls, j, asize);
    Payloads(m1, view, PROLOGUE);
    PlacedAllocs(view, j, asize);
    PlaceTags(lib, b, bp, bsize, asize);
    ghost var m2 := lib.mem;
    ghost var view' := Placed(view, j, asize);
    ls' := ls;
    if bsize - asize >= 2 * DSIZE {
      Navigate(m2, view', PROLOGUE, j);
      var next := NextBlkp(lib.mem, bp);
      ls' := Release(lib, view', ls, view'[j + 1], next);
      UntouchedTrans(m1, m2, lib.mem, Allocs(view), Allocs(view'));
    }
  }

  /** putFreeBlock on the free block b, the one free block off the lists. */
  method Release(lib: MemLib, ghost view: seq<Blk>, ghost ls: seq<seq<Blk>>, ghost b: Blk, bp: nat)
    returns (ghost ls': seq<seq<Blk>>)
    requires HeapOk(lib.mem, view, ls, NULL, {b}) && b in Frees(view) && b.bp == bp
    modifies lib
    ensures ls' == Pushed(ls, b) && HeapOk(lib.mem, view, ls', NULL, {})
    ensures |lib.mem| == |old(lib.mem)| && Untouched(old(lib.mem), lib.mem, Allocs(view))
  {
    PushBlock(lib, view, ls, {b}, b, bp);
    ls' := Pushed(ls, b);
    assert {b} - {b} == {};
  }

  /** extend_heap: a new free block of words * WSIZE bytes over the old
      epilogue, a new epilogue after it, then coalesce, which puts the
      result on the list of its class; NULL when sbrk fails, with nothing
      changed. */
  method ExtendBlock(lib: MemLib, ghost view: seq<Blk>, ghost ls: seq<seq<Blk>>, words: nat)
    returns (bp: nat, ghost view': seq<Blk>, ghost ls': seq<seq<Blk>>)
    requires HeapOk(lib.mem, view, ls, NULL, {}) && words >= 4 && words % 2 == 0
    modifies lib
    ensures HeapOk(lib.mem, view', ls', NULL, {}) && Allocs(view') == Allocs(view)
    ensures Untouched(old(lib.mem), lib.mem, Allocs(view))
    ensures |old(lib.mem)| + words > lib.capacity ==>
      && bp == NULL && lib.mem == old(lib.mem) && view' == view && ls' == ls
    ensures |old(lib.mem)| + words <= lib.capacity ==>
      var grown := view + [Blk(|old(lib.mem)|, WSIZE * words, true)];
      var lo := CoalesceLo(grown, |view|);
      && |lib.mem| == |old(lib.mem)| + words
      && view' == Coalesced(grown, |view|)
      && 1 <= lo < |view'| && bp == view'[lo].bp && bp != NULL
      && view'[lo].free && WSIZE * words <= view'[lo].size
      && (view' == grown ==> ls' == Pushed(ls, view'[lo]))
      && ls' == CoalescedLists(grown, ls, |view|)
  {
    var size := words * WSIZE;
    EvenWords(words);
    ghost var m0 := lib.mem;
    var p := lib.Sbrk(size);
    if p == -1 {
      UntouchedSelf(m0, view, PROLOGUE);
      return NULL, view, ls;
    }
    bp := p;
    ghost var grant := lib.mem[|m0|..];
    assert lib.mem == m0 + grant;
    assert |grant| == words;
    WriteExtension(lib, m0, grant, bp, size);
    ExtendOk(m0, view, ls, grant);
    ghost var m1 := lib.mem;
    ghost var grown := view + [Blk(|m0|, WSIZE * words, true)];
    assert grown == view + [Blk(bp, size, true)];
    bp, ls' := CoalesceBlock(lib, grown, ls, |view|, bp);
    view' := Coalesced(grown, |view|);
    UntouchedTrans(m0, m1, lib.mem, Allocs(view), Allocs(view));
    Payloads(lib.mem, view', PROLOGUE);
  }

  /** realloc's reads at bp: old_size from its header, then next_size and
      next_alloc from the header after it, the epilogue's when the block is
      the last one. */
  method NextTags(lib: MemLib, ghost view: seq<Blk>, ghost k: nat, bp: nat)
    returns (oldSize: nat, nextSize: nat, nextAlloc: nat)
    requires Layout(lib.mem, view, PROLOGUE) && 1 <= k < |view| && view[k].bp == bp
    ensures oldSize == view[k].size
    ensures nextSize == (if k + 1 < |view| then view[k + 1].size else 0)
    ensures nextAlloc == (if k + 1 < |view| && view[k + 1].free then 0 else 1)
  {
    Navigate(lib.mem, view, PROLOGUE, k);
    assert Fits(lib.mem, view, k);
    if k + 1 < |view| {
      Navigate(lib.mem, view, PROLOGUE, k + 1);
    } else {
      NavigateEpilogue(lib.mem, view, PROLOGUE);
    }
    oldSize := SizeOf(lib.Get(Hdrp(bp)));
    var next := NextBlkp(lib.mem, bp);
    nextSize := SizeOf(lib.Get(Hdrp(next)));
    nextAlloc := AllocOf(lib.Get(Hdrp(next)));
  }

  /** realloc in place: removeBlock on the free block after block k, then
      one allocated block over both, its header and its footer (found from
      the new header) tagged with the sum of the two sizes. */
  method GrowBlock(lib: MemLib, ghost view: seq<Blk>, ghost ls: seq<seq<Blk>>, ghost k: nat,
                   bp: nat, oldSize: nat, nextSize: nat) returns (ghost ls': seq<seq<Blk>>)
    requires HeapOk(lib.mem, view, ls, NULL, {})
    requires 1 <= k && k + 1 < |view| && view[k].bp == bp && !view[k].free && view[k + 1].free
    requires oldSize == view[k].size && nextSize == view[k + 1].size
    modifies lib
    ensures var mb := Blk(bp, oldSize + nextSize, false);
      var view' := MergeView(view, k, k + 2, false);
      var c := ClassOf(nextSize);
      && view'[k] == mb && HeapOk(lib.mem, view', ls', NULL, {}) && |lib.mem| == |old(lib.mem)|
      && Allocs(view') == Allocs(view) - {view[k]} + {mb}
      && exists t :: 0 <= t < |ls[c]| && ls[c][t] == view[k + 1] && ls' == Unlinked(ls, c, t)
    ensures ls' == WithoutAll(ls, {view[k + 1]})
    ensures Untouched(old(lib.mem), lib.mem, Allocs(view) - {view[k]})
    ensures Preserved(old(lib.mem), lib.mem, bp, bp, PayloadWords(view[k]))
  {
    ghost var m0 := lib.mem;
    ghost var nb := view[k + 1];
    Navigate(m0, view, PROLOGUE, k);
    assert nb in Frees(view);
    ghost var t := OnItsList(m0, view, ls, {}, nb);
    var next := NextBlkp(lib.mem, bp);
    UnlinkBlock(lib, view, ls, {}, ClassOf(nextSize), t, next);
    ls' := Unlinked(ls, ClassOf(nextSize), t);
    UnlinkIsWithout(m0, view, ls, {}, ClassOf(nextSize), t);
    assert {} + {nb} == {view[k + 1]};
    ghost var m1 := lib.mem;
    GrowOk(m1, view, ls', k);
    WriteTags(lib, Blk(bp, oldSize + nextSize, false));
    GrowKept(m0, m1, lib.mem, view, k);
  }

  /** The unlink left every allocated block alone and the tag writes all
      but block k and its payload: together they keep the payload of block
      k and every other allocated block. */
  lemma GrowKept(m0: seq<nat>, m1: seq<nat>, m2: seq<nat>, view: seq<Blk>, k: nat)
    requires 1 <= k < |view| && !view[k].free
    requires Untouched(m0, m1, Allocs(view)) && Untouched(m1, m2, Allocs(view) - {view[k]})
    requires Preserved(m1, m2, view[k].bp, view[k].bp, PayloadWords(view[k]))
    ensures Untouched(m0, m2, Allocs(view) - {view[k]})
    ensures Preserved(m0, m2, view[k].bp, view[k].bp, PayloadWords(view[k]))
  {
    var b := view[k];
    assert b in Allocs(view);
    assert SameExtent(m0, m1, b);
    UntouchedTrans(m0, m1, m2, Allocs(view) - {b}, Allocs(view) - {b});
  }

  /** realloc's memcpy(newp, bp, old_size): old_size bytes from bp, the
      payload, footer and the next header word of block i, into the payload
      of block j, which is at least old_size + DSIZE bytes. */
  method CopyBlock(lib: MemLib, ghost view: seq<Blk>, ghost i: nat, ghost j: nat, bp: nat, newp: nat)
    requires Layout(lib.mem, view, PROLOGUE) && 1 <= i < |view| && 1 <= j < |view| && i != j
    requires view[i].bp == bp && view[j].bp == newp && view[i].size + DSIZE <= view[j].size
    modifies lib
    ensures Layout(lib.mem, view, PROLOGUE) && |lib.mem| == |old(lib.mem)|
    ensures Untouched(old(lib.mem), lib.mem, Allocs(view) - {view[j]})
    ensures Preserved(old(lib.mem), lib.mem, bp, newp, view[i].size / WSIZE)
    ensures AgreeOutside(old(lib.mem), lib.mem, view[j].bp, End(view[j]) - 2)
  {
    assert Fits(lib.mem, view, i) && Fits(lib.mem, view, j);
    TagReads(lib.mem, view[i]);
    var oldSize := SizeOf(lib.Get(Hdrp(bp)));
    Parts(view[j].size, oldSize);
    Quarter(view[j].size - oldSize);
    if i < j {
      Ordered(lib.mem, view, PROLOGUE, i, j);
    } else {
      Ordered(lib.mem, view, PROLOGUE, j, i);
    }
    ghost var m1 := lib.mem;
    lib.Copy(newp, bp, oldSize / WSIZE);
    CopyEffect(m1, lib.mem, view, PROLOGUE, j, bp, oldSize / WSIZE);
    assert oldSize == view[i].size && Preserved(m1, lib.mem, bp, newp, oldSize / WSIZE);
  }

  /** Fewer words copied are still copied. */
  lemma PreservedFewer(m0: seq<nat>, m1: seq<nat>, src: nat, dst: nat, n: nat, n': nat)
    requires Preserved(m0, m1, src, dst, n) && n' <= n
    ensures Preserved(m0, m1, src, dst, n')
  {
  }

  /** A request that the old block cannot hold rounds up to at least a
      double word more than the old block. */
  lemma AdjustSizeAbove(size: nat, s: nat)
    requires size > 0 && s < size + DSIZE && s % 8 == 0
    ensures s + DSIZE <= AdjustSize(size)
  {
    var a := AdjustSize(size);
    assert s == 8 * (s / 8) && a == 8 * (a / 8);
  }

  /** What find_fit reads at node i of list c: a header holding its size,
      and a successor word naming node i + 1, or NULL after the last. */
  lemma WalkStep(m: seq<nat>, view: seq<Blk>, ls: seq<seq<Blk>>, c: nat, i: nat)
    requires HeapOk(m, view, ls, NULL, {}) && c < LISTLIMIT && i < |ls[c]|
    ensures NULL < ls[c][i].bp && ls[c][i].bp + 1 < |m|
    ensures SizeOf(m[ls[c][i].bp - 1]) == ls[c][i].size
    ensures m[ls[c][i].bp + 1] == Succ(ls[c], i, NULL)
  {
    assert ClassOk(m, view, ls, c, {});
    ClassNodes(m, view, ls, c, {});
    var _ := NodeFacts(m, view, PROLOGUE, ls[c], i);
    TagReads(m, ls[c][i]);
    assert Node(m, ls[c], i, NULL);
  }

  /** realloc grows the block ob in place when the block after it is free
      and the two together hold size + DSIZE bytes. */
  ghost predicate GrowsInPlace(view: seq<Blk>, ob: Blk, size: nat)
  {
    exists k :: 1 <= k && k + 1 < |view| && view[k] == ob && view[k + 1].free
      && size + DSIZE <= ob.size + view[k + 1].size
  }

  /** realloc moves the block ob: it is too small for size and cannot grow
      in place. */
  ghost predicate Moves(view: seq<Blk>, ob: Blk, size: nat)
  {
    ob.size < size + DSIZE && !GrowsInPlace(view, ob, size)
  }

  class SegregatedHeap {
    const lib: MemLib
    /** heap_listp: the start of the region. */
    var heapListp: nat
    /** class_listp: the word of the first root. */
    var classListp: nat
    /** The blocks in address order, the prologue first. */
    ghost var view: seq<Blk>
    /** The LISTLIMIT free lists, each head first. */
    ghost var lists: seq<seq<Blk>>

    ghost predicate Valid()
      reads this, lib
    {
      HeapOk(lib.mem, view, lists, NULL, {}) && heapListp == NULL && classListp == ROOTS
    }

    /** A process start: an empty region. */
    constructor (capacity: nat)
      ensures fresh(lib) && lib.mem == [] && lib.capacity == capacity
    {
      lib := new MemLib(capacity);
    }

    /** mm_init: padding, a prologue of LISTLIMIT + 2 words whose payload
        words, the roots, are all NULL, and the epilogue; no free block
        yet.  -1 when sbrk fails. */
    method Init() returns (r: int)
      requires lib.mem == []
      modifies this, lib
      ensures r == 0 <==> LISTLIMIT + 4 <= lib.capacity
      ensures r == 0 ==> Valid() && view == [Blk(2, PROLOGUE, false)] && |lib.mem| == LISTLIMIT + 4
      ensures r == 0 ==> forall c :: 0 <= c < LISTLIMIT ==> lists[c] == []
      ensures r != 0 ==> r == -1 && lib.mem == []
    {
      var p := lib.Sbrk((LISTLIMIT + 4) * WSIZE);
      if p == -1 {
        return -1;
      }
      lib.Put(p, 0);
      lib.Put(p + 1, Pack(PROLOGUE, 1));
      var i := 2;
      while i < LISTLIMIT + 2
        invariant 2 <= i <= LISTLIMIT + 2 && |lib.mem| == LISTLIMIT + 4
        invariant lib.mem[1] == Pack(PROLOGUE, 1)
        invariant forall q :: 2 <= q < i ==> lib.mem[q] == NULL
      {
        lib.Put(p + i, NULL);
        i := i + 1;
      }
      lib.Put(p + LISTLIMIT + 2, Pack(PROLOGUE, 1));
      lib.Put(p + LISTLIMIT + 3, Pack(0, 1));
      heapListp := p;
      classListp := p + 2;
      view := [Blk(2, PROLOGUE, false)];
      lists := seq(LISTLIMIT, _ => []);
      assert Fits(lib.mem, view, 0);
      assert Frees(view) == {};
      forall c | 0 <= c < LISTLIMIT ensures ClassOk(lib.mem, view, lists, c, {}) {
        assert lib.mem[ROOTS + c] == NULL;
      }
      return 0;
    }

    /** extend_heap by words words. */
    method ExtendHeap(words: nat) returns (bp: nat)
      requires Valid() && words >= 4 && words % 2 == 0
      modifies this, lib
      ensures Valid() && Allocs(view) == old(Allocs(view)) && heapListp == old(heapListp)
      ensures Untouched(old(lib.mem), lib.mem, old(Allocs(view)))
      ensures |old(lib.mem)| + words > lib.capacity ==>
        && bp == NULL && lib.mem == old(lib.mem) && view == old(view) && lists == old(lists)
      ensures |old(lib.mem)| + words <= lib.capacity ==>
        var grown := old(view) + [Blk(|old(lib.mem)|, WSIZE * words, true)];
        var lo := CoalesceLo(grown, |old(view)|);
        && |lib.mem| == |old(lib.mem)| + words
        && view == Coalesced(grown, |old(view)|)
        && 1 <= lo < |view| && bp == view[lo].bp && bp != NULL
        && view[lo].free && WSIZE * words <= view[lo].size
        && (view == grown ==> lists == Pushed(old(lists), view[lo]))
        && lists == CoalescedLists(grown, old(lists), |old(view)|)
    {
      ghost var view', ls';
      bp, view', ls' := ExtendBlock(lib, view, lists, words);
      view := view';
      lists := ls';
    }

    /** find_fit: from the request's class upwards, walk each list from
        its root along the successor words until NULL, returning the first
        block of at least asize bytes. */
    method FindFit(asize: nat) returns (bp: nat)
      requires Valid()
      ensures SegFit(lists, asize, bp)
    {
      FitClassIsFirst(lists, ClassOf(asize), asize);
      var c := GetClass(asize);
      while c < LISTLIMIT
        invariant ClassOf(asize) <= c <= LISTLIMIT
        invariant FitClass(lists, c, asize) == FitClass(lists, ClassOf(asize), asize)
      {
        assert ClassOk(lib.mem, view, lists, c, {});
        ghost var xs := lists[c];
        bp := lib.Get(classListp + c);
        ghost var i := 0;
        if xs != [] {
          WalkStep(lib.mem, view, lists, c, 0);
        }
        while bp != NULL
          invariant i <= |xs| && (i < |xs| ==> bp == xs[i].bp && bp != NULL) && (i == |xs| ==> bp == NULL)
          invariant FitFrom(xs, i, asize) == FitFrom(xs, 0, asize)
          decreases |xs| - i
        {
          WalkStep(lib.mem, view, lists, c, i);
          if SizeOf(lib.Get(Hdrp(bp))) >= asize {
            return;
          }
          bp := lib.Get(bp + 1);
          i := i + 1;
          if i < |xs| {
            WalkStep(lib.mem, view, lists, c, i);
          }
        }
        c := c + 1;
      }
      return NULL;
    }

    /** place on the free block j. */
    method Place(ghost j: nat, bp: nat, asize: nat)
      requires Valid() && 1 <= j < |view| && view[j].bp == bp && view[j].free
      requires asize % 8 == 0 && MIN_BLOCK <= asize <= view[j].size
      modifies this, lib
      ensures Valid() && |lib.mem| == |old(lib.mem)| && heapListp == old(heapListp)
      ensures view == Placed(old(view), j, asize)
      ensures Untouched(old(lib.mem), lib.mem, old(Allocs(view)))
      ensures var c := ClassOf(old(view)[j].size);
        exists t ::
          (&& 0 <= t < |old(lists)[c]| && old(lists)[c][t] == old(view)[j]
           && lists == if old(view)[j].size - asize >= MIN_BLOCK then Pushed(Unlinked(old(lists), c, t), view[j + 1])
                       else Unlinked(old(lists), c, t))
      ensures lists == PlacedLists(old(view), old(lists), j, asize)
    {
      ghost var ls';
      ls' := PlaceBlock(lib, view, lists, j, bp, asize);
      view := Placed(view, j, asize);
      lists := ls';
    }

    /** coalesce on the free block k, the only free block off the lists. */
    method Coalesce(ghost k: nat, bp: nat) returns (r: nat)
      requires 1 <= k < |view| && view[k].bp == bp && view[k].free
      requires HeapOk(lib.mem, view, lists, bp, {view[k]}) && heapListp == NULL && classListp == ROOTS
      modifies this, lib
      ensures Valid() && |lib.mem| == |old(lib.mem)| && heapListp == old(heapListp)
      ensures view == Coalesced(old(view), k)
      ensures var lo := CoalesceLo(old(view), k);
        && lo < |view| && r == view[lo].bp && r == old(view)[lo].bp && view[lo].free
        && view[lo].size == SumSizes(old(view)[lo..CoalesceHi(old(view), k)])
        && old(view)[k].size <= view[lo].size
        && lists[ClassOf(view[lo].size)] != [] && lists[ClassOf(view[lo].size)][0] == view[lo]
      ensures view == old(view) ==> lists == Pushed(old(lists), view[k])
      ensures lists == CoalescedLists(old(view), old(lists), k)
      ensures Allocs(view) == old(Allocs(view))
      ensures Untouched(old(lib.mem), lib.mem, old(Allocs(view)))
    {
      ghost var ls';
      r, ls' := CoalesceBlock(lib, view, lists, k, bp);
      view := Coalesced(view, k);
      lists := ls';
    }

    /** mm_malloc: NULL for a zero request; otherwise find_fit's block, or
        else a block from an extension by exactly the rounded request; NULL
        only when no free block fits and the heap cannot grow by that
        much. */
    method Malloc(size: nat) returns (r: nat)
      requires Valid()
      modifies this, lib
      ensures Valid() && heapListp == old(heapListp)
      ensures Untouched(old(lib.mem), lib.mem, old(Allocs(view)))
      ensures size == 0 ==> r == NULL && lib.mem == old(lib.mem) && view == old(view) && lists == old(lists)
      ensures size > 0 && r != NULL ==> Granted(old(Allocs(view)), Allocs(view), r, AdjustSize(size))
      ensures size > 0 ==>
        var asize := AdjustSize(size);
        var c := FitClass(old(lists), ClassOf(asize), asize);
        c < LISTLIMIT ==> r == old(lists)[c][FitFrom(old(lists)[c], 0, asize)].bp
      ensures size > 0 && r == NULL ==>
        && MallocFails(old(view), |old(lib.mem)|, lib.capacity, AdjustSize(size))
        && lib.mem == old(lib.mem) && view == old(view) && lists == old(lists)
      ensures size > 0 && r != NULL ==>
        Malloced(old(view), old(lists), |old(lib.mem)|, AdjustSize(size), view, lists)
    {
      if size == 0 {
        UntouchedSelf(lib.mem, view, PROLOGUE);
        return NULL;
      }
      var asize := AdjustSize(size);
      ghost var v0 := view;
      ghost var m0 := lib.mem;
      SegFitMeaning(lib.mem, view, lists, asize);
      Payloads(m0, view, PROLOGUE);
      r := FindFit(asize);
      ghost var c := FitClass(lists, ClassOf(asize), asize);
      if c < LISTLIMIT {
        ghost var k := FitFrom(lists[c], 0, asize);
        assert ClassOk(lib.mem, view, lists, c, {});
        ghost var j := NodeFacts(lib.mem, view, PROLOGUE, lists[c], k);
        assert r == view[j].bp && r != NULL;
      }
      ghost var l0 := lists;
      if r != NULL {
        ghost var k := FitFrom(lists[c], 0, asize);
        ghost var j := NodeFacts(lib.mem, view, PROLOGUE, lists[c], k);
        PlacedAllocs(view, j, asize);
        Place(j, r, asize);
        assert 1 <= j < |v0| && v0[j] == l0[c][k] && asize <= v0[j].size;
        return;
      }
      Quarter(asize);
      r := ExtendHeap(asize / WSIZE);
      if r != NULL {
        ghost var j := CoalesceLo(v0 + [Blk(|m0|, WSIZE * (asize / WSIZE), true)], |v0|);
        ghost var m1 := lib.mem;
        Payloads(m1, view, PROLOGUE);
        PlacedAllocs(view, j, asize);
        Place(j, r, asize);
        UntouchedTrans(m0, m1, lib.mem, Allocs(v0), Allocs(v0));
      }
    }

    /** mm_free: the block keeps its size and becomes free, then coalesces. */
    method Free(bp: nat)
      requires Valid() && Allocated(view, bp)
      modifies this, lib
      ensures Valid() && |lib.mem| == |old(lib.mem)| && heapListp == old(heapListp)
      ensures Released(old(Allocs(view)), Allocs(view), bp)
      ensures Untouched(old(lib.mem), lib.mem, Allocs(view))
      ensures Freed(old(view), old(lists), bp, view, lists)
    {
      ghost var b := BlockAt(view, bp);
      ghost var k := InAllocs(view, b);
      ghost var m0 := lib.mem;
      ghost var v0 := view;
      ghost var l0 := lists;
      FreeOk(m0, view, lists, k);
      FreeTags(lib, b, bp);
      ghost var m1 := lib.mem;
      view := Retagged(view, k, true);
      var _ := Coalesce(k, bp);
      assert view == Coalesced(Retagged(v0, k, true), k);
      assert lists == CoalescedLists(Retagged(v0, k, true), l0, k);
      UntouchedTrans(m0, m1, lib.mem, Allocs(view), Allocs(view));
    }

    /** The in-place growth of mm_realloc into the free block after block k. */
    method GrowInPlace(ghost k: nat, bp: nat, size: nat, oldSize: nat, nextSize: nat)
      requires Valid() && 1 <= k && k + 1 < |view| && view[k].bp == bp && !view[k].free && view[k + 1].free
      requires oldSize == view[k].size && nextSize == view[k + 1].size
      requires size > 0 && size + DSIZE <= oldSize + nextSize
      modifies this, lib
      ensures Valid() && heapListp == old(heapListp) && |lib.mem| == |old(lib.mem)|
      ensures view == MergeView(old(view), k, k + 2, false)
      ensures var c := ClassOf(nextSize);
        exists t :: 0 <= t < |old(lists)[c]| && old(lists)[c][t] == old(view)[k + 1] && lists == Unlinked(old(lists), c, t)
      ensures lists == WithoutAll(old(lists), {old(view)[k + 1]})
      ensures var ob := old(view)[k];
        && Granted(old(Allocs(view)) - {ob}, Allocs(view), bp, AdjustSize(size))
        && Preserved(old(lib.mem), lib.mem, bp, bp, PayloadWords(ob))
      ensures Untouched(old(lib.mem), lib.mem, old(Allocs(view)) * Allocs(view))
    {
      ghost var ob := view[k];
      ghost var v0 := view;
      GrownGranted(lib.mem, view, k, size);
      ghost var ls' := GrowBlock(lib, view, lists, k, bp, oldSize, nextSize);
      view := MergeView(view, k, k + 2, false);
      lists := ls';
    }

    /** The moving path of mm_realloc for block k, too small for size: a
        malloc, a memcpy of the whole old block, and a free of the old one. */
    method Relocate(ghost k: nat, bp: nat, size: nat) returns (r: nat, ghost v1: seq<Blk>, ghost l1: seq<seq<Blk>>)
      requires Valid() && 1 <= k < |view| && view[k].bp == bp && !view[k].free
      requires size > 0 && view[k].size < size + DSIZE
      modifies this, lib
      ensures Valid() && heapListp == old(heapListp)
      ensures r == NULL ==> Allocs(view) == old(Allocs(view)) && lib.mem == old(lib.mem)
      ensures r == NULL ==>
        MallocFails(old(view), |old(lib.mem)|, lib.capacity, AdjustSize(size)) && view == old(view) && lists == old(lists)
      ensures var asize := AdjustSize(size);
        var c := FitClass(old(lists), ClassOf(asize), asize);
        c < LISTLIMIT ==> r == old(lists)[c][FitFrom(old(lists)[c], 0, asize)].bp
      ensures r != NULL ==>
        && Malloced(old(view), old(lists), |old(lib.mem)|, AdjustSize(size), v1, l1)
        && Freed(v1, l1, bp, view, lists)
      ensures var ob := old(view)[k];
        r != NULL ==>
        && Granted(old(Allocs(view)) - {ob}, Allocs(view), r, AdjustSize(size))
        && Preserved(old(lib.mem), lib.mem, bp, r, PayloadWords(ob))
      ensures Untouched(old(lib.mem), lib.mem, old(Allocs(view)) * Allocs(view))
    {
      ghost var ob := view[k];
      ghost var a0 := Allocs(view);
      ghost var m0 := lib.mem;
      assert ob in a0;
      Payloads(m0, view, PROLOGUE);
      assert Fits(m0, view, k);
      var newp := Malloc(size);
      v1, l1 := view, lists;
      if newp == NULL {
        return NULL, v1, l1;
      }
      ghost var nb := GrantedBlock(a0, Allocs(view), newp, AdjustSize(size));
      ghost var a1 := Allocs(view);
      ghost var i := InAllocs(view, ob);
      ghost var j := InAllocs(view, nb);
      Payloads(lib.mem, view, PROLOGUE);
      AdjustSizeAbove(size, ob.size);
      ghost var m1 := lib.mem;
      CopyBlock(lib, view, i, j, bp, newp);
      ghost var m2 := lib.mem;
      PreservedFewer(m1, m2, bp, newp, ob.size / WSIZE, PayloadWords(ob));
      CopyOk(m1, m2, view, lists, j);
      Free(bp);
      r := newp;
      MovedWhole(m0, m1, m2, lib.mem, a0, a1, Allocs(view), v1, ob, nb, size);
      assert Freed(v1, l1, bp, view, lists);
    }

    /** mm_realloc after its size-0 and NULL checks, for the allocated block
        k: the block itself when it already holds size + DSIZE bytes, or
        when the free block after it makes up the rest (taken off its list,
        the two become one allocated block); else a fresh malloc, a copy of
        the whole old block, and a free of the old one. */
    method Resize(ghost k: nat, bp: nat, size: nat) returns (r: nat)
      requires Valid() && 1 <= k < |view| && view[k].bp == bp && !view[k].free && size > 0
      modifies this, lib
      ensures Valid() && heapListp == old(heapListp)
      ensures r == NULL ==> Allocs(view) == old(Allocs(view)) && lib.mem == old(lib.mem)
      ensures r == NULL ==>
        MallocFails(old(view), |old(lib.mem)|, lib.capacity, AdjustSize(size)) && view == old(view) && lists == old(lists)
      ensures Moves(old(view), old(view)[k], size) ==>
        var asize := AdjustSize(size);
        var c := FitClass(old(lists), ClassOf(asize), asize);
        c < LISTLIMIT ==> r == old(lists)[c][FitFrom(old(lists)[c], 0, asize)].bp
      ensures var ob := old(view)[k];
        r != NULL ==>
        && Granted(old(Allocs(view)) - {ob}, Allocs(view), r, AdjustSize(size))
        && Preserved(old(lib.mem), lib.mem, bp, r, PayloadWords(ob))
      ensures size + DSIZE <= old(view)[k].size ==>
        r == bp && lib.mem == old(lib.mem) && view == old(view) && lists == old(lists)
      ensures old(view)[k].size < size + DSIZE && GrowsInPlace(old(view), old(view)[k], size) ==>
        && r == bp && |lib.mem| == |old(lib.mem)| && k + 1 < |old(view)|
        && view == MergeView(old(view), k, k + 2, false)
        && lists == WithoutAll(old(lists), {old(view)[k + 1]})
      ensures r != NULL && Moves(old(view), old(view)[k], size) ==>
        exists v1, l1 ::
          Malloced(old(view), old(lists), |old(lib.mem)|, AdjustSize(size), v1, l1)
          && Freed(v1, l1, bp, view, lists)
      ensures Untouched(old(lib.mem), lib.mem, old(Allocs(view)) * Allocs(view))
    {
      ghost var ob := view[k];
      assert ob in Allocs(view);
      Payloads(lib.mem, view, PROLOGUE);
      var oldSize, nextSize, nextAlloc := NextTags(lib, view, k, bp);
      if size + 2 * WSIZE <= oldSize {
        assert Fits(lib.mem, view, k);
        AdjustSizeWithin(size, oldSize);
        UntouchedSelf(lib.mem, view, PROLOGUE);
        assert Allocs(view) == Allocs(view) - {ob} + {ob};
        return bp;
      }
      forall k' | 1 <= k' < |view| && view[k'] == ob ensures k' == k {
      }
      if nextAlloc == 0 && size + 2 * WSIZE <= oldSize + nextSize {
        GrowInPlace(k, bp, size, oldSize, nextSize);
        return bp;
      }
      ghost var v1, l1;
      r, v1, l1 := Relocate(k, bp, size);
    }

    /** mm_realloc: size 0 frees and returns NULL; a NULL block mallocs;
        otherwise the block is resized as `Resize` says. */
    method Realloc(bp: nat, size: nat) returns (r: nat)
      requires Valid()
      requires bp != NULL ==> Allocated(view, bp)
      requires bp == NULL ==> size > 0
      modifies this, lib
      ensures Valid() && heapListp == old(heapListp)
      ensures size == 0 ==> r == NULL && Released(old(Allocs(view)), Allocs(view), bp)
      ensures size == 0 ==> Freed(old(view), old(lists), bp, view, lists)
      ensures bp == NULL && r != NULL ==> Granted(old(Allocs(view)), Allocs(view), r, AdjustSize(size))
      ensures bp == NULL && r != NULL ==>
        Malloced(old(view), old(lists), |old(lib.mem)|, AdjustSize(size), view, lists)
      ensures r == NULL && size > 0 ==> Allocs(view) == old(Allocs(view)) && lib.mem == old(lib.mem)
      ensures r == NULL && size > 0 ==>
        MallocFails(old(view), |old(lib.mem)|, lib.capacity, AdjustSize(size)) && view == old(view) && lists == old(lists)
      ensures size > 0 && (bp == NULL || Moves(old(view), BlockAt(old(view), bp), size)) ==>
        var asize := AdjustSize(size);
        var c := FitClass(old(lists), ClassOf(asize), asize);
        c < LISTLIMIT ==> r == old(lists)[c][FitFrom(old(lists)[c], 0, asize)].bp
      ensures bp != NULL && size > 0 && r != NULL ==>
        var ob := BlockAt(old(view), bp);
        && Granted(old(Allocs(view)) - {ob}, Allocs(view), r, AdjustSize(size))
        && Preserved(old(lib.mem), lib.mem, bp, r, PayloadWords(ob))
      ensures bp != NULL && size > 0 && size + DSIZE <= BlockAt(old(view), bp).size ==>
        r == bp && lib.mem == old(lib.mem) && view == old(view) && lists == old(lists)
      ensures bp != NULL && size > 0 && BlockAt(old(view), bp).size < size + DSIZE
              && GrowsInPlace(old(view), BlockAt(old(view), bp), size) ==>
        && r == bp && |lib.mem| == |old(lib.mem)|
        && exists k ::
          && 1 <= k && k + 1 < |old(view)| && old(view)[k].bp == bp
          && view == MergeView(old(view), k, k + 2, false)
          && lists == WithoutAll(old(lists), {old(view)[k + 1]})
      ensures bp != NULL && size > 0 && r != NULL && Moves(old(view), BlockAt(old(view), bp), size) ==>
        exists v1, l1 ::
          Malloced(old(view), old(lists), |old(lib.mem)|, AdjustSize(size), v1, l1)
          && Freed(v1, l1, bp, view, lists)
      ensures Untouched(old(lib.mem), lib.mem, old(Allocs(view)) * Allocs(view))
    {
      if size == 0 {
        Free(bp);
        return NULL;
      }
      if bp == NULL {
        r := Malloc(size);
        return;
      }
      ghost var k := InAllocs(view, BlockAt(view, bp));
      r := Resize(k, bp, size);
    }
  }
}
