/** What the public operations of all three allocators promise about the set
    of allocated blocks: a malloc adds one new block of at least the
    adjusted size, a free removes exactly the block it is given, and a
    realloc that moves trades the old block for a new one. */
module Outcomes {
  import opened BoundaryTags
  import opened HeapLayout
  import opened HeapEdits
  import opened Memory

  /** bp is the payload of an allocated ordinary block. */
  ghost predicate Allocated(view: seq<Blk>, bp: nat)
  {
    exists b :: b in Allocs(view) && b.bp == bp
  }

  /** The allocated block at bp. */
  ghost function BlockAt(view: seq<Blk>, bp: nat): (b: Blk)
    requires Allocated(view, bp)
    ensures b in Allocs(view) && b.bp == bp
  {
    var b :| b in Allocs(view) && b.bp == bp; b
  }

  /** The number of payload words of a block: all but header and footer. */
  function PayloadWords(b: Blk): nat
  {
    if b.size >= 8 then b.size / 4 - 2 else 0
  }

  /** The n words at dst in m1 are the n words that were at src in m0. */
  ghost predicate Preserved(m0: seq<nat>, m1: seq<nat>, src: nat, dst: nat, n: nat)
  {
    && (n > 0 ==> dst + n <= |m1| && src + n <= |m0|)
    && forall p :: dst <= p < dst + n ==> m1[p] == m0[src + (p - dst)]
  }

  /** `after` is `before` plus one block, new, at r, of at least asize bytes. */
  ghost predicate Granted(before: set<Blk>, after: set<Blk>, r: nat, asize: nat)
  {
    exists b: Blk :: b.bp == r && asize <= b.size && b !in before && after == before + {b}
  }

  /** `after` is `before` less its block at bp. */
  ghost predicate Released(before: set<Blk>, after: set<Blk>, bp: nat)
  {
    exists b :: b in before && b.bp == bp && after == before - {b}
  }

  /** Allocated blocks are told apart by their payload. */
  lemma AllocsUnique(view: seq<Blk>, a: Blk, b: Blk)
    requires StrictBps(view) && a in Allocs(view) && b in Allocs(view) && a.bp == b.bp
    ensures a == b
  {
    var i := InAllocs(view, a);
    var j := InAllocs(view, b);
    assert i == j;
  }

  /** The word counts realloc's copy works with: the words kept are at most
      the words copied, and the copied words fit the new block's payload. */
  lemma CopyBounds(size: nat, n: nat, osize: nat, nsize: nat)
    requires size > 0 && n == Min(size, osize) && osize % 8 == 0 && MIN_BLOCK <= osize
    requires nsize % 8 == 0 && AdjustSize(size) <= nsize
    ensures Min((size + 3) / 4, osize / 4 - 2) <= (n + 3) / 4
    ensures (size + 3) / 4 <= nsize / 4 - 2
  {
    var p, q := osize / 8, nsize / 8;
    assert osize == 8 * p && nsize == 8 * q;
    assert osize / 4 == 2 * p && nsize / 4 == 2 * q;
    if n == osize {
      assert (n + 3) / 4 == 2 * p;
    }
    var t := (size + 3) / 4;
    assert 4 * t <= size + 3 <= 8 * q - 5;
  }

  /** realloc's copy survives: malloc left the old block ob alone, memcpy
      put its first words at the start of the new block nb, and the free of
      ob left nb alone; so nb starts with min(size, payload of ob) of ob's
      payload words. */
  lemma CopyKept(m0: seq<nat>, m1: seq<nat>, m2: seq<nat>, m3: seq<nat>, ob: Blk, nb: Blk, size: nat, n: nat)
    requires size > 0 && n == Min(size, ob.size)
    requires ob.size % 8 == 0 && MIN_BLOCK <= ob.size && nb.size % 8 == 0 && AdjustSize(size) <= nb.size
    requires SameExtent(m0, m1, ob) && SameExtent(m2, m3, nb)
    requires Preserved(m1, m2, ob.bp, nb.bp, (n + 3) / 4)
    ensures Preserved(m0, m3, ob.bp, nb.bp, Min((size + 3) / 4, PayloadWords(ob)))
  {
    var c := Min((size + 3) / 4, PayloadWords(ob));
    CopyBounds(size, n, ob.size, nb.size);
    forall p | nb.bp <= p < nb.bp + c
      ensures p < |m3| && ob.bp + (p - nb.bp) < |m0| && m3[p] == m0[ob.bp + (p - nb.bp)]
    {
      assert nb.bp - 1 <= p < End(nb) - 1;
      assert m3[p] == m2[p];
      var q := ob.bp + (p - nb.bp);
      assert ob.bp - 1 <= q < End(ob) - 1;
      assert m1[q] == m0[q];
    }
  }

  /** The block a successful malloc granted. */
  lemma GrantedBlock(before: set<Blk>, after: set<Blk>, r: nat, asize: nat) returns (b: Blk)
    requires Granted(before, after, r, asize)
    ensures b.bp == r && asize <= b.size && b !in before && after == before + {b}
  {
    b :| b.bp == r && asize <= b.size && b !in before && after == before + {b};
  }

  /** The words memcpy moves fit both the old block and the new payload. */
  lemma CopyWords(size: nat, n: nat, osize: nat, nsize: nat)
    requires size > 0 && n <= size && n <= osize && osize % 8 == 0
    requires nsize % 8 == 0 && AdjustSize(size) <= nsize
    ensures (n + 3) / 4 <= osize / 4 && (n + 3) / 4 <= nsize / 4 - 2
  {
    var p, q := osize / 8, nsize / 8;
    assert osize == 8 * p && nsize == 8 * q;
    assert osize / 4 == 2 * p && nsize / 4 == 2 * q;
    var t := (n + 3) / 4;
    assert 4 * t <= n + 3 <= 8 * p + 3;
    assert 4 * t <= 8 * q - 5;
  }

  /** The words memcpy reads lie within the old block and the words it
      writes within the new block's payload; the two do not overlap. */
  lemma CopyFits(m: seq<nat>, view: seq<Blk>, prologue: nat, i: nat, j: nat, size: nat, n: nat)
    requires Layout(m, view, prologue) && 1 <= i < |view| && 1 <= j < |view| && i != j
    requires size > 0 && AdjustSize(size) <= view[j].size && n <= size && n <= view[i].size
    ensures var w := (n + 3) / 4;
      && view[i].bp + w <= End(view[i]) <= |m| && view[j].bp + w <= End(view[j]) - 2
      && (view[j].bp + w <= view[i].bp || view[i].bp + w <= view[j].bp)
      && forall p :: view[j].bp <= p < view[j].bp + w ==> Inside(view[j], p)
  {
    assert Fits(m, view, i) && Fits(m, view, j);
    CopyWords(size, n, view[i].size, view[j].size);
    if i < j {
      Ordered(m, view, prologue, i, j);
    } else {
      Ordered(m, view, prologue, j, i);
    }
  }

  /** realloc's copy: oldsize = GET_SIZE(HDRP(bp)), cut down to size, then
      memcpy(newp, bp, oldsize), rounded up to whole words.  Only the new
      block's payload changes. */
  method CopyPayload(lib: MemLib, ghost view: seq<Blk>, ghost prologue: nat, ghost i: nat, ghost j: nat,
                     bp: nat, newp: nat, size: nat) returns (ghost n: nat)
    requires Layout(lib.mem, view, prologue) && 1 <= i < |view| && 1 <= j < |view| && i != j
    requires view[i].bp == bp && view[j].bp == newp && size > 0 && AdjustSize(size) <= view[j].size
    modifies lib
    ensures n == Min(size, view[i].size)
    ensures Layout(lib.mem, view, prologue) && |lib.mem| == |old(lib.mem)|
    ensures Untouched(old(lib.mem), lib.mem, Allocs(view) - {view[j]})
    ensures Preserved(old(lib.mem), lib.mem, bp, newp, (n + 3) / 4)
    ensures AgreeOutside(old(lib.mem), lib.mem, view[j].bp, End(view[j]) - 2)
  {
    assert Fits(lib.mem, view, i) && Fits(lib.mem, view, j);
    TagReads(lib.mem, view[i]);
    var oldsize := SizeOf(lib.Get(Hdrp(bp)));
    if size < oldsize {
      oldsize := size;
    }
    n := oldsize;
    CopyFits(lib.mem, view, prologue, i, j, size, oldsize);
    ghost var m1 := lib.mem;
    lib.Copy(newp, bp, (oldsize + 3) / 4);
    CopyEffect(m1, lib.mem, view, prologue, j, bp, (oldsize + 3) / 4);
  }

  /** A copy of w words from src into block j's payload keeps the layout
      and every other block, writes nothing outside that payload, and
      leaves the copied words there. */
  lemma CopyEffect(m1: seq<nat>, m2: seq<nat>, view: seq<Blk>, prologue: nat, j: nat, src: nat, w: nat)
    requires Layout(m1, view, prologue) && 1 <= j < |view| && |m2| == |m1|
    requires view[j].bp + w <= End(view[j]) - 2 && End(view[j]) <= |m1| && src + w <= |m1|
    requires forall p :: view[j].bp <= p < view[j].bp + w ==> m2[p] == m1[src + (p - view[j].bp)]
    requires forall p :: 0 <= p < |m2| && !(view[j].bp <= p < view[j].bp + w) ==> m2[p] == m1[p]
    ensures Layout(m2, view, prologue) && Untouched(m1, m2, Allocs(view) - {view[j]})
    ensures AgreeOutside(m1, m2, view[j].bp, End(view[j]) - 2)
    ensures Preserved(m1, m2, src, view[j].bp, w)
  {
    assert Fits(m1, view, j);
    PayloadEdit(m1, m2, view, prologue, j);
  }

  /** A realloc that moved: malloc granted nb and left the old blocks alone,
      the copy touched nb only, and the free released ob and left the rest
      alone.  So the old block was traded for nb, nb starts with the old
      payload, and every block allocated before and after kept its words. */
  lemma Moved(m0: seq<nat>, m1: seq<nat>, m2: seq<nat>, m3: seq<nat>,
              a0: set<Blk>, a1: set<Blk>, a2: set<Blk>, v1: seq<Blk>, ob: Blk, nb: Blk, size: nat, n: nat)
    requires ob in a0 && nb !in a0 && a1 == a0 + {nb} && a1 == Allocs(v1) && StrictBps(v1)
    requires Released(a1, a2, ob.bp)
    requires Untouched(m0, m1, a0) && Untouched(m1, m2, a1 - {nb}) && Untouched(m2, m3, a2)
    requires size > 0 && n == Min(size, ob.size)
    requires ob.size % 8 == 0 && MIN_BLOCK <= ob.size && nb.size % 8 == 0 && AdjustSize(size) <= nb.size
    requires Preserved(m1, m2, ob.bp, nb.bp, (n + 3) / 4)
    ensures a2 == a0 - {ob} + {nb}
    ensures Granted(a0 - {ob}, a2, nb.bp, AdjustSize(size))
    ensures Preserved(m0, m3, ob.bp, nb.bp, Min((size + 3) / 4, PayloadWords(ob)))
    ensures Untouched(m0, m3, a0 * a2)
  {
    var gone :| gone in a1 && gone.bp == ob.bp && a2 == a1 - {gone};
    AllocsUnique(v1, gone, ob);
    assert a2 == a0 - {ob} + {nb};
    assert nb in a2;
    CopyKept(m0, m1, m2, m3, ob, nb, size, n);
    forall b | b in a0 * a2 ensures SameExtent(m0, m3, b) {
      assert SameExtent(m0, m1, b) && SameExtent(m1, m2, b) && SameExtent(m2, m3, b);
    }
  }
}
