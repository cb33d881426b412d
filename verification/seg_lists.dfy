/** The segregated free lists of mm.c: LISTLIMIT doubly linked lists, one
    per size class, last in first out and ending in NULL.  Their roots are
    the LISTLIMIT words of the prologue's payload: GET_ROOT(c) is the word
    class_listp + c, and class_listp is word 2.  A free block is on the list
    of the class of its size.  The lists are the ghost sequence `ls`, one
    list per class, head first. */
module SegLists {
  import opened BoundaryTags
  import opened HeapLayout
  import opened HeapEdits
  import opened FreeBlocks
  import opened FreeLinks
  import opened SizeClasses
  import opened Memory

  /** The prologue: its header, the LISTLIMIT roots and its footer. */
  const PROLOGUE: nat := (LISTLIMIT + 2) * WSIZE

  /** class_listp, the word of the first root. */
  const ROOTS: nat := 2

  /** The blocks of s in size class c. */
  ghost function InClass(s: set<Blk>, c: nat): set<Blk>
  {
    set b | b in s && ClassOf(b.size) == c
  }

  /** List c is linked in m, ends in NULL, starts at root c, repeats no
      block and holds exactly the free blocks of class c not in `out` (the
      blocks an operation has taken off the lists for the moment). */
  ghost predicate ClassOk(m: seq<nat>, view: seq<Blk>, ls: seq<seq<Blk>>, c: nat, out: set<Blk>)
    requires c < |ls|
  {
    && ROOTS + c < |m| && m[ROOTS + c] == Head(ls[c], NULL)
    && Linked(m, ls[c], NULL) && Distinct(ls[c])
    && Elems(ls[c]) == InClass(Frees(view), c) - out
  }

  /** Every list but list c is in order. */
  ghost predicate OthersOk(m: seq<nat>, view: seq<Blk>, ls: seq<seq<Blk>>, c: nat, out: set<Blk>)
  {
    && |ls| == LISTLIMIT
    && forall d :: 0 <= d < LISTLIMIT && d != c ==> ClassOk(m, view, ls, d, out)
  }

  /** All LISTLIMIT lists are in order. */
  ghost predicate ListsOk(m: seq<nat>, view: seq<Blk>, ls: seq<seq<Blk>>, out: set<Blk>)
  {
    && |ls| == LISTLIMIT
    && forall c :: 0 <= c < LISTLIMIT ==> ClassOk(m, view, ls, c, out)
  }

  /** The prologue spans the padding word's successor to word 16; its payload
      words, the roots, are scratch. */
  lemma RootFacts(m: seq<nat>, view: seq<Blk>, c: nat)
    requires Layout(m, view, PROLOGUE) && c < LISTLIMIT
    ensures End(view[0]) == 16 && 16 <= |m|
    ensures Scratch(view, ROOTS + c)
  {
    assert Fits(m, view, 0);
    assert Inside(view[0], ROOTS + c);
  }

  /** Splitting ListsOk at list c, and joining it back. */
  lemma Split(m: seq<nat>, view: seq<Blk>, ls: seq<seq<Blk>>, c: nat, out: set<Blk>)
    requires ListsOk(m, view, ls, out) && c < LISTLIMIT
    ensures OthersOk(m, view, ls, c, out) && ClassOk(m, view, ls, c, out)
  {
  }

  lemma Join(m: seq<nat>, view: seq<Blk>, ls: seq<seq<Blk>>, c: nat, out: set<Blk>)
    requires OthersOk(m, view, ls, c, out) && c < LISTLIMIT && ClassOk(m, view, ls, c, out)
    ensures ListsOk(m, view, ls, out)
  {
  }

  /** The nodes of a list of class c are free blocks of class c. */
  lemma ClassNodes(m: seq<nat>, view: seq<Blk>, ls: seq<seq<Blk>>, c: nat, out: set<Blk>)
    requires c < |ls| && ClassOk(m, view, ls, c, out)
    ensures Elems(ls[c]) <= Frees(view)
    ensures forall i :: 0 <= i < |ls[c]| ==> ClassOf(ls[c][i].size) == c && ls[c][i] !in out
  {
    forall i | 0 <= i < |ls[c]| ensures ClassOf(ls[c][i].size) == c && ls[c][i] !in out {
      assert ls[c][i] in Elems(ls[c]);
    }
  }

  /** A free block not on list xs has link words apart from all of its
      nodes', beyond the prologue. */
  lemma OtherClear(m: seq<nat>, view: seq<Blk>, xs: seq<Blk>, b: Blk)
    requires Layout(m, view, PROLOGUE) && Elems(xs) <= Frees(view)
    requires b in Frees(view) && b !in Elems(xs)
    ensures Clear(xs, b.bp, b.bp + 2) && End(view[0]) <= b.bp
  {
    var a :| 1 <= a < |view| && view[a].free && view[a] == b;
    Ordered(m, view, PROLOGUE, 0, a);
    assert Fits(m, view, a);
    forall i | 0 <= i < |xs| ensures xs[i].bp + 2 <= b.bp || b.bp + 2 <= xs[i].bp {
      var e := NodeFacts(m, view, PROLOGUE, xs, i);
      assert xs[i] in Elems(xs);
      if e < a {
        Ordered(m, view, PROLOGUE, e, a);
      } else if a < e {
        Ordered(m, view, PROLOGUE, a, e);
      }
    }
  }

  /** A write to root c, or to a link word of a free block of class c,
      leaves every other list as it is.  The layout is read in m0, which
      places the same blocks as m. */
  lemma OthersWrite(m0: seq<nat>, m: seq<nat>, view: seq<Blk>, ls: seq<seq<Blk>>, c: nat, out: set<Blk>,
                    b: Blk, p: nat, v: nat)
    requires Layout(m0, view, PROLOGUE) && OthersOk(m, view, ls, c, out) && c < LISTLIMIT && p < |m|
    requires p == ROOTS + c || (b in Frees(view) && ClassOf(b.size) == c && b.bp <= p <= b.bp + 1)
    ensures OthersOk(m[p := v], view, ls, c, out)
  {
    var m' := m[p := v];
    RootFacts(m0, view, c);
    if p != ROOTS + c {
      var _ := NodeFactsOf(m0, view, b);
    }
    forall d | 0 <= d < LISTLIMIT && d != c ensures ClassOk(m', view, ls, d, out) {
      assert ClassOk(m, view, ls, d, out);
      ClassNodes(m, view, ls, d, out);
      NodesApart(m0, view, PROLOGUE, ls[d]);
      if p == ROOTS + c {
        LinkedKept(m, m', ls[d], NULL, ROOTS + c, ROOTS + c + 1);
      } else {
        assert b !in Elems(ls[d]);
        OtherClear(m0, view, ls[d], b);
        LinkedKept(m, m', ls[d], NULL, b.bp, b.bp + 2);
      }
    }
  }

  /** Taking a block of class c off the lists, or putting it back, is
      nothing to the other lists. */
  lemma OthersOut(m: seq<nat>, view: seq<Blk>, ls: seq<seq<Blk>>, c: nat, out: set<Blk>, out': set<Blk>, b: Blk)
    requires OthersOk(m, view, ls, c, out) && ClassOf(b.size) == c
    requires out' == out + {b} || out' == out - {b}
    ensures OthersOk(m, view, ls, c, out')
  {
    forall d | 0 <= d < LISTLIMIT && d != c ensures ClassOk(m, view, ls, d, out') {
      assert ClassOk(m, view, ls, d, out);
      assert InClass(Frees(view), d) - out' == InClass(Frees(view), d) - out;
    }
  }

  /** A new list c of the same standing as the old one joins the others. */
  lemma Replace(m: seq<nat>, view: seq<Blk>, ls: seq<seq<Blk>>, c: nat, out: set<Blk>, ys: seq<Blk>)
    requires OthersOk(m, view, ls, c, out) && c < LISTLIMIT
    requires ROOTS + c < |m| && m[ROOTS + c] == Head(ys, NULL) && Linked(m, ys, NULL) && Distinct(ys)
    requires Elems(ys) == InClass(Frees(view), c) - out
    ensures ListsOk(m, view, ls[c := ys], out)
  {
    var ls' := ls[c := ys];
    forall d | 0 <= d < LISTLIMIT ensures ClassOk(m, view, ls', d, out) {
      if d != c {
        assert ClassOk(m, view, ls, d, out);
      }
    }
  }

  /** Tag writes between the first header and the last footer of the run
      lo..hi-1, all of whose free blocks are off the lists, keep the lists. */
  lemma ListsKept(m: seq<nat>, m': seq<nat>, view: seq<Blk>, ls: seq<seq<Blk>>, out: set<Blk>, lo: nat, hi: nat)
    requires Layout(m, view, PROLOGUE) && ListsOk(m, view, ls, out) && 1 <= lo < hi <= |view|
    requires Elems(view[lo..hi]) * Frees(view) <= out
    requires AgreeOutside(m, m', view[lo].bp - 1, End(view[hi - 1]) - 1)
    ensures ListsOk(m', view, ls, out)
  {
    Ordered(m, view, PROLOGUE, 0, lo);
    RootFacts(m, view, 0);
    forall c | 0 <= c < LISTLIMIT ensures ClassOk(m', view, ls, c, out) {
      assert ClassOk(m, view, ls, c, out);
      RunClear(m, view, PROLOGUE, ls[c], lo, hi);
      LinkedKept(m, m', ls[c], NULL, view[lo].bp - 1, End(view[hi - 1]) - 1);
    }
  }

  /** extend_heap's writes, from the old epilogue on, keep the lists. */
  lemma ListsGrown(m: seq<nat>, m': seq<nat>, view: seq<Blk>, ls: seq<seq<Blk>>, out: set<Blk>)
    requires Layout(m, view, PROLOGUE) && ListsOk(m, view, ls, out)
    requires |m'| >= |m| && forall p :: 0 <= p < |m| - 1 ==> m'[p] == m[p]
    ensures ListsOk(m', view, ls, out)
  {
    RootFacts(m, view, 0);
    forall c | 0 <= c < LISTLIMIT ensures ClassOk(m', view, ls, c, out) {
      assert ClassOk(m, view, ls, c, out);
      EpilogueClear(m, view, PROLOGUE, ls[c]);
      LinkedKept(m, m', ls[c], NULL, |m| - 1, |m'|);
    }
  }

  /** The lists stand for a new view with the same free blocks on them. */
  lemma Reframe(m: seq<nat>, view: seq<Blk>, view': seq<Blk>, ls: seq<seq<Blk>>, out: set<Blk>, out': set<Blk>)
    requires ListsOk(m, view, ls, out) && Frees(view') - out' == Frees(view) - out
    ensures ListsOk(m, view', ls, out')
  {
    forall c | 0 <= c < LISTLIMIT ensures ClassOk(m, view', ls, c, out') {
      assert ClassOk(m, view, ls, c, out);
      forall x | x in InClass(Frees(view'), c) - out' ensures x in InClass(Frees(view), c) - out {
        assert x in Frees(view') - out';
      }
      forall x | x in InClass(Frees(view), c) - out ensures x in InClass(Frees(view'), c) - out' {
        assert x in Frees(view) - out;
      }
    }
  }

  // ---------------------------------------------------------------------
  // putFreeBlock

  /** The words putFreeBlock reads and writes for the free block b, off the
      lists: its own header and link words, root c and, when list c is not
      empty, the predecessor word of its head. */
  lemma PushReads(m: seq<nat>, view: seq<Blk>, ls: seq<seq<Blk>>, out: set<Blk>, b: Blk)
    requires Layout(m, view, PROLOGUE) && ListsOk(m, view, ls, out) && b in out && b in Frees(view)
    ensures var c := ClassOf(b.size);
      && Tagged(m, b) && b.bp + 1 < |m| && ROOTS + c < |m| && Head(ls[c], NULL) < |m|
      && m[ROOTS + c] == Head(ls[c], NULL)
      && (ls[c] == [] <==> Head(ls[c], NULL) == NULL)
      && (ls[c] != [] ==> ls[c][0] in Frees(view) && ClassOf(ls[c][0].size) == c)
      && End(view[0]) <= b.bp
      && Spaced(ls[c]) && Clear(ls[c], b.bp, b.bp + 2)
  {
    var c := ClassOf(b.size);
    assert ClassOk(m, view, ls, c, out);
    ClassNodes(m, view, ls, c, out);
    NodesApart(m, view, PROLOGUE, ls[c]);
    var e := NodeFactsOf(m, view, b);
    assert b !in Elems(ls[c]);
    OtherClear(m, view, ls[c], b);
    RootFacts(m, view, c);
    if ls[c] != [] {
      var _ := NodeFacts(m, view, PROLOGUE, ls[c], 0);
      assert ls[c][0] in Elems(ls[c]);
    }
  }

  /** A free block's tags are in place and it has room for both links. */
  lemma NodeFactsOf(m: seq<nat>, view: seq<Blk>, b: Blk) returns (a: nat)
    requires Layout(m, view, PROLOGUE) && b in Frees(view)
    ensures 1 <= a < |view| && view[a] == b && Tagged(m, b) && b.bp + 4 <= End(b) <= |m|
    ensures Scratch(view, b.bp) && Scratch(view, b.bp + 1)
  {
    a := NodeFacts(m, view, PROLOGUE, [b], 0);
  }

  /** putFreeBlock's writes: SUCC_FREEP(bp) = root, PRED_FREEP(bp) = NULL,
      PRED_FREEP(root) = bp when the root is not NULL, root = bp. */
  lemma PushWrites(m: seq<nat>, m1: seq<nat>, m2: seq<nat>, m3: seq<nat>, m4: seq<nat>,
                   view: seq<Blk>, ls: seq<seq<Blk>>, out: set<Blk>, b: Blk)
    requires Layout(m, view, PROLOGUE) && ListsOk(m, view, ls, out) && b in out && b in Frees(view)
    requires var c := ClassOf(b.size);
      && b.bp + 1 < |m| && Head(ls[c], NULL) < |m| && ROOTS + c < |m|
      && m1 == m[b.bp + 1 := Head(ls[c], NULL)] && m2 == m1[b.bp := NULL]
      && m3 == (if ls[c] == [] then m2 else m2[Head(ls[c], NULL) := b.bp])
      && m4 == m3[ROOTS + c := b.bp]
    ensures var c := ClassOf(b.size);
      ListsOk(m4, view, ls[c := [b] + ls[c]], out - {b})
    ensures Layout(m4, view, PROLOGUE) && |m4| == |m| && Untouched(m, m4, Allocs(view))
  {
    var c := ClassOf(b.size);
    var xs := ls[c];
    PushReads(m, view, ls, out, b);
    PushLayout(m, m1, m2, m3, m4, view, ls, out, b);
    Split(m, view, ls, c, out);
    OthersWrite(m, m, view, ls, c, out, b, b.bp + 1, Head(xs, NULL));
    OthersWrite(m, m1, view, ls, c, out, b, b.bp, NULL);
    if xs != [] {
      OthersWrite(m, m2, view, ls, c, out, xs[0], xs[0].bp, b.bp);
    }
    OthersWrite(m, m3, view, ls, c, out, b, ROOTS + c, b.bp);
    OthersOut(m4, view, ls, c, out, out - {b}, b);
    assert ClassOk(m, view, ls, c, out);
    ClassNodes(m, view, ls, c, out);
    LinkedPush(m, xs, NULL, b);
    assert b !in Elems(xs);
    PushElems(xs, b);
    NodesApart(m, view, PROLOGUE, [b] + xs);
    LinkedKept(m3, m4, [b] + xs, NULL, ROOTS + c, ROOTS + c + 1);
    Replace(m4, view, ls, c, out - {b}, [b] + xs);
  }

  /** putFreeBlock writes only scratch words. */
  lemma PushLayout(m: seq<nat>, m1: seq<nat>, m2: seq<nat>, m3: seq<nat>, m4: seq<nat>,
                   view: seq<Blk>, ls: seq<seq<Blk>>, out: set<Blk>, b: Blk)
    requires Layout(m, view, PROLOGUE) && ListsOk(m, view, ls, out) && b in out && b in Frees(view)
    requires var c := ClassOf(b.size);
      && b.bp + 1 < |m| && Head(ls[c], NULL) < |m| && ROOTS + c < |m|
      && m1 == m[b.bp + 1 := Head(ls[c], NULL)] && m2 == m1[b.bp := NULL]
      && m3 == (if ls[c] == [] then m2 else m2[Head(ls[c], NULL) := b.bp])
      && m4 == m3[ROOTS + c := b.bp]
    ensures Layout(m4, view, PROLOGUE) && |m4| == |m| && Untouched(m, m4, Allocs(view))
  {
    var c := ClassOf(b.size);
    var xs := ls[c];
    var _ := NodeFactsOf(m, view, b);
    RootFacts(m, view, c);
    ScratchWrite(m, view, PROLOGUE, b.bp + 1, Head(xs, NULL));
    ScratchWrite(m1, view, PROLOGUE, b.bp, NULL);
    if xs != [] {
      assert ClassOk(m, view, ls, c, out);
      ClassNodes(m, view, ls, c, out);
      var _ := NodeFacts(m, view, PROLOGUE, xs, 0);
      ScratchWrite(m2, view, PROLOGUE, xs[0].bp, b.bp);
    }
    ScratchWrite(m3, view, PROLOGUE, ROOTS + c, b.bp);
    UntouchedTrans(m, m1, m2, Allocs(view), Allocs(view));
    UntouchedTrans(m, m2, m3, Allocs(view), Allocs(view));
    UntouchedTrans(m, m3, m4, Allocs(view), Allocs(view));
  }

  /** putFreeBlock on the free block b at bp, off the lists: b becomes the
      head of the list of its class. */
  method PushBlock(lib: MemLib, ghost view: seq<Blk>, ghost ls: seq<seq<Blk>>, ghost out: set<Blk>,
                   ghost b: Blk, bp: nat)
    requires Layout(lib.mem, view, PROLOGUE) && ListsOk(lib.mem, view, ls, out)
    requires b in out && b in Frees(view) && b.bp == bp
    modifies lib
    ensures var c := ClassOf(b.size);
      ListsOk(lib.mem, view, ls[c := [b] + ls[c]], out - {b})
    ensures Layout(lib.mem, view, PROLOGUE) && |lib.mem| == |old(lib.mem)|
    ensures Untouched(old(lib.mem), lib.mem, Allocs(view))
  {
    ghost var m := lib.mem;
    PushReads(m, view, ls, out, b);
    TagReads(m, b);
    var c := GetClass(SizeOf(lib.Get(Hdrp(bp))));
    lib.Put(bp + 1, lib.Get(ROOTS + c));
    ghost var m1 := lib.mem;
    lib.Put(bp, NULL);
    ghost var m2 := lib.mem;
    if lib.Get(ROOTS + c) != NULL {
      lib.Put(lib.Get(ROOTS + c), bp);
    }
    ghost var m3 := lib.mem;
    lib.Put(ROOTS + c, bp);
    PushWrites(m, m1, m2, m3, lib.mem, view, ls, out, b);
  }

  // ---------------------------------------------------------------------
  // removeBlock

  /** removeBlock on the node t of list c at bp: when bp is the root, the
      root moves to its successor; otherwise its predecessor's successor
      word skips it and, when it has a successor, that block's predecessor
      word points back past it. */
  method UnlinkBlock(lib: MemLib, ghost view: seq<Blk>, ghost ls: seq<seq<Blk>>, ghost out: set<Blk>,
                     ghost c: nat, ghost t: nat, bp: nat)
    requires Layout(lib.mem, view, PROLOGUE) && ListsOk(lib.mem, view, ls, out)
    requires c < LISTLIMIT && t < |ls[c]| && ls[c][t].bp == bp
    modifies lib
    ensures ClassOf(ls[c][t].size) == c && ls[c][t] in Frees(view) && ls[c][t] !in out
    ensures ListsOk(lib.mem, view, ls[c := Remove(ls[c], t)], out + {ls[c][t]})
    ensures Layout(lib.mem, view, PROLOGUE) && |lib.mem| == |old(lib.mem)|
    ensures Untouched(old(lib.mem), lib.mem, Allocs(view))
  {
    ghost var xs := ls[c];
    assert ClassOk(lib.mem, view, ls, c, out);
    ClassNodes(lib.mem, view, ls, c, out);
    NodesApart(lib.mem, view, PROLOGUE, xs);
    var _ := NodeFacts(lib.mem, view, PROLOGUE, xs, t);
    TagReads(lib.mem, xs[t]);
    RootFacts(lib.mem, view, c);
    var cls := GetClass(SizeOf(lib.Get(Hdrp(bp))));
    assert cls == c;
    HeadIndex(xs, t);
    RemoveElems(xs, t);
    Split(lib.mem, view, ls, c, out);
    if bp == lib.Get(ROOTS + cls) {
      UnlinkFirst(lib, view, ls, out, cls, bp);
      assert Remove(xs, 0) == xs[1..];
    } else {
      UnlinkInner(lib, view, ls, out, c, t, bp);
    }
  }

  /** removeBlock on the root of list c: GET_ROOT(c) = SUCC_FREEP(bp).  The
      new head's predecessor word still names bp. */
  method UnlinkFirst(lib: MemLib, ghost view: seq<Blk>, ghost ls: seq<seq<Blk>>, ghost out: set<Blk>,
                     c: nat, bp: nat)
    requires Layout(lib.mem, view, PROLOGUE) && OthersOk(lib.mem, view, ls, c, out)
    requires c < LISTLIMIT && ClassOk(lib.mem, view, ls, c, out) && 0 < |ls[c]| && ls[c][0].bp == bp
    modifies lib
    ensures ListsOk(lib.mem, view, ls[c := ls[c][1..]], out + {ls[c][0]})
    ensures Layout(lib.mem, view, PROLOGUE) && |lib.mem| == |old(lib.mem)|
    ensures Untouched(old(lib.mem), lib.mem, Allocs(view))
  {
    ghost var m := lib.mem;
    ghost var xs := ls[c];
    ClassNodes(m, view, ls, c, out);
    assert Node(m, xs, 0, NULL);
    RootFacts(m, view, c);
    var _ := NodeFacts(m, view, PROLOGUE, xs, 0);
    lib.Put(ROOTS + c, lib.Get(bp + 1));
    ScratchWrite(m, view, PROLOGUE, ROOTS + c, m[bp + 1]);
    PopWrites(m, lib.mem, view, ls, out, c);
  }

  /** The root write of removeBlock on the head of list c. */
  lemma PopWrites(m: seq<nat>, m1: seq<nat>, view: seq<Blk>, ls: seq<seq<Blk>>, out: set<Blk>, c: nat)
    requires Layout(m, view, PROLOGUE) && OthersOk(m, view, ls, c, out)
    requires c < LISTLIMIT && ClassOk(m, view, ls, c, out) && 0 < |ls[c]|
    requires ls[c][0].bp + 1 < |m| && m1 == m[ROOTS + c := m[ls[c][0].bp + 1]]
    ensures ListsOk(m1, view, ls[c := ls[c][1..]], out + {ls[c][0]})
  {
    var xs := ls[c];
    PopList(m, m1, view, xs, c);
    ClassNodes(m, view, ls, c, out);
    RemoveElems(xs, 0);
    assert Remove(xs, 0) == xs[1..];
    OthersWrite(m, m, view, ls, c, out, xs[0], ROOTS + c, m[xs[0].bp + 1]);
    OthersOut(m1, view, ls, c, out, out + {xs[0]}, xs[0]);
    Replace(m1, view, ls, c, out + {xs[0]}, xs[1..]);
  }

  /** Root c moved to the successor of the head spells out the rest of
      the list. */
  lemma PopList(m: seq<nat>, m1: seq<nat>, view: seq<Blk>, xs: seq<Blk>, c: nat)
    requires Layout(m, view, PROLOGUE) && Elems(xs) <= Frees(view) && Distinct(xs)
    requires c < LISTLIMIT && Linked(m, xs, NULL) && 0 < |xs|
    requires xs[0].bp + 1 < |m| && ROOTS + c < |m| && m1 == m[ROOTS + c := m[xs[0].bp + 1]]
    ensures Linked(m1, xs[1..], NULL) && m1[ROOTS + c] == Head(xs[1..], NULL)
  {
    assert Node(m, xs, 0, NULL);
    LinkedPop(m, xs, NULL);
    RemoveElems(xs, 0);
    assert Remove(xs, 0) == xs[1..];
    RootFacts(m, view, c);
    NodesApart(m, view, PROLOGUE, xs[1..]);
    LinkedKept(m, m1, xs[1..], NULL, ROOTS + c, ROOTS + c + 1);
  }

  /** removeBlock on a node t past the root of list c. */
  method UnlinkInner(lib: MemLib, ghost view: seq<Blk>, ghost ls: seq<seq<Blk>>, ghost out: set<Blk>,
                     ghost c: nat, ghost t: nat, bp: nat)
    requires Layout(lib.mem, view, PROLOGUE) && OthersOk(lib.mem, view, ls, c, out)
    requires c < LISTLIMIT && ClassOk(lib.mem, view, ls, c, out) && 0 < t < |ls[c]| && ls[c][t].bp == bp
    modifies lib
    ensures ListsOk(lib.mem, view, ls[c := Remove(ls[c], t)], out + {ls[c][t]})
    ensures Layout(lib.mem, view, PROLOGUE) && |lib.mem| == |old(lib.mem)|
    ensures Untouched(old(lib.mem), lib.mem, Allocs(view))
  {
    ghost var m := lib.mem;
    BypassReads(m, view, ls, out, c, t);
    lib.Put(lib.Get(bp) + 1, lib.Get(bp + 1));
    ghost var m1 := lib.mem;
    if lib.Get(bp + 1) != NULL {
      lib.Put(lib.Get(bp + 1), lib.Get(bp));
    }
    BypassWrites(m, m1, lib.mem, view, ls, out, c, t);
  }

  /** The words removeBlock reads and writes on a node t past the root. */
  lemma BypassReads(m: seq<nat>, view: seq<Blk>, ls: seq<seq<Blk>>, out: set<Blk>, c: nat, t: nat)
    requires Layout(m, view, PROLOGUE) && c < |ls| && ClassOk(m, view, ls, c, out) && 0 < t < |ls[c]|
    ensures var xs := ls[c];
      && xs[t].bp + 1 < |m| && m[xs[t].bp] == xs[t - 1].bp && m[xs[t].bp + 1] == Succ(xs, t, NULL)
      && xs[t - 1].bp + 1 < |m| && Succ(xs, t, NULL) < |m|
      && (Succ(xs, t, NULL) == NULL <==> t + 1 == |xs|)
      && Spaced(xs) && LinksApart(xs, t - 1, t)
  {
    var xs := ls[c];
    ClassNodes(m, view, ls, c, out);
    NodesApart(m, view, PROLOGUE, xs);
    assert Node(m, xs, t, NULL);
    assert LinksApart(xs, t - 1, t);
    var _ := NodeFacts(m, view, PROLOGUE, xs, t);
    var _ := NodeFacts(m, view, PROLOGUE, xs, t - 1);
    if t + 1 < |xs| {
      var _ := NodeFacts(m, view, PROLOGUE, xs, t + 1);
    }
  }

  /** The writes of removeBlock past the root unlink node t. */
  lemma BypassWrites(m: seq<nat>, m1: seq<nat>, m2: seq<nat>, view: seq<Blk>, ls: seq<seq<Blk>>,
                     out: set<Blk>, c: nat, t: nat)
    requires Layout(m, view, PROLOGUE) && OthersOk(m, view, ls, c, out)
    requires c < LISTLIMIT && ClassOk(m, view, ls, c, out) && 0 < t < |ls[c]|
    requires var xs := ls[c];
      && xs[t - 1].bp + 1 < |m| && Succ(xs, t, NULL) < |m|
      && m1 == m[xs[t - 1].bp + 1 := Succ(xs, t, NULL)]
      && m2 == (if t + 1 < |xs| then m1[xs[t + 1].bp := xs[t - 1].bp] else m1)
    ensures ListsOk(m2, view, ls[c := Remove(ls[c], t)], out + {ls[c][t]})
    ensures Layout(m2, view, PROLOGUE) && |m2| == |m| && Untouched(m, m2, Allocs(view))
  {
    var xs := ls[c];
    BypassReads(m, view, ls, out, c, t);
    BypassLayout(m, m1, m2, view, xs, t);
    LinkedBypass(m, xs, NULL, t);
    BypassOthers(m, m1, m2, view, ls, out, c, t);
    RemoveElems(xs, t);
    RootFacts(m, view, c);
    NodesApart(m, view, PROLOGUE, xs);
    assert m2[ROOTS + c] == m[ROOTS + c];
    assert Head(Remove(xs, t), NULL) == Head(xs, NULL);
    Replace(m2, view, ls, c, out + {xs[t]}, Remove(xs, t));
  }

  /** removeBlock's writes past the root keep every other list. */
  lemma BypassOthers(m: seq<nat>, m1: seq<nat>, m2: seq<nat>, view: seq<Blk>, ls: seq<seq<Blk>>,
                     out: set<Blk>, c: nat, t: nat)
    requires Layout(m, view, PROLOGUE) && OthersOk(m, view, ls, c, out)
    requires c < LISTLIMIT && ClassOk(m, view, ls, c, out) && 0 < t < |ls[c]|
    requires var xs := ls[c];
      && xs[t - 1].bp + 1 < |m| && (t + 1 < |xs| ==> xs[t + 1].bp < |m|)
      && m1 == m[xs[t - 1].bp + 1 := Succ(xs, t, NULL)]
      && m2 == (if t + 1 < |xs| then m1[xs[t + 1].bp := xs[t - 1].bp] else m1)
    ensures OthersOk(m2, view, ls, c, out + {ls[c][t]})
  {
    var xs := ls[c];
    ClassNodes(m, view, ls, c, out);
    assert xs[t - 1] in Elems(xs);
    OthersWrite(m, m, view, ls, c, out, xs[t - 1], xs[t - 1].bp + 1, Succ(xs, t, NULL));
    if t + 1 < |xs| {
      assert xs[t + 1] in Elems(xs);
      OthersWrite(m, m1, view, ls, c, out, xs[t + 1], xs[t + 1].bp, xs[t - 1].bp);
    }
    OthersOut(m2, view, ls, c, out, out + {xs[t]}, xs[t]);
  }

  /** removeBlock's writes past the root touch link words only. */
  lemma BypassLayout(m: seq<nat>, m1: seq<nat>, m2: seq<nat>, view: seq<Blk>, xs: seq<Blk>, t: nat)
    requires Layout(m, view, PROLOGUE) && Elems(xs) <= Frees(view) && 0 < t < |xs|
    requires xs[t - 1].bp + 1 < |m| && Succ(xs, t, NULL) < |m|
    requires m1 == m[xs[t - 1].bp + 1 := Succ(xs, t, NULL)]
    requires m2 == (if t + 1 < |xs| then m1[xs[t + 1].bp := xs[t - 1].bp] else m1)
    ensures Layout(m2, view, PROLOGUE) && |m2| == |m| && Untouched(m, m2, Allocs(view))
  {
    var _ := NodeFacts(m, view, PROLOGUE, xs, t - 1);
    ScratchWrite(m, view, PROLOGUE, xs[t - 1].bp + 1, Succ(xs, t, NULL));
    if t + 1 < |xs| {
      var _ := NodeFacts(m, view, PROLOGUE, xs, t + 1);
      ScratchWrite(m1, view, PROLOGUE, xs[t + 1].bp, xs[t - 1].bp);
      UntouchedTrans(m, m1, m2, Allocs(view), Allocs(view));
    }
  }

  // ---------------------------------------------------------------------
  // find_fit

  /** The first class from c on whose list holds a block of at least asize
      bytes; |ls| when there is none. */
  function FitClass(ls: seq<seq<Blk>>, c: nat, asize: nat): (r: nat)
    ensures c <= r <= |ls| || r == |ls|
    ensures r < |ls| ==> FitFrom(ls[r], 0, asize) < |ls[r]|
    decreases |ls| - c
  {
    if c >= |ls| then |ls|
    else if FitFrom(ls[c], 0, asize) < |ls[c]| then c
    else FitClass(ls, c + 1, asize)
  }

  /** FitClass is the first such class. */
  lemma {:induction false} FitClassIsFirst(ls: seq<seq<Blk>>, c: nat, asize: nat)
    requires c <= |ls|
    ensures var r := FitClass(ls, c, asize);
      && c <= r <= |ls|
      && (r < |ls| ==> FitFrom(ls[r], 0, asize) < |ls[r]|)
      && forall d :: c <= d < r ==> FitFrom(ls[d], 0, asize) == |ls[d]|
    decreases |ls| - c
  {
    if c < |ls| && FitFrom(ls[c], 0, asize) >= |ls[c]| {
      FitFromIsFirst(ls[c], 0, asize);
      FitClassIsFirst(ls, c + 1, asize);
    }
  }

  /** The block find_fit settles on, when there is one: the first fitting
      block of the first class from asize's own with a fitting block. */
  ghost predicate SegFit(ls: seq<seq<Blk>>, asize: nat, bp: nat)
  {
    var c := FitClass(ls, ClassOf(asize), asize);
    && (c < |ls| ==> bp == ls[c][FitFrom(ls[c], 0, asize)].bp)
    && (c >= |ls| ==> bp == NULL)
  }

  /** What find_fit's choice means for the heap: the block it settles on is
      a free block of at least asize bytes, in a class no lower than asize's;
      every block of the lists it passed over is smaller than asize; and it
      comes up empty exactly when no free block at all holds asize bytes,
      blocks of lower classes being smaller than asize by the class bounds. */
  lemma SegFitMeaning(m: seq<nat>, view: seq<Blk>, ls: seq<seq<Blk>>, asize: nat)
    requires ListsOk(m, view, ls, {})
    ensures var c := FitClass(ls, ClassOf(asize), asize);
      && ClassOf(asize) <= c <= LISTLIMIT
      && (c < LISTLIMIT ==>
            var k := FitFrom(ls[c], 0, asize);
            && k < |ls[c]| && ls[c][k] in Frees(view) && asize <= ls[c][k].size
            && (forall j :: 0 <= j < k ==> ls[c][j].size < asize)
            && (forall d, j :: ClassOf(asize) <= d < c && 0 <= j < |ls[d]| ==> ls[d][j].size < asize))
      && (c == LISTLIMIT <==> forall b :: b in Frees(view) ==> b.size < asize)
  {
    var c := FitClass(ls, ClassOf(asize), asize);
    FitClassIsFirst(ls, ClassOf(asize), asize);
    forall d, j | ClassOf(asize) <= d < c && 0 <= j < |ls[d]| ensures ls[d][j].size < asize {
      FitFromIsFirst(ls[d], 0, asize);
    }
    if c < LISTLIMIT {
      var k := FitFrom(ls[c], 0, asize);
      FitFromIsFirst(ls[c], 0, asize);
      assert ClassOk(m, view, ls, c, {});
      assert ls[c][k] in Elems(ls[c]);
    } else {
      forall b | b in Frees(view) ensures b.size < asize {
        var d := ClassOf(b.size);
        assert ClassOk(m, view, ls, d, {});
        assert b in Elems(ls[d]);
        var j := IndexOf(ls[d], b);
        if d < ClassOf(asize) {
          if asize <= b.size {
            ClassOfMonotone(asize, b.size);
          }
        } else {
          FitFromIsFirst(ls[d], 0, asize);
        }
      }
    }
  }
}
