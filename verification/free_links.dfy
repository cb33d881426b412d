/** The explicit free lists of mm_Explicit.c and mm.c: doubly linked lists
    threaded through the payloads of free blocks.  PRED_FREEP(bp) is the
    word at bp and SUCC_FREEP(bp) the word after it.  A list is the ghost
    sequence of its blocks, head first; the last block's successor is `end`
    (the prologue in mm_Explicit.c, NULL in mm.c).  The head's predecessor
    word is left unconstrained: mm.c does not clear it when it unlinks the
    head, and nothing reads it while the block is the head. */
module FreeLinks {
  import opened BoundaryTags
  import opened HeapLayout
  import opened HeapEdits
  import opened FreeBlocks

  /** SUCC_FREEP of node i. */
  function Succ(xs: seq<Blk>, i: nat, end: nat): nat
    requires i < |xs|
  {
    if i + 1 < |xs| then xs[i + 1].bp else end
  }

  /** The list's head pointer. */
  function Head(xs: seq<Blk>, end: nat): nat
  {
    if xs == [] then end else xs[0].bp
  }

  /** The list with node t unlinked. */
  function Remove(xs: seq<Blk>, t: nat): (r: seq<Blk>)
    requires t < |xs|
    ensures |r| == |xs| - 1
    ensures forall i :: 0 <= i < t ==> r[i] == xs[i]
    ensures forall i :: t <= i < |r| ==> r[i] == xs[i + 1]
  {
    xs[..t] + xs[t + 1..]
  }

  /** Node i's link words in m: its successor word names the next node
      (the last one `end`) and, unless it is the head, its predecessor word
      names the node before it. */
  ghost predicate Node(m: seq<nat>, xs: seq<Blk>, i: nat, end: nat)
    requires i < |xs|
  {
    && xs[i].bp + 1 < |m| && m[xs[i].bp + 1] == Succ(xs, i, end)
    && (i > 0 ==> m[xs[i].bp] == xs[i - 1].bp)
  }

  /** The link words in m spell out xs. */
  ghost predicate Linked(m: seq<nat>, xs: seq<Blk>, end: nat)
  {
    && (forall i :: 0 <= i < |xs| ==> xs[i].bp + 1 < |m|)
    && (forall i :: 0 <= i < |xs| ==> Node(m, xs, i, end))
  }

  ghost predicate Distinct(xs: seq<Blk>)
  {
    forall i, j :: 0 <= i < j < |xs| ==> xs[i] != xs[j]
  }

  /** No node has a link word in [from, to). */
  ghost predicate Clear(xs: seq<Blk>, from: int, to: int)
  {
    forall i :: 0 <= i < |xs| ==> xs[i].bp + 2 <= from || to <= xs[i].bp
  }

  /** Nodes i and j have disjoint link words. */
  ghost predicate LinksApart(xs: seq<Blk>, i: nat, j: nat)
    requires i < |xs| && j < |xs|
  {
    xs[i].bp + 2 <= xs[j].bp || xs[j].bp + 2 <= xs[i].bp
  }

  /** Different nodes have different link words. */
  ghost predicate Spaced(xs: seq<Blk>)
  {
    forall i, j :: 0 <= i < |xs| && 0 <= j < |xs| && i != j ==> LinksApart(xs, i, j)
  }

  // ---------------------------------------------------------------------
  // The list operations on the link words

  /** Writes that miss every link word keep the list. */
  lemma LinkedKept(m: seq<nat>, m': seq<nat>, xs: seq<Blk>, end: nat, from: int, to: int)
    requires Linked(m, xs, end) && Clear(xs, from, to) && |m| <= |m'|
    requires forall p :: 0 <= p < |m| && (p < from || to <= p) ==> m'[p] == m[p]
    ensures Linked(m', xs, end)
  {
    forall i | 0 <= i < |xs| ensures Node(m', xs, i, end) {
      assert Node(m, xs, i, end);
      assert xs[i].bp + 2 <= from || to <= xs[i].bp;
    }
  }

  /** putFreeBlock: SUCC_FREEP(bp) = head, PRED_FREEP(bp) = NULL and, when
      the list is not empty, PRED_FREEP(head) = bp make b the new head. */
  lemma LinkedPush(m: seq<nat>, xs: seq<Blk>, end: nat, b: Blk)
    requires Linked(m, xs, end) && Spaced(xs) && Clear(xs, b.bp, b.bp + 2) && b.bp + 1 < |m|
    ensures var h := Head(xs, end);
      var m1 := m[b.bp + 1 := h][b.bp := NULL];
      Linked(if xs == [] then m1 else m1[h := b.bp], [b] + xs, end)
  {
    var h := Head(xs, end);
    var m1 := m[b.bp + 1 := h][b.bp := NULL];
    var m2 := if xs == [] then m1 else m1[h := b.bp];
    var ys := [b] + xs;
    forall i | 0 <= i < |ys| ensures Node(m2, ys, i, end) {
      if i == 0 {
        if xs != [] {
          assert ys[1] == xs[0];
          assert xs[0].bp + 2 <= b.bp || b.bp + 2 <= xs[0].bp;
        }
      } else {
        var x := xs[i - 1];
        assert Node(m, xs, i - 1, end);
        assert ys[i] == x;
        assert x.bp + 2 <= b.bp || b.bp + 2 <= x.bp;
        if i + 1 < |ys| {
          assert ys[i + 1] == xs[i];
        }
        if i > 1 {
          assert LinksApart(xs, i - 1, 0);
          assert ys[i - 1] == xs[i - 2];
        }
      }
    }
  }

  /** mm.c's removal of the head: the root moves to the successor and the
      rest of the list stands as it is. */
  lemma LinkedPop(m: seq<nat>, xs: seq<Blk>, end: nat)
    requires Linked(m, xs, end) && |xs| >= 1
    ensures Linked(m, xs[1..], end) && Head(xs[1..], end) == Succ(xs, 0, end)
  {
    var ys := xs[1..];
    forall i | 0 <= i < |ys| ensures Node(m, ys, i, end) {
      assert Node(m, xs, i + 1, end);
      assert ys[i] == xs[i + 1];
      if i + 1 < |ys| {
        assert ys[i + 1] == xs[i + 2];
      }
      if i > 0 {
        assert ys[i - 1] == xs[i];
      }
    }
  }

  /** mm_Explicit.c's removal of the head also clears the predecessor word
      of the successor: PRED_FREEP(SUCC_FREEP(bp)) = NULL. */
  lemma LinkedPopClear(m: seq<nat>, xs: seq<Blk>, end: nat)
    requires Linked(m, xs, end) && |xs| >= 1 && Spaced(xs) && Succ(xs, 0, end) < |m|
    ensures Linked(m[Succ(xs, 0, end) := NULL], xs[1..], end)
    ensures Head(xs[1..], end) == Succ(xs, 0, end)
  {
    LinkedPop(m, xs, end);
    var ys := xs[1..];
    var m' := m[Succ(xs, 0, end) := NULL];
    forall i | 0 <= i < |ys| ensures Node(m', ys, i, end) {
      assert Node(m, ys, i, end);
      assert ys[i] == xs[i + 1];
      if i > 0 {
        assert LinksApart(xs, i + 1, 1);
        assert ys[0] == xs[1];
      }
    }
  }

  /** Unlinking an inner node t: SUCC_FREEP(PRED_FREEP(bp)) = SUCC_FREEP(bp)
      and then, when there is a successor node, PRED_FREEP(SUCC_FREEP(bp)) =
      PRED_FREEP(bp).  The reads between the two writes still see bp's own
      link words. */
  lemma LinkedBypass(m: seq<nat>, xs: seq<Blk>, end: nat, t: nat)
    requires Linked(m, xs, end) && Spaced(xs) && 1 <= t < |xs|
    ensures m[xs[t].bp] == xs[t - 1].bp && m[xs[t].bp + 1] == Succ(xs, t, end)
    ensures var m1 := m[xs[t - 1].bp + 1 := Succ(xs, t, end)];
      && m1[xs[t].bp] == xs[t - 1].bp && m1[xs[t].bp + 1] == Succ(xs, t, end)
      && (t + 1 < |xs| ==> Linked(m1[xs[t + 1].bp := xs[t - 1].bp], Remove(xs, t), end))
      && (t + 1 == |xs| ==> Linked(m1, Remove(xs, t), end))
  {
    var a := xs[t - 1];
    var m1 := m[a.bp + 1 := Succ(xs, t, end)];
    var m2 := if t + 1 < |xs| then m1[xs[t + 1].bp := a.bp] else m1;
    assert Node(m, xs, t, end) && Node(m, xs, t - 1, end);
    assert LinksApart(xs, t - 1, t);
    if t + 1 < |xs| {
      assert Node(m, xs, t + 1, end);
      assert LinksApart(xs, t - 1, t + 1);
    }
    forall i | 0 <= i < |xs| - 1 ensures Node(m2, Remove(xs, t), i, end) {
      BypassNode(m, m2, xs, end, t, i);
    }
  }

  /** Node i of the bypassed list has the right links in m2, which differs
      from m only in the successor word of node t - 1 and the predecessor
      word of node t + 1. */
  lemma BypassNode(m: seq<nat>, m2: seq<nat>, xs: seq<Blk>, end: nat, t: nat, i: nat)
    requires Linked(m, xs, end) && Spaced(xs) && 1 <= t < |xs| && i < |xs| - 1 && |m2| == |m|
    requires xs[t - 1].bp + 1 < |m| && m2[xs[t - 1].bp + 1] == Succ(xs, t, end)
    requires t + 1 < |xs| ==> xs[t + 1].bp < |m| && m2[xs[t + 1].bp] == xs[t - 1].bp
    requires forall p :: 0 <= p < |m| && p != xs[t - 1].bp + 1 && (t + 1 < |xs| ==> p != xs[t + 1].bp) ==> m2[p] == m[p]
    ensures Node(m2, Remove(xs, t), i, end)
  {
    var ys := Remove(xs, t);
    var k := if i < t then i else i + 1;
    assert Node(m, xs, k, end);
    assert ys[i] == xs[k];
    if i + 1 < |ys| {
      assert ys[i + 1] == xs[if i + 1 < t then i + 1 else i + 2];
    }
    if i > 0 {
      assert ys[i - 1] == xs[if i - 1 < t then i - 1 else i];
    }
    if k != t - 1 {
      assert LinksApart(xs, k, t - 1);
    }
    if t + 1 < |xs| && k != t + 1 {
      assert LinksApart(xs, k, t + 1);
    }
  }

  // ---------------------------------------------------------------------
  // The nodes as a set

  lemma RemoveElems(xs: seq<Blk>, t: nat)
    requires Distinct(xs) && t < |xs|
    ensures Distinct(Remove(xs, t)) && Elems(Remove(xs, t)) == Elems(xs) - {xs[t]}
  {
    var ys := Remove(xs, t);
    forall x | x in Elems(xs) - {xs[t]} ensures x in Elems(ys) {
      var i :| 0 <= i < |xs| && xs[i] == x;
      if i < t {
        assert ys[i] == x;
      } else {
        assert ys[i - 1] == x;
      }
    }
  }

  lemma PushElems(xs: seq<Blk>, b: Blk)
    requires Distinct(xs) && b !in Elems(xs)
    ensures Distinct([b] + xs) && Elems([b] + xs) == Elems(xs) + {b}
  {
    var ys := [b] + xs;
    forall i, j | 0 <= i < j < |ys| ensures ys[i] != ys[j] {
      assert ys[j] == xs[j - 1];
      if i > 0 {
        assert ys[i] == xs[i - 1];
      }
    }
    forall x | x in Elems(xs) ensures x in Elems(ys) {
      var i :| 0 <= i < |xs| && xs[i] == x;
      assert ys[i + 1] == x;
    }
    assert ys[0] == b;
  }

  lemma IndexOf(xs: seq<Blk>, b: Blk) returns (t: nat)
    requires b in Elems(xs)
    ensures t < |xs| && xs[t] == b
  {
    t :| 0 <= t < |xs| && xs[t] == b;
  }

  /** xs without the blocks of s, the others in their order: what a run of
      removeBlock calls on the blocks of s leaves of a list. */
  function Without(xs: seq<Blk>, s: set<Blk>): seq<Blk>
  {
    if xs == [] then [] else (if xs[0] in s then [] else [xs[0]]) + Without(xs[1..], s)
  }

  /** Without keeps exactly the blocks outside s. */
  lemma {:induction false} WithoutElems(xs: seq<Blk>, s: set<Blk>)
    ensures Elems(Without(xs, s)) == Elems(xs) - s
  {
    if xs != [] {
      WithoutElems(xs[1..], s);
      var rest := Without(xs[1..], s);
      var head := if xs[0] in s then [] else [xs[0]];
      assert Elems(head + rest) == Elems(head) + Elems(rest) by {
        forall x | x in Elems(head + rest) ensures x in Elems(head) + Elems(rest) {
          var i :| 0 <= i < |head + rest| && (head + rest)[i] == x;
          if i >= |head| {
            assert rest[i - |head|] == x;
          }
        }
        forall x | x in Elems(head) + Elems(rest) ensures x in Elems(head + rest) {
          if x in Elems(rest) {
            var i :| 0 <= i < |rest| && rest[i] == x;
            assert (head + rest)[|head| + i] == x;
          } else {
            assert (head + rest)[0] == x;
          }
        }
      }
      assert Elems(xs) == {xs[0]} + Elems(xs[1..]) by {
        forall x | x in Elems(xs) ensures x in {xs[0]} + Elems(xs[1..]) {
          var i :| 0 <= i < |xs| && xs[i] == x;
          if i > 0 {
            assert xs[1..][i - 1] == x;
          }
        }
        forall x | x in Elems(xs[1..]) ensures x in Elems(xs) {
          var i :| 0 <= i < |xs[1..]| && xs[1..][i] == x;
          assert xs[i + 1] == x;
        }
      }
    }
  }

  /** Removing blocks that are not on the list leaves it as it is. */
  lemma {:induction false} WithoutNone(xs: seq<Blk>, s: set<Blk>)
    requires forall i :: 0 <= i < |xs| ==> xs[i] !in s
    ensures Without(xs, s) == xs
  {
    if xs != [] {
      assert forall i :: 0 <= i < |xs[1..]| ==> xs[1..][i] == xs[i + 1];
      WithoutNone(xs[1..], s);
      assert [xs[0]] + xs[1..] == xs;
    }
  }

  /** On a list that repeats no block, unlinking node t removes the block
      xs[t] and nothing else. */
  lemma {:induction false} RemoveIsWithout(xs: seq<Blk>, t: nat)
    requires Distinct(xs) && t < |xs|
    ensures Remove(xs, t) == Without(xs, {xs[t]})
  {
    if t == 0 {
      assert forall i :: 0 <= i < |xs[1..]| ==> xs[1..][i] == xs[i + 1] && xs[i + 1] != xs[0];
      WithoutNone(xs[1..], {xs[0]});
      assert Remove(xs, 0) == xs[1..];
    } else {
      var ys := xs[1..];
      assert ys[t - 1] == xs[t];
      assert Distinct(ys) by {
        forall i, j | 0 <= i < j < |ys| ensures ys[i] != ys[j] {
          assert ys[i] == xs[i + 1] && ys[j] == xs[j + 1];
        }
      }
      RemoveIsWithout(ys, t - 1);
      assert xs[0] != xs[t];
      assert Without(xs, {xs[t]}) == [xs[0]] + Remove(ys, t - 1);
      assert Remove(xs, t) == [xs[0]] + Remove(ys, t - 1);
    }
  }

  /** Two rounds of removal are one round with both sets. */
  lemma {:induction false} WithoutTwice(xs: seq<Blk>, a: set<Blk>, b: set<Blk>)
    ensures Without(Without(xs, a), b) == Without(xs, a + b)
  {
    if xs != [] {
      WithoutTwice(xs[1..], a, b);
      var rest := Without(xs[1..], a);
      if xs[0] !in a {
        var ys := [xs[0]] + rest;
        assert Without(xs, a) == ys && ys[0] == xs[0] && ys[1..] == rest;
        assert Without(ys, b) == (if xs[0] in b then [] else [xs[0]]) + Without(rest, b);
      } else {
        assert Without(xs, a) == rest;
      }
    }
  }

  // ---------------------------------------------------------------------
  // Lists of free blocks

  /** A node of a list of free blocks is a free block of the view: its tags
      are in place, it has room for both links, and its link words are
      scratch words beyond the prologue. */
  lemma NodeFacts(m: seq<nat>, view: seq<Blk>, prologue: nat, xs: seq<Blk>, i: nat) returns (a: nat)
    requires Layout(m, view, prologue) && Elems(xs) <= Frees(view) && i < |xs|
    ensures 1 <= a < |view| && view[a] == xs[i] && Fits(m, view, a)
    ensures Tagged(m, xs[i]) && xs[i].free && MIN_BLOCK <= xs[i].size
    ensures End(view[0]) <= xs[i].bp && xs[i].bp + 4 <= End(xs[i]) <= |m|
    ensures Scratch(view, xs[i].bp) && Scratch(view, xs[i].bp + 1)
  {
    assert xs[i] in Elems(xs);
    a :| 1 <= a < |view| && view[a].free && view[a] == xs[i];
    assert Fits(m, view, a);
    Ordered(m, view, prologue, 0, a);
    Quarter(xs[i].size);
    InsideIsScratch(view, a, xs[i].bp);
    InsideIsScratch(view, a, xs[i].bp + 1);
  }

  /** The nodes of a list of distinct free blocks have disjoint link words,
      all beyond the prologue. */
  lemma NodesApart(m: seq<nat>, view: seq<Blk>, prologue: nat, xs: seq<Blk>)
    requires Layout(m, view, prologue) && Elems(xs) <= Frees(view) && Distinct(xs)
    ensures Spaced(xs) && Clear(xs, 0, End(view[0]))
  {
    forall i, j | 0 <= i < |xs| && 0 <= j < |xs| && i != j
      ensures xs[i].bp + 2 <= xs[j].bp || xs[j].bp + 2 <= xs[i].bp
    {
      var a := NodeFacts(m, view, prologue, xs, i);
      var b := NodeFacts(m, view, prologue, xs, j);
      assert xs[i] != xs[j];
      if a < b {
        Ordered(m, view, prologue, a, b);
      } else {
        Ordered(m, view, prologue, b, a);
      }
    }
    forall i | 0 <= i < |xs| ensures End(view[0]) <= xs[i].bp {
      var _ := NodeFacts(m, view, prologue, xs, i);
    }
  }

  /** The link words of free blocks outside the run lo..hi-1 lie outside
      the words from the run's first header to its last footer. */
  lemma RunClear(m: seq<nat>, view: seq<Blk>, prologue: nat, xs: seq<Blk>, lo: nat, hi: nat)
    requires Layout(m, view, prologue) && 1 <= lo < hi <= |view|
    requires Elems(xs) <= Frees(view) - Elems(view[lo..hi])
    ensures Clear(xs, view[lo].bp - 1, End(view[hi - 1]) - 1)
  {
    forall i | 0 <= i < |xs| ensures xs[i].bp + 2 <= view[lo].bp - 1 || End(view[hi - 1]) - 1 <= xs[i].bp {
      assert xs[i] in Elems(xs);
      var a := NodeFacts(m, view, prologue, xs, i);
      if a < lo {
        Ordered(m, view, prologue, a, lo);
      } else if hi <= a {
        Ordered(m, view, prologue, hi - 1, a);
      }
    }
  }

  /** No link word is the epilogue header. */
  lemma EpilogueClear(m: seq<nat>, view: seq<Blk>, prologue: nat, xs: seq<Blk>)
    requires Layout(m, view, prologue) && Elems(xs) <= Frees(view)
    ensures Clear(xs, |m| - 1, |m|)
  {
    forall i | 0 <= i < |xs| ensures xs[i].bp + 2 <= |m| - 1 || |m| <= xs[i].bp {
      var _ := NodeFacts(m, view, prologue, xs, i);
    }
  }

  /** Writing a link word (or a list root inside the prologue) keeps the
      layout and every allocated block. */
  lemma ScratchWrite(m: seq<nat>, view: seq<Blk>, prologue: nat, p: nat, v: nat)
    requires Layout(m, view, prologue) && p < |m| && Scratch(view, p)
    ensures Layout(m[p := v], view, prologue) && Untouched(m, m[p := v], Allocs(view))
  {
    ScratchEdit(m, m[p := v], view, prologue);
  }

  /** The words of a list's blocks are two tags apart: PutTags of block b
      changes only the words from b's header to its footer. */
  lemma PutTagsOutside(m: seq<nat>, b: Blk)
    requires 1 <= b.bp && 8 <= b.size && End(b) <= |m|
    ensures AgreeOutside(m, PutTags(m, b), b.bp - 1, End(b) - 1)
  {
  }

  /** place's tag writes stay between b's header and footer. */
  lemma PlaceOutside(m: seq<nat>, b: Blk, asize: nat)
    requires 1 <= b.bp && b.size % 8 == 0 && End(b) <= |m|
    requires asize % 8 == 0 && MIN_BLOCK <= asize <= b.size
    ensures AgreeOutside(m, PlaceWrites(m, b, asize), b.bp - 1, End(b) - 1)
  {
    if b.size - asize >= MIN_BLOCK {
      Parts(b.size, asize);
      var m1 := PutTags(m, Blk(b.bp, asize, false));
      assert AgreeOutside(m, m1, b.bp - 1, End(b) - 1);
    }
  }

  // ---------------------------------------------------------------------
  // find_fit's scan of one list

  /** The first node, from index i on, of at least asize bytes; |xs| when
      there is none. */
  function FitFrom(xs: seq<Blk>, i: nat, asize: nat): nat
    decreases |xs| - i
  {
    if i >= |xs| then |xs|
    else if asize <= xs[i].size then i
    else FitFrom(xs, i + 1, asize)
  }

  /** Only the head has the head's payload. */
  lemma HeadIndex(xs: seq<Blk>, t: nat)
    requires Spaced(xs) && t < |xs|
    ensures (xs[t].bp == xs[0].bp) == (t == 0)
  {
    if t != 0 {
      assert LinksApart(xs, 0, t);
    }
  }

  lemma {:induction false} FitFromIsFirst(xs: seq<Blk>, i: nat, asize: nat)
    requires i <= |xs|
    ensures var k := FitFrom(xs, i, asize);
      && i <= k <= |xs|
      && (k < |xs| ==> asize <= xs[k].size)
      && forall j :: i <= j < k ==> xs[j].size < asize
    decreases |xs| - i
  {
    if i < |xs| && xs[i].size < asize {
      FitFromIsFirst(xs, i + 1, asize);
    }
  }
}
