/** The size-class index of the segregated allocator (get_class): a ladder
    of LISTLIMIT classes whose ceilings are 16, 32, 64, ... bytes; the last
    class also takes every size above the ladder. */
module SizeClasses {

  const LISTLIMIT: nat := 12

  function Pow2(i: nat): (p: nat)
    ensures p >= 1
  {
    if i == 0 then 1 else 2 * Pow2(i - 1)
  }

  /** The largest size class i holds when it is not the last class. */
  function Ceiling(i: nat): nat
  {
    16 * Pow2(i)
  }

  /** Reference definition: the first class at or after `from` whose ceiling
      is at least `size`, or the last class when there is none. */
  function ClassFrom(size: nat, from: nat): (c: nat)
    requires from < LISTLIMIT
    ensures from <= c < LISTLIMIT
    decreases LISTLIMIT - from
  {
    if size <= Ceiling(from) || from == LISTLIMIT - 1 then from
    else ClassFrom(size, from + 1)
  }

  function ClassOf(size: nat): (c: nat)
    ensures c < LISTLIMIT
  {
    ClassFrom(size, 0)
  }

  lemma {:induction false} CeilingGrows(i: nat, j: nat)
    requires i <= j
    ensures Ceiling(i) <= Ceiling(j)
    decreases j - i
  {
    if i < j {
      CeilingGrows(i, j - 1);
    }
  }

  /** ClassFrom picks the least qualifying class: the chosen class fits the
      size unless it is the last, and no earlier class from `from` on does. */
  lemma {:induction false} ClassFromIsLeast(size: nat, from: nat)
    requires from < LISTLIMIT
    ensures var c := ClassFrom(size, from);
      && (c < LISTLIMIT - 1 ==> size <= Ceiling(c))
      && (forall i :: from <= i < c ==> size > Ceiling(i))
    decreases LISTLIMIT - from
  {
    if !(size <= Ceiling(from) || from == LISTLIMIT - 1) {
      ClassFromIsLeast(size, from + 1);
    }
  }

  /** get_class returns the least i with size <= 16 * 2^i, or the last class
      when there is none (mm.c:301-309). */
  lemma ClassOfIsLeast(size: nat)
    ensures ClassOf(size) < LISTLIMIT
    ensures ClassOf(size) < LISTLIMIT - 1 ==> size <= Ceiling(ClassOf(size))
    ensures forall i :: 0 <= i < ClassOf(size) ==> size > Ceiling(i)
  {
    ClassFromIsLeast(size, 0);
  }

  /** A larger size never lands in a smaller class. */
  lemma ClassOfMonotone(s: nat, t: nat)
    requires s <= t
    ensures ClassOf(s) <= ClassOf(t)
  {
    ClassOfIsLeast(s);
    ClassOfIsLeast(t);
  }

  /** get_class: a counting loop over the doubling ladder. */
  method GetClass(size: nat) returns (c: nat)
    ensures c == ClassOf(size)
  {
    var ceiling := 16;
    var i := 0;
    while i < LISTLIMIT
      invariant 0 <= i <= LISTLIMIT
      invariant ceiling == Ceiling(i)
      invariant forall k :: 0 <= k < i ==> size > Ceiling(k)
    {
      if size <= ceiling {
        ClassOfIsLeast(size);
        return i;
      }
      ceiling := ceiling * 2;
      i := i + 1;
    }
    ClassOfIsLeast(size);
    return LISTLIMIT - 1;
  }
}
