/** The simulated memory system the allocators run on (memlib's mem_sbrk)
    and the two word primitives they use (GET/PUT) plus memcpy.  The region
    is a sequence of 4-byte words that only grows, up to a capacity fixed
    when the system is created. */
module Memory {

  class MemLib {
    var mem: seq<nat>
    const capacity: nat

    constructor (capacity: nat)
      ensures mem == [] && this.capacity == capacity
    {
      mem := [];
      this.capacity := capacity;
    }

    /** mem_sbrk(incr): move the break up by incr bytes and return the old
        break, or -1 when that would pass the capacity.  The new words hold
        whatever the system left there. */
    method Sbrk(incr: nat) returns (r: int)
      requires incr % 4 == 0
      modifies this
      ensures |old(mem)| + incr / 4 > capacity ==> r == -1 && mem == old(mem)
      ensures |old(mem)| + incr / 4 <= capacity ==>
        && r == |old(mem)|
        && |mem| == |old(mem)| + incr / 4
        && mem[..|old(mem)|] == old(mem)
    {
      if |mem| + incr / 4 > capacity {
        return -1;
      }
      r := |mem|;
      mem := mem + seq(incr / 4, _ => 0);
    }

    /** GET(p) */
    function Get(p: nat): nat
      requires p < |mem|
      reads this
    {
      mem[p]
    }

    /** PUT(p, v) */
    method Put(p: nat, v: nat)
      requires p < |mem|
      modifies this
      ensures mem == old(mem)[p := v]
    {
      mem := mem[p := v];
    }

    /** memcpy(dst, src, n words) between non-overlapping ranges. */
    method Copy(dst: nat, src: nat, n: nat)
      requires dst + n <= |mem| && src + n <= |mem|
      requires dst + n <= src || src + n <= dst
      modifies this
      ensures |mem| == |old(mem)|
      ensures forall p :: dst <= p < dst + n ==> mem[p] == old(mem)[src + (p - dst)]
      ensures forall p :: 0 <= p < |mem| && !(dst <= p < dst + n) ==> mem[p] == old(mem)[p]
    {
      var t := 0;
      while t < n
        invariant 0 <= t <= n && |mem| == |old(mem)|
        invariant forall p :: dst <= p < dst + t ==> mem[p] == old(mem)[src + (p - dst)]
        invariant forall p :: 0 <= p < |mem| && !(dst <= p < dst + t) ==> mem[p] == old(mem)[p]
      {
        mem := mem[dst + t := mem[src + t]];
        t := t + 1;
      }
    }
  }
}
