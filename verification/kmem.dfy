/** The kernel allocator as the driver sees it: kmalloc, krealloc, kfree and the two user copies. */
module KernelMemory {
  import opened Bytes
  import opened Sequences

  type Ptr = nat
  const NULL: Ptr := 0

  // No machine hands out more bytes than a signed 64-bit offset can count.
  const CAPACITY: nat := TWO_63 - 1

  lemma {:induction false} FreshPointerExists(taken: set<Ptr>)
    ensures exists p: Ptr :: p != NULL && p !in taken
  {
    var top := UpperBound(taken);
    assert top + 1 != NULL && top + 1 !in taken;
  }

  lemma {:induction false} UpperBound(taken: set<Ptr>) returns (top: nat)
    ensures forall p :: p in taken ==> p <= top
  {
    if taken == {} {
      top := 0;
    } else {
      var p :| p in taken;
      var rest := UpperBound(taken - {p});
      top := Max(p, rest);
      assert forall q :: q in taken ==> q == p || q in taken - {p};
    }
  }

  class Kmem {
    // the live blocks and what they hold
    var mem: map<Ptr, seq<Byte>>
    // bytes handed out and not given back
    var used: int

    ghost predicate Valid()
      reads this
    {
      NULL !in mem && 0 <= used <= CAPACITY
    }

    constructor ()
      ensures Valid() && mem == map[] && used == 0
    {
      mem, used := map[], 0;
    }

    // `grant` is the allocator's own choice; a request beyond the capacity fails anyway.
    // `junk` is what the new block happens to hold.
    method Kmalloc(n: nat, grant: bool, junk: Byte) returns (p: Ptr)
      requires Valid()
      modifies this
      ensures Valid()
      ensures p != NULL <==> grant && old(used) + n <= CAPACITY
      ensures p == NULL ==> mem == old(mem) && used == old(used)
      ensures p != NULL ==>
                && p !in old(mem)
                && (exists block: seq<Byte> :: |block| == n && mem == old(mem)[p := block])
                && used == old(used) + n
    {
      p := NULL;
      if grant && used + n <= CAPACITY {
        FreshPointerExists(mem.Keys);
        p :| p != NULL && p !in mem;
        var block := seq(n, _ => junk);
        mem := mem[p := block];
        used := used + n;
      }
    }

    // The block may stay where it is or move; a failed call leaves the old block alone.
    method Krealloc(q: Ptr, n: nat, grant: bool, junk: Byte) returns (p: Ptr)
      requires Valid()
      requires q != NULL ==> q in mem && |mem[q]| <= n
      modifies this
      ensures Valid()
      ensures p != NULL <==>
              grant && old(used) + n - (if q == NULL then 0 else |old(mem)[q]|) <= CAPACITY
      ensures p == NULL ==> mem == old(mem) && used == old(used)
      ensures p != NULL ==>
                var was := if q == NULL then [] else old(mem)[q];
                && (p == q || p !in old(mem))
                && (exists block: seq<Byte> ::
                      |block| == n && was <= block && mem == (old(mem) - {q})[p := block])
                && used == old(used) + n - |was|
    {
      p := NULL;
      var was := if q == NULL then [] else mem[q];
      if grant && used + n - |was| <= CAPACITY {
        FreshPointerExists(mem.Keys);
        p :| p != NULL && (p == q || p !in mem);
        var block := was + seq(n - |was|, _ => junk);
        assert |block| == n && was <= block;
        mem := (mem - {q})[p := block];
        used := used + n - |was|;
      }
    }

    // Freeing twice, or freeing what was never allocated, is not allowed.
    method Kfree(p: Ptr)
      requires Valid()
      requires p in mem && |mem[p]| <= used
      modifies this
      ensures Valid() && mem == old(mem) - {p} && used == old(used) - |old(mem)[p]|
    {
      used := used - |mem[p]|;
      mem := mem - {p};
    }

    method Store(p: Ptr, i: nat, b: Byte)
      requires Valid() && p in mem && i < |mem[p]|
      modifies this`mem
      ensures Valid() && mem == old(mem)[p := old(mem)[p][i := b]]
    {
      mem := mem[p := mem[p][i := b]];
    }

    // `arrives` is how many bytes make it across; the result counts those that do not.
    method CopyFromUser(p: Ptr, buf: seq<Byte>, arrives: nat) returns (left: nat)
      requires Valid() && p in mem && |mem[p]| == |buf|
      modifies this`mem
      ensures Valid()
      ensures left == 0 <==> arrives >= |buf|
      ensures left == 0 ==> mem == old(mem)[p := buf]
      ensures exists block: seq<Byte> :: |block| == |buf| && mem == old(mem)[p := block]
    {
      var n := Min(arrives, |buf|);
      var block := buf[..n] + mem[p][n..];
      assert n == |buf| ==> block == buf;
      mem := mem[p := block];
      left := |buf| - n;
    }

    method CopyToUser(ubuf: array<Byte>, at: nat, p: Ptr, o: nat, n: nat, arrives: nat) returns (left: nat)
      requires Valid() && p in mem && o + n <= |mem[p]| && at + n <= ubuf.Length
      modifies ubuf
      ensures left == n - Min(arrives, n)
      ensures ubuf[..at] == old(ubuf[..at]) && ubuf[at + n - left..] == old(ubuf[at + n - left..])
      ensures ubuf[at..at + n - left] == mem[p][o..o + n - left]
    {
      var m := Min(arrives, n);
      var src := mem[p];
      forall i | 0 <= i < m {
        ubuf[at + i] := src[o + i];
      }
      left := n - m;
    }
  }
}
