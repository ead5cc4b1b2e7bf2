/** Who owns which kernel allocation, and what each step of a write does to that. */
module Ownership {
  import opened Bytes
  import opened Sequences
  import opened Lines
  import opened KernelMemory
  import opened RingModel

  ghost function Pointers(contents: seq<Entry>): set<Ptr> {
    set k | 0 <= k < |contents| :: contents[k].buffptr
  }

  ghost predicate Distinct(contents: seq<Entry>) {
    forall j, k :: 0 <= j < k < |contents| ==> contents[j].buffptr != contents[k].buffptr
  }

  // Each entry points to a live block that holds exactly its line.
  ghost predicate Backed(mem: map<Ptr, seq<Byte>>, contents: seq<Entry>, lines: seq<Line>) {
    && |contents| == |lines|
    && forall k :: 0 <= k < |contents| ==>
         var p := contents[k].buffptr;
         p in mem && mem[p] == lines[k] && contents[k].size == |lines[k]|
  }

  ghost function Single(p: Ptr): set<Ptr> {
    if p == NULL then {} else {p}
  }

  /** The driver's memory: the live blocks are the ring's, the pending buffer and `temp`, all
      different, and they hold the window of lines and the tail of what was accepted. */
  ghost predicate Owns(mem: map<Ptr, seq<Byte>>, contents: seq<Entry>, gBuff: Ptr, temp: set<Ptr>, p: Parsed) {
    && NULL !in mem
    && Backed(mem, contents, Window(p.lines))
    && Distinct(contents)
    && (gBuff == NULL <==> p.tail == [])
    && (gBuff != NULL ==> gBuff in mem && mem[gBuff] == p.tail && gBuff !in Pointers(contents))
    && temp !! Pointers(contents) + Single(gBuff)
    && mem.Keys == Pointers(contents) + Single(gBuff) + temp
  }

  // krealloc of the pending buffer by one byte, and the store of that byte.
  lemma PendingGrows(mem: map<Ptr, seq<Byte>>, contents: seq<Entry>, gBuff: Ptr, temp: set<Ptr>, p: Parsed,
                     q: Ptr, b: Byte)
    requires Owns(mem, contents, gBuff, temp, p)
    requires q != NULL && (q == gBuff || q !in mem)
    ensures Owns((mem - {gBuff})[q := p.tail + [b]], contents, q, temp, Parsed(p.lines, p.tail + [b]))
  {
    var after := (mem - {gBuff})[q := p.tail + [b]];
    assert q !in Pointers(contents) && q !in temp;
    assert after.Keys == Pointers(contents) + Single(q) + temp;
  }

  // The pending buffer becomes the newest ring entry, and the evicted block, if any, is freed.
  lemma LineCommits(mem: map<Ptr, seq<Byte>>, contents: seq<Entry>, gBuff: Ptr, temp: set<Ptr>, p: Parsed)
    requires Owns(mem, contents, gBuff, temp, p) && p.tail != []
    ensures gBuff != NULL && temp <= mem.Keys
    ensures |contents| == MAX_OPS ==>
              var oldest := contents[0];
              oldest.buffptr in mem && oldest.buffptr !in temp && |mem[oldest.buffptr]| == oldest.size
    ensures var evicts := |contents| == MAX_OPS;
            var kept := if evicts then contents[1..] else contents;
            var left := if evicts then mem - {contents[0].buffptr} else mem;
            Owns(left, kept + [Entry(gBuff, |p.tail|)], NULL, temp, Parsed(p.lines + [p.tail], []))
  {
    hide Owns, Window;
    if |contents| == MAX_OPS {
      LineEvicts(mem, contents, gBuff, temp, p);
    } else {
      LineFits(mem, contents, gBuff, temp, p);
    }
  }

  lemma LineFits(mem: map<Ptr, seq<Byte>>, contents: seq<Entry>, gBuff: Ptr, temp: set<Ptr>, p: Parsed)
    requires Owns(mem, contents, gBuff, temp, p) && p.tail != [] && |contents| != MAX_OPS
    ensures gBuff != NULL && temp <= mem.Keys
    ensures Owns(mem, contents + [Entry(gBuff, |p.tail|)], NULL, temp, Parsed(p.lines + [p.tail], []))
  {
    hide Window, Pointers, Distinct, Backed;
    WindowStep(p.lines, p.tail);
    CommittedPointers(contents, gBuff, |p.tail|);
    BackedAppend(mem, contents, Window(p.lines), gBuff, p.tail);
  }

  lemma LineEvicts(mem: map<Ptr, seq<Byte>>, contents: seq<Entry>, gBuff: Ptr, temp: set<Ptr>, p: Parsed)
    requires Owns(mem, contents, gBuff, temp, p) && p.tail != [] && |contents| == MAX_OPS
    ensures gBuff != NULL && temp <= mem.Keys
    ensures var oldest := contents[0];
            oldest.buffptr in mem && oldest.buffptr !in temp && |mem[oldest.buffptr]| == oldest.size
    ensures Owns(mem - {contents[0].buffptr}, contents[1..] + [Entry(gBuff, |p.tail|)], NULL, temp,
                 Parsed(p.lines + [p.tail], []))
  {
    hide Window, Pointers, Distinct, Backed;
    var lines, oldest := Window(p.lines), contents[0].buffptr;
    WindowStep(p.lines, p.tail);
    CommittedPointers(contents, gBuff, |p.tail|);
    HeadOwned(contents);
    BackedDrop(mem, contents, lines);
    KeysEvict(mem, Pointers(contents), gBuff, temp, oldest);
    BackedAppend(mem - {oldest}, contents[1..], lines[1..], gBuff, p.tail);
  }

  lemma KeysEvict(mem: map<Ptr, seq<Byte>>, ptrs: set<Ptr>, q: Ptr, temp: set<Ptr>, oldest: Ptr)
    requires mem.Keys == ptrs + {q} + temp && q !in ptrs && temp !! ptrs + {q} && oldest in ptrs
    ensures (mem - {oldest}).Keys == ptrs - {oldest} + {q} + temp
    ensures temp !! ptrs - {oldest} + {q} && oldest !in temp
  {
  }

  lemma HeadOwned(contents: seq<Entry>)
    requires contents != []
    ensures contents[0].buffptr in Pointers(contents)
  {
  }

  lemma BackedDrop(mem: map<Ptr, seq<Byte>>, contents: seq<Entry>, lines: seq<Line>)
    requires Backed(mem, contents, lines) && Distinct(contents) && contents != []
    ensures contents[0].buffptr in mem && |mem[contents[0].buffptr]| == contents[0].size
    ensures |lines| == |contents|
    ensures Backed(mem - {contents[0].buffptr}, contents[1..], lines[1..])
  {
    forall k | 0 <= k < |contents| - 1
      ensures contents[1..][k].buffptr != contents[0].buffptr
    {
      assert contents[1..][k] == contents[k + 1];
    }
  }

  lemma BackedAppend(mem: map<Ptr, seq<Byte>>, contents: seq<Entry>, lines: seq<Line>, q: Ptr, line: Line)
    requires Backed(mem, contents, lines) && q in mem && mem[q] == line
    ensures Backed(mem, contents + [Entry(q, |line|)], lines + [line])
  {
  }

  // A block taken for the length of one call.
  lemma TempTaken(mem: map<Ptr, seq<Byte>>, contents: seq<Entry>, gBuff: Ptr, p: Parsed, q: Ptr, block: seq<Byte>)
    requires Owns(mem, contents, gBuff, {}, p) && q != NULL && q !in mem
    ensures Owns(mem[q := block], contents, gBuff, {q}, p)
  {
    assert q !in Pointers(contents) + Single(gBuff);
    assert mem[q := block].Keys == Pointers(contents) + Single(gBuff) + {q};
  }

  lemma TempGivenBack(mem: map<Ptr, seq<Byte>>, contents: seq<Entry>, gBuff: Ptr, p: Parsed, q: Ptr)
    requires Owns(mem, contents, gBuff, {q}, p)
    ensures q in mem
    ensures Owns(mem - {q}, contents, gBuff, {}, p)
  {
    assert q in mem.Keys && q !in Pointers(contents) + Single(gBuff);
    assert (mem - {q}).Keys == Pointers(contents) + Single(gBuff);
    forall k | 0 <= k < |contents|
      ensures contents[k].buffptr in mem - {q}
    {
      assert contents[k].buffptr in Pointers(contents);
    }
  }

  lemma CommittedPointers(contents: seq<Entry>, q: Ptr, n: nat)
    requires Distinct(contents) && q !in Pointers(contents)
    ensures Distinct(contents + [Entry(q, n)])
    ensures Pointers(contents + [Entry(q, n)]) == Pointers(contents) + {q}
    ensures contents != [] ==>
              && Distinct(contents[1..] + [Entry(q, n)])
              && Pointers(contents[1..] + [Entry(q, n)]) == Pointers(contents) - {contents[0].buffptr} + {q}
  {
    PointersAppend(contents, Entry(q, n));
    if contents != [] {
      PointersAppend(contents[1..], Entry(q, n));
      PointersHead(contents);
    }
  }

  lemma PointersAppend(contents: seq<Entry>, e: Entry)
    ensures Pointers(contents + [e]) == Pointers(contents) + {e.buffptr}
  {
    var after := contents + [e];
    assert after[|contents|] == e;
    forall k | 0 <= k < |contents|
      ensures contents[k].buffptr in Pointers(after)
    {
      assert after[k] == contents[k];
    }
  }

  lemma PointersHead(contents: seq<Entry>)
    requires contents != [] && Distinct(contents)
    ensures Pointers(contents[1..]) == Pointers(contents) - {contents[0].buffptr}
  {
    forall k | 1 <= k < |contents|
      ensures contents[k].buffptr in Pointers(contents[1..])
    {
      assert contents[1..][k - 1] == contents[k];
    }
  }

  lemma CommittedSize(contents: seq<Entry>, e: Entry)
    ensures TotalSize(contents + [e]) == TotalSize(contents) + e.size
    ensures contents != [] ==> TotalSize(contents[1..] + [e]) == TotalSize(contents) - contents[0].size + e.size
  {
    SizesAppend(contents, [e]);
    assert TotalSize([e]) == e.size by {
      assert Sizes([e]) == [e.size];
      assert Sum([e.size]) == e.size + Sum([e.size][1..]) == e.size;
    }
    if contents != [] {
      SizesAppend(contents[1..], [e]);
      assert Sizes(contents)[1..] == Sizes(contents[1..]);
    }
  }

  // The sizes the ring stores are the lengths of the lines it holds.
  ghost predicate Measures(contents: seq<Entry>, lines: seq<Line>) {
    && |contents| == |lines|
    && forall k :: 0 <= k < |contents| ==> contents[k].size == |lines[k]|
  }

  lemma {:induction false} MeasuredStart(contents: seq<Entry>, lines: seq<Line>, k: nat)
    requires Measures(contents, lines) && k <= |contents|
    ensures Start(contents, k) == |Flatten(lines[..k])|
  {
    if k > 0 {
      MeasuredStart(contents, lines, k - 1);
      StartStep(contents, k - 1);
      assert lines[..k] == lines[..k - 1] + [lines[k - 1]];
      FlattenSnoc(lines[..k - 1], lines[k - 1]);
    }
  }

  lemma MeasuredTotal(contents: seq<Entry>, lines: seq<Line>)
    requires Measures(contents, lines)
    ensures TotalSize(contents) == |Flatten(lines)|
  {
    MeasuredStart(contents, lines, |lines|);
    StartEnd(contents);
    assert lines[..|lines|] == lines;
  }

  ghost predicate SlotOwns(mem: map<Ptr, seq<Byte>>, e: Entry) {
    if e.buffptr == NULL then e.size == 0 else e.buffptr in mem && |mem[e.buffptr]| == e.size
  }

  // No two slots name one block.
  ghost predicate Apart(slots: seq<Entry>) {
    forall j, k :: 0 <= j < k < |slots| && slots[k].buffptr != NULL ==> slots[j].buffptr != slots[k].buffptr
  }

  // The live blocks are those of `slots` and the pending one.
  ghost predicate SlotsOwn(mem: map<Ptr, seq<Byte>>, slots: seq<Entry>, gBuff: Ptr) {
    && mem.Keys == Pointers(slots) - {NULL} + Single(gBuff)
    && (gBuff != NULL ==> gBuff !in Pointers(slots))
    && Apart(slots)
    && forall k :: 0 <= k < |slots| ==> SlotOwns(mem, slots[k])
  }

  lemma SlotOf(added: seq<Entry>, k: nat)
    requires k < MAX_OPS
    ensures Slots(added)[k] == if k < |Window(added)| then Window(added)[Logical(|added|, k)] else EMPTY
  {
    if k < |Window(added)| {
      SlotAt(added, Logical(|added|, k));
    }
  }

  lemma SlotsPointers(added: seq<Entry>)
    requires AllStored(Window(added))
    ensures Pointers(Slots(added)) - {NULL} == Pointers(Window(added))
  {
    hide Slots, Window;
    var slots, w := Slots(added), Window(added);
    forall j: nat | j < |w|
      ensures w[j].buffptr in Pointers(slots)
    {
      SlotAt(added, j);
      assert slots[Slot(OutOffs(|added|), j)] == w[j];
    }
    forall k: nat | k < MAX_OPS
      ensures slots[k].buffptr in Pointers(w) + {NULL}
    {
      SlotOf(added, k);
    }
  }

  lemma SlotsApart(added: seq<Entry>)
    requires AllStored(Window(added)) && Distinct(Window(added))
    ensures Apart(Slots(added))
  {
    hide Slots, Window;
    forall j, k | 0 <= j < k < MAX_OPS && Slots(added)[k].buffptr != NULL
      ensures Slots(added)[j].buffptr != Slots(added)[k].buffptr
    {
      SlotOf(added, j);
      SlotOf(added, k);
    }
  }

  // Seen from the physical slots, the ownership is the same.
  lemma OwnsPhysically(mem: map<Ptr, seq<Byte>>, added: seq<Entry>, gBuff: Ptr, p: Parsed)
    requires Owns(mem, Window(added), gBuff, {}, p)
    ensures SlotsOwn(mem, Slots(added), gBuff)
  {
    hide Slots, Window;
    SlotsPointers(added);
    SlotsApart(added);
    forall k | 0 <= k < MAX_OPS
      ensures SlotOwns(mem, Slots(added)[k])
    {
      SlotOf(added, k);
    }
  }

  // One round of the loop at unload: the block of slots[0], if any, is freed.
  lemma SlotFreed(mem: map<Ptr, seq<Byte>>, slots: seq<Entry>, gBuff: Ptr)
    requires SlotsOwn(mem, slots, gBuff) && slots != []
    ensures TotalSize(slots) == slots[0].size + TotalSize(slots[1..])
    ensures SlotOwns(mem, slots[0])
    ensures SlotsOwn(if slots[0].buffptr == NULL then mem else mem - {slots[0].buffptr}, slots[1..], gBuff)
    ensures gBuff != NULL ==> gBuff in mem && gBuff != slots[0].buffptr
  {
    var e, rest := slots[0], slots[1..];
    var left := if e.buffptr == NULL then mem else mem - {e.buffptr};
    assert Sizes(slots)[1..] == Sizes(rest);
    PointersCons(slots);
    forall k | 0 <= k < |rest|
      ensures SlotOwns(left, rest[k])
    {
      assert rest[k] == slots[k + 1];
    }
    SlotFreedKeys(mem, slots, gBuff);
  }

  lemma PointersCons(slots: seq<Entry>)
    requires slots != []
    ensures Pointers(slots) == {slots[0].buffptr} + Pointers(slots[1..])
    ensures Apart(slots) ==> Apart(slots[1..])
    ensures Apart(slots) && slots[0].buffptr != NULL ==> slots[0].buffptr !in Pointers(slots[1..])
  {
    var rest := slots[1..];
    forall k | 0 <= k < |rest|
      ensures rest[k] == slots[k + 1] && rest[k].buffptr in Pointers(slots)
    {
      assert rest[k] == slots[k + 1];
    }
    forall k | 1 <= k < |slots|
      ensures slots[k].buffptr in Pointers(rest)
    {
      assert rest[k - 1] == slots[k];
    }
  }

  lemma SlotFreedKeys(mem: map<Ptr, seq<Byte>>, slots: seq<Entry>, gBuff: Ptr)
    requires SlotsOwn(mem, slots, gBuff) && slots != []
    ensures var left := if slots[0].buffptr == NULL then mem else mem - {slots[0].buffptr};
            left.Keys == Pointers(slots[1..]) - {NULL} + Single(gBuff)
  {
    PointersCons(slots);
    hide Pointers;
    var q := slots[0].buffptr;
    if q != NULL {
      assert (mem - {q}).Keys == mem.Keys - {q};
    }
  }

  lemma AllFreed(mem: map<Ptr, seq<Byte>>, gBuff: Ptr)
    requires SlotsOwn(mem, [], gBuff)
    ensures mem.Keys == Single(gBuff) && TotalSize([]) == 0
  {
  }
}
