/** The ring of the last MAX_OPS commands: aesd-char-driver/aesd-circular-buffer.c. */
module RingModel {
  import opened Sequences
  import opened Lines
  import opened KernelMemory

  datatype Entry = Entry(buffptr: Ptr, size: nat)

  const EMPTY := Entry(NULL, 0)

  // in_offs and out_offs after n entries were added.
  function InOffs(n: nat): (into: nat)
    ensures into < MAX_OPS
  {
    n % MAX_OPS
  }

  function OutOffs(n: nat): (out: nat)
    ensures out < MAX_OPS
  {
    if n <= MAX_OPS then 0 else InOffs(n)
  }

  // The way the code advances its offsets and decides that the ring is full.
  lemma OffsetsStep(n: nat)
    ensures InOffs(n + 1) == (InOffs(n) + 1) % MAX_OPS
    ensures OutOffs(n + 1) == if n >= MAX_OPS then (OutOffs(n) + 1) % MAX_OPS else OutOffs(n)
    ensures InOffs(n + 1) == OutOffs(n + 1) <==> n + 1 >= MAX_OPS
    ensures n >= MAX_OPS ==> InOffs(n) == OutOffs(n)
  {
  }

  // Where the j-th oldest entry of a ring starting at slot `out` lives.
  function Slot(out: nat, j: nat): (slot: nat)
    requires out < MAX_OPS && j <= MAX_OPS
    ensures slot < MAX_OPS
  {
    if out + j < MAX_OPS then out + j else out + j - MAX_OPS
  }

  lemma SlotStep(out: nat, j: nat)
    requires out < MAX_OPS && j < MAX_OPS
    ensures Slot(out, j + 1) == (Slot(out, j) + 1) % MAX_OPS
  {
  }

  // The MAX_OPS physical slots after the entries of `added` were added, in that order: a slot
  // below in_offs holds an entry of the latest round, any other one of the round before.
  function Slots(added: seq<Entry>): (slots: seq<Entry>)
    ensures |slots| == MAX_OPS
  {
    var n := |added|;
    var into := InOffs(n);
    assert into <= n && (n >= MAX_OPS ==> n - into >= MAX_OPS);
    seq(MAX_OPS, (k: nat) requires k < MAX_OPS =>
      if k < into then added[n - into + k]
      else if n >= MAX_OPS then added[n - into - MAX_OPS + k]
      else EMPTY)
  }

  lemma SlotAt(added: seq<Entry>, j: nat)
    requires j < MAX_OPS
    ensures Slots(added)[Slot(OutOffs(|added|), j)] == if j < |Window(added)| then Window(added)[j] else EMPTY
  {
  }

  // The logical number of the entry in a used slot.
  function Logical(n: nat, slot: nat): (j: nat)
    requires slot < Min(n, MAX_OPS)
    ensures j < Min(n, MAX_OPS) && Slot(OutOffs(n), j) == slot
  {
    var out := OutOffs(n);
    if slot >= out then slot - out else slot + MAX_OPS - out
  }

  // Adding overwrites exactly the slot that in_offs names.
  lemma SlotsStep(added: seq<Entry>, e: Entry)
    ensures Slots(added + [e]) == Slots(added)[InOffs(|added|) := e]
  {
    OffsetsStep(|added|);
  }

  // All that one add does to the closed form.
  lemma RingStep(added: seq<Entry>, e: Entry)
    ensures var n, w := |added|, Window(added);
            && Slots(added + [e]) == Slots(added)[InOffs(n) := e]
            && InOffs(n + 1) == (InOffs(n) + 1) % MAX_OPS
            && OutOffs(n + 1) == (if n >= MAX_OPS then (OutOffs(n) + 1) % MAX_OPS else OutOffs(n))
            && (InOffs(n + 1) == OutOffs(n + 1) <==> n + 1 >= MAX_OPS)
            && |w| == Min(n, MAX_OPS)
            && (n >= MAX_OPS ==> Slots(added)[InOffs(n)] == w[0])
            && Window(added + [e]) == (if n < MAX_OPS then w else w[1..]) + [e]
  {
    hide Slots, Window, InOffs, OutOffs;
    SlotsStep(added, e);
    OffsetsStep(|added|);
    WindowStep(added, e);
    if |added| >= MAX_OPS {
      SlotAt(added, 0);
    }
  }

  function Sizes(entries: seq<Entry>): (sizes: seq<nat>)
    ensures |sizes| == |entries|
  {
    seq(|entries|, (k: nat) requires k < |entries| => entries[k].size)
  }

  function TotalSize(entries: seq<Entry>): nat {
    Sum(Sizes(entries))
  }

  // Bytes before entry k.
  function Start(entries: seq<Entry>, k: nat): nat
    requires k <= |entries|
  {
    TotalSize(entries[..k])
  }

  lemma StartStep(entries: seq<Entry>, k: nat)
    requires k < |entries|
    ensures Start(entries, k + 1) == Start(entries, k) + entries[k].size
  {
    assert Sizes(entries[..k + 1]) == Sizes(entries)[..k + 1];
    assert Sizes(entries[..k]) == Sizes(entries)[..k];
    SumStep(Sizes(entries), k);
  }

  lemma {:induction false} StartMonotonic(entries: seq<Entry>, j: nat, k: nat)
    requires j <= k <= |entries|
    ensures Start(entries, j) <= Start(entries, k)
    decreases k - j
  {
    if j < k {
      StartMonotonic(entries, j, k - 1);
      StartStep(entries, k - 1);
    }
  }

  lemma StartEnd(entries: seq<Entry>)
    ensures Start(entries, |entries|) == TotalSize(entries)
  {
    assert entries[..|entries|] == entries;
  }

  datatype Located = Beyond | At(index: nat, offset: nat)

  // Position `offset` of the concatenation, counted from entry k on: which entry, and where in it.
  // A zero-sized entry ends the search.
  function LocateFrom(entries: seq<Entry>, k: nat, offset: nat): (at: Located)
    requires k <= |entries|
    ensures at.At? ==> k <= at.index < |entries| && at.offset < entries[at.index].size
    decreases |entries| - k
  {
    if k == |entries| || entries[k].size == 0 then Beyond
    else if offset < entries[k].size then At(k, offset)
    else LocateFrom(entries, k + 1, offset - entries[k].size)
  }

  function Locate(entries: seq<Entry>, offset: nat): (at: Located)
    ensures at.At? ==> at.index < |entries| && at.offset < entries[at.index].size
  {
    LocateFrom(entries, 0, offset)
  }

  ghost predicate NonEmpty(entries: seq<Entry>) {
    forall k :: 0 <= k < |entries| ==> entries[k].size > 0
  }

  ghost predicate Names(entries: seq<Entry>, offset: nat, at: Located) {
    && at.At?
    && at.index < |entries|
    && at.offset < entries[at.index].size
    && Start(entries, at.index) + at.offset == offset
    && NonEmpty(entries[..at.index])
  }

  lemma {:induction false} LocateFromNames(entries: seq<Entry>, k: nat, offset: nat)
    requires k <= |entries| && NonEmpty(entries[..k])
    ensures var at := LocateFrom(entries, k, offset);
            && (at.At? ==> Names(entries, Start(entries, k) + offset, at))
            && (at.Beyond? && NonEmpty(entries) ==> Start(entries, k) + offset >= TotalSize(entries))
    decreases |entries| - k
  {
    if k == |entries| {
      StartEnd(entries);
    } else if entries[k].size > 0 && offset >= entries[k].size {
      StartStep(entries, k);
      LocateFromNames(entries, k + 1, offset - entries[k].size);
    }
  }

  // Two (entry, offset) pairs that name one position are one pair.
  lemma NamesUnique(entries: seq<Entry>, offset: nat, a: Located, b: Located)
    requires Names(entries, offset, a) && Names(entries, offset, b)
    ensures a == b
  {
    if a.index < b.index {
      StartStep(entries, a.index);
      StartMonotonic(entries, a.index + 1, b.index);
    } else if b.index < a.index {
      StartStep(entries, b.index);
      StartMonotonic(entries, b.index + 1, a.index);
    }
  }

  lemma {:induction false} NamedIsFound(entries: seq<Entry>, k: nat, offset: nat, at: Located)
    requires at.At? && k <= at.index <= |entries|
    requires Names(entries, Start(entries, k) + offset, at)
    ensures LocateFrom(entries, k, offset) == at
    decreases |entries| - k
  {
    if k < at.index {
      assert entries[..at.index][k].size > 0;
      StartStep(entries, k);
      StartMonotonic(entries, k + 1, at.index);
      NamedIsFound(entries, k + 1, offset - entries[k].size, at);
    }
  }

  /** Locate answers (k, o) exactly for the position that is byte o of entry k, whatever was stored. */
  lemma LocateExact(entries: seq<Entry>, offset: nat, at: Located)
    requires at.At?
    ensures Locate(entries, offset) == at <==> Names(entries, offset, at)
  {
    LocateFromNames(entries, 0, offset);
    if Names(entries, offset, at) {
      NamedIsFound(entries, 0, offset, at);
    }
  }

  /** When no entry is empty, every position below the total is found and none above it. */
  lemma LocateTotal(entries: seq<Entry>, offset: nat)
    requires NonEmpty(entries)
    ensures Locate(entries, offset).At? <==> offset < TotalSize(entries)
  {
    LocateFromNames(entries, 0, offset);
    var at := Locate(entries, offset);
    if at.At? {
      StartStep(entries, at.index);
      StartMonotonic(entries, at.index + 1, |entries|);
      StartEnd(entries);
    }
  }

  // How many slots the physical scans pass before meeting an unused one.
  function Filled(slots: seq<Entry>): (n: nat)
    ensures n <= |slots|
    ensures forall k :: 0 <= k < n ==> slots[k].buffptr != NULL
    ensures n < |slots| ==> slots[n].buffptr == NULL
  {
    if slots == [] || slots[0].buffptr == NULL then 0 else 1 + Filled(slots[1..])
  }

  // Bytes in the slots that physically precede slot `command`.
  function SeekStart(slots: seq<Entry>, command: nat): nat {
    if command >= MAX_OPS then 0 else Start(slots, Min(command, Filled(slots)))
  }

  ghost predicate AllStored(entries: seq<Entry>) {
    forall k :: 0 <= k < |entries| ==> entries[k].buffptr != NULL
  }

  // One step of a scan, with what keeps the running total from wrapping.
  lemma ScanStep(entries: seq<Entry>, k: nat)
    requires k < |entries|
    ensures Start(entries, k + 1) == Start(entries, k) + entries[k].size <= TotalSize(entries)
  {
    StartStep(entries, k);
    StartMonotonic(entries, k + 1, |entries|);
    StartEnd(entries);
  }

  lemma LocateStart(entries: seq<Entry>, offset: nat)
    ensures Start(entries, 0) == 0 && Locate(entries, offset) == LocateFrom(entries, 0, offset)
  {
  }

  // The search has come to entry k with its running total at or below the position.
  lemma LocateStep(entries: seq<Entry>, k: nat, offset: nat)
    requires k <= |entries| && Start(entries, k) <= offset
    ensures var total := Start(entries, k);
            var found := LocateFrom(entries, k, offset - total);
            if k == |entries| then found == Beyond
            else
              var after := total + entries[k].size;
              && Start(entries, k + 1) == after <= TotalSize(entries)
              && found == if entries[k].size == 0 then Beyond
                          else if after > offset then At(k, offset - total)
                          else LocateFrom(entries, k + 1, offset - after)
  {
    if k < |entries| {
      ScanStep(entries, k);
    }
  }

  // A ring that has been filled is its contents, rotated.
  lemma SlotsRotate(added: seq<Entry>)
    requires |added| >= MAX_OPS
    ensures var w := Window(added);
            var cut := MAX_OPS - OutOffs(|added|);
            Slots(added) == w[cut..] + w[..cut]
  {
    var w := Window(added);
    var out := OutOffs(|added|);
    var cut := MAX_OPS - out;
    forall k | 0 <= k < MAX_OPS
      ensures Slots(added)[k] == (w[cut..] + w[..cut])[k]
    {
      var j := if k < out then cut + k else k - out;
      SlotAt(added, j);
      assert Slot(out, j) == k;
    }
  }

  lemma {:induction false} SizesAppend(a: seq<Entry>, b: seq<Entry>)
    ensures TotalSize(a + b) == TotalSize(a) + TotalSize(b)
  {
    assert Sizes(a + b) == Sizes(a) + Sizes(b);
    SumAppend(Sizes(a), Sizes(b));
  }

  lemma {:induction false} UnusedSizes(unused: seq<Entry>)
    requires forall k :: 0 <= k < |unused| ==> unused[k] == EMPTY
    ensures TotalSize(unused) == 0
  {
    if unused != [] {
      assert Sizes(unused)[1..] == Sizes(unused[1..]);
      UnusedSizes(unused[1..]);
    }
  }

  /** Summing the slots physically gives the size of the logical contents, for every rotation. */
  lemma PhysicalTotal(added: seq<Entry>)
    ensures TotalSize(Slots(added)) == TotalSize(Window(added))
  {
    var w := Window(added);
    if |added| >= MAX_OPS {
      var cut := MAX_OPS - OutOffs(|added|);
      SlotsRotate(added);
      SizesAppend(w[cut..], w[..cut]);
      SizesAppend(w[..cut], w[cut..]);
      assert w == w[..cut] + w[cut..];
    } else {
      assert Slots(added) == w + Slots(added)[|w|..];
      UnusedSizes(Slots(added)[|w|..]);
      SizesAppend(w, Slots(added)[|w|..]);
    }
  }

  lemma {:induction false} FilledIs(slots: seq<Entry>, n: nat)
    requires n <= |slots| && AllStored(slots[..n])
    requires n < |slots| ==> slots[n].buffptr == NULL
    ensures Filled(slots) == n
  {
    if slots != [] && n > 0 {
      assert slots[1..][..n - 1] == slots[..n][1..];
      assert slots[0] == slots[..n][0];
      FilledIs(slots[1..], n - 1);
    }
  }

  /** The physical count and sum are the number and the size of the logical contents. */
  lemma PhysicalScans(added: seq<Entry>)
    requires AllStored(Window(added))
    ensures Filled(Slots(added)) == |Window(added)|
    ensures Start(Slots(added), Filled(Slots(added))) == TotalSize(Window(added))
  {
    var w := Window(added);
    var slots := Slots(added);
    if |added| >= MAX_OPS {
      SlotsRotate(added);
      StartEnd(slots);
      PhysicalTotal(added);
      FilledIs(slots, MAX_OPS);
    } else {
      assert slots[..|w|] == w;
      FilledIs(slots, |w|);
    }
  }
}

module CircularBuffer {
  import opened Bytes
  import opened Sequences
  import opened Lines
  import opened KernelMemory
  import opened RingModel

  datatype Found = NotFound | Found(slot: nat, offset: nat)

  class Ring {
    const entry: array<Entry>
    var inOffs: nat
    var outOffs: nat
    var full: bool
    // every entry ever added, oldest first
    ghost var added: seq<Entry>

    // The raw fields are a closed form of the history.
    ghost predicate Valid()
      reads this, entry
    {
      && entry.Length == MAX_OPS
      && entry[..] == Slots(added)
      && inOffs == InOffs(|added|)
      && outOffs == OutOffs(|added|)
      && (full <==> |added| >= MAX_OPS)
    }

    // What the ring holds, oldest first.
    ghost function Contents(): (c: seq<Entry>)
      reads this
      ensures |c| <= MAX_OPS
    {
      Window(added)
    }

    constructor Init()
      ensures Valid() && fresh(entry) && added == []
    {
      entry := new Entry[MAX_OPS](_ => EMPTY);
      inOffs, outOffs, full := 0, 0, false;
      added := [];
      new;
      assert entry[..] == Slots([]);
    }

    // The returned pointer is the one that was overwritten; NULL when nothing was evicted.
    method AddEntry(e: Entry) returns (old_buff: Ptr)
      requires Valid()
      modifies this, entry
      ensures Valid()
      ensures added == old(added) + [e]
      ensures old_buff == if |old(Contents())| == MAX_OPS then old(Contents())[0].buffptr else NULL
      ensures Contents() == (if |old(Contents())| == MAX_OPS then old(Contents())[1..] else old(Contents())) + [e]
    {
      hide Slots, Window, InOffs, OutOffs;
      RingStep(added, e);
      ghost var slots := entry[..];
      old_buff := NULL;
      if full {
        old_buff := entry[inOffs].buffptr;
      }
      entry[inOffs] := e;
      assert entry[..] == slots[inOffs := e];
      inOffs := (inOffs + 1) % MAX_OPS;
      if full {
        outOffs := (outOffs + 1) % MAX_OPS;
      }
      full := inOffs == outOffs;
      added := added + [e];
    }

    method FindEntryOffset(charOffset: Uint64) returns (r: Found)
      requires Valid() && TotalSize(Contents()) < TWO_64
      ensures r == match Locate(Contents(), charOffset)
                   case Beyond => NotFound
                   case At(k, o) => Found(Slot(outOffs, k), o)
    {
      hide Slots, Window, LocateFrom, Locate, Start, TotalSize;
      ghost var c := Contents();
      LocateStart(c, charOffset);
      var total: Uint64 := 0;
      var index := outOffs;
      var count := 0;
      while count < MAX_OPS
        invariant 0 <= count <= |c| && index == Slot(outOffs, count)
        invariant total == Start(c, count) && total <= charOffset
        invariant Locate(c, charOffset) == LocateFrom(c, count, charOffset - total)
      {
        SlotAt(added, count);
        LocateStep(c, count, charOffset);
        var e := entry[index];
        if e.size == 0 {
          return NotFound;
        }
        if Add64(total, e.size) > charOffset {
          return Found(index, charOffset - total);
        }
        total := Add64(total, e.size);
        SlotStep(outOffs, count);
        index := (index + 1) % MAX_OPS;
        count := count + 1;
        if index == inOffs && !full {
          break;
        }
      }
      LocateStep(c, count, charOffset);
      r := NotFound;
    }

    // The scans below go through the slots in physical order, up to the first unused one.
    method Size() returns (sz: Uint64)
      requires Valid() && TotalSize(Contents()) < TWO_64
      ensures sz == Start(entry[..], Filled(entry[..]))
    {
      ghost var slots := entry[..];
      PhysicalTotal(added);
      sz := 0;
      var i := 0;
      while i < MAX_OPS
        invariant 0 <= i <= Filled(slots) && sz == Start(slots, i)
      {
        ScanStep(slots, i);
        if entry[i].buffptr != NULL {
          sz := Add64(sz, entry[i].size);
        } else {
          break;
        }
        i := i + 1;
      }
    }

    method Count() returns (sz: Uint64)
      requires Valid()
      ensures sz == Filled(entry[..])
    {
      ghost var slots := entry[..];
      sz := 0;
      var i := 0;
      while i < MAX_OPS
        invariant 0 <= i <= Filled(slots) && sz == i
      {
        if entry[i].buffptr != NULL {
          sz := sz + 1;
        } else {
          break;
        }
        i := i + 1;
      }
    }

    method Seek(command: Uint32) returns (off: Uint64)
      requires Valid() && TotalSize(Contents()) < TWO_64
      ensures off == SeekStart(entry[..], command)
      ensures command >= MAX_OPS ==> off == 0
      ensures command < MAX_OPS ==> off == TotalSize(entry[..Min(command, Filled(entry[..]))])
    {
      ghost var slots := entry[..];
      PhysicalTotal(added);
      off := 0;
      if command >= MAX_OPS {
        return;
      }
      var i := 0;
      while i < MAX_OPS
        invariant 0 <= i <= Min(command, Filled(slots)) && off == Start(slots, i)
      {
        ScanStep(slots, i);
        if entry[i].buffptr == NULL || i == command {
          break;
        } else {
          off := Add64(off, entry[i].size);
        }
        i := i + 1;
      }
    }
  }
}
