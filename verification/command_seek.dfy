/** What seeking to a command by number means, given that the scan is physical. */
module CommandSeek {
  import opened Bytes
  import opened Sequences
  import opened Lines
  import opened RingModel
  import opened Ownership

  /** In general: the logical start of slot k, plus the bytes before out_offs or minus those from it on. */
  lemma SeekIsPhysical(added: seq<Entry>, k: nat)
    requires k < |Window(added)| && AllStored(Window(added))
    ensures var w, slots, out := Window(added), Slots(added), OutOffs(|added|);
            var before := Start(slots, out);
            var rest := TotalSize(slots[out..]);
            var j := Logical(|added|, k);
            && slots[k] == w[j]
            && SeekStart(slots, k) == if k >= out then Start(w, j) + before else Start(w, j) - rest
  {
    var w, slots, out := Window(added), Slots(added), OutOffs(|added|);
    var j := Logical(|added|, k);
    SlotAt(added, j);
    assert Slot(out, j) == k;
    PhysicalScans(added);
    if |added| > MAX_OPS {
      var cut := MAX_OPS - out;
      SlotsRotate(added);
      assert slots[out..] == w[..cut];
      if k >= out {
        assert slots[..k] == slots[..out] + w[..j];
        SizesAppend(slots[..out], w[..j]);
      } else {
        assert w[..j] == slots[out..] + slots[..k];
        SizesAppend(slots[out..], slots[..k]);
      }
    } else {
      assert slots[..k] == w[..k] && slots[..0] == [];
    }
  }

  // Seeking to command k and reading gives byte o of the k-th oldest command.
  ghost predicate SeekHits(added: seq<Entry>, k: nat, o: nat) {
    Locate(Window(added), SeekStart(Slots(added), k) + o) == At(k, o)
  }

  // The sizes do not change when the slots are rotated to logical order.
  predicate SizesPeriodic(slots: seq<Entry>, out: nat)
    requires |slots| == MAX_OPS && out < MAX_OPS
  {
    forall j: nat :: j < MAX_OPS ==> slots[j].size == slots[Slot(out, j)].size
  }

  lemma PeriodicStarts(added: seq<Entry>, k: nat)
    requires k <= |Window(added)|
    requires SizesPeriodic(Slots(added), OutOffs(|added|))
    ensures Start(Slots(added), k) == Start(Window(added), k)
  {
    var w, slots := Window(added), Slots(added);
    forall j | 0 <= j < k
      ensures Sizes(slots[..k])[j] == Sizes(w[..k])[j]
    {
      SlotAt(added, j);
    }
    assert Sizes(slots[..k]) == Sizes(w[..k]);
  }

  lemma StartsPeriodic(added: seq<Entry>)
    requires AllStored(Window(added))
    requires forall k :: 0 <= k < |Window(added)| ==> Start(Slots(added), k) == Start(Window(added), k)
    ensures SizesPeriodic(Slots(added), OutOffs(|added|))
  {
    var w, slots, out := Window(added), Slots(added), OutOffs(|added|);
    if |added| > MAX_OPS {
      PhysicalTotal(added);
      StartEnd(slots);
      StartEnd(w);
      forall j: nat | j < MAX_OPS
        ensures slots[j].size == slots[Slot(out, j)].size
      {
        SlotAt(added, j);
        StartStep(slots, j);
        StartStep(w, j);
        assert Start(slots, j + 1) == Start(w, j + 1);
      }
    }
  }

  /** Every byte of every command is hit exactly when the sizes are periodic under the rotation. */
  lemma SeekHitsIffPeriodic(added: seq<Entry>)
    requires AllStored(Window(added)) && NonEmpty(Window(added))
    ensures (forall k: nat, o: nat :: k < |Window(added)| && o < Slots(added)[k].size ==> SeekHits(added, k, o))
            <==> SizesPeriodic(Slots(added), OutOffs(|added|))
  {
    var w, slots := Window(added), Slots(added);
    PhysicalScans(added);
    if SizesPeriodic(slots, OutOffs(|added|)) {
      forall k: nat, o: nat | k < |w| && o < slots[k].size
        ensures SeekHits(added, k, o)
      {
        SlotAt(added, k);
        PeriodicStarts(added, k);
        LocateExact(w, Start(w, k) + o, At(k, o));
      }
    }
    if forall k: nat, o: nat :: k < |w| && o < slots[k].size ==> SeekHits(added, k, o) {
      forall k: nat | k < |w|
        ensures Start(slots, k) == Start(w, k)
      {
        SeekIsPhysical(added, k);
        assert SeekHits(added, k, 0);
        LocateExact(w, Start(slots, k), At(k, 0));
      }
      StartsPeriodic(added);
    }
  }

  /** As long as nothing has been rotated, seek(k) is the start of command k and every offset in it is hit. */
  lemma SeekHitsUnrotated(added: seq<Entry>, k: nat, o: nat)
    requires AllStored(Window(added)) && NonEmpty(Window(added))
    requires OutOffs(|added|) == 0 && k < |Window(added)| && o < Window(added)[k].size
    ensures SeekStart(Slots(added), k) == Start(Window(added), k)
    ensures SeekHits(added, k, o)
  {
    SeekIsPhysical(added, k);
    assert Slots(added)[..0] == [];
    LocateExact(Window(added), Start(Window(added), k) + o, At(k, o));
  }

  // The lines in the used slots, in physical order.
  function SlotLines(lines: seq<Line>): (s: seq<Line>)
    ensures |s| == |Window(lines)|
  {
    var w := Window(lines);
    var cut := if |lines| <= MAX_OPS then 0 else MAX_OPS - OutOffs(|lines|);
    w[cut..] + w[..cut]
  }

  // Where the seek command takes a reader for command k.
  function CommandStart(lines: seq<Line>, k: nat): nat
    requires k <= |Window(lines)|
  {
    |Flatten(SlotLines(lines)[..k])|
  }

  // Where the k-th oldest line starts.
  function LineStart(lines: seq<Line>, k: nat): nat
    requires k <= |Window(lines)|
  {
    |Flatten(Window(lines)[..k])|
  }

  // What the seek command accepts.
  predicate InCommand(lines: seq<Line>, k: nat, o: nat) {
    k < |Window(lines)| && o <= |SlotLines(lines)[k]|
  }

  // The slots of a ring whose entries measure `lines`.
  lemma SlotsMeasured(added: seq<Entry>, lines: seq<Line>)
    requires |added| == |lines| && Measures(Window(added), Window(lines))
    ensures Measures(Slots(added)[..|Window(lines)|], SlotLines(lines))
  {
    var n := |Window(lines)|;
    forall k | 0 <= k < n
      ensures Slots(added)[k].size == |SlotLines(lines)[k]|
    {
      var j := Logical(|added|, k);
      SlotAt(added, j);
      assert Slot(OutOffs(|added|), j) == k;
      assert SlotLines(lines)[k] == Window(lines)[j];
    }
  }

  lemma CommandMeasured(added: seq<Entry>, lines: seq<Line>, k: nat)
    requires |added| == |lines| && Measures(Window(added), Window(lines))
    requires AllStored(Window(added)) && k < |Window(lines)|
    ensures Slots(added)[k].size == |SlotLines(lines)[k]|
    ensures SeekStart(Slots(added), k) == CommandStart(lines, k)
    ensures CommandStart(lines, k) + |SlotLines(lines)[k]| <= TotalSize(Window(added))
  {
    var n := |Window(lines)|;
    SlotsMeasured(added, lines);
    PhysicalScans(added);
    MeasuredStart(Slots(added)[..n], SlotLines(lines), k);
    assert Slots(added)[..n][..k] == Slots(added)[..k];
    ScanStep(Slots(added), k);
    PhysicalTotal(added);
  }

  lemma {:induction false} SameLengths(a: seq<Line>, b: seq<Line>)
    requires |a| == |b| && forall j :: 0 <= j < |a| ==> |a[j]| == |b[j]|
    ensures |Flatten(a)| == |Flatten(b)|
  {
    if a != [] {
      SameLengths(a[1..], b[1..]);
    }
  }

  lemma SameStartsSameLengths(a: seq<Line>, b: seq<Line>)
    requires |a| == |b| && |Flatten(a)| == |Flatten(b)|
    requires forall k :: 0 <= k < |a| ==> |Flatten(a[..k])| == |Flatten(b[..k])|
    ensures forall j :: 0 <= j < |a| ==> |a[j]| == |b[j]|
  {
    forall j | 0 <= j < |a|
      ensures |a[j]| == |b[j]|
    {
      FlattenStep(a, j);
      FlattenStep(b, j);
      assert j + 1 == |a| ==> a[..j + 1] == a && b[..j + 1] == b;
    }
  }

  lemma FlattenStep(a: seq<Line>, j: nat)
    requires j < |a|
    ensures |Flatten(a[..j + 1])| == |Flatten(a[..j])| + |a[j]|
  {
    assert a[..j + 1] == a[..j] + [a[j]];
    FlattenSnoc(a[..j], a[j]);
  }

  lemma SlotLinesTotal(lines: seq<Line>)
    ensures |Flatten(SlotLines(lines))| == |Flatten(Window(lines))|
  {
    var w := Window(lines);
    var cut := if |lines| <= MAX_OPS then 0 else MAX_OPS - OutOffs(|lines|);
    FlattenAppend(w[cut..], w[..cut]);
    FlattenAppend(w[..cut], w[cut..]);
    assert w == w[..cut] + w[cut..];
  }

  /** A used slot takes exactly the offsets that lead no further than the end of its line. */
  lemma CommandOffsets(lines: seq<Line>, k: nat, o: nat)
    requires k < |Window(lines)|
    ensures InCommand(lines, k, o) <==> CommandStart(lines, k) + o <= |Flatten(SlotLines(lines)[..k + 1])|
  {
    FlattenStep(SlotLines(lines), k);
  }

  // Wherever a seek command goes, it stays within the data.
  lemma CommandWithin(lines: seq<Line>, k: nat, o: nat)
    requires InCommand(lines, k, o)
    ensures CommandStart(lines, k) + o <= |Flatten(Window(lines))|
  {
    SlotLinesTotal(lines);
    FlattenAt(SlotLines(lines), k, 0, o);
  }

  /** The seek command finds every command exactly when rotating the ring changes no length. */
  lemma CommandStartExact(lines: seq<Line>)
    ensures (forall k :: 0 <= k < |Window(lines)| ==> CommandStart(lines, k) == LineStart(lines, k))
            <==> (forall j :: 0 <= j < |Window(lines)| ==> |SlotLines(lines)[j]| == |Window(lines)[j]|)
  {
    var s, w := SlotLines(lines), Window(lines);
    SlotLinesTotal(lines);
    if forall j :: 0 <= j < |w| ==> |s[j]| == |w[j]| {
      forall k | 0 <= k < |w|
        ensures CommandStart(lines, k) == LineStart(lines, k)
      {
        SameLengths(s[..k], w[..k]);
      }
    } else if forall k :: 0 <= k < |w| ==> CommandStart(lines, k) == LineStart(lines, k) {
      forall k | 0 <= k < |w|
        ensures |Flatten(s[..k])| == |Flatten(w[..k])|
      {
        assert CommandStart(lines, k) == LineStart(lines, k);
      }
      SameStartsSameLengths(s, w);
    }
  }

  /** A stream after which it does not: ten empty lines and then a line of two bytes. */
  lemma WrappedSeekMisses() returns (stream: seq<Byte>)
    ensures |Window(Parse(stream).lines)| == MAX_OPS
    ensures CommandStart(Parse(stream).lines, 1) == 2 && LineStart(Parse(stream).lines, 1) == 1
  {
    var last: Line := [97, NEWLINE];
    var lines := seq(MAX_OPS, _ => [NEWLINE]) + [last];
    stream := Flatten(lines);
    assert IsLine(last) && IsLine([NEWLINE]);
    SplittingUnique(stream, Parsed(lines, []));
    var w := Window(lines);
    assert w[..1] == [[NEWLINE]];
    assert SlotLines(lines)[..1] == [last];
    FlattenOne(last);
    FlattenOne([NEWLINE]);
  }
}
