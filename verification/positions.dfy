/** File positions: how far a read goes, and where llseek may move to. */
module Positions {
  import opened Bytes
  import opened Sequences

  const EFAULT: int := 14
  const ENOMEM: int := 12
  const EINVAL: int := 22
  const ERESTARTSYS: int := 512

  // _IOWR(0x16, 1, struct aesd_seekto), whose size is 8
  const IOCSEEKTO: Uint32 := 0xC008_1601

  const SEEK_SET: int := 0
  const SEEK_CUR: int := 1
  const SEEK_END: int := 2

  // The bytes a read of `count` gets from position `pos` of `total` readable ones.
  function ReadLength(total: nat, pos: int, count: nat): nat {
    if 0 <= pos < total then Min(count, total - pos) else 0
  }

  // The position behind the next newline, or else the end of the data.
  function LineEnd(data: seq<Byte>, pos: nat): (end: nat)
    requires pos < |data|
    ensures pos < end <= |data|
    decreases |data| - pos
  {
    if data[pos] == NEWLINE || pos + 1 == |data| then pos + 1 else LineEnd(data, pos + 1)
  }

  // One copy of a read that may go up to `end`: the rest of a line.
  function CopyEnd(data: seq<Byte>, pos: nat, end: nat): (stop: nat)
    requires pos < end <= |data|
    ensures pos < stop <= end
  {
    Min(LineEnd(data, pos), end)
  }

  // Where the copies of a read from `start` stop, from `pos` on: at `end`, or at the first one that fails.
  // Of a copy to byte n of the caller's buffer, arrives(n) bytes can be delivered.
  function Stop(data: seq<Byte>, start: nat, pos: nat, end: nat, arrives: nat -> nat): (stop: nat)
    requires start <= pos <= end <= |data|
    ensures pos <= stop <= end
    decreases end - pos
  {
    if pos == end then pos
    else
      var next := CopyEnd(data, pos, end);
      if arrives(pos - start) < next - pos then pos else Stop(data, start, next, end, arrives)
  }

  lemma StopStep(data: seq<Byte>, start: nat, pos: nat, end: nat, arrives: nat -> nat)
    requires start <= pos < end <= |data|
    ensures var next := CopyEnd(data, pos, end);
            Stop(data, start, pos, end, arrives) ==
            if arrives(pos - start) < next - pos then pos else Stop(data, start, next, end, arrives)
  {
  }

  lemma StopEnds(data: seq<Byte>, start: nat, end: nat, arrives: nat -> nat)
    requires start <= end <= |data|
    ensures Stop(data, start, end, end, arrives) == end
  {
  }

  // Where a read leaves the position.
  function ReadStop(data: seq<Byte>, pos: int, count: nat, arrives: nat -> nat): (stop: int)
    ensures pos <= stop <= pos + ReadLength(|data|, pos, count)
  {
    var n := ReadLength(|data|, pos, count);
    if n == 0 then pos else Stop(data, pos, pos, pos + n, arrives)
  }

  // A copy may start here, and this one delivers all that it is to deliver.
  predicate CopyStart(data: seq<Byte>, start: nat, p: nat) {
    p == start || (start < p <= |data| && data[p - 1] == NEWLINE)
  }

  predicate Copies(data: seq<Byte>, start: nat, p: nat, end: nat, arrives: nat -> nat)
    requires start <= p < end <= |data|
  {
    arrives(p - start) >= CopyEnd(data, p, end) - p
  }

  // The stop, independent of the loop: all copies before it deliver, and there is none to come or it fails.
  ghost predicate IsStop(data: seq<Byte>, start: nat, pos: nat, end: nat, arrives: nat -> nat, p: nat)
    requires start <= pos <= end <= |data|
  {
    && pos <= p <= end
    && (forall q :: pos <= q < p && CopyStart(data, start, q) ==> Copies(data, start, q, end, arrives))
    && (p < end ==> CopyStart(data, start, p) && !Copies(data, start, p, end, arrives))
  }

  lemma {:induction false} LineEndIsNext(data: seq<Byte>, pos: nat)
    requires pos < |data|
    ensures NEWLINE !in data[pos..LineEnd(data, pos) - 1]
    ensures LineEnd(data, pos) < |data| ==> data[LineEnd(data, pos) - 1] == NEWLINE
    decreases |data| - pos
  {
    if !(data[pos] == NEWLINE || pos + 1 == |data|) {
      LineEndIsNext(data, pos + 1);
      var end := LineEnd(data, pos);
      assert data[pos..end - 1] == [data[pos]] + data[pos + 1..end - 1];
    }
  }

  // The newline of a line is found from within it.
  lemma {:induction false} LineEndAt(data: seq<Byte>, pos: nat, end: nat)
    requires pos < end <= |data| && data[end - 1] == NEWLINE && NEWLINE !in data[pos..end - 1]
    ensures LineEnd(data, pos) == end
    decreases end - pos
  {
    if pos + 1 < end {
      assert data[pos] == data[pos..end - 1][0] && data[pos + 1..end - 1] == data[pos..end - 1][1..];
      LineEndAt(data, pos + 1, end);
    }
  }

  lemma {:induction false} StopHolds(data: seq<Byte>, start: nat, pos: nat, end: nat, arrives: nat -> nat)
    requires start <= pos <= end <= |data| && (pos == end || CopyStart(data, start, pos))
    ensures IsStop(data, start, pos, end, arrives, Stop(data, start, pos, end, arrives))
    decreases end - pos
  {
    if pos < end && Copies(data, start, pos, end, arrives) {
      var next := CopyEnd(data, pos, end);
      LineEndIsNext(data, pos);
      StopHolds(data, start, next, end, arrives);
      forall q | pos < q < next
        ensures !CopyStart(data, start, q)
      {
        assert data[q - 1] == data[pos..LineEnd(data, pos) - 1][q - 1 - pos];
      }
    }
  }

  /** A read stops at p exactly if every copy before p delivers and p is the end, or the copy that starts
      at p does not. */
  lemma StopCharacterised(data: seq<Byte>, start: nat, end: nat, arrives: nat -> nat, p: nat)
    requires start <= end <= |data|
    ensures p == Stop(data, start, start, end, arrives) <==> IsStop(data, start, start, end, arrives, p)
  {
    StopHolds(data, start, start, end, arrives);
  }

  // The very first copy cannot deliver the rest of the line, or as much of it as is wanted.
  predicate FirstCopyFails(data: seq<Byte>, pos: int, count: nat, arrives: nat -> nat) {
    var n := ReadLength(|data|, pos, count);
    n > 0 && arrives(0) < CopyEnd(data, pos, pos + n) - pos
  }

  // The read does not get as far as it may.
  predicate Faults(data: seq<Byte>, pos: int, count: nat, arrives: nat -> nat) {
    ReadStop(data, pos, count, arrives) < pos + ReadLength(|data|, pos, count)
  }

  /** It fails exactly if one of the copies that make it up does not deliver. */
  lemma FaultsExact(data: seq<Byte>, pos: int, count: nat, arrives: nat -> nat)
    ensures var end := pos + ReadLength(|data|, pos, count);
            Faults(data, pos, count, arrives) <==>
            exists q :: pos <= q < end && CopyStart(data, pos, q) && !Copies(data, pos, q, end, arrives)
  {
    var n := ReadLength(|data|, pos, count);
    if n > 0 {
      StopHolds(data, pos, pos, pos + n, arrives);
    }
  }

  /** A read that fails leaves the position where it was exactly if its first copy is the one that fails. */
  lemma FaultMoves(data: seq<Byte>, pos: int, count: nat, arrives: nat -> nat)
    requires Faults(data, pos, count, arrives)
    ensures ReadStop(data, pos, count, arrives) == pos <==> FirstCopyFails(data, pos, count, arrives)
  {
  }

  /** A read of two lines whose second copy fails: it is one byte further on. */
  lemma FaultMovesOn() returns (data: seq<Byte>, arrives: nat -> nat)
    ensures data == [NEWLINE, NEWLINE] && Faults(data, 0, 2, arrives) && ReadStop(data, 0, 2, arrives) == 1
  {
    data, arrives := [NEWLINE, NEWLINE], n => if n == 0 then 1 else 0;
    assert CopyEnd(data, 0, 2) == 1 && CopyEnd(data, 1, 2) == 2;
  }

  // Where an llseek is meant to go, without any wrap-around.
  function Target(total: nat, pos: int, offset: int, whence: int): int {
    if whence == SEEK_SET then offset
    else if whence == SEEK_CUR then pos + offset
    else total + offset
  }

  // Only SEEK_END may go to the very end.
  predicate Accepts(total: nat, pos: int, offset: int, whence: int) {
    var target := Target(total, pos, offset, whence);
    && SEEK_SET <= whence <= SEEK_END
    && 0 <= target
    && (if whence == SEEK_END then target <= total else target < total)
  }
}
