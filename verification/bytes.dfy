/** Bytes, 64-bit machine arithmetic and the string search of C. */
module Bytes {

  newtype Byte = b: int | 0 <= b < 256

  const NEWLINE: Byte := 10
  const NUL: Byte := 0

  const TWO_63: int := 0x8000_0000_0000_0000
  const TWO_64: int := 0x1_0000_0000_0000_0000

  // loff_t and size_t of the 64-bit kernel
  type Int64 = x: int | -TWO_63 <= x < TWO_63
  type Uint64 = x: int | 0 <= x < TWO_64
  type Uint32 = x: int | 0 <= x < 0x1_0000_0000

  // Conversion to the unsigned type: section 6.3.1.3 of ISO/IEC 9899:2011.
  function ToUint64(x: int): (u: Uint64)
    ensures 0 <= x < TWO_64 ==> u == x
    ensures -TWO_64 <= x < 0 ==> u == x + TWO_64
  {
    x % TWO_64
  }

  // Two's-complement reading of a 64-bit word; also wrap-around signed addition, which is
  // what the kernel gets by building with -fno-strict-overflow.
  function ToInt64(x: int): (i: Int64)
    ensures -TWO_64 <= x < -TWO_63 ==> i == x + TWO_64
    ensures -TWO_63 <= x < TWO_63 ==> i == x
    ensures TWO_63 <= x < TWO_64 ==> i == x - TWO_64
  {
    var u := ToUint64(x);
    if u < TWO_63 then u else u - TWO_64
  }

  // size_t addition
  function Add64(a: Uint64, b: nat): (r: Uint64)
    ensures a + b < TWO_64 ==> r == a + b
  {
    ToUint64(a + b)
  }

  // strchr(buf, '\n') on a chunk that is followed by a NUL: the first newline before any NUL, or -1.
  function Strchr(buf: seq<Byte>): (p: int)
    ensures -1 <= p < |buf|
    ensures p >= 0 ==> buf[p] == NEWLINE
  {
    if buf == [] || buf[0] == NUL then -1
    else if buf[0] == NEWLINE then 0
    else
      var p := Strchr(buf[1..]);
      if p < 0 then -1 else p + 1
  }

  lemma {:induction false} StrchrExact(buf: seq<Byte>)
    ensures Strchr(buf) >= 0 <==> exists i :: 0 <= i < |buf| && buf[i] == NEWLINE && NUL !in buf[..i]
    ensures Strchr(buf) >= 0 ==> NUL !in buf[..Strchr(buf)] && NEWLINE !in buf[..Strchr(buf)]
  {
    if buf != [] && buf[0] != NUL && buf[0] != NEWLINE {
      var rest, p := buf[1..], Strchr(buf[1..]);
      StrchrExact(rest);
      if p >= 0 {
        assert buf[..p + 1] == [buf[0]] + rest[..p];
      }
      forall i | 0 <= i < |buf| && buf[i] == NEWLINE && NUL !in buf[..i]
        ensures Strchr(buf) >= 0
      {
        assert rest[i - 1] == NEWLINE && rest[..i - 1] == buf[..i][1..];
      }
    } else if buf != [] {
      assert buf[..0] == [];
    }
  }

  lemma {:induction false} NulFreeFinds(buf: seq<Byte>)
    requires NUL !in buf
    ensures Strchr(buf) >= 0 <==> NEWLINE in buf
  {
    if buf != [] {
      NulFreeFinds(buf[1..]);
    }
  }
}
