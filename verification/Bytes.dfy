/** Little-endian integers inside byte buffers: how the drivers overlay C structs and
    tables of 16- and 32-bit words on raw disk blocks. */
module Bytes {

  type Byte = x: nat | x < 256

  const TWO_16 := 0x1_0000
  const TWO_32 := 0x1_0000_0000

  /** The cast to `uint32_t`. */
  function Low32(x: nat): (r: nat)
    ensures r < TWO_32 && r <= x && (x < TWO_32 ==> r == x)
  {
    x % TWO_32
  }

  lemma Low32Plus(x: nat, n: nat)
    ensures Low32(Low32(x) + n) == Low32(x + n)
  {
  }

  function U16At(b: seq<Byte>, off: nat): (v: nat)
    requires off + 2 <= |b|
    ensures v < TWO_16
  {
    var lo: nat, hi: nat := b[off], b[off + 1];
    lo + 256 * hi
  }

  function U32At(b: seq<Byte>, off: nat): (v: nat)
    requires off + 4 <= |b|
    ensures v < TWO_32
  {
    U16At(b, off) + TWO_16 * U16At(b, off + 2)
  }

  function PutU16(b: seq<Byte>, off: nat, v: nat): (r: seq<Byte>)
    requires off + 2 <= |b| && v < TWO_16
    ensures |r| == |b| && U16At(r, off) == v
    ensures forall k :: 0 <= k < |b| && !(off <= k < off + 2) ==> r[k] == b[k]
  {
    b[off := v % 256][off + 1 := v / 256]
  }

  function PutU32(b: seq<Byte>, off: nat, v: nat): (r: seq<Byte>)
    requires off + 4 <= |b| && v < TWO_32
    ensures |r| == |b| && U32At(r, off) == v
    ensures forall k :: 0 <= k < |b| && !(off <= k < off + 4) ==> r[k] == b[k]
  {
    PutU16(PutU16(b, off, v % TWO_16), off + 2, v / TWO_16)
  }

  lemma PutU16Same(b: seq<Byte>, off: nat)
    requires off + 2 <= |b|
    ensures PutU16(b, off, U16At(b, off)) == b
  {
  }

  /** Storing a word that is already there changes nothing. */
  lemma PutU32Same(b: seq<Byte>, off: nat)
    requires off + 4 <= |b|
    ensures PutU32(b, off, U32At(b, off)) == b
  {
    var v := U32At(b, off);
    assert v % TWO_16 == U16At(b, off) && v / TWO_16 == U16At(b, off + 2);
    PutU16Same(b, off);
    PutU16Same(b, off + 2);
  }

  function Zeros(n: nat): (z: seq<Byte>)
    ensures |z| == n
    ensures forall k :: 0 <= k < n ==> z[k] == 0
  {
    seq(n, _ => 0)
  }
}
