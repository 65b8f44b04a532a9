/** Files as byte arrays: what reading and writing at a position mean, for either file system. */
module FileSpec {
  import opened Invariants
  import opened Arith
  import opened Bytes

  /** A sparse byte array after storing `data` at `pos`: the gap, if any, is filled with zeros. */
  function WriteSpec(s: seq<Byte>, pos: nat, data: seq<Byte>): seq<Byte> {
    var n := if |s| < pos + |data| then pos + |data| else |s|;
    seq(n, (x: nat) =>
      if pos <= x < pos + |data| then data[x - pos] else if x < |s| then s[x] else 0)
  }

  /** The byte at `i`, zero past the end. */
  function ByteIn(s: seq<Byte>, i: nat): Byte {
    if i < |s| then s[i] else 0
  }

  /** The same with a 32-bit position that goes on at 0 when it reaches 2^32. */
  function Ring(s: seq<Byte>, at: nat, data: seq<Byte>): (r: seq<Byte>)
    requires at < TWO_32
    ensures |s| <= |r| && (|s| == TWO_32 ==> |r| == TWO_32)
    decreases |data|
  {
    if at + |data| <= TWO_32 then WriteSpec(s, at, data)
    else Ring(WriteSpec(s, at, data[..TWO_32 - at]), 0, data[TWO_32 - at..])
  }

  /** A byte depends on the call and on the byte that was there. */
  lemma {:induction false} RingByte(s: seq<Byte>, t: seq<Byte>, at: nat, data: seq<Byte>, i: nat)
    requires at < TWO_32 && ByteIn(s, i) == ByteIn(t, i)
    ensures ByteIn(Ring(s, at, data), i) == ByteIn(Ring(t, at, data), i)
    decreases |data|
  {
    if at + |data| > TWO_32 {
      var d := data[..TWO_32 - at];
      RingByte(WriteSpec(s, at, d), WriteSpec(t, at, d), 0, data[TWO_32 - at..], i);
    }
  }

  lemma WriteTwice(s: seq<Byte>, at: nat, d: seq<Byte>, e: seq<Byte>)
    ensures WriteSpec(WriteSpec(s, at, d), at + |d|, e) == WriteSpec(s, at, d + e)
  {
  }

  lemma WriteNothing(s: seq<Byte>)
    ensures WriteSpec(s, 0, []) == s
  {
  }

  /** Data `e` goes on at `pos` behind `d`. */
  ghost predicate Continues(s: seq<Byte>, at: nat, d: seq<Byte>, e: seq<Byte>, pos: nat) {
    at < TWO_32 && Ring(s, at, d + e) == WriteSpec(Ring(s, at, d), pos, e)
  }

  /** Data that arrives in two parts, the second of which does not wrap. */
  lemma {:induction false} RingMore(s: seq<Byte>, at: nat, d: seq<Byte>, e: seq<Byte>, pos: nat)
    requires at < TWO_32 && pos == Low32(at + |d|) && pos + |e| <= TWO_32
    ensures Whole(Continues(s, at, d, e, pos))
    decreases |d|
  {
    var n := TWO_32 - at;
    if |d| > n {
      RingPast(at, |d|);
      RingMore(WriteSpec(s, at, d[..n]), 0, d[n..], e, pos);
      RingAround(s, at, d, e, pos);
    } else if |d| == n {
      RingTurn(s, at, d, e, pos);
    } else {
      RingFlat(s, at, d, e, pos);
    }
  }

  lemma RingFlat(s: seq<Byte>, at: nat, d: seq<Byte>, e: seq<Byte>, pos: nat)
    requires pos == at + |d| < TWO_32 && pos + |e| <= TWO_32
    ensures Whole(Continues(s, at, d, e, pos))
  {
    WriteTwice(s, at, d, e);
  }

  lemma RingPast(at: nat, n: nat)
    requires at < TWO_32 < at + n
    ensures Low32(at + n) == Low32(0 + (n - (TWO_32 - at)))
  {
  }

  lemma RingAround(s: seq<Byte>, at: nat, d: seq<Byte>, e: seq<Byte>, pos: nat)
    requires at < TWO_32 < at + |d|
    requires Whole(Continues(WriteSpec(s, at, d[..TWO_32 - at]), 0, d[TWO_32 - at..], e, pos))
    ensures Whole(Continues(s, at, d, e, pos))
  {
    var n := TWO_32 - at;
    assert (d + e)[..n] == d[..n] && (d + e)[n..] == d[n..] + e;
  }

  lemma RingTurn(s: seq<Byte>, at: nat, d: seq<Byte>, e: seq<Byte>, pos: nat)
    requires at < TWO_32 && at + |d| == TWO_32 && |e| <= TWO_32 && pos == 0
    ensures Whole(Continues(s, at, d, e, pos))
  {
    if e == [] {
      assert d + e == d;
      WriteNothing(WriteSpec(s, at, d));
    } else {
      assert (d + e)[..|d|] == d && (d + e)[|d|..] == e;
      assert Ring(WriteSpec(s, at, d), 0, e) == WriteSpec(WriteSpec(s, at, d), 0, e);
    }
  }

  function ReadSpec(s: seq<Byte>, pos: nat, count: nat): seq<Byte> {
    if pos >= |s| then [] else if pos + count > |s| then s[pos..] else s[pos..pos + count]
  }

  /** Reading back what was written, and reading around it. */
  lemma ReadAfterWrite(s: seq<Byte>, pos: nat, data: seq<Byte>, at: nat, count: nat)
    ensures ReadSpec(WriteSpec(s, pos, data), pos, |data|) == data
    ensures at + count <= pos && at + count <= |s| ==>
      ReadSpec(WriteSpec(s, pos, data), at, count) == ReadSpec(s, at, count)
    ensures pos + |data| <= at ==> ReadSpec(WriteSpec(s, pos, data), at, count) == ReadSpec(s, at, count)
    ensures |s| <= at && at + count <= pos && data != [] ==>
      ReadSpec(WriteSpec(s, pos, data), at, count) == Zeros(count)
  {
    var t := WriteSpec(s, pos, data);
    assert t[pos..pos + |data|] == data;
    if at + count <= pos && at + count <= |s| { SameSlice(s, t, at, at + count); }
    if pos + |data| <= at < |s| {
      SameSlice(s, t, at, |s|);
      if at + count <= |s| { SameSlice(s, t, at, at + count); }
    }
    if |s| <= at && at + count <= pos && data != [] {
      var z := t[at..at + count];
      forall k | 0 <= k < count ensures z[k] == 0 {
        assert z[k] == t[at + k];
      }
    }
  }

  lemma SameSlice(s: seq<Byte>, t: seq<Byte>, i: nat, j: nat)
    requires i <= j <= |s| && j <= |t| && forall k :: i <= k < j ==> s[k] == t[k]
    ensures s[i..j] == t[i..j]
  {
  }

  function Splice(t: seq<Byte>, off: nat, data: seq<Byte>): seq<Byte>
    requires off + |data| <= |t|
  {
    t[..off] + data + t[off + |data|..]
  }

  /** Positions inside one block. */
  lemma InBlock(size: nat, pos: nat, n: nat, x: nat)
    requires 0 < size && Rem(size, pos) + n <= size
    ensures pos <= x < pos + n <==>
      Quot(size, x) == Quot(size, pos) && Rem(size, pos) <= Rem(size, x) < Rem(size, pos) + n
    ensures pos <= x < pos + n ==> Rem(size, x) - Rem(size, pos) == x - pos
  {
    Split(size, pos);
    Split(size, x);
    if pos <= x < pos + n {
      Join(size, Quot(size, pos), Rem(size, pos) + (x - pos));
    }
  }

  lemma SpliceAt(t: seq<Byte>, off: nat, data: seq<Byte>, o: nat)
    requires off + |data| <= |t| && o < |t|
    ensures |Splice(t, off, data)| == |t|
    ensures Splice(t, off, data)[o] == if off <= o < off + |data| then data[o - off] else t[o]
  {
  }

  /** Neighbouring stretches of a sequence. */
  lemma Joined(s: seq<Byte>, a: seq<Byte>, b: seq<Byte>, i: nat, k: nat)
    requires i + |a| <= k <= |s| && a == s[i..i + |a|] && b == s[i + |a|..k]
    ensures a + b == s[i..i + |a + b|]
  {
  }
}
