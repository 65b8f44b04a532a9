/** Where the bytes of a file are on the disk, in ordinary arithmetic and byte by byte. */
module Ext2Layout {
  import opened Arith
  import opened Bytes
  import opened FileSpec
  import opened Ext2Tree
  import opened Ext2Bmap
  import opened Ext2Files

  /** Entry `i` of pointer block `b`: four bytes, the lowest first. There is no block 0, and none past the
      end of the device. */
  function Entry(disk: Disk, b: nat, i: nat): nat {
    if b == 0 || b >= |disk| || 4 * i + 3 >= |disk[b]| then 0
    else
      var w: nat, x: nat, y: nat, z: nat := disk[b][4 * i], disk[b][4 * i + 1], disk[b][4 * i + 2], disk[b][4 * i + 3];
      w + 0x100 * x + 0x1_0000 * y + 0x100_0000 * z
  }

  /** The block that holds logical block `l` of a file: one of twelve named by the inode, or one of `p`
      named by a pointer block, or one of `p * p` behind two, or behind three of them. */
  function Place(p: nat, disk: Disk, block: Slots, l: nat): nat
    requires 0 < p
  {
    if l < 12 then block[l]
    else if l < 12 + p then Entry(disk, block[12], l - 12)
    else if l < 12 + p + p * p then
      var m := l - 12 - p;
      Entry(disk, Entry(disk, block[13], m / p), m % p)
    else
      var m := l - 12 - p - p * p;
      Entry(disk, Entry(disk, Entry(disk, block[14], m / p / p), m / p % p), m % p)
  }

  /** Byte `x` of a file, as it is on the disk; what has no block is zero. */
  function OnDisk(p: nat, disk: Disk, block: Slots, x: nat): Byte
    requires 0 < p
  {
    var b := Place(p, disk, block, x / (4 * p));
    if b == 0 || b >= |disk| || x % (4 * p) >= |disk[b]| then 0 else disk[b][x % (4 * p)]
  }

  lemma EntryIs(disk: Disk, b: nat, i: nat)
    ensures Ptr(disk, b, i) == Entry(disk, b, i)
  {
  }

  lemma PlaceDouble(p: nat, disk: Disk, block: Slots, m: nat)
    requires 0 < p
    ensures Ptr(disk, Ptr(disk, block[DIND], Quot(p, m)), Rem(p, m)) ==
      Entry(disk, Entry(disk, block[13], m / p), m % p)
  {
    QuotIs(p, m);
    EntryIs(disk, block[DIND], Quot(p, m));
    EntryIs(disk, Entry(disk, block[13], m / p), Rem(p, m));
  }

  lemma PlaceTriple(p: nat, disk: Disk, block: Slots, m: nat)
    requires 0 < p && 0 < Times(p, p)
    ensures Ptr(disk, Ptr(disk, Ptr(disk, block[TIND], Quot(Times(p, p), m)), Rem(p, Quot(p, m))), Rem(p, m)) ==
      Entry(disk, Entry(disk, Entry(disk, block[14], m / p / p), m / p % p), m % p)
  {
    QuotIs(p, m);
    QuotIs(p, Quot(p, m));
    DigitsOf(p, m);
    var a, b, c := m / p / p, m / p % p, m % p;
    EntryIs(disk, block[TIND], a);
    EntryIs(disk, Entry(disk, block[14], a), b);
    EntryIs(disk, Entry(disk, Entry(disk, block[14], a), b), c);
  }

  /** `ext2_bmap` finds the block. */
  lemma BmapIs(p: nat, disk: Disk, block: Slots, l: nat)
    requires 0 < p
    ensures Bmap(p, disk, block, l) == Place(p, disk, block, l)
  {
    TimesIs(p, p);
    Square(p);
    if l >= 12 + p + p * p {
      PlaceTriple(p, disk, block, l - 12 - p - p * p);
    } else if l >= 12 + p {
      PlaceDouble(p, disk, block, l - 12 - p);
    } else if l >= 12 {
      EntryIs(disk, block[IND], l - 12);
    }
  }

  /** The bytes of files are the bytes on the disk. */
  lemma ByteIs(v: Volume, f: nat, x: nat)
    requires Sized(v) && 256 <= v.p && f in v.files && x < TWO_32
    ensures ByteAt(v, f, x) == OnDisk(v.p, v.disk, v.files[f].block, x)
  {
    var block, l, m := v.files[f].block, x / (4 * v.p), 4 * v.p;
    QuotIs(m, x);
    PositionInRange(v.p, x);
    BmapResolves(v.p, v.disk, block, l);
    BmapIs(v.p, v.disk, block, l);
  }

  /** Data of `n` bytes at position `at` of a file: byte `i` is at `at + i`, modulo 2^32, unless a later one
      came to the same place; all other bytes of the file are as they were. */
  ghost predicate Laid(p: nat, was: Disk, before: Slots, disk: Disk, block: Slots, at: nat, data: seq<Byte>, n: nat)
    requires 0 < p
  {
    && n <= |data|
    && (forall i: nat :: n - TWO_32 <= i < n ==> OnDisk(p, disk, block, (at + i) % TWO_32) == data[i])
    && (forall x: nat :: x < TWO_32 && (x - at) % TWO_32 >= n ==>
          OnDisk(p, disk, block, x) == OnDisk(p, was, before, x))
  }

  /** No byte of a file but `f` is different. */
  ghost predicate Elsewhere(p: nat, was: Disk, before: map<nat, Inode>, disk: Disk, files: map<nat, Inode>, f: nat)
    requires 0 < p && files.Keys == before.Keys
  {
    forall g, x: nat :: g in files && g != f && x < TWO_32 ==>
      OnDisk(p, disk, files[g].block, x) == OnDisk(p, was, before[g].block, x)
  }

  lemma Around(at: nat, i: nat)
    requires at < TWO_32 <= at + i
    ensures (at + i) % TWO_32 == (i - (TWO_32 - at)) % TWO_32
  {
    assert at + i == TWO_32 + (i - (TWO_32 - at));
  }

  lemma Before(at: nat, x: nat)
    requires at < TWO_32 && x < TWO_32
    ensures (x - at) % TWO_32 == if at <= x then x - at else x + TWO_32 - at
  {
  }

  /** Where a byte of the data ends up. */
  lemma {:induction false} RingLast(s: seq<Byte>, at: nat, data: seq<Byte>, i: nat)
    requires at < TWO_32 && |s| == TWO_32 && |data| - TWO_32 <= i < |data|
    ensures Ring(s, at, data)[(at + i) % TWO_32] == data[i]
    decreases |data|
  {
    var n := TWO_32 - at;
    if at + |data| > TWO_32 {
      var t := WriteSpec(s, at, data[..n]);
      if i >= n {
        Around(at, i);
        RingLast(t, 0, data[n..], i - n);
      } else {
        RingOther(t, 0, data[n..], at + i);
      }
    }
  }

  /** Which bytes the data does not reach. */
  lemma {:induction false} RingOther(s: seq<Byte>, at: nat, data: seq<Byte>, x: nat)
    requires at < TWO_32 && |s| == TWO_32 && x < TWO_32 && (x - at) % TWO_32 >= |data|
    ensures Ring(s, at, data)[x] == s[x]
    decreases |data|
  {
    Before(at, x);
    var n := TWO_32 - at;
    if at + |data| > TWO_32 {
      Before(0, x);
      RingOther(WriteSpec(s, at, data[..n]), 0, data[n..], x);
    }
  }

  lemma LaidBy(v: Volume, u: Volume, f: nat, at: nat, buf: seq<Byte>, n: nat)
    requires Sized(v) && Sized(u) && 256 <= v.p == u.p && f in v.files && f in u.files && at < TWO_32 && n <= |buf|
    requires Image(u, f) == Ring(Image(v, f), at, buf[..n])
    ensures Laid(v.p, v.disk, v.files[f].block, u.disk, u.files[f].block, at, buf, n)
  {
    var s, r := Image(v, f), Image(u, f);
    forall i: nat | n - TWO_32 <= i < n
      ensures OnDisk(u.p, u.disk, u.files[f].block, (at + i) % TWO_32) == buf[i]
    {
      RingLast(s, at, buf[..n], i);
      ByteIs(u, f, (at + i) % TWO_32);
    }
    forall x: nat | x < TWO_32 && (x - at) % TWO_32 >= n
      ensures OnDisk(u.p, u.disk, u.files[f].block, x) == OnDisk(v.p, v.disk, v.files[f].block, x)
    {
      RingOther(s, at, buf[..n], x);
      assert r[x] == s[x];
      ByteIs(u, f, x);
      ByteIs(v, f, x);
    }
  }

  lemma LaidChunk(v: Volume, u: Volume, f: nat, at: nat, data: seq<Byte>)
    requires Sized(v) && Sized(u) && 256 <= v.p == u.p && v.files.Keys == u.files.Keys && f in v.files
    requires at + |data| <= TWO_32 && at < TWO_32 && Wrote(v, u, f, at, data)
    ensures Laid(v.p, v.disk, v.files[f].block, u.disk, u.files[f].block, at, data, |data|)
  {
    forall i: nat | |data| - TWO_32 <= i < |data|
      ensures OnDisk(u.p, u.disk, u.files[f].block, (at + i) % TWO_32) == data[i]
    {
      ByteIs(u, f, at + i);
      assert ByteAt(u, f, at + i) == data[i];
      assert (at + i) % TWO_32 == at + i;
    }
    forall x: nat | x < TWO_32 && (x - at) % TWO_32 >= |data|
      ensures OnDisk(u.p, u.disk, u.files[f].block, x) == OnDisk(v.p, v.disk, v.files[f].block, x)
    {
      Before(at, x);
      ByteIs(u, f, x);
      ByteIs(v, f, x);
      assert ByteAt(u, f, x) == ByteAt(v, f, x);
    }
  }

  lemma ElsewhereBy(v: Volume, u: Volume, f: nat)
    requires Sized(v) && Sized(u) && 256 <= v.p == u.p && v.files.Keys == u.files.Keys && OthersKept(v, u, f)
    ensures Elsewhere(v.p, v.disk, v.files, u.disk, u.files, f)
  {
    forall g, x: nat | g in u.files && g != f && x < TWO_32
      ensures OnDisk(u.p, u.disk, u.files[g].block, x) == OnDisk(v.p, v.disk, v.files[g].block, x)
    {
      ByteIs(u, g, x);
      ByteIs(v, g, x);
      assert ByteAt(u, g, x) == ByteAt(v, g, x);
    }
  }

  /** A piece of the contents is what is on the disk there. */
  lemma PieceIs(v: Volume, f: nat, pos: nat, data: seq<Byte>)
    requires Sized(v) && 256 <= v.p && f in v.files && pos + |data| <= v.files[f].size < TWO_32
    requires data == Contents(v, f)[pos..pos + |data|]
    ensures forall k :: 0 <= k < |data| ==> data[k] == OnDisk(v.p, v.disk, v.files[f].block, pos + k)
  {
    forall k | 0 <= k < |data| ensures data[k] == OnDisk(v.p, v.disk, v.files[f].block, pos + k) {
      ByteIs(v, f, pos + k);
      assert data[k] == Contents(v, f)[pos + k];
    }
  }
}
