/** Where the bytes of a FAT32 file are on the disk, in ordinary arithmetic. */
module FatLayout {
  import opened Arith
  import opened Bytes
  import opened FatTable
  import opened FatFiles

  /** `n` steps along the first copy of the table: the low 28 bits of an entry are the next cluster. */
  function Hop(row: seq<Raw>, k: nat, n: nat): nat
    decreases n
  {
    if n == 0 || k < 2 || k >= |row| then k else Hop(row, row[k] % 0x1000_0000, n - 1)
  }

  /** Byte `x` of the file that starts with cluster `first`; behind the last cluster there are zeros. */
  function OnDisk(c: nat, row: seq<Raw>, data: seq<Cluster>, first: nat, x: nat): Byte
    requires 0 < c
  {
    var k := Hop(row, first, x / c);
    if k < 2 || k >= |row| || k >= |data| || x % c >= |data[k]| then 0 else data[k][x % c]
  }

  /** The bytes of a file from `at` on. */
  ghost predicate Shown(c: nat, row: seq<Raw>, data: seq<Cluster>, first: nat, at: nat, out: seq<Byte>)
    requires 0 < c
  {
    forall k :: 0 <= k < |out| ==> out[k] == OnDisk(c, row, data, first, at + k)
  }

  lemma {:induction false} HopFrom(v: Volume, row: seq<Raw>, f: nat, j: nat, n: nat)
    requires Sound(v) && v.fat == Lows(row) && f in v.chains && j < |v.chains[f]|
    ensures var chain := v.chains[f];
      if j + n < |chain| then Hop(row, chain[j], n) == chain[j + n] else Hop(row, chain[j], n) >= |row|
    decreases n
  {
    var chain := v.chains[f];
    NextCluster(v, f, j);
    if n > 0 {
      assert row[chain[j]] % 0x1000_0000 == v.fat[chain[j]];
      if j + 1 < |chain| { HopFrom(v, row, f, j + 1, n - 1); }
    }
  }

  /** The first cluster of a file; 0 stands for none. */
  function First(chain: seq<nat>): nat {
    if chain == [] then 0 else chain[0]
  }

  /** The bytes of files are the bytes on the disk. */
  lemma ByteIs(v: Volume, row: seq<Raw>, f: nat, x: nat)
    requires Sound(v) && v.fat == Lows(row) && f in v.chains
    ensures ByteAt(v, f, x) == OnDisk(v.c, row, v.data, First(v.chains[f]), x)
  {
    QuotIs(v.c, x);
    if v.chains[f] != [] {
      HopFrom(v, row, f, 0, x / v.c);
      if x / v.c < |v.chains[f]| { NextCluster(v, f, x / v.c); }
    }
  }

  /** Data at position `at` of a file: byte `i` is at `at + i`, and all other bytes of the file are as they
      were. */
  ghost predicate Laid(c: nat, was: seq<Raw>, before: seq<Cluster>, start: nat, row: seq<Raw>, data: seq<Cluster>,
    first: nat, at: nat, d: seq<Byte>)
    requires 0 < c
  {
    forall x: nat :: OnDisk(c, row, data, first, x) ==
      if at <= x < at + |d| then d[x - at] else OnDisk(c, was, before, start, x)
  }

  lemma LaidBy(v: Volume, w: Volume, was: seq<Raw>, row: seq<Raw>, f: nat, at: nat, d: seq<Byte>)
    requires Wrote(v, w, f, at, d) && v.fat == Lows(was) && w.fat == Lows(row) && f in v.chains
    ensures Laid(v.c, was, v.data, First(v.chains[f]), row, w.data, First(w.chains[f]), at, d)
  {
    forall x: nat
      ensures OnDisk(w.c, row, w.data, First(w.chains[f]), x) ==
        if at <= x < at + |d| then d[x - at] else OnDisk(v.c, was, v.data, First(v.chains[f]), x)
    {
      ByteIs(v, was, f, x);
      ByteIs(w, row, f, x);
    }
  }
}
