/** The two bitmap allocators of the driver. Blocks (`ext2_alloc_block`, `ext2_free_block`) and
    inodes (`ext2_alloc_inode`, `ext2_free_inode`) run the same code over groups of bits; they
    differ in the number of the first bit, `base`: the first data block, or 1. */
module Ext2Alloc {
  import opened Arith
  import opened Bytes
  import opened Counting

  /** Number `n` belongs to bit `(n - base) % per` of group `(n - base) / per`; it is free when
      that bit exists and is clear. */
  ghost predicate FreeNumber(base: nat, per: nat, bits: seq<seq<bool>>, n: nat)
    requires 0 < per && Rows(per, bits)
  {
    base <= n && Quot(per, n - base) < |bits| && !bits[Quot(per, n - base)][Rem(per, n - base)]
  }

  ghost predicate Rows(per: nat, bits: seq<seq<bool>>) {
    forall g :: 0 <= g < |bits| ==> |bits[g]| == per
  }

  /** Both levels of counters agree with the bitmaps. */
  ghost predicate Counted(bits: seq<seq<bool>>, groupFree: seq<nat>, totalFree: nat) {
    && |groupFree| == |bits|
    && (forall g :: 0 <= g < |bits| ==> groupFree[g] == Clear(bits[g]))
    && totalFree == Sum(groupFree)
  }

  /** `free` is the set of free numbers. */
  ghost predicate Represents(base: nat, per: nat, bits: seq<seq<bool>>, free: set<nat>) {
    && 0 < per && Rows(per, bits)
    && forall n: nat {:trigger FreeNumber(base, per, bits, n)} :: n in free <==> FreeNumber(base, per, bits, n)
  }

  /** Writing one bit changes the status of its number alone. */
  lemma BitChanged(base: nat, per: nat, bits: seq<seq<bool>>, free: set<nat>, g: nat, i: nat, v: bool)
    requires Represents(base, per, bits, free) && g < |bits| && i < per
    ensures var n := base + Times(per, g) + i;
      Represents(base, per, bits[g := bits[g][i := v]], if v then free - {n} else free + {n})
  {
    var n := base + Times(per, g) + i;
    Join(per, g, i);
    var after := bits[g := bits[g][i := v]];
    forall m: nat ensures FreeNumber(base, per, after, m) <==> if m == n then !v else FreeNumber(base, per, bits, m) {
      if base <= m { Split(per, m - base); }
    }
  }

  /** Counters move with the bit: one down when it is set, one up when it is cleared. */
  lemma CountBit(bits: seq<seq<bool>>, groupFree: seq<nat>, totalFree: nat, g: nat, i: nat, v: bool)
    requires Counted(bits, groupFree, totalFree) && g < |bits| && i < |bits[g]| && bits[g][i] != v
    ensures v ==> groupFree[g] > 0 && totalFree > 0
    ensures var d: int := if v then -1 else 1;
      groupFree[g] + d >= 0 && totalFree + d >= 0 &&
      Counted(bits[g := bits[g][i := v]], groupFree[g := groupFree[g] + d], totalFree + d)
  {
    ClearUpdate(bits[g], i, v);
    ClearPositive(bits[g]);
    var d: int := if v then -1 else 1;
    SumUpdate(groupFree, g, groupFree[g] + d);
  }

  /** With consistent counters, 16 and 32 bits are enough to hold them. */
  lemma CountFits(per: nat, bits: seq<seq<bool>>, groupFree: seq<nat>, totalFree: nat, g: nat)
    requires Counted(bits, groupFree, totalFree) && Rows(per, bits) && g < |bits|
    ensures groupFree[g] <= per && totalFree <= Times(per, |bits|)
  {
    forall k | 0 <= k < |groupFree| ensures groupFree[k] <= per { ClearPositive(bits[k]); }
    SumBound(groupFree, per);
  }

  /** There is a free number exactly when the total is positive. */
  lemma SomeFree(base: nat, per: nat, bits: seq<seq<bool>>, groupFree: seq<nat>, totalFree: nat, free: set<nat>)
    requires Represents(base, per, bits, free) && Counted(bits, groupFree, totalFree)
    ensures totalFree == 0 <==> free == {}
  {
    SumZero(groupFree);
    if totalFree > 0 {
      var g :| 0 <= g < |bits| && groupFree[g] != 0;
      ClearPositive(bits[g]);
      var i :| 0 <= i < per && !bits[g][i];
      Join(per, g, i);
      assert FreeNumber(base, per, bits, base + Times(per, g) + i);
    }
    if free != {} {
      var n :| n in free;
      FreeInGroup(base, per, bits, groupFree, totalFree, free, n);
    }
  }

  lemma FreeInGroup(base: nat, per: nat, bits: seq<seq<bool>>, groupFree: seq<nat>, totalFree: nat, free: set<nat>,
    n: nat)
    requires Represents(base, per, bits, free) && Counted(bits, groupFree, totalFree)
    requires n in free
    ensures base <= n && Quot(per, n - base) < |bits| && groupFree[Quot(per, n - base)] > 0
  {
    assert FreeNumber(base, per, bits, n);
    var g := Quot(per, n - base);
    assert !bits[g][Rem(per, n - base)];
    ClearPositive(bits[g]);
  }

  ghost predicate Shaped(base: nat, per: nat, end: nat, bits: seq<seq<bool>>, free: set<nat>) {
    per < TWO_16 && end == base + Times(per, |bits|) < TWO_32 && Represents(base, per, bits, free)
  }

  /** The numbers below the first clear bit of group `g` that are free lie in earlier groups. */
  lemma FirstClear(base: nat, per: nat, bits: seq<seq<bool>>, groupFree: seq<nat>, totalFree: nat, free: set<nat>,
    g: nat, i: nat)
    requires Represents(base, per, bits, free) && Counted(bits, groupFree, totalFree)
    requires g < |bits| && i < per && !bits[g][i] && forall k :: 0 <= k < i ==> bits[g][k]
    ensures base + Times(per, g) + i in free
    ensures forall m :: m in free && m < base + Times(per, g) + i ==> exists h :: 0 <= h < g && groupFree[h] > 0
  {
    var n := base + Times(per, g) + i;
    Join(per, g, i);
    assert FreeNumber(base, per, bits, n);
    forall m | m in free && m < n ensures exists h :: 0 <= h < g && groupFree[h] > 0 {
      FreeInGroup(base, per, bits, groupFree, totalFree, free, m);
      assert FreeNumber(base, per, bits, m);
      Split(per, m - base);
      var h := Quot(per, m - base);
      if g < h { TimesOrder(per, g, h); }
    }
  }

  lemma Locate(base: nat, per: nat, groups: nat, n: nat)
    requires 0 < per && base <= n
    ensures n == base + Times(per, Quot(per, n - base)) + Rem(per, n - base)
    ensures Quot(per, n - base) < groups <==> n < base + Times(per, groups)
  {
    Split(per, n - base);
    QuotBound(per, n - base, groups);
  }

  /** Clearing a set bit keeps the accounts, and the counters do not wrap; clearing a clear bit
      changes no bit and so leaves the counters wrong. */
  lemma GiveCount(base: nat, per: nat, end: nat, bits: seq<seq<bool>>, groupFree: seq<nat>, totalFree: nat,
    free: set<nat>, g: nat, i: nat)
    requires Shaped(base, per, end, bits, free) && Counted(bits, groupFree, totalFree) && g < |bits| && i < per
    ensures Counted(bits[g := bits[g][i := false]], groupFree[g := (groupFree[g] + 1) % TWO_16],
      (totalFree + 1) % TWO_32)
      <==> bits[g][i]
    ensures bits[g][i] ==> totalFree + 1 < TWO_32
  {
    var after := bits[g := bits[g][i := false]];
    CountFits(per, bits, groupFree, totalFree, g);
    if bits[g][i] {
      CountBit(bits, groupFree, totalFree, g, i, false);
      CountFits(per, after, groupFree[g := groupFree[g] + 1], totalFree + 1, g);
    } else {
      assert bits[g][i := false] == bits[g];
      assert after == bits;
      assert groupFree[g := (groupFree[g] + 1) % TWO_16][g] != groupFree[g];
    }
  }

  lemma TwoBlocks(bits: seq<seq<bool>>)
    requires bits == [[true, false]]
    ensures Represents(1, 2, bits, {2})
  {
    forall n: nat ensures n in {2} <==> FreeNumber(1, 2, bits, n) {
    }
  }

  class GroupAllocator {
    const base: nat
    const per: nat
    const end: nat
    var bits: seq<seq<bool>>
    var groupFree: seq<nat>
    var totalFree: nat
    ghost var free: set<nat>

    ghost predicate Shape()
      reads this
    {
      Shaped(base, per, end, bits, free) && |groupFree| == |bits|
    }

    /** Both levels of counters agree with the bitmaps. Number 0 stands for failure, so it must
        never be free: block 0 holds the boot record or the superblock, and there is no inode 0. */
    ghost predicate Valid()
      reads this
    {
      Shape() && Counted(bits, groupFree, totalFree) && 0 !in free
    }

    /** At mount time: the bitmaps and counters found on the device. */
    constructor (base: nat, per: nat, bits: seq<seq<bool>>, groupFree: seq<nat>, totalFree: nat, ghost free: set<nat>)
      requires Shaped(base, per, base + Times(per, |bits|), bits, free)
      requires Counted(bits, groupFree, totalFree) && 0 !in free
      ensures Valid() && this.free == free && this.totalFree == totalFree && this.bits == bits
      ensures this.base == base && this.per == per && end == base + Times(per, |bits|)
    {
      this.base, this.per, this.end := base, per, base + |bits| * per;
      this.bits, this.groupFree, this.totalFree, this.free := bits, groupFree, totalFree, free;
      TimesIs(per, |bits|);
    }

    /** `ext2_alloc_block_in_group`, and the body of the group loop in `ext2_alloc_inode`. */
    method AllocInGroup(g: nat) returns (n: nat)
      requires Valid() && g < |bits|
      modifies this
      ensures Valid() && |bits| == old(|bits|)
      ensures n == 0 <==> old(groupFree[g]) == 0
      ensures n == 0 ==>
        bits == old(bits) && groupFree == old(groupFree) && totalFree == old(totalFree) && free == old(free)
      ensures n != 0 ==> n in old(free) && free == old(free) - {n} && totalFree == old(totalFree) - 1
      ensures n != 0 ==> forall m :: m in old(free) && m < n ==> exists h :: 0 <= h < g && old(groupFree)[h] > 0
    {
      if groupFree[g] == 0 { return 0; }
      ClearPositive(bits[g]);
      var i := 0;
      while i < per && bits[g][i]
        invariant i <= per
        invariant forall k :: 0 <= k < i ==> bits[g][k]
      {
        i := i + 1;
      }
      n := base + g * per + i;
      TimesIs(per, g);
      FirstClear(base, per, bits, groupFree, totalFree, free, g, i);
      BitChanged(base, per, bits, free, g, i, true);
      CountBit(bits, groupFree, totalFree, g, i, true);
      bits := bits[g := bits[g][i := true]];
      groupFree := groupFree[g := groupFree[g] - 1];
      totalFree := totalFree - 1;
      free := free - {n};
    }

    /** `ext2_alloc_block` and `ext2_alloc_inode`: the smallest free number, or 0 when there is none. */
    method Alloc() returns (n: nat)
      requires Valid()
      modifies this
      ensures Valid() && |bits| == old(|bits|)
      ensures n == 0 <==> old(free) == {}
      ensures n == 0 <==> old(totalFree) == 0
      ensures n == 0 ==>
        bits == old(bits) && groupFree == old(groupFree) && totalFree == old(totalFree) && free == old(free)
      ensures n != 0 ==> n in old(free) && forall m :: m in old(free) ==> n <= m
      ensures n != 0 ==> free == old(free) - {n} && totalFree == old(totalFree) - 1
    {
      SomeFree(base, per, bits, groupFree, totalFree, free);
      SumZero(groupFree);
      var g := 0;
      while g < |bits|
        invariant g <= |bits| && Valid()
        invariant bits == old(bits) && groupFree == old(groupFree) && totalFree == old(totalFree) && free == old(free)
        invariant forall k :: 0 <= k < g ==> groupFree[k] == 0
      {
        n := AllocInGroup(g);
        if n != 0 { return; }
        g := g + 1;
      }
      n := 0;
    }

    method ClearBit(g: nat, i: nat, n: nat)
      requires Valid() && g < |bits| && i < per && n == base + Times(per, g) + i
      modifies this
      ensures Shape() && |bits| == old(|bits|)
      ensures free == old(free) + {n}
      ensures Valid() <==> n !in old(free) && n != 0
      ensures totalFree == (old(totalFree) + 1) % TWO_32 && (n !in old(free) ==> totalFree == old(totalFree) + 1)
    {
      Join(per, g, i);
      assert n in free <==> FreeNumber(base, per, bits, n);
      BitChanged(base, per, bits, free, g, i, false);
      GiveCount(base, per, end, bits, groupFree, totalFree, free, g, i);
      bits := bits[g := bits[g][i := false]];
      groupFree := groupFree[g := (groupFree[g] + 1) % TWO_16];
      totalFree := (totalFree + 1) % TWO_32;
      free := free + {n};
    }

    /** `ext2_free_block` and `ext2_free_inode`. The code clears the bit and raises both counters
        without looking at the bit: the accounts survive exactly when the bit was set, and it was not
        that of block 0. */
    method Free(n: nat)
      requires Valid()
      modifies this
      ensures Shape() && |bits| == old(|bits|)
      ensures !(base <= n < end) ==>
        bits == old(bits) && groupFree == old(groupFree) && totalFree == old(totalFree) && free == old(free)
      ensures base <= n < end ==> free == old(free) + {n}
      ensures base <= n < end ==> (Valid() <==> n !in old(free) && n != 0)
      ensures base <= n < end ==> totalFree == (old(totalFree) + 1) % TWO_32
      ensures base <= n < end && n !in old(free) ==> totalFree == old(totalFree) + 1
    {
      if n < base { return; }
      var g, i := (n - base) / per, (n - base) % per;
      QuotIs(per, n - base);
      Locate(base, per, |bits|, n);
      if g >= |bits| { return; }
      ClearBit(g, i, n);
    }
  }

  /** Freeing twice: two blocks from number 1 on, block 2 free; after `Free(2)` a counter says two. */
  method FreedTwice() returns (a: GroupAllocator)
    ensures fresh(a) && !a.Valid() && a.free == {2} && a.totalFree == 2
  {
    var bits := [[true, false]];
    assert Clear(bits[0]) == 1 by { assert bits[0][1..] == [false] && bits[0][1..][1..] == []; }
    assert Sum([1]) == 1 by { assert [1][1..] == []; }
    TwoBlocks(bits);
    a := new GroupAllocator(1, 2, bits, [1], 1, {2});
    a.Free(2);
  }
}
