/** The buddy allocator: bitmaps and counters for orders 12 to 20 over one pool. */
module BuddyAlloc {
  import opened Invariants
  import opened Arith
  import opened Counting
  import opened BuddyTree

  /** Bytes in `ns[o]` blocks of each order `o`. */
  function Weight(ns: seq<nat>): nat {
    if ns == [] then 0 else Weight(ns[..|ns| - 1]) + Times(Size(|ns| - 1), ns[|ns| - 1])
  }

  lemma {:induction false} WeightUpdate(ns: seq<nat>, k: nat, v: nat)
    requires k < |ns|
    ensures Weight(ns[k := v]) == Weight(ns) - Times(Size(k), ns[k]) + Times(Size(k), v)
  {
    var m := |ns| - 1;
    if k == m {
      assert ns[k := v][..m] == ns[..m];
    } else {
      assert ns[k := v][..m] == ns[..m][k := v];
      WeightUpdate(ns[..m], k, v);
    }
  }

  lemma WeightOne(ns: seq<nat>, k: nat)
    requires k < |ns|
    ensures Weight(ns[k := ns[k] + 1]) == Weight(ns) + Size(k)
    ensures ns[k] > 0 ==> Weight(ns[k := ns[k] - 1]) == Weight(ns) - Size(k)
  {
    WeightUpdate(ns, k, ns[k] + 1);
    if ns[k] > 0 { WeightUpdate(ns, k, ns[k] - 1); }
  }

  lemma {:induction false} NoneBelow(ns: seq<nat>)
    requires forall k :: 0 <= k < |ns| ==> ns[k] == 0
    ensures Weight(ns) == 0
  {
    if ns != [] { NoneBelow(ns[..|ns| - 1]); }
  }

  ghost function OfOrder(out: set<Block>, o: nat): set<Block> {
    set b | b in out && b.o == o
  }

  ghost function Counts(out: set<Block>): (ns: seq<nat>)
    ensures |ns| == MAX + 1
  {
    seq(MAX + 1, o requires 0 <= o => |OfOrder(out, o)|)
  }

  /** The bytes that clients hold. */
  ghost function Lent(out: set<Block>): nat {
    Weight(Counts(out))
  }

  lemma LentMore(out: set<Block>, b: Block)
    requires b !in out && b.o <= MAX
    ensures Lent(out + {b}) == Lent(out) + Size(b.o)
  {
    var ns := Counts(out);
    assert OfOrder(out + {b}, b.o) == OfOrder(out, b.o) + {b};
    forall o | 0 <= o <= MAX && o != b.o ensures OfOrder(out + {b}, o) == OfOrder(out, o) {
    }
    assert Counts(out + {b}) == ns[b.o := ns[b.o] + 1];
    WeightOne(ns, b.o);
  }

  lemma LentLess(out: set<Block>, b: Block)
    requires b in out && b.o <= MAX
    ensures Lent(out) == Lent(out - {b}) + Size(b.o)
  {
    LentMore(out - {b}, b);
    assert out - {b} + {b} == out;
  }

  /** Counters agree with the bitmaps. */
  ghost predicate Rows(bits: seq<seq<bool>>, freeSize: seq<nat>) {
    && |freeSize| == |bits| == MAX + 1
    && forall o :: 0 <= o <= MAX ==> freeSize[o] == Clear(bits[o])
  }

  lemma RowSet(bits: seq<seq<bool>>, freeSize: seq<nat>, o: nat, i: nat)
    requires Rows(bits, freeSize) && o <= MAX && i < |bits[o]| && !bits[o][i]
    ensures 0 < freeSize[o] && Rows(bits[o := bits[o][i := true]], freeSize[o := freeSize[o] - 1])
    ensures Weight(freeSize[o := freeSize[o] - 1]) == Weight(freeSize) - Size(o)
  {
    ClearUpdate(bits[o], i, true);
    WeightOne(freeSize, o);
  }

  lemma RowClear(bits: seq<seq<bool>>, freeSize: seq<nat>, o: nat, i: nat)
    requires Rows(bits, freeSize) && o <= MAX && i < |bits[o]| && bits[o][i]
    ensures Rows(bits[o := bits[o][i := false]], freeSize[o := freeSize[o] + 1])
    ensures Weight(freeSize[o := freeSize[o] + 1]) == Weight(freeSize) + Size(o)
  {
    ClearUpdate(bits[o], i, false);
    WeightOne(freeSize, o);
  }

  lemma RowSetTwo(bits: seq<seq<bool>>, freeSize: seq<nat>, o: nat, i: nat, j: nat)
    requires Rows(bits, freeSize) && o <= MAX && i < |bits[o]| && !bits[o][i] && j < |bits[o]| && !bits[o][j] && i != j
    ensures 2 <= freeSize[o] && Rows(bits[o := bits[o][i := true][j := true]], freeSize[o := freeSize[o] - 2])
    ensures Weight(freeSize[o := freeSize[o] - 2]) == Weight(freeSize) - 2 * Size(o)
  {
    RowSet(bits, freeSize, o, i);
    var bits1, free1 := bits[o := bits[o][i := true]], freeSize[o := freeSize[o] - 1];
    RowSet(bits1, free1, o, j);
    assert bits1[o := bits1[o][j := true]] == bits[o := bits[o][i := true][j := true]];
    assert free1[o := free1[o] - 1] == freeSize[o := freeSize[o] - 2];
  }

  lemma RowMerge(bits: seq<seq<bool>>, freeSize: seq<nat>, o: nat, i: nat, j: nat, up: nat)
    requires Rows(bits, freeSize) && o < MAX && i < |bits[o]| && !bits[o][i] && j < |bits[o]| && !bits[o][j] && i != j
    requires up < |bits[o + 1]| && bits[o + 1][up]
    ensures 2 <= freeSize[o]
    ensures Rows(bits[o := bits[o][i := true][j := true]][o + 1 := bits[o + 1][up := false]],
                 freeSize[o := freeSize[o] - 2][o + 1 := freeSize[o + 1] + 1])
    ensures Weight(freeSize[o := freeSize[o] - 2][o + 1 := freeSize[o + 1] + 1]) == Weight(freeSize)
  {
    RowSetTwo(bits, freeSize, o, i, j);
    RowClear(bits[o := bits[o][i := true][j := true]], freeSize[o := freeSize[o] - 2], o + 1, up);
  }

  /** No byte is lost: free and lent bytes make up the managed block. */
  ghost predicate Counted(h: Heap, freeSize: seq<nat>) {
    Rows(h.bits, freeSize) && Weight(freeSize) + Lent(h.out) == Size(h.top)
  }

  lemma CountTake(h: Heap, freeSize: seq<nat>, o: nat, i: nat)
    requires Tiled(h) && Counted(h, freeSize) && Free(h, o, i)
    ensures 0 < freeSize[o] && Counted(Take(h, o, i), freeSize[o := freeSize[o] - 1])
  {
    RowSet(h.bits, freeSize, o, i);
    LentMore(h.out, Block(o, i));
  }

  lemma CountGive(h: Heap, freeSize: seq<nat>, o: nat, i: nat)
    requires Tiled(h) && Counted(h, freeSize) && Block(o, i) in h.out && i < |h.bits[o]|
    ensures Counted(Give(h, o, i), freeSize[o := freeSize[o] + 1])
  {
    RowClear(h.bits, freeSize, o, i);
    LentLess(h.out, Block(o, i));
  }

  lemma CountCut(h: Heap, freeSize: seq<nat>, o: nat, i: nat)
    requires Tiled(h) && Counted(h, freeSize) && Block(o, i) in h.out && MIN < o && 2 * i + 1 < |h.bits[o - 1]|
    ensures Counted(Cut(h, o, i), freeSize[o - 1 := freeSize[o - 1] + 1])
  {
    assert Block(o - 1, 2 * i) !in h.out by { HalvesFree(h, o, i, 2 * i); }
    assert h.bits[o - 1][2 * i + 1] by { HalvesFree(h, o, i, 2 * i + 1); }
    RowClear(h.bits, freeSize, o - 1, 2 * i + 1);
    LentHalf(h.out, o, i);
  }

  lemma LentHalf(out: set<Block>, o: nat, i: nat)
    requires MIN < o <= MAX && Block(o, i) in out && Block(o - 1, 2 * i) !in out
    ensures Lent(out - {Block(o, i)} + {Block(o - 1, 2 * i)}) + Size(o - 1) == Lent(out)
  {
    LentLess(out, Block(o, i));
    LentMore(out - {Block(o, i)}, Block(o - 1, 2 * i));
  }

  lemma CountMerge(h: Heap, freeSize: seq<nat>, o: nat, i: nat)
    requires Tiled(h) && Counted(h, freeSize) && Free(h, o, i) && Free(h, o, Buddy(i)) && o < h.top &&
      i / 2 < |h.bits[o + 1]|
    ensures 2 <= freeSize[o]
    ensures Counted(Merge(h, o, i), freeSize[o := freeSize[o] - 2][o + 1 := freeSize[o + 1] + 1])
  {
    ParentFree(h, o, i);
    RowMerge(h.bits, freeSize, o, i, Buddy(i), i / 2);
  }

  ghost predicate Good(h: Heap, freeSize: seq<nat>) {
    Tiled(h) && Merged(h) && Counted(h, freeSize)
  }

  lemma GoodTake(h: Heap, freeSize: seq<nat>, o: nat, i: nat)
    requires Good(h, freeSize) && Free(h, o, i)
    ensures 0 < freeSize[o] && Whole(Good(Take(h, o, i), freeSize[o := freeSize[o] - 1]))
    ensures Inside(h, o, i) && Block(o, i) !in h.out && !Overlaps(h, o, i)
  {
    TakeKeeps(h, o, i);
    CountTake(h, freeSize, o, i);
    assert Inside(h, o, i);
    FirstPage(o, i, h.top);
    PartOfFree(h, o, i, o, i);
  }

  lemma GoodCut(h: Heap, freeSize: seq<nat>, o: nat, i: nat)
    requires Good(h, freeSize) && Block(o + 1, i) in h.out && MIN <= o
    ensures o < h.top && 2 * i + 1 < |h.bits[o]| && h.bits[o][2 * i] && Inside(h, o, 2 * i) && Block(o, 2 * i) !in h.out
    ensures Whole(Good(Cut(h, o + 1, i), freeSize[o := freeSize[o] + 1]))
  {
    assert Inside(h, o + 1, i);
    HalvesFree(h, o + 1, i, 2 * i);
    HalvesFree(h, o + 1, i, 2 * i + 1);
    CutKeeps(h, o + 1, i);
    CountCut(h, freeSize, o + 1, i);
  }

  /** Between the steps of `free_block`: free block `i` of order `o` may still have a free buddy. */
  ghost predicate Loose(h: Heap, freeSize: seq<nat>, o: nat, i: nat) {
    Tiled(h) && MergedBut(h, Block(o, i)) && Counted(h, freeSize) && Free(h, o, i)
  }

  lemma LooseGive(h: Heap, freeSize: seq<nat>, o: nat, i: nat)
    requires Good(h, freeSize) && Block(o, i) in h.out
    ensures Inside(h, o, i) && i < |h.bits[o]| && Whole(Loose(Give(h, o, i), freeSize[o := freeSize[o] + 1], o, i))
  {
    assert Inside(h, o, i);
    GiveKeeps(h, o, i);
    CountGive(h, freeSize, o, i);
  }

  lemma LooseMerge(h: Heap, freeSize: seq<nat>, o: nat, i: nat)
    requires Loose(h, freeSize, o, i) && Free(h, o, Buddy(i)) && o < h.top
    ensures i / 2 < |h.bits[o + 1]| && 2 <= freeSize[o]
    ensures Whole(Loose(Merge(h, o, i), freeSize[o := freeSize[o] - 2][o + 1 := freeSize[o + 1] + 1], o + 1, i / 2))
  {
    MergeKeeps(h, o, i);
    CountMerge(h, freeSize, o, i);
  }

  lemma LooseDone(h: Heap, freeSize: seq<nat>, o: nat, i: nat)
    requires Loose(h, freeSize, o, i) && (o == h.top || !Free(h, o, Buddy(i)))
    ensures Whole(Good(h, freeSize))
  {
    assert Inside(h, o, i);
    assert Buddy(Buddy(i)) == i;
  }

  lemma {:induction false} TimesTwice(m: nat, k: nat)
    ensures Times(m, 2 * k) == Times(2 * m, k)
  {
    if k > 0 { TimesTwice(m, k - 1); }
  }

  /** `offset ^ (1 << o)` */
  function FlipBit(offset: nat, o: nat): nat {
    if Quot(Size(o), offset) % 2 == 0 then offset + Size(o) else if offset < Size(o) then 0 else offset - Size(o)
  }

  lemma FlipIsBuddy(i: nat, o: nat)
    ensures FlipBit(Times(Size(o), i), o) == Times(Size(o), Buddy(i))
  {
    Join(Size(o), i, 0);
  }

  /** `get_minimum_order`: the least order whose blocks hold `size` bytes, or the greatest order. */
  method MinimumOrder(size: nat) returns (order: nat)
    ensures MIN <= order <= MAX
    ensures (size <= Size(order) <==> size <= Size(MAX)) && (order < MAX ==> size <= Size(order))
    ensures forall o :: MIN <= o < order ==> Size(o) < size
  {
    order := MIN;
    var blockSize := Size(MIN);
    while blockSize < size && order < MAX
      invariant MIN <= order <= MAX && blockSize == Size(order)
      invariant forall o :: MIN <= o < order ==> Size(o) < size
    {
      order := order + 1;
      blockSize := blockSize * 2;
    }
    SizeOrder(order, MAX);
  }

  /** Clearing both bits and setting the left one again clears the right one. */
  lemma CutBits(bits: seq<seq<bool>>, after: seq<seq<bool>>, o: nat, i: nat)
    requires o < |bits| && 2 * i + 1 < |bits[o]| && bits[o][2 * i]
    requires var rows := bits[o := bits[o][2 * i := false][2 * i + 1 := false]];
      after == rows[o := rows[o][2 * i := true]]
    ensures after == bits[o := bits[o][2 * i + 1 := false]]
  {
    assert bits[o][2 * i := false][2 * i + 1 := false][2 * i := true] == bits[o][2 * i + 1 := false];
  }

  lemma MergeBits(bits: seq<seq<bool>>, after: seq<seq<bool>>, o: nat, i: nat, j: nat, up: nat)
    requires o + 1 < |bits| && i < |bits[o]| && j < |bits[o]| && up < |bits[o + 1]|
    requires var one := bits[o := bits[o][i := true]]; var two := one[o := one[o][j := true]];
      after == two[o + 1 := two[o + 1][up := false]]
    ensures after == bits[o := bits[o][i := true][j := true]][o + 1 := bits[o + 1][up := false]]
  {
  }

  lemma SizeTop()
    ensures Size(MAX) == 0x10_0000
  {
    assert Size(5) == 32;
    Doubled(5, 5);
    TimesIs(32, 32);
    Doubled(10, 10);
    TimesIs(1024, 1024);
  }

  /** The bytes of the bitmaps for a pool of `size` bytes, orders from 12 up to `o` (exclusive). */
  function BitmapBytes(size: nat, o: nat): nat {
    if o <= MIN then 0 else BitmapBytes(size, o - 1) + (Quot(Size(o - 1), size) + 31) / 32 * 4
  }

  /** The first loops of `buddy_init`: what is left of a pool for blocks. */
  method Usable(size: nat) returns (usable: int)
    ensures usable == Left(size)
  {
    var whole := size - size % 4096;
    var total := Bitmaps(whole, MAX + 1);
    usable := whole - total;
  }

  method Bitmaps(whole: nat, end: nat) returns (total: nat)
    requires MIN <= end
    ensures total == BitmapBytes(whole, end)
  {
    total := 0;
    for o := MIN to end
      invariant total == BitmapBytes(whole, o)
    {
      total := total + (Quot(Size(o), whole) + 31) / 32 * 4;
    }
  }

  /** The block counts, and the greatest order with a block. */
  method Orders(usable: nat) returns (max: seq<nat>, top: nat)
    requires Size(MIN) <= usable
    ensures |max| == MAX + 1 && Numbered(max, usable, MAX + 1)
    ensures MIN <= top <= MAX && Size(top) <= usable && (top < MAX ==> usable < Size(top + 1))
  {
    max := BlockCounts(usable, MAX + 1);
    top := GreatestOrder(usable, max, MAX);
  }

  /** The number of blocks of each order below `end`; none are counted below the least order. */
  ghost predicate Numbered(max: seq<nat>, usable: nat, end: nat) {
    forall o :: 0 <= o < |max| ==> max[o] == if o < MIN || end <= o then 0 else Quot(Size(o), usable)
  }

  method BlockCounts(usable: nat, end: nat) returns (max: seq<nat>)
    requires MIN <= end
    ensures |max| == end && Numbered(max, usable, end)
  {
    max := seq(end, _ => 0);
    for o := MIN to end
      invariant |max| == end && Numbered(max, usable, o)
    {
      max := max[o := Quot(Size(o), usable)];
    }
  }

  method GreatestOrder(usable: nat, max: seq<nat>, last: nat) returns (top: nat)
    requires MIN <= last && |max| == last + 1 && Numbered(max, usable, last + 1) && Size(MIN) <= usable
    ensures MIN <= top <= last && Size(top) <= usable && (top < last ==> usable < Size(top + 1))
  {
    top := last;
    while top > MIN && max[top] == 0
      invariant MIN <= top <= last && (top < last ==> usable < Size(top + 1))
    {
      top := top - 1;
    }
  }

  /** Every bit set but the one of block 0 of order `top`. */
  ghost predicate Initial(bits: seq<seq<bool>>, max: seq<nat>, top: nat) {
    && |bits| == |max| == MAX + 1
    && forall o :: 0 <= o <= MAX ==> |bits[o]| == max[o] && forall i :: 0 <= i < max[o] ==> (bits[o][i] <==>
      !(o == top && i == 0))
  }

  /** The heap `buddy_init` leaves: all pages belong to the one free block. */
  ghost function InitialHeap(bits: seq<seq<bool>>, top: nat): Heap
    requires MIN <= top
  {
    Heap(top, bits, seq(Size(top - MIN), _ => top), {})
  }

  lemma InitialTiled(bits: seq<seq<bool>>, max: seq<nat>, top: nat)
    requires MIN <= top <= MAX && Initial(bits, max, top) && forall o :: MIN <= o <= top ==> Size(top - o) <= max[o]
    ensures Tiled(InitialHeap(bits, top)) && Merged(InitialHeap(bits, top))
  {
    var h := InitialHeap(bits, top);
    assert max[top] > 0 by { assert Size(top - top) <= max[top]; }
    forall o: nat, i: nat ensures Free(h, o, i) <==> o == top && i == 0 {
    }
    forall x: nat | x < |h.owner| ensures Anc(x, top) == 0 {
      AncBound(x, top, top);
    }
  }

  lemma InitialCounted(bits: seq<seq<bool>>, max: seq<nat>, top: nat, freeSize: seq<nat>)
    requires MIN <= top <= MAX && Initial(bits, max, top) && 0 < max[top] && OnlyTop(freeSize, top)
    ensures Counted(InitialHeap(bits, top), freeSize)
  {
    InitialRows(bits, max, top, freeSize);
    InitialWeight(top, freeSize);
  }

  lemma InitialRows(bits: seq<seq<bool>>, max: seq<nat>, top: nat, freeSize: seq<nat>)
    requires MIN <= top <= MAX && Initial(bits, max, top) && 0 < max[top] && OnlyTop(freeSize, top)
    ensures Whole(Rows(bits, freeSize))
  {
    forall o | 0 <= o <= MAX ensures freeSize[o] == Clear(bits[o]) {
      if o == top {
        ClearUpdate(bits[o], 0, true);
        ClearNone(bits[o][0 := true]);
      } else {
        ClearNone(bits[o]);
      }
    }
  }

  lemma InitialWeight(top: nat, freeSize: seq<nat>)
    requires MIN <= top <= MAX && OnlyTop(freeSize, top)
    ensures Weight(freeSize) == Size(top) && Lent({}) == 0
  {
    NoneBelow(freeSize[top := 0]);
    WeightOne(freeSize[top := 0], top);
    assert freeSize[top := 0][top := 1] == freeSize;
    assert forall o :: OfOrder({}, o) == {};
    NoneBelow(Counts({}));
  }

  lemma InitialGood(bits: seq<seq<bool>>, max: seq<nat>, top: nat, freeSize: seq<nat>)
    requires Whole(Roomy(max, top)) && Whole(Initial(bits, max, top)) && Whole(OnlyTop(freeSize, top))
    ensures Whole(Good(InitialHeap(bits, top), freeSize))
  {
    assert Size(top - top) <= max[top];
    InitialTiled(bits, max, top);
    InitialCounted(bits, max, top, freeSize);
  }

  lemma Rounded(usable: nat, top: nat)
    requires MIN <= top <= MAX && Size(top) <= usable && (top < MAX ==> usable < Size(top + 1))
    ensures Size(top) <= Times(Size(top), Quot(Size(top), usable)) <= usable
    ensures top < MAX ==> Times(Size(top), Quot(Size(top), usable)) == Size(top)
  {
    Split(Size(top), usable);
    QuotBound(Size(top), usable, 1);
    QuotBound(Size(top), usable, 2);
    if Quot(Size(top), usable) > 1 { TimesOrder(Size(top), 1, Quot(Size(top), usable)); }
  }

  /** The bitmaps have a bit for every block of the managed one. */
  ghost predicate Roomy(max: seq<nat>, top: nat) {
    MIN <= top <= MAX && |max| == MAX + 1 && forall o :: MIN <= o <= top ==> Size(top - o) <= max[o]
  }

  lemma EnoughAt(usable: nat, top: nat, o: nat)
    requires o <= top && Size(top) <= usable
    ensures Size(top - o) <= Quot(Size(o), usable)
  {
    Doubled(o, top - o);
    QuotBound(Size(o), usable, Size(top - o));
  }

  lemma EnoughBits(usable: nat, max: seq<nat>, top: nat)
    requires MIN <= top <= MAX && Size(top) <= usable && |max| == MAX + 1
    requires Numbered(max, usable, MAX + 1)
    ensures Whole(Roomy(max, top))
  {
    forall o | MIN <= o <= top ensures Size(top - o) <= max[o] {
      EnoughAt(usable, top, o);
    }
  }

  /** What the bitmaps leave of the whole pages of a pool. */
  ghost function Left(size: nat): int {
    (size - size % 4096) - BitmapBytes(size - size % 4096, MAX + 1)
  }

  /** The pool is not rejected: there is room for a block beside the bitmaps. */
  ghost predicate Fits(size: nat) {
    Size(MIN) <= Left(size)
  }

  /** `top` is the greatest order with a block. */
  ghost predicate Greatest(size: nat, top: nat) {
    MIN <= top <= MAX && Size(top) <= Left(size) && (top < MAX ==> Left(size) < Size(top + 1))
  }

  /** The bitmaps of a pool of less than `k + 1` pages: at most `k` bits for each of the orders. */
  lemma {:induction false} BitmapsSmall(size: nat, k: nat, o: nat)
    requires size < 4096 * (k + 1) && MIN <= o
    ensures BitmapBytes(size, o) <= (o - MIN) * ((k + 31) / 32 * 4)
    decreases o
  {
    if o > MIN {
      BitmapsSmall(size, k, o - 1);
      BitsBound(size, k, o - 1);
      MoreOrders(o - 1 - MIN, (k + 31) / 32 * 4);
    }
  }

  lemma MoreOrders(n: nat, w: nat)
    ensures (n + 1) * w == n * w + w
  {
  }

  lemma BitsBound(size: nat, k: nat, o: nat)
    requires size < 4096 * (k + 1) && MIN <= o
    ensures Quot(Size(o), size) <= k
  {
    SizeFrom(o);
    TimesIs(Size(o), k + 1);
    MulMonotone(4096, Size(o), k + 1);
    QuotBound(Size(o), size, k + 1);
  }

  lemma SizeFrom(o: nat)
    requires MIN <= o
    ensures Size(MIN) == 4096 <= Size(o)
  {
    assert Size(4) == 16;
    Doubled(4, 4);
    TimesIs(16, 16);
    Doubled(8, 4);
    TimesIs(256, 16);
    if MIN < o { SizeOrder(MIN, o); }
  }

  lemma {:induction false} SizePages(o: nat)
    requires MIN <= o
    ensures Size(o) % 4096 == 0
    decreases o
  {
    SizeFrom(MIN);
    if o > MIN { SizePages(o - 1); }
  }

  /** `k` pages, `u` bytes of bitmaps set aside, `w` needed, and a managed block of whole pages. */
  lemma RoomBehind(k: nat, s: nat, u: nat, w: nat)
    requires s % 4096 == 0 && s <= 0x10_0000 && 0 < u <= 9 * ((k + 31) / 32 * 4) && w <= 9 * ((k + 31) / 32 * 4)
    requires s + u <= 4096 * k
    ensures s + u + w <= 4096 * k
  {
    var t := s / 4096;
    assert s == 4096 * t && t < k;
  }

  /** The bitmaps, which the code puts at the end of what is left of the pool, lie behind the managed
      block: pools are whole pages, and what rounding leaves over is room enough. */
  lemma BitmapsApart(size: nat, top: nat)
    requires Whole(Fits(size)) && Whole(Greatest(size, top))
    ensures Left(size) >= 0 && Size(top) + BitmapBytes(Left(size), MAX + 1) <= Left(size)
  {
    var k := size / 4096;
    var whole := size - size % 4096;
    assert whole == 4096 * k;
    BitmapsSmall(whole, k, MAX + 1);
    BitmapsSmall(Left(size), k, MAX + 1);
    SizePages(top);
    SizeTop();
    SizeOrder(top, MAX);
    SomeBits(whole);
    RoomBehind(k, Size(top), BitmapBytes(whole, MAX + 1), BitmapBytes(Left(size), MAX + 1));
  }

  lemma {:induction false} BitmapsGrow(size: nat, a: nat, b: nat)
    requires a <= b
    ensures BitmapBytes(size, a) <= BitmapBytes(size, b)
    decreases b
  {
    if a < b { BitmapsGrow(size, a, b - 1); }
  }

  lemma SomeBits(size: nat)
    requires 4096 <= size
    ensures 0 < BitmapBytes(size, MAX + 1)
  {
    SizeFrom(MIN);
    QuotBound(Size(MIN), size, 1);
    BitmapsGrow(size, MIN + 1, MAX + 1);
  }

  ghost predicate OnlyTop(counts: seq<nat>, top: nat) {
    |counts| == MAX + 1 && forall o :: 0 <= o <= MAX ==> counts[o] == if o == top then 1 else 0
  }

  method Filled(max: seq<nat>, top: nat) returns (rows: seq<seq<bool>>, counts: seq<nat>)
    requires |max| == MAX + 1 && top <= MAX && 0 < max[top]
    ensures Whole(Initial(rows, max, top)) && Whole(OnlyTop(counts, top))
  {
    rows := seq(MAX + 1, o requires 0 <= o <= MAX => seq(max[o], _ => true));
    counts := seq(MAX + 1, _ => 0);
    rows := rows[top := rows[top][0 := false]];
    counts := counts[top := 1];
  }

  ghost predicate Sizes(max: seq<nat>, rounded: nat, top: nat) {
    && Size(top) <= rounded && (top < MAX ==> rounded == Size(top))
    && |max| == MAX + 1 && forall o :: 0 <= o < MIN ==> max[o] == 0
  }

  /** The pool is rounded down to whole blocks of the greatest order, and every order has as many bits as
      blocks of it fit. */
  ghost predicate Measured(size: nat, top: nat, max: seq<nat>, rounded: nat) {
    && rounded == Left(size) / Size(top) * Size(top)
    && |max| == MAX + 1 && forall o :: MIN <= o <= MAX ==> max[o] == Left(size) / Size(o)
  }

  lemma MeasuredBy(size: nat, usable: nat, top: nat, max: seq<nat>)
    requires usable == Left(size) && |max| == MAX + 1 && Numbered(max, usable, MAX + 1)
    ensures Whole(Measured(size, top, max, Times(Size(top), Quot(Size(top), usable))))
  {
    QuotIs(Size(top), usable);
    TimesIs(Size(top), Quot(Size(top), usable));
    forall o | MIN <= o <= MAX ensures max[o] == usable / Size(o) {
      QuotIs(Size(o), usable);
    }
  }

  /** The part of `buddy_init` that finds the sizes. */
  method Measure(size: nat) returns (max: seq<nat>, top: nat, rounded: nat)
    requires Whole(Fits(size))
    ensures Whole(Greatest(size, top)) && Whole(Sizes(max, rounded, top)) && Whole(Roomy(max, top))
    ensures Whole(Measured(size, top, max, rounded))
  {
    var usable := Usable(size);
    max, top := Orders(usable);
    Rounded(usable, top);
    EnoughBits(usable, max, top);
    MeasuredBy(size, usable, top, max);
    rounded := Times(Size(top), Quot(Size(top), usable));
  }

  /** `buddy_init` up to the assignment of the fields. */
  method Prepare(size: nat) returns (max: seq<nat>, top: nat, rounded: nat, rows: seq<seq<bool>>, counts: seq<nat>)
    requires Whole(Fits(size))
    ensures Whole(Greatest(size, top)) && Whole(Sizes(max, rounded, top)) && Whole(Measured(size, top, max, rounded))
    ensures Whole(Initial(rows, max, top)) && Whole(Good(InitialHeap(rows, top), counts))
  {
    max, top, rounded := Measure(size);
    assert 0 < max[top] by { assert Size(top - top) <= max[top]; }
    rows, counts := Filled(max, top);
    InitialGood(rows, max, top, counts);
  }

  /** Block `i` of order `o` is out now; it overlapped no block that was out before. */
  ghost predicate Got(was: Heap, now: Heap, o: nat, i: nat) {
    && Inside(now, o, i) && !Whole(Overlaps(was, o, i))
    && Block(o, i) !in was.out && now.out == was.out + {Block(o, i)}
  }

  lemma GotHalf(was: Heap, mid: Heap, now: Heap, o: nat, i: nat)
    requires Whole(Got(was, mid, o + 1, i)) && Inside(now, o, 2 * i) && Block(o, 2 * i) !in mid.out
    requires now.out == mid.out - {Block(o + 1, i)} + {Block(o, 2 * i)}
    ensures Whole(Got(was, now, o, 2 * i))
  {
    HalfOf(was, o, 2 * i);
  }

  /** What the half overlaps, the whole does. */
  lemma HalfOf(h: Heap, o: nat, j: nat)
    requires MIN <= o
    ensures Whole(Overlaps(h, o, j)) ==> Whole(Overlaps(h, o + 1, j / 2))
  {
    if Overlaps(h, o, j) {
      var b, x: nat :| b in h.out && x < |h.owner| && Anc(x, b.o) == b.i && Anc(x, o) == j;
      assert Anc(x, o + 1) == j / 2;
    }
  }

  /** First fit: the least order from `o` on with a free block, and its lowest free block. Block `i` of order
      `o` is the part of it at its start. */
  ghost predicate FirstFit(h: Heap, o: nat, i: nat, p: nat, r: nat) {
    && o <= p && Free(h, p, r) && (forall j: nat :: j < r ==> !Free(h, p, j))
    && (forall q: nat, j: nat :: o <= q < p ==> !Free(h, q, j)) && Times(Size(o), i) == Times(Size(p), r)
  }

  lemma FitHalf(h: Heap, o: nat, i: nat, p: nat, r: nat)
    requires Whole(FirstFit(h, o + 1, i, p, r)) && forall j: nat :: !Free(h, o, j)
    ensures Whole(FirstFit(h, o, 2 * i, p, r))
  {
    TimesTwice(Size(o), i);
  }

  lemma FitHere(h: Heap, o: nat, i: nat)
    requires Free(h, o, i) && forall j: nat :: j < i ==> !Free(h, o, j)
    ensures Whole(FirstFit(h, o, i, o, i))
  {
  }

  class Allocator {
    const poolStart: nat
    const poolSize: nat
    const maxBlocks: seq<nat>
    var bits: seq<seq<bool>>
    var freeSize: seq<nat>
    ghost const top: nat
    ghost var owner: seq<nat>
    ghost var out: set<Block>

    ghost function H(): Heap
      reads this
    {
      Heap(top, bits, owner, out)
    }

    /** The managed block is at the start of the pool; a pool with a block of a lesser order than
        the greatest has room for no second one. */
    ghost predicate Pool()
      reads this
    {
      && 0 < poolStart && Size(top) <= poolSize && (top < MAX ==> poolSize == Size(top))
      && |maxBlocks| == |bits| == MAX + 1 && forall o :: 0 <= o <= MAX ==> maxBlocks[o] == |bits[o]| && (o < MIN ==>
        |bits[o]| == 0)
    }

    ghost predicate Valid()
      reads this
    {
      Pool() && Good(H(), freeSize)
    }

    /** `buddy_init`, for a pool that is not rejected. The managed block is the largest that fits
        into what the bitmaps leave, it is the one free block, and the bitmaps lie behind it. */
    constructor (start: nat, size: nat)
      requires 0 < start && Whole(Fits(size))
      ensures Whole(Valid()) && out == {} && poolStart == start
      ensures Whole(Initial(bits, maxBlocks, top)) && Whole(Greatest(size, top))
      ensures Whole(Measured(size, top, maxBlocks, poolSize))
      ensures Left(size) >= 0 && Size(top) + BitmapBytes(Left(size), MAX + 1) <= Left(size)
    {
      var max, greatest, rounded, rows, counts := Prepare(size);
      BitmapsApart(size, greatest);
      poolStart, poolSize, maxBlocks, bits, freeSize := start, rounded, max, rows, counts;
      top, owner, out := greatest, InitialHeap(rows, greatest).owner, {};
    }

    /** Freeing everything restores the initial bitmaps, whatever happened before. */
    lemma Restored()
      requires Valid() && out == {}
      ensures Initial(bits, maxBlocks, top)
    {
      AllBack(H());
      forall o, i | 0 <= o <= MAX && 0 <= i < maxBlocks[o] ensures bits[o][i] <==> !(o == top && i == 0) {
        assert Free(H(), o, i) <==> o == top && i == 0;
      }
    }

    /** `get_block_address` */
    function Address(o: nat, i: nat): (a: nat)
      reads this
    {
      poolStart + Times(Size(o), i)
    }

    /** `is_valid_block` */
    predicate ValidBlock(ptr: nat, o: nat)
      reads this
    {
      ptr != 0 && poolStart <= ptr < poolStart + poolSize && Rem(Size(o), ptr - poolStart) == 0
    }

    /** `get_block_index` */
    function Index(ptr: nat, o: nat): nat
      requires poolStart <= ptr
      reads this
    {
      Quot(Size(o), ptr - poolStart)
    }

    lemma AddressIndex(o: nat, i: nat)
      requires Pool() && Inside(H(), o, i)
      ensures ValidBlock(Address(o, i), o) && Index(Address(o, i), o) == i
      ensures Times(Size(o), i) + Size(o) <= Size(top)
    {
      Join(Size(o), i, 0);
      Doubled(o, top - o);
      TimesOrder(Size(o), i, Size(top - o));
    }

    method SetBit(o: nat, i: nat)
      requires o < |bits|
      modifies this`bits
      ensures bits == if i < |old(bits)[o]| then old(bits)[o := old(bits)[o][i := true]] else old(bits)
    {
      if i < |bits[o]| { bits := bits[o := bits[o][i := true]]; }
    }

    method ClearBit(o: nat, i: nat)
      requires o < |bits|
      modifies this`bits
      ensures bits == if i < |old(bits)[o]| then old(bits)[o := old(bits)[o][i := false]] else old(bits)
    {
      if i < |bits[o]| { bits := bits[o := bits[o][i := false]]; }
    }

    /** `find_first_free_bit`; -1 when every bit is set. */
    method FirstFree(o: nat) returns (r: int)
      requires o < |bits|
      ensures r == -1 <==> forall i :: 0 <= i < |bits[o]| ==> bits[o][i]
      ensures r != -1 ==> 0 <= r < |bits[o]| && !bits[o][r] && forall i :: 0 <= i < r ==> bits[o][i]
    {
      for i := 0 to |bits[o]|
        invariant forall k :: 0 <= k < i ==> bits[o][k]
      {
        if !bits[o][i] { return i; }
      }
      r := -1;
    }

    /** `split_block` */
    method SplitBlock(o: nat, i: nat)
      requires 0 < o < |bits| == |maxBlocks| == |freeSize| && maxBlocks[o - 1] == |bits[o - 1]|
      modifies this`bits, this`freeSize
      ensures 2 * i + 1 < maxBlocks[o - 1] ==>
        && bits == old(bits)[o - 1 := old(bits)[o - 1][2 * i := false][2 * i + 1 := false]]
        && freeSize == old(freeSize)[o - 1 := old(freeSize)[o - 1] + 2]
      ensures 2 * i + 1 >= maxBlocks[o - 1] ==> bits == old(bits) && freeSize == old(freeSize)
    {
      if 2 * i >= maxBlocks[o - 1] || 2 * i + 1 >= maxBlocks[o - 1] { return; }
      ClearBit(o - 1, 2 * i);
      ClearBit(o - 1, 2 * i + 1);
      freeSize := freeSize[o - 1 := freeSize[o - 1] + 2];
    }

    /** The bits and counters say there is nothing from order `o` up. */
    lemma NoneHere(o: nat)
      requires Valid() && MIN <= o <= MAX && freeSize[o] == 0
      ensures Whole(NoneFrom(H(), o)) <==> Whole(NoneFrom(H(), o + 1))
      ensures forall j: nat :: !Free(H(), o, j)
    {
      ClearPositive(bits[o]);
      if NoneFrom(H(), o + 1) {
        forall p: nat, j: nat | o <= p ensures !Free(H(), p, j) {
        }
      }
    }

    /** `alloc_block` on an order with a free block. */
    method HandOut(o: nat, i: nat)
      requires o < |bits| && o < |freeSize| && i < |bits[o]| && 0 < freeSize[o]
      modifies this`bits, this`freeSize, this`out
      ensures H() == Take(old(H()), o, i) && freeSize == old(freeSize)[o := old(freeSize)[o] - 1]
    {
      SetBit(o, i);
      freeSize := freeSize[o := freeSize[o] - 1];
      out := out + {Block(o, i)};
    }

    method TakeFirst(o: nat) returns (i: nat)
      requires Whole(Valid()) && MIN <= o <= MAX && freeSize[o] != 0
      modifies this`bits, this`freeSize, this`out
      ensures Whole(Valid()) && Inside(H(), o, i) && out == old(out) + {Block(o, i)} && Block(o, i) !in old(out)
      ensures Free(old(H()), o, i) && !Whole(Overlaps(old(H()), o, i))
      ensures Whole(FirstFit(old(H()), o, i, o, i))
    {
      ClearPositive(bits[o]);
      var r := FirstFree(o);
      i := r;
      ghost var h := H();
      GoodTake(h, freeSize, o, i);
      FitHere(h, o, i);
      HandOut(o, i);
    }

    /** `alloc_block` after it got block `i` of the next order: split it and take the left half. */
    method TakeHalf(o: nat, i: nat)
      requires Whole(Valid()) && MIN <= o < MAX && Block(o + 1, i) in out
      modifies this`bits, this`freeSize, this`out, this`owner
      ensures Whole(Valid()) && Inside(H(), o, 2 * i) && Block(o, 2 * i) !in old(out)
      ensures out == old(out) - {Block(o + 1, i)} + {Block(o, 2 * i)}
    {
      ghost var h := H();
      ghost var counts := freeSize;
      GoodCut(h, freeSize, o, i);
      SplitBlock(o + 1, i);
      SetBit(o, 2 * i);
      freeSize := freeSize[o := freeSize[o] - 1];
      assert freeSize == counts[o := counts[o] + 1];
      owner := Reown(owner, Block(o + 1, i), o);
      out := out - {Block(o + 1, i)} + {Block(o, 2 * i)};
      CutBits(h.bits, bits, o, i);
      assert H() == Cut(h, o + 1, i);
    }

    /** What `alloc_block` does with the larger block it got. */
    method HalfOfLarger(o: nat, larger: nat, ghost j: nat) returns (ptr: nat)
      requires Whole(Valid()) && MIN <= o < MAX && Block(o + 1, j) in out && larger == Address(o + 1, j)
      modifies this`bits, this`freeSize, this`out, this`owner
      ensures Whole(Valid()) && ptr == Address(o, 2 * j) && Inside(H(), o, 2 * j) && Block(o, 2 * j) !in old(out)
      ensures out == old(out) - {Block(o + 1, j)} + {Block(o, 2 * j)}
    {
      assert Inside(H(), o + 1, j);
      AddressIndex(o + 1, j);
      var index := Index(larger, o + 1);
      TakeHalf(o, index);
      return Address(o, 2 * index);
    }

    /** `alloc_block`. NULL (0) exactly when nothing is free from this order up, and then nothing
        changes; otherwise one block more is out, and it overlapped none of the others. */
    method AllocBlock(o: nat) returns (ptr: nat, ghost i: nat, ghost p: nat, ghost r: nat)
      requires Whole(Valid()) && MIN <= o
      modifies this`bits, this`freeSize, this`out, this`owner
      ensures Whole(Valid())
      ensures ptr == 0 <==> Whole(NoneFrom(old(H()), o))
      ensures ptr == 0 ==> H() == old(H()) && freeSize == old(freeSize)
      ensures ptr != 0 ==> ptr == Address(o, i) && Whole(Got(old(H()), H(), o, i))
      ensures ptr != 0 ==> Whole(FirstFit(old(H()), o, i, p, r))
      decreases if o <= MAX then MAX + 1 - o else 0
    {
      if o > MAX { return 0, 0, 0, 0; }
      if freeSize[o] == 0 {
        ghost var h := H();
        NoneHere(o);
        ptr, i, p, r := AllocBlock(o + 1);
        if ptr == 0 { return; }
        ghost var mid := H();
        ptr := HalfOfLarger(o, ptr, i);
        GotHalf(h, mid, H(), o, i);
        FitHalf(h, o, i, p, r);
        i := 2 * i;
        return;
      }
      var index := TakeFirst(o);
      return Address(o, index), index, o, index;
    }

    lemma FlippedAddress(o: nat, i: nat)
      ensures poolStart + FlipBit(Address(o, i) - poolStart, o) == Address(o, Buddy(i))
      ensures Index(Address(o, Buddy(i)), o) == Buddy(i)
    {
      FlipIsBuddy(i, o);
      Join(Size(o), Buddy(i), 0);
    }

    /** The buddy of a block below the top is a block of the pool; the top block has none. */
    lemma BuddyAddress(o: nat, i: nat)
      requires Pool() && Inside(H(), o, i) && o < MAX
      ensures ValidBlock(Address(o, Buddy(i)), o) <==> o < top
      ensures o < top ==> Inside(H(), o, Buddy(i))
    {
      if o < top {
        AddressIndex(o, Buddy(i));
      } else {
        assert Times(Size(o), 1) == Size(o);
      }
    }

    /** The lower of two buddies starts where their parent does. */
    lemma MergedAddress(o: nat, i: nat)
      requires o < top
      ensures (if Address(o, i) < Address(o, Buddy(i)) then Address(o, i)
        else Address(o, Buddy(i))) == Address(o + 1, i / 2)
      ensures Index(Address(o + 1, i / 2), o + 1) == i / 2
    {
      TimesTwice(Size(o), i / 2);
      Join(Size(o + 1), i / 2, 0);
    }

    /** Two blocks leave the bitmap of their order, one enters the next. */
    method MergeMarks(o: nat, i: nat, j: nat)
      requires o + 1 < |bits| && i < |bits[o]| && j < |bits[o]| && i / 2 < |bits[o + 1]|
      requires |freeSize| == |bits| && 2 <= freeSize[o]
      modifies this`bits, this`freeSize
      ensures bits == old(bits)[o := old(bits)[o][i := true][j := true]][o + 1 := old(bits)[o + 1][i / 2 := false]]
      ensures freeSize == old(freeSize)[o := old(freeSize)[o] - 2][o + 1 := old(freeSize)[o + 1] + 1]
    {
      SetBit(o, i);
      SetBit(o, j);
      freeSize := freeSize[o := freeSize[o] - 2];
      ClearBit(o + 1, i / 2);
      freeSize := freeSize[o + 1 := freeSize[o + 1] + 1];
      MergeBits(old(bits), bits, o, i, j, i / 2);
    }

    /** One round of the loop of `free_block`, for a free buddy. */
    method MergeOnce(o: nat, i: nat)
      requires Whole(Pool()) && Whole(Loose(H(), freeSize, o, i)) && o < top && Free(H(), o, Buddy(i))
      modifies this`bits, this`freeSize, this`owner
      ensures Whole(Pool()) && Whole(Loose(H(), freeSize, o + 1, i / 2))
    {
      ghost var h := H();
      LooseMerge(h, freeSize, o, i);
      MergeMarks(o, i, Buddy(i));
      owner := Reown(owner, Block(o + 1, i / 2), o + 1);
      assert H() == Merge(h, o, i);
    }

    /** The start of `free_block`: the block is marked free. */
    method MarkFree(o: nat, i: nat)
      requires Whole(Valid()) && Block(o, i) in out
      modifies this`bits, this`freeSize, this`out
      ensures Whole(Pool()) && Whole(Loose(H(), freeSize, o, i)) && out == old(out) - {Block(o, i)}
    {
      ghost var h := H();
      LooseGive(h, freeSize, o, i);
      ClearBit(o, i);
      freeSize := freeSize[o := freeSize[o] + 1];
      out := out - {Block(o, i)};
      assert H() == Give(h, o, i);
    }

    /** What the loop of `free_block` finds out about the buddy before it merges. */
    lemma BuddyFound(o: nat, i: nat)
      requires Whole(Pool()) && Whole(Loose(H(), freeSize, o, i)) && o < MAX
      ensures MIN <= o <= top && poolStart + FlipBit(Address(o, i) - poolStart, o) == Address(o, Buddy(i))
      ensures ValidBlock(Address(o, Buddy(i)), o) <==> o < top
      ensures Index(Address(o, Buddy(i)), o) == Buddy(i)
      ensures o < top ==> Buddy(i) < |bits[o]| && (bits[o][Buddy(i)] <==> !Free(H(), o, Buddy(i)))
    {
      assert Inside(H(), o, i);
      BuddyAddress(o, i);
      FlippedAddress(o, i);
    }

    lemma Settled(o: nat, i: nat)
      requires Whole(Pool()) && Whole(Loose(H(), freeSize, o, i)) && (o >= top || !Free(H(), o, Buddy(i)))
      ensures Whole(Valid())
    {
      assert Inside(H(), o, i);
      LooseDone(H(), freeSize, o, i);
    }

    /** One round of the loop of `free_block`: merge, or stop because the buddy is not free. */
    method MergeStep(block: nat, o: nat, index: nat) returns (found: bool, merged: nat, above: nat)
      requires Whole(Pool()) && Whole(Loose(H(), freeSize, o, index)) && block == Address(o, index) && o < MAX
      modifies this`bits, this`freeSize, this`owner
      ensures !found ==> Whole(Valid())
      ensures found ==> Whole(Pool()) && Whole(Loose(H(), freeSize, o + 1, above)) && merged == Address(o + 1, above)
    {
      BuddyFound(o, index);
      var buddy := poolStart + FlipBit(block - poolStart, o);
      found, merged, above := ValidBlock(buddy, o) && !bits[o][Index(buddy, o)], block, index;
      if !found {
        Settled(o, index);
        return;
      }
      MergedAddress(o, index);
      merged := if block < buddy then block else buddy;
      above := Index(merged, o + 1);
      assert above == index / 2 && merged == Address(o + 1, above);
      MergeOnce(o, index);
    }

    /** The loop of `free_block`: merge as long as the buddy is free. */
    method MergeUp(ptr: nat, order: nat, i: nat)
      requires Whole(Pool()) && Whole(Loose(H(), freeSize, order, i)) && ptr == Address(order, i)
      modifies this`bits, this`freeSize, this`owner
      ensures Whole(Valid())
    {
      var block, o, index := ptr, order, i;
      while o < MAX
        invariant Whole(Pool()) && Whole(Loose(H(), freeSize, o, index)) && block == Address(o, index)
        decreases MAX - o
      {
        var found;
        found, block, index := MergeStep(block, o, index);
        if !found { return; }
        o := o + 1;
      }
      Settled(o, index);
    }

    /** `free_block`: the block is no longer out, and is merged with its buddy as far as it goes. */
    method FreeBlock(ptr: nat, order: nat)
      requires Whole(Valid()) && MIN <= order <= MAX
      requires ValidBlock(ptr, order) ==> Block(order, Index(ptr, order)) in out
      modifies this`bits, this`freeSize, this`out, this`owner
      ensures Whole(Valid())
      ensures ValidBlock(ptr, order) ==> out == old(out) - {Block(order, Index(ptr, order))}
      ensures !ValidBlock(ptr, order) ==> H() == old(H()) && freeSize == old(freeSize)
    {
      if !ValidBlock(ptr, order) { return; }
      var index := Index(ptr, order);
      Split(Size(order), ptr - poolStart);
      MarkFree(order, index);
      MergeUp(ptr, order, index);
    }

    /** `buddy_alloc`. The block is large enough exactly for requests up to the greatest block. */
    method Alloc(size: nat) returns (ptr: nat, ghost b: Block)
      requires Whole(Valid())
      modifies this`bits, this`freeSize, this`out, this`owner
      ensures ptr != 0 ==> exists p: nat, r: nat :: Whole(FirstFit(old(H()), b.o, b.i, p, r))
      ensures Whole(Valid())
      ensures ptr == 0 ==> H() == old(H()) && freeSize == old(freeSize)
      ensures size == 0 || size > poolSize ==> ptr == 0
      ensures 0 < size <= poolSize ==>
        MIN <= b.o <= MAX && (size <= Size(b.o) <==> size <= Size(MAX)) && (b.o < MAX ==> size <= Size(b.o))
      ensures 0 < size <= poolSize ==> forall o :: MIN <= o < b.o ==> Size(o) < size
      ensures 0 < size <= poolSize ==> (ptr == 0 <==> Whole(AllTaken(old(H()), b.o)))
      ensures ptr != 0 ==> ptr == Address(b.o, b.i) && Inside(H(), b.o, b.i) && !Overlaps(old(H()), b.o, b.i)
      ensures ptr != 0 ==> b !in old(out) && out == old(out) + {b}
    {
      b := Block(0, 0);
      ptr := 0;
      if size == 0 || size > poolSize { return; }
      var order := MinimumOrder(size);
      ghost var i, p, r;
      Complete(H(), order);
      ptr, i, p, r := AllocBlock(order);
      b := Block(order, i);
    }

    /** `buddy_free` */
    method Release(ptr: nat, order: nat)
      requires Whole(Valid())
      requires MIN <= order <= MAX && ValidBlock(ptr, order) ==> Block(order, Index(ptr, order)) in out
      modifies this`bits, this`freeSize, this`out, this`owner
      ensures Whole(Valid())
      ensures MIN <= order <= MAX && ValidBlock(ptr, order) ==> out == old(out) - {Block(order, Index(ptr, order))}
      ensures !(MIN <= order <= MAX && ValidBlock(ptr, order)) ==> H() == old(H()) && freeSize == old(freeSize)
    {
      if ptr == 0 || order < MIN || order > MAX || !ValidBlock(ptr, order) { return; }
      FreeBlock(ptr, order);
    }

    /** `buddy_get_free_memory`: what is not free is lent. */
    method FreeMemory() returns (bytes: nat)
      requires Whole(Valid())
      ensures bytes + Lent(out) == Size(top)
    {
      bytes := 0;
      assert Weight(freeSize[..MIN]) == 0 by { NoneBelow(freeSize[..MIN]); }
      for o := MIN to MAX + 1
        invariant |freeSize| == MAX + 1 && bytes == Weight(freeSize[..o])
      {
        assert freeSize[..o + 1][..o] == freeSize[..o];
        bytes := bytes + Times(Size(o), freeSize[o]);
      }
      assert freeSize[..MAX + 1] == freeSize;
    }
  }

  /** A request beyond 1 MiB that the pool admits is not refused for its size: unless every block of
      the greatest order overlaps one that is out, it gets one of them, and that is too small. */
  method TooSmall(a: Allocator, size: nat) returns (ptr: nat, ghost b: Block)
    requires Whole(a.Valid()) && 0x10_0000 < size <= a.poolSize
    modifies a`bits, a`freeSize, a`out, a`owner
    ensures Whole(a.Valid()) && (ptr == 0 <==> Whole(AllTaken(old(a.H()), MAX)))
    ensures old(a.out) == {} ==> ptr != 0
    ensures ptr != 0 ==> b in a.out && ptr == a.Address(b.o, b.i) && Size(b.o) == 0x10_0000 < size
  {
    SizeTop();
    if a.out == {} { NoneTaken(a.H(), MAX); }
    ptr, b := a.Alloc(size);
  }

  /** Every pool admits a page, and a page is a block of the least order. */
  lemma PageFits(a: Allocator)
    requires Whole(a.Valid())
    ensures Size(MIN) == 4096 <= a.poolSize && forall o :: MIN < o ==> 4096 < Size(o)
  {
    SizeFrom(a.top);
    forall o | MIN < o ensures 4096 < Size(o) {
      SizeOrder(MIN + 1, o);
    }
  }

  /** With the same blocks out, all bits and counters are the same. */
  lemma SameBits(h: Heap, counts: seq<nat>, k: Heap, others: seq<nat>)
    requires Whole(Good(h, counts)) && Whole(Good(k, others)) && h.top == k.top && h.out == k.out
    requires |h.bits| == |k.bits| == MAX + 1
    requires forall o :: 0 <= o <= MAX ==> |h.bits[o]| == |k.bits[o]| && (o < MIN ==> |h.bits[o]| == 0)
    ensures h.bits == k.bits && counts == others
  {
    forall o: nat | o <= MAX ensures h.bits[o] == k.bits[o] {
      forall i: nat | i < |h.bits[o]| ensures h.bits[o][i] == k.bits[o][i] {
        OutDecides(h, k, o, i);
        assert Free(h, o, i) <==> !h.bits[o][i];
        assert Free(k, o, i) <==> !k.bits[o][i];
      }
    }
  }

  lemma BackAgain(out: set<Block>, b: Block)
    requires b !in out
    ensures out + {b} - {b} == out
  {
  }

  lemma LeastOrder(order: nat, o: nat)
    requires o <= order && Size(order) <= Size(o)
    ensures o == order
  {
    if o < order { SizeOrder(o + 1, order); }
  }

  /** A block that is handed out and given back leaves no trace: the splits are undone. */
  method AllocThenRelease(a: Allocator, order: nat) returns (ptr: nat)
    requires Whole(a.Valid()) && MIN <= order <= MAX
    modifies a`bits, a`freeSize, a`out, a`owner
    ensures Whole(a.Valid()) && a.out == old(a.out) && a.bits == old(a.bits) && a.freeSize == old(a.freeSize)
  {
    ghost var h, counts := a.H(), a.freeSize;
    ghost var b;
    ptr, b := a.Alloc(Size(order));
    if ptr == 0 { return; }
    assert b.o <= order;
    LeastOrder(order, b.o);
    a.AddressIndex(order, b.i);
    a.Release(ptr, order);
    BackAgain(h.out, b);
    SameBits(h, counts, a.H(), a.freeSize);
  }
}
