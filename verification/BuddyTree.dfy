/** The blocks of the buddy allocator: which are free, which are out, and how they tile the pool.

    Block `i` of order `o` has 2^o bytes; its buddy shares all index bits but the last. Pages are
    the blocks of the least order, and `Anc(x, o)` is the block of order `o` that page `x` is in. */
module BuddyTree {
  import opened Invariants
  import opened Arith

  const MIN: nat := 12
  const MAX: nat := 20

  datatype Block = Block(o: nat, i: nat)

  /** `BUDDY_BLOCK_SIZE` */
  function Size(o: nat): (s: nat)
    ensures 0 < s
  {
    if o == 0 then 1 else 2 * Size(o - 1)
  }

  lemma {:induction false} SizeOrder(o: nat, p: nat)
    requires o <= p
    ensures Size(o) <= Size(p)
  {
    if o < p { SizeOrder(o, p - 1); }
  }

  function Anc(x: nat, o: nat): nat {
    if o <= MIN then x else Anc(x, o - 1) / 2
  }

  /** The first page of a block. */
  function First(o: nat, i: nat): nat {
    if o <= MIN then i else First(o - 1, 2 * i)
  }

  function Buddy(i: nat): nat {
    if i % 2 == 0 then i + 1 else i - 1
  }

  /** `bits` holds a set bit for every block that is not free, one row for each order. `owner`
      gives, for every page of the managed block, the order of the one block that holds it. */
  datatype Heap = Heap(top: nat, bits: seq<seq<bool>>, owner: seq<nat>, out: set<Block>)

  ghost predicate Free(h: Heap, o: nat, i: nat) {
    MIN <= o < |h.bits| && i < |h.bits[o]| && !h.bits[o][i]
  }

  ghost predicate Inside(h: Heap, o: nat, i: nat) {
    MIN <= o <= h.top && i < Size(h.top - o)
  }

  /** The block is one of the tiles: free, or with a client. */
  ghost predicate Held(h: Heap, o: nat, i: nat) {
    Free(h, o, i) || Block(o, i) in h.out
  }

  ghost predicate Shaped(h: Heap) {
    && MIN <= h.top <= MAX && |h.bits| == MAX + 1 && |h.owner| == Size(h.top - MIN)
    && forall o :: MIN <= o <= h.top ==> Size(h.top - o) <= |h.bits[o]|
  }

  /** Every page is in exactly one tile, and tiles are inside the managed block. */
  ghost predicate Tiled(h: Heap) {
    Shaped(h) && Placed(h) && Owned(h)
  }

  ghost predicate Placed(h: Heap) {
    && (forall o, i :: Free(h, o, i) ==> Inside(h, o, i) && Block(o, i) !in h.out)
    && (forall b :: b in h.out ==> Inside(h, b.o, b.i))
  }

  ghost predicate Owned(h: Heap) {
    && (forall x: nat :: x < |h.owner| ==> MIN <= h.owner[x] <= h.top && Held(h, h.owner[x], Anc(x, h.owner[x])))
    && (forall x: nat, o: nat :: x < |h.owner| && Held(h, o, Anc(x, o)) ==> h.owner[x] == o)
  }

  /** No two buddies are both free, except possibly block `b` and its buddy. */
  ghost predicate MergedBut(h: Heap, b: Block) {
    forall o: nat, i: nat {:trigger Free(h, o, Buddy(i))} ::
      o < h.top && Block(o, i) != b && Block(o, Buddy(i)) != b && Free(h, o, i) ==> !Free(h, o, Buddy(i))
  }

  ghost predicate Merged(h: Heap) {
    forall o: nat, i: nat {:trigger Free(h, o, Buddy(i))} :: o < h.top && Free(h, o, i) ==> !Free(h, o, Buddy(i))
  }

  /** A free block goes to a client. */
  function Take(h: Heap, o: nat, i: nat): Heap
    requires o < |h.bits| && i < |h.bits[o]|
  {
    h.(bits := h.bits[o := h.bits[o][i := true]], out := h.out + {Block(o, i)})
  }

  lemma TakeKeeps(h: Heap, o: nat, i: nat)
    requires Tiled(h) && Free(h, o, i)
    ensures Tiled(Take(h, o, i)) && (MergedBut(h, Block(o, i)) ==> Merged(Take(h, o, i)))
  {
    var k := Take(h, o, i);
    forall p: nat, j: nat ensures Free(k, p, j) <==> Free(h, p, j) && Block(p, j) != Block(o, i)
      ensures Held(k, p, j) <==> Held(h, p, j) {
    }
  }

  /** A client's block comes back. */
  function Give(h: Heap, o: nat, i: nat): Heap
    requires o < |h.bits| && i < |h.bits[o]|
  {
    h.(bits := h.bits[o := h.bits[o][i := false]], out := h.out - {Block(o, i)})
  }

  lemma GiveKeeps(h: Heap, o: nat, i: nat)
    requires Tiled(h) && Block(o, i) in h.out
    ensures i < |h.bits[o]|
    ensures Tiled(Give(h, o, i)) && Free(Give(h, o, i), o, i) && (Merged(h) ==> MergedBut(Give(h, o, i), Block(o, i)))
  {
    assert Inside(h, o, i);
    var k := Give(h, o, i);
    forall p: nat, j: nat ensures Free(k, p, j) <==> Free(h, p, j) || Block(p, j) == Block(o, i)
      ensures Held(k, p, j) <==> Held(h, p, j) {
    }
  }

  /** The pages of block `b` now belong to a block of order `o`. */
  ghost function Reown(owner: seq<nat>, b: Block, o: nat): (r: seq<nat>)
    ensures |r| == |owner|
    ensures forall x: nat :: x < |owner| ==> r[x] == if Anc(x, b.o) == b.i then o else owner[x]
  {
    seq(|owner|, x requires 0 <= x < |owner| => if Anc(x, b.o) == b.i then o else owner[x])
  }

  /** A client's block is halved: the client keeps the left half, the right half is free. */
  ghost function Cut(h: Heap, o: nat, i: nat): Heap
    requires MIN < o < |h.bits| && 2 * i + 1 < |h.bits[o - 1]|
  {
    h.(bits := h.bits[o - 1 := h.bits[o - 1][2 * i + 1 := false]], owner := Reown(h.owner, Block(o, i), o - 1),
       out := h.out - {Block(o, i)} + {Block(o - 1, 2 * i)})
  }

  /** Pages of a tile are in no tile of another order. */
  lemma Alone(h: Heap, o: nat, i: nat, p: nat, x: nat)
    requires Tiled(h) && Held(h, o, i) && x < |h.owner| && Anc(x, o) == i && p != o
    ensures !Held(h, p, Anc(x, p)) && h.owner[x] == o
  {
  }

  lemma {:induction false} FirstPage(o: nat, i: nat, top: nat)
    requires MIN <= o <= top && i < Size(top - o)
    ensures Anc(First(o, i), o) == i && First(o, i) < Size(top - MIN)
  {
    if o > MIN { FirstPage(o - 1, 2 * i, top); }
  }

  /** The halves of a tile are not tiles. */
  lemma HalvesFree(h: Heap, o: nat, i: nat, j: nat)
    requires Tiled(h) && Held(h, o, i) && MIN < o && j / 2 == i
    ensures !Held(h, o - 1, j) && Inside(h, o - 1, j)
  {
    assert Inside(h, o, i);
    FirstPage(o - 1, j, h.top);
    Alone(h, o, i, o - 1, First(o - 1, j));
  }

  /** `k` has two tiles of order `o - 1` where `h` has one of order `o`. */
  ghost predicate Halved(h: Heap, k: Heap, o: nat, i: nat) {
    && (forall p: nat, j: nat :: Free(k, p, j) <==> Free(h, p, j) || (p == o - 1 && j == 2 * i + 1))
    && (forall p: nat, j: nat :: Held(k, p, j) <==>
      (Held(h, p, j) && Block(p, j) != Block(o, i)) || (p == o - 1 && j / 2 == i))
  }

  lemma CutHalves(h: Heap, o: nat, i: nat)
    requires Tiled(h) && Block(o, i) in h.out && MIN < o
    ensures 2 * i + 1 < |h.bits[o - 1]| && Halved(h, Cut(h, o, i), o, i)
  {
    HalvesFree(h, o, i, 2 * i);
    HalvesFree(h, o, i, 2 * i + 1);
  }

  lemma HalvedOwner(h: Heap, k: Heap, o: nat, i: nat, x: nat)
    requires Tiled(h) && Halved(h, k, o, i) && Held(h, o, i) && MIN < o <= h.top
    requires k.owner == Reown(h.owner, Block(o, i), o - 1) && x < |h.owner|
    ensures Held(k, k.owner[x], Anc(x, k.owner[x]))
    ensures forall p: nat :: Held(k, p, Anc(x, p)) ==> k.owner[x] == p
  {
    assert Anc(x, o) == Anc(x, o - 1) / 2;
    assert Held(h, h.owner[x], Anc(x, h.owner[x]));
  }

  lemma HalvedMerged(h: Heap, k: Heap, o: nat, i: nat)
    requires MIN < o && Halved(h, k, o, i) && k.top == h.top && Merged(h) && !Free(h, o - 1, 2 * i)
    ensures Merged(k)
  {
  }

  lemma HalvedPlaced(h: Heap, k: Heap, o: nat, i: nat)
    requires Tiled(h) && Halved(h, k, o, i) && Block(o, i) in h.out && Inside(h, o - 1, 2 * i) &&
      Inside(h, o - 1, 2 * i + 1)
    requires MIN < o && k.top == h.top && k.out == h.out - {Block(o, i)} + {Block(o - 1, 2 * i)}
    requires !Held(h, o - 1, 2 * i) && !Held(h, o - 1, 2 * i + 1)
    ensures Whole(Placed(k))
  {
  }

  lemma HalvedOwned(h: Heap, k: Heap, o: nat, i: nat)
    requires Tiled(h) && Halved(h, k, o, i) && Held(h, o, i) && MIN < o <= h.top
    requires k.owner == Reown(h.owner, Block(o, i), o - 1) && k.top == h.top
    ensures Whole(Owned(k))
  {
    forall x: nat | x < |k.owner| ensures Held(k, k.owner[x], Anc(x, k.owner[x]))
      ensures forall p: nat :: Held(k, p, Anc(x, p)) ==> k.owner[x] == p {
      HalvedOwner(h, k, o, i, x);
    }
  }

  lemma CutKeeps(h: Heap, o: nat, i: nat)
    requires Tiled(h) && Block(o, i) in h.out && MIN < o
    ensures 2 * i + 1 < |h.bits[o - 1]| && Free(Cut(h, o, i), o - 1, 2 * i + 1)
    ensures Tiled(Cut(h, o, i)) && (Merged(h) ==> Merged(Cut(h, o, i)))
  {
    HalvesFree(h, o, i, 2 * i);
    HalvesFree(h, o, i, 2 * i + 1);
    CutHalves(h, o, i);
    var k := Cut(h, o, i);
    if Merged(h) { HalvedMerged(h, k, o, i); }
    HalvedPlaced(h, k, o, i);
    HalvedOwned(h, k, o, i);
  }

  /** Two free buddies become one free block of the next order. */
  ghost function Merge(h: Heap, o: nat, i: nat): Heap
    requires o + 1 < |h.bits| && i < |h.bits[o]| && Buddy(i) < |h.bits[o]| && i / 2 < |h.bits[o + 1]|
  {
    h.(bits := h.bits[o := h.bits[o][i := true][Buddy(i) := true]][o + 1 := h.bits[o + 1][i / 2 := false]],
       owner := Reown(h.owner, Block(o + 1, i / 2), o + 1))
  }

  /** The parent of a tile is not a tile. */
  lemma ParentFree(h: Heap, o: nat, i: nat)
    requires Tiled(h) && Held(h, o, i) && o < h.top
    ensures !Held(h, o + 1, i / 2) && Inside(h, o + 1, i / 2)
  {
    assert Inside(h, o, i);
    FirstPage(o, i, h.top);
    Alone(h, o, i, o + 1, First(o, i));
  }

  /** `k` has one tile of order `o + 1` where `h` has its two halves. */
  ghost predicate Joined(h: Heap, k: Heap, o: nat, i: nat) {
    && (forall p: nat, j: nat :: Free(k, p, j) <==>
      (Free(h, p, j) && !(p == o && j / 2 == i)) || Block(p, j) == Block(o + 1, i))
    && (forall p: nat, j: nat :: Held(k, p, j) <==>
      (Held(h, p, j) && !(p == o && j / 2 == i)) || Block(p, j) == Block(o + 1, i))
  }

  lemma MergeJoins(h: Heap, o: nat, i: nat)
    requires Tiled(h) && Free(h, o, i) && Free(h, o, Buddy(i)) && o < h.top
    ensures i / 2 < |h.bits[o + 1]| && Joined(h, Merge(h, o, i), o, i / 2)
  {
    ParentFree(h, o, i);
  }

  lemma JoinedOwner(h: Heap, k: Heap, o: nat, i: nat, x: nat)
    requires Tiled(h) && Joined(h, k, o, i) && MIN <= o < h.top && Free(h, o, 2 * i) && Free(h, o, 2 * i + 1)
    requires k.owner == Reown(h.owner, Block(o + 1, i), o + 1) && x < |h.owner|
    ensures Held(k, k.owner[x], Anc(x, k.owner[x]))
    ensures forall p: nat :: Held(k, p, Anc(x, p)) ==> k.owner[x] == p
  {
    assert Anc(x, o + 1) == Anc(x, o) / 2;
    assert Held(h, h.owner[x], Anc(x, h.owner[x]));
  }

  lemma JoinedMerged(h: Heap, k: Heap, o: nat, i: nat)
    requires Joined(h, k, o, i / 2) && k.top == h.top && MergedBut(h, Block(o, i))
    ensures MergedBut(k, Block(o + 1, i / 2))
  {
  }

  lemma JoinedPlaced(h: Heap, k: Heap, o: nat, i: nat)
    requires Tiled(h) && Joined(h, k, o, i) && Inside(h, o + 1, i) && !Held(h, o + 1, i) && k.top == h.top &&
      k.out == h.out
    ensures Whole(Placed(k))
  {
  }

  lemma JoinedOwned(h: Heap, k: Heap, o: nat, i: nat)
    requires Tiled(h) && Joined(h, k, o, i) && MIN <= o < h.top && Free(h, o, 2 * i) && Free(h, o, 2 * i + 1)
    requires k.owner == Reown(h.owner, Block(o + 1, i), o + 1) && k.top == h.top
    ensures Whole(Owned(k))
  {
    forall x: nat | x < |k.owner| ensures Held(k, k.owner[x], Anc(x, k.owner[x]))
      ensures forall p: nat :: Held(k, p, Anc(x, p)) ==> k.owner[x] == p {
      JoinedOwner(h, k, o, i, x);
    }
  }

  lemma MergeKeeps(h: Heap, o: nat, i: nat)
    requires Tiled(h) && Free(h, o, i) && Free(h, o, Buddy(i)) && o < h.top
    ensures i / 2 < |h.bits[o + 1]| && Free(Merge(h, o, i), o + 1, i / 2)
    ensures Tiled(Merge(h, o, i)) && (MergedBut(h, Block(o, i)) ==> MergedBut(Merge(h, o, i), Block(o + 1, i / 2)))
  {
    ParentFree(h, o, i);
    MergeJoins(h, o, i);
    var k := Merge(h, o, i);
    if MergedBut(h, Block(o, i)) { JoinedMerged(h, k, o, i); }
    JoinedPlaced(h, k, o, i / 2);
    JoinedOwned(h, k, o, i / 2);
  }

  /** Page `x` is in a free block. */
  ghost predicate FreePage(h: Heap, x: nat) {
    x < |h.owner| && Free(h, h.owner[x], Anc(x, h.owner[x]))
  }

  ghost predicate AllFree(h: Heap, o: nat, i: nat) {
    forall x: nat :: x < |h.owner| && Anc(x, o) == i ==> FreePage(h, x)
  }

  /** Blocks that contain one another agree on what is above. */
  lemma {:induction false} SameAbove(x: nat, y: nat, o: nat, p: nat)
    requires MIN <= o <= p && Anc(x, o) == Anc(y, o)
    ensures Anc(x, p) == Anc(y, p)
  {
    if o < p { SameAbove(x, y, o, p - 1); }
  }

  /** Two halves in free blocks of at least their order are in one free block: two free buddies
      would have been merged. */
  lemma JoinHalves(h: Heap, o: nat, i: nat, x: nat, y: nat)
    requires Tiled(h) && Merged(h) && MIN < o <= h.top && FreePage(h, x) && FreePage(h, y)
    requires Anc(x, o - 1) == 2 * i && Anc(y, o - 1) == 2 * i + 1 && h.owner[x] >= o - 1 && h.owner[y] >= o - 1
    ensures h.owner[x] >= o
  {
    assert Anc(x, o) == Anc(y, o) == i;
    assert Buddy(2 * i) == 2 * i + 1 && (Free(h, o - 1, 2 * i) ==> !Free(h, o - 1, Buddy(2 * i)));
    if h.owner[y] >= o {
      SameAbove(x, y, o, h.owner[y]);
    }
  }

  lemma HalfPages(h: Heap, o: nat, i: nat, j: nat)
    requires MIN < o && j / 2 == i && Inside(h, o, i) && Whole(AllFree(h, o, i))
    ensures Inside(h, o - 1, j) && Whole(AllFree(h, o - 1, j))
  {
    forall x: nat | x < |h.owner| && Anc(x, o - 1) == j ensures FreePage(h, x) {
      assert Anc(x, o) == i;
    }
  }

  /** If every page of a block is free, one free block contains them all: this is what merging buys. */
  lemma {:induction false} OneBlock(h: Heap, o: nat, i: nat)
    requires Whole(Tiled(h)) && Whole(Merged(h)) && Inside(h, o, i) && Whole(AllFree(h, o, i))
    ensures Whole(Starts(h, o, i))
  {
    if o > MIN {
      HalfPages(h, o, i, 2 * i);
      HalfPages(h, o, i, 2 * i + 1);
      OneBlock(h, o - 1, 2 * i);
      OneBlock(h, o - 1, 2 * i + 1);
      HalvesStart(h, o, i);
    } else {
      FirstPage(o, i, h.top);
    }
  }

  /** The first page of the block is in a tile of at least its order. */
  ghost predicate Starts(h: Heap, o: nat, i: nat) {
    First(o, i) < |h.owner| && h.owner[First(o, i)] >= o
  }

  /** The first page of a half of a block whose pages are all free. */
  lemma StartOf(h: Heap, o: nat, i: nat, p: nat, j: nat)
    requires Whole(Tiled(h)) && Inside(h, o, i) && MIN <= p && o == p + 1 && j / 2 == i && Whole(AllFree(h, o, i))
    requires Whole(Starts(h, p, j))
    ensures var x := First(p, j); Anc(x, p) == j && FreePage(h, x) && h.owner[x] >= p
  {
    FirstPage(p, j, h.top);
    assert Anc(First(p, j), o) == i;
  }

  lemma HalvesStart(h: Heap, o: nat, i: nat)
    requires Whole(Tiled(h)) && Whole(Merged(h)) && Inside(h, o, i) && MIN < o && Whole(AllFree(h, o, i))
    requires Whole(Starts(h, o - 1, 2 * i)) && Whole(Starts(h, o - 1, 2 * i + 1))
    ensures Whole(Starts(h, o, i))
  {
    StartOf(h, o, i, o - 1, 2 * i);
    StartOf(h, o, i, o - 1, 2 * i + 1);
    JoinHalves(h, o, i, First(o - 1, 2 * i), First(o - 1, 2 * i + 1));
  }

  lemma {:induction false} AncBound(x: nat, o: nat, top: nat)
    requires MIN <= o <= top && x < Size(top - MIN)
    ensures Anc(x, o) < Size(top - o)
  {
    if o > MIN { AncBound(x, o - 1, top); }
  }

  /** The block shares a page with a block that is out. */
  ghost predicate Overlaps(h: Heap, o: nat, i: nat) {
    exists b, x: nat :: b in h.out && x < |h.owner| && Anc(x, b.o) == b.i && Anc(x, o) == i
  }

  /** A page of a free block is in no block that is out. */
  lemma FreeApart(h: Heap, p: nat, j: nat, b: Block, x: nat)
    requires Tiled(h) && Free(h, p, j) && b in h.out && x < |h.owner| && Anc(x, p) == j
    ensures Anc(x, b.o) != b.i
  {
    assert Held(h, b.o, b.i) && Held(h, p, j);
  }

  /** A part of a free block overlaps nothing. */
  lemma PartOfFree(h: Heap, p: nat, j: nat, o: nat, i: nat)
    requires Tiled(h) && Free(h, p, j) && MIN <= o <= p && Anc(First(p, j), o) == i
    ensures Inside(h, o, i) && !Overlaps(h, o, i)
  {
    var y := First(p, j);
    FirstPage(p, j, h.top);
    AncBound(y, o, h.top);
    forall b, x: nat | b in h.out && x < |h.owner| && Anc(x, o) == i ensures Anc(x, b.o) != b.i {
      SameAbove(x, y, o, p);
      FreeApart(h, p, j, b, x);
    }
  }

  /** A block that is not overlapped lies in a free block. */
  lemma InFree(h: Heap, o: nat, i: nat)
    requires Tiled(h) && Merged(h) && Inside(h, o, i) && !Overlaps(h, o, i)
    ensures var x := First(o, i); Anc(x, o) == i && FreePage(h, x) && h.owner[x] >= o
  {
    forall x: nat | x < |h.owner| && Anc(x, o) == i ensures FreePage(h, x) {
      var b := Block(h.owner[x], Anc(x, h.owner[x]));
      assert Held(h, b.o, b.i);
      assert b !in h.out;
    }
    OneBlock(h, o, i);
    FirstPage(o, i, h.top);
    assert FreePage(h, First(o, i));
  }

  /** Within a free block no part is overlapped. */
  lemma WithinFree(h: Heap, p: nat, x: nat, o: nat, i: nat)
    requires Tiled(h) && MIN <= o <= p && x < |h.owner| && Free(h, p, Anc(x, p)) && Anc(x, o) == i
    ensures !Overlaps(h, o, i)
  {
    if Overlaps(h, o, i) {
      var b, y: nat :| b in h.out && y < |h.owner| && Anc(y, b.o) == b.i && Anc(y, o) == i;
      SameAbove(x, y, o, p);
      FreeApart(h, p, Anc(x, p), b, y);
    }
  }

  lemma OneTile(h: Heap, x: nat, o: nat, p: nat)
    requires Tiled(h) && x < |h.owner| && Held(h, o, Anc(x, o)) && Held(h, p, Anc(x, p))
    ensures o == p
  {
  }

  /** A free block is a greatest one: its parent is overlapped. */
  lemma FreeGreatest(h: Heap, o: nat, i: nat)
    requires Tiled(h) && Merged(h) && Free(h, o, i) && o < h.top
    ensures Overlaps(h, o + 1, i / 2)
  {
    var x, y := First(o, i), First(o + 1, i / 2);
    FirstPage(o, i, h.top);
    assert Anc(x, o + 1) == i / 2;
    if !Overlaps(h, o + 1, i / 2) {
      AncBound(x, o + 1, h.top);
      InFree(h, o + 1, i / 2);
      SameAbove(x, y, o + 1, h.owner[y]);
      OneTile(h, x, o, h.owner[y]);
    }
  }

  /** The free blocks, told from those that are out alone: a block is free exactly when none that is out
      overlaps it and its parent, if it has one, is overlapped. */
  lemma FreeIs(h: Heap, o: nat, i: nat)
    requires Tiled(h) && Merged(h)
    ensures Free(h, o, i) <==>
      Inside(h, o, i) && !Overlaps(h, o, i) && (o < h.top ==> Overlaps(h, o + 1, i / 2))
  {
    if Free(h, o, i) {
      FirstPage(o, i, h.top);
      WithinFree(h, o, First(o, i), o, i);
      if o < h.top { FreeGreatest(h, o, i); }
    } else if Inside(h, o, i) && !Overlaps(h, o, i) {
      InFree(h, o, i);
      var x := First(o, i);
      if h.owner[x] > o { WithinFree(h, h.owner[x], x, o + 1, i / 2); }
    }
  }

  /** What is free does not depend on how it came about. */
  lemma OutDecides(h: Heap, k: Heap, o: nat, i: nat)
    requires Tiled(h) && Merged(h) && Tiled(k) && Merged(k) && h.top == k.top && h.out == k.out
    ensures Free(h, o, i) <==> Free(k, o, i)
  {
    FreeIs(h, o, i);
    FreeIs(k, o, i);
  }

  ghost predicate NoneFrom(h: Heap, o: nat) {
    forall p: nat, j: nat :: o <= p ==> !Free(h, p, j)
  }

  /** Every block of order `o` is overlapped by a block that is out. */
  ghost predicate AllTaken(h: Heap, o: nat) {
    forall i: nat :: Inside(h, o, i) ==> Overlaps(h, o, i)
  }

  lemma NoneTaken(h: Heap, o: nat)
    requires MIN <= o <= h.top && h.out == {}
    ensures !Whole(AllTaken(h, o))
  {
    assert Inside(h, o, 0);
  }

  /** There is nothing to hand out from order `o` up exactly when every block of order `o` is
      overlapped by a block that is out: fragmentation never hides memory. */
  lemma Complete(h: Heap, o: nat)
    requires Tiled(h) && Merged(h) && MIN <= o
    ensures NoneFrom(h, o) <==> AllTaken(h, o)
  {
    if !NoneFrom(h, o) {
      var p: nat, j: nat :| o <= p && Free(h, p, j);
      PartOfFree(h, p, j, o, Anc(First(p, j), o));
    } else {
      forall i: nat | Inside(h, o, i) ensures Overlaps(h, o, i) {
        if !Overlaps(h, o, i) { InFree(h, o, i); }
      }
    }
  }

  /** With nothing out, the free blocks are those of the initial state: the managed block alone. */
  lemma AllBack(h: Heap)
    requires Tiled(h) && Merged(h) && h.out == {}
    ensures forall o: nat, i: nat :: Free(h, o, i) <==> o == h.top && i == 0
  {
    forall x: nat | x < |h.owner| ensures FreePage(h, x) {
      assert Held(h, h.owner[x], Anc(x, h.owner[x]));
    }
    OneBlock(h, h.top, 0);
    FirstPage(h.top, 0, h.top);
    var first := First(h.top, 0);
    assert FreePage(h, first) && Free(h, h.top, 0);
    forall o: nat, i: nat | Free(h, o, i) ensures o == h.top && i == 0 {
      var x := First(o, i);
      FirstPage(o, i, h.top);
      AncBound(x, h.top, h.top);
      assert Held(h, o, Anc(x, o)) && Held(h, h.top, Anc(x, h.top));
    }
  }

  /** No byte is in two tiles, and every byte of the managed block is in one. `At` below is the
      block of order `o` that the byte at offset `a` is in. */
  function At(a: nat, o: nat): nat {
    Quot(Size(o), a)
  }

  lemma {:induction false} Halve(m: nat, a: nat)
    requires 0 < m
    ensures Quot(2 * m, a) == Quot(m, a) / 2
    decreases a
  {
    if a >= 2 * m {
      Halve(m, a - 2 * m);
    }
  }

  lemma {:induction false} ByteAnc(a: nat, o: nat)
    requires MIN <= o
    ensures At(a, o) == Anc(At(a, MIN), o)
  {
    if o > MIN {
      ByteAnc(a, o - 1);
      Halve(Size(o - 1), a);
    }
  }

  lemma {:induction false} Doubled(k: nat, n: nat)
    ensures Size(k + n) == Times(Size(k), Size(n))
  {
    if n > 0 {
      Doubled(k, n - 1);
      TimesAdd(Size(k), Size(n - 1), Size(n - 1));
    }
  }

  lemma ExactlyOneTile(h: Heap, a: nat)
    requires Tiled(h) && a < Size(h.top)
    ensures exists o: nat :: Inside(h, o, At(a, o)) && Held(h, o, At(a, o))
    ensures forall o: nat, p: nat :: Held(h, o, At(a, o)) && Held(h, p, At(a, p)) ==> o == p
  {
    var x := At(a, MIN);
    Doubled(MIN, h.top - MIN);
    QuotBound(Size(MIN), a, Size(h.top - MIN));
    var o := h.owner[x];
    assert Held(h, o, Anc(x, o));
    ByteAnc(a, o);
    assert Held(h, o, At(a, o)) && Inside(h, o, At(a, o));
    forall p: nat | Held(h, p, At(a, p)) ensures p == o {
      assert Inside(h, p, At(a, p));
      ByteAnc(a, p);
    }
  }
}
