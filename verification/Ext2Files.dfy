/** Files as byte sequences: what the block map and the data blocks mean together. */
module Ext2Files {
  import opened Arith
  import opened Bytes
  import opened FileSpec
  import opened Ext2Tree
  import opened Ext2Bmap
  import opened Ext2Graft

  /** The contents of the block at data path `q`: holes read as zeros. */
  ghost function Logical(v: Volume, f: nat, q: Path): (t: Block)
    requires Sized(v) && f in v.files
    ensures |t| == 4 * v.p
  {
    if At(v, f, q) == 0 || At(v, f, q) >= |v.disk| then Zeros(4 * v.p) else v.disk[At(v, f, q)]
  }

  /** The block map as the driver consults it, indexed by logical block. */
  ghost function Mapped(v: Volume, f: nat, l: nat): nat
    requires 0 < v.p && f in v.files
  {
    At(v, f, PathOf(v.p, l))
  }

  function BlockOf(p: nat, x: nat): nat
    requires 0 < p
  {
    Quot(4 * p, x)
  }

  function OffsetOf(p: nat, x: nat): (o: nat)
    requires 0 < p
    ensures o < 4 * p
  {
    Rem(4 * p, x)
  }

  ghost function ByteAt(v: Volume, f: nat, x: nat): Byte
    requires Sized(v) && f in v.files
  {
    Logical(v, f, PathOf(v.p, BlockOf(v.p, x)))[OffsetOf(v.p, x)]
  }

  ghost function Contents(v: Volume, f: nat): seq<Byte>
    requires Sized(v) && f in v.files
  {
    seq(v.files[f].size, (x: nat) => ByteAt(v, f, x))
  }

  /** Nothing but zeros is stored past the end of the file. */
  ghost predicate TailZero(v: Volume, f: nat)
    requires Sized(v) && f in v.files
  {
    forall x :: v.files[f].size <= x < TWO_32 ==> ByteAt(v, f, x) == 0
  }

  /** All bytes a 32-bit position reaches. */
  ghost function Image(v: Volume, f: nat): (s: seq<Byte>)
    requires Sized(v) && f in v.files
    ensures |s| == TWO_32
  {
    seq(TWO_32, (x: nat) => ByteAt(v, f, x))
  }

  /** Block sizes are powers of two, so that 2^32 bytes are whole blocks. */
  ghost predicate EvenBlocks(p: nat) {
    exists k: nat :: Times(4 * p, k) == TWO_32
  }

  /** What fits into one block does not pass 2^32. */
  lemma InOneBlock(p: nat, pos: nat, n: nat)
    requires 0 < p && EvenBlocks(p) && pos < TWO_32 && OffsetOf(p, pos) + n <= 4 * p
    ensures pos + n <= TWO_32
  {
    var k: nat :| Times(4 * p, k) == TWO_32;
    Split(4 * p, pos);
    QuotBound(4 * p, pos, k);
    TimesOrder(4 * p, Quot(4 * p, pos), k);
  }

  /** Raw bytes of all files after storing `data` at byte `start` of file `f`. */
  ghost predicate Wrote(v: Volume, w: Volume, f: nat, start: nat, data: seq<Byte>)
    requires Sized(v) && Sized(w) && v.files.Keys == w.files.Keys
  {
    forall g, x :: g in v.files && 0 <= x < TWO_32 ==>
      ByteAt(w, g, x) == if g == f && start <= x < start + |data| then data[x - start] else ByteAt(v, g, x)
  }

  /** The data blocks agree except the one at path `q` of `f`, which holds `t`. */
  ghost predicate Replaced(v: Volume, w: Volume, f: nat, q: Path, t: Block)
    requires Sized(v) && Sized(w) && v.files.Keys == w.files.Keys
  {
    forall g, r :: g in v.files && ValidPath(v.p, r) && IsData(r) ==>
      Logical(w, g, r) == if g == f && r == q then t else Logical(v, g, r)
  }

  lemma PathOfInjective(p: nat, k: nat, l: nat)
    requires 0 < p && k < MaxLbn(p) && l < MaxLbn(p) && PathOf(p, k) == PathOf(p, l)
    ensures k == l
  {
    PathOfValid(p, k);
    PathOfValid(p, l);
  }

  /** Which block and offset a position is: positions in one block share the path. */
  lemma Position(p: nat, pos: nat, n: nat, x: nat)
    requires 256 <= p && pos < TWO_32 && x < TWO_32 && OffsetOf(p, pos) + n <= 4 * p
    ensures ValidPath(p, PathOf(p, BlockOf(p, x))) && IsData(PathOf(p, BlockOf(p, x)))
    ensures pos <= x < pos + n <==>
      PathOf(p, BlockOf(p, x)) == PathOf(p, BlockOf(p, pos)) &&
        OffsetOf(p, pos) <= OffsetOf(p, x) < OffsetOf(p, pos) + n
    ensures pos <= x < pos + n ==> OffsetOf(p, x) - OffsetOf(p, pos) == x - pos
  {
    PositionInRange(p, x);
    PositionInRange(p, pos);
    PathOfValid(p, BlockOf(p, x));
    InBlock(4 * p, pos, n, x);
    if PathOf(p, BlockOf(p, x)) == PathOf(p, BlockOf(p, pos)) {
      PathOfInjective(p, BlockOf(p, x), BlockOf(p, pos));
    }
  }

  /** Splicing data into one logical block writes exactly those bytes of the file. */
  lemma BlockWrote(v: Volume, w: Volume, f: nat, pos: nat, data: seq<Byte>, q: Path)
    requires Sized(v) && Sized(w) && v.p == w.p && 256 <= v.p && v.files.Keys == w.files.Keys && f in v.files
    requires pos < TWO_32 && OffsetOf(v.p, pos) + |data| <= 4 * v.p && q == PathOf(v.p, BlockOf(v.p, pos))
    requires Replaced(v, w, f, q, Splice(Logical(v, f, q), OffsetOf(v.p, pos), data))
    ensures Wrote(v, w, f, pos, data)
  {
    forall g, x | g in v.files && 0 <= x < TWO_32
      ensures ByteAt(w, g, x) == if g == f && pos <= x < pos + |data| then data[x - pos] else ByteAt(v, g, x)
    {
      Position(v.p, pos, |data|, x);
      var r, o := PathOf(v.p, BlockOf(v.p, x)), OffsetOf(v.p, x);
      SpliceAt(Logical(v, f, q), OffsetOf(v.p, pos), data, o);
      assert ByteAt(w, g, x) == Logical(w, g, r)[o];
    }
  }

  /** Overwriting a mapped data block changes that logical block and no other. */
  lemma StoreData(v: Volume, f: nat, q: Path, t: Block)
    requires Wf(v) && f in v.files && ValidPath(v.p, q) && IsData(q) && |t| == 4 * v.p && At(v, f, q) != 0
    ensures 0 < At(v, f, q) < |v.disk|
    ensures Wf(Store(v, At(v, f, q), t)) && SameMap(v, Store(v, At(v, f, q), t))
    ensures Replaced(v, Store(v, At(v, f, q), t), f, q, t)
  {
    forall g, r | g in v.files && ValidPath(v.p, r) && !IsData(r) ensures At(v, g, r) != At(v, f, q) {
      assert Meet(v, g, r, f, q) <==> At(v, g, r) == At(v, f, q);
    }
    StoreWf(v, At(v, f, q), t);
    var w := Store(v, At(v, f, q), t);
    forall g, r | g in v.files && ValidPath(v.p, r) && IsData(r)
      ensures Logical(w, g, r) == if g == f && r == q then t else Logical(v, g, r)
    {
      assert Meet(v, g, r, f, q) <==> At(v, g, r) == At(v, f, q);
    }
  }

  /** A table on the way to `q` is no data block of any file. */
  lemma TablesHoldNoData(v: Volume, f: nat, q: Path, bs: seq<nat>, g: nat, r: Path)
    requires Wf(v) && Tables(v, f, q, bs) && g in v.files && ValidPath(v.p, r) && IsData(r)
    ensures At(v, g, r) != 0 ==> At(v, g, r) !in bs
  {
    forall j | 0 <= j < |bs| ensures bs[j] != At(v, g, r) || At(v, g, r) == 0 {
      PrefixValid(v.p, q, j);
      assert Meet(v, g, r, f, Prefix(q, j)) <==> At(v, g, r) == At(v, f, Prefix(q, j)) != 0;
    }
  }

  /** Entering a block in the map changes what that logical block is, and no other. */
  lemma GraftData(v: Volume, w: Volume, f: nat, q: Path, bs: seq<nat>, b: nat)
    requires Wf(v) && Tables(v, f, q, bs) && b !in bs && 0 < b < |v.disk|
    requires Grafted(v, w, f, q, bs, b)
    requires forall c :: 0 <= c < |v.disk| && c !in bs ==> w.disk[c] == v.disk[c]
    ensures forall g, r :: g in v.files && ValidPath(v.p, r) && IsData(r) ==>
      At(w, g, r) == if g == f && r == q then b else At(v, g, r)
    ensures Replaced(v, w, f, q, v.disk[b])
  {
    forall g, r | g in v.files && ValidPath(v.p, r) && IsData(r)
      ensures At(w, g, r) == if g == f && r == q then b else At(v, g, r)
      ensures Logical(w, g, r) == if g == f && r == q then v.disk[b] else Logical(v, g, r)
    {
      if !(g == f && r == q) {
        assert r.slot == q.slot && r.idx <= q.idx ==> r.idx == q.idx;
        TablesHoldNoData(v, f, q, bs, g, r);
      }
    }
  }

  /** The bytes of a chunk that stays inside one block. */
  lemma ChunkRead(v: Volume, f: nat, pos: nat, n: nat, q: Path)
    requires Sized(v) && 256 <= v.p && f in v.files && pos + n <= TWO_32 && 0 < n
    requires OffsetOf(v.p, pos) + n <= 4 * v.p && q == PathOf(v.p, BlockOf(v.p, pos))
    ensures forall x :: pos <= x < pos + n ==> ByteAt(v, f, x) == Logical(v, f, q)[OffsetOf(v.p, pos) + (x - pos)]
  {
    forall x | pos <= x < pos + n ensures ByteAt(v, f, x) == Logical(v, f, q)[OffsetOf(v.p, pos) + (x - pos)] {
      Position(v.p, pos, n, x);
      assert ByteAt(v, f, x) == Logical(v, f, q)[OffsetOf(v.p, x)];
    }
  }

  ghost function Resized(v: Volume, f: nat, size: nat): Volume
    requires f in v.files
  {
    v.(files := v.files[f := v.files[f].(size := size)])
  }

  /** The size field has no part in the block map. */
  lemma ResizedSame(v: Volume, f: nat, size: nat)
    requires Wf(v) && f in v.files
    ensures Wf(Resized(v, f, size)) && SameMap(v, Resized(v, f, size))
    ensures forall g, x: nat :: g in v.files ==> ByteAt(Resized(v, f, size), g, x) == ByteAt(v, g, x)
  {
    var w := Resized(v, f, size);
    assert forall g, q :: g in v.files ==> At(w, g, q) == At(v, g, q);
    assert forall g, q :: g in v.files ==> Logical(w, g, q) == Logical(v, g, q);
    SameMapWf(v, w);
  }

  /** Two replacements of the same block are one. */
  lemma ReplacedTwice(v: Volume, w: Volume, u: Volume, f: nat, q: Path, s: Block, t: Block)
    requires Sized(v) && Sized(w) && Sized(u) && v.p == w.p == u.p && v.files.Keys == w.files.Keys == u.files.Keys
    requires Replaced(v, w, f, q, s) && Replaced(w, u, f, q, t)
    ensures Replaced(v, u, f, q, t)
  {
    forall g, r | g in v.files && ValidPath(v.p, r) && IsData(r)
      ensures Logical(u, g, r) == if g == f && r == q then t else Logical(v, g, r)
    {
      assert Logical(w, g, r) == if g == f && r == q then s else Logical(v, g, r);
    }
  }

  /** The bytes of every file but `f` are the same. */
  ghost predicate OthersKept(v: Volume, w: Volume, f: nat)
    requires Sized(v) && Sized(w) && v.files.Keys == w.files.Keys
  {
    forall g, x :: g in v.files && g != f && 0 <= x < TWO_32 ==> ByteAt(w, g, x) == ByteAt(v, g, x)
  }

  /** A file that keeps its size and its bytes keeps its contents. */
  lemma SameContents(v: Volume, w: Volume, g: nat)
    requires Sized(v) && Sized(w) && g in v.files && g in w.files && v.files[g].size == w.files[g].size < TWO_32
    requires forall x :: 0 <= x < TWO_32 ==> ByteAt(w, g, x) == ByteAt(v, g, x)
    ensures Contents(w, g) == Contents(v, g) && (TailZero(v, g) <==> TailZero(w, g))
  {
  }
}
