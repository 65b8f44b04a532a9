/** The ext2 block map: twelve direct slots and three radix trees of pointer blocks.

    Every block a file can reach has a `Path`: a slot of `i_block` and the table indices to
    follow from there. `At` resolves a path the way the driver does. Two paths never resolve
    to the same block (`Wf`), which is what lets one table write change one mapping. */
module Ext2Tree {
  import opened Bytes

  type Block = seq<Byte>
  type Disk = seq<Block>

  const NDIR: nat := 12
  const IND: nat := 12
  const DIND: nat := 13
  const TIND: nat := 14

  type Slot = n: nat | n < 15
  type Slots = s: seq<nat> | |s| == 15 witness seq(15, _ => 0)

  /** The fields of `ext2_inode_t` the block map and the file operations use. */
  datatype Inode = Inode(isDir: bool, size: nat, block: Slots)

  datatype Path = Path(slot: Slot, idx: seq<nat>)

  /** `p` is the number of pointers per block; `files` the current inode of every file;
      `used` the blocks whose bitmap bit is set. */
  datatype Volume = Volume(p: nat, disk: Disk, files: map<nat, Inode>, used: set<nat>)

  function Depth(slot: Slot): nat {
    if slot < NDIR then 0 else slot - NDIR + 1
  }

  predicate ValidPath(p: nat, q: Path) {
    |q.idx| <= Depth(q.slot) && forall k :: 0 <= k < |q.idx| ==> q.idx[k] < p
  }

  predicate IsData(q: Path) {
    |q.idx| == Depth(q.slot)
  }

  function Parent(q: Path): Path
    requires q.idx != []
  {
    Path(q.slot, q.idx[..|q.idx| - 1])
  }

  function Last(q: Path): nat
    requires q.idx != []
  {
    q.idx[|q.idx| - 1]
  }

  /** One step down a table. Block 0 is "no block", and a block the device cannot
      read gives 0 as well. */
  function Ptr(disk: Disk, b: nat, i: nat): nat {
    if b == 0 || b >= |disk| || 4 * i + 4 > |disk[b]| then 0 else U32At(disk[b], 4 * i)
  }

  function Resolve(disk: Disk, block: Slots, q: Path): nat
    decreases |q.idx|
  {
    if q.idx == [] then block[q.slot] else Ptr(disk, Resolve(disk, block, Parent(q)), Last(q))
  }

  ghost function At(v: Volume, f: nat, q: Path): nat
    requires f in v.files
  {
    Resolve(v.disk, v.files[f].block, q)
  }

  ghost predicate Sized(v: Volume) {
    && 0 < v.p
    && |v.disk| <= TWO_32
    && forall b :: 0 <= b < |v.disk| ==> |v.disk[b]| == 4 * v.p
  }

  /** Two paths lead to the same block. */
  ghost predicate Meet(v: Volume, f: nat, q: Path, g: nat, r: Path)
    requires f in v.files && g in v.files
  {
    At(v, f, q) == At(v, g, r) != 0
  }

  /** Reachable blocks are allocated, exist, and have exactly one owner. */
  ghost predicate Wf(v: Volume) {
    && Sized(v)
    && (forall b :: b in v.used ==> b < |v.disk|)
    && (forall f, q :: f in v.files && ValidPath(v.p, q) ==> At(v, f, q) == 0 || At(v, f, q) in v.used)
    && (forall f, q, g, r {:trigger Meet(v, f, q, g, r)} ::
          f in v.files && g in v.files && ValidPath(v.p, q) && ValidPath(v.p, r) && Meet(v, f, q, g, r) ==>
            f == g && q == r)
  }

  /** No file reaches block `b`. */
  ghost predicate Unowned(v: Volume, b: nat) {
    forall f, q :: f in v.files && ValidPath(v.p, q) ==> At(v, f, q) != b
  }

  /** No file uses block `b` as a table of pointers. */
  ghost predicate NotTable(v: Volume, b: nat) {
    forall f, q :: f in v.files && ValidPath(v.p, q) && !IsData(q) ==> At(v, f, q) != b
  }

  /** Both volumes map every path of every file to the same block. */
  ghost predicate SameMap(v: Volume, w: Volume) {
    && v.p == w.p && v.files.Keys == w.files.Keys
    && forall f, q :: f in v.files && ValidPath(v.p, q) ==> At(w, f, q) == At(v, f, q)
  }

  /** The maps agree except that `w` takes path `q` of file `f` to `b`. */
  ghost predicate Remapped(v: Volume, w: Volume, f: nat, q: Path, b: nat) {
    && v.p == w.p && v.files.Keys == w.files.Keys
    && forall g, r :: g in v.files && ValidPath(v.p, r) ==>
         At(w, g, r) == if g == f && r == q then b else At(v, g, r)
  }

  function SetPtr(t: Block, i: nat, b: nat): Block
    requires 4 * i + 4 <= |t| && b < TWO_32
  {
    PutU32(t, 4 * i, b)
  }

  /** Storing `b` where path `q` of file `f` is kept: in the inode, or in its parent's table. */
  ghost function Link(v: Volume, f: nat, q: Path, b: nat): Volume
    requires Sized(v) && f in v.files && ValidPath(v.p, q) && b < TWO_32
    requires q.idx != [] ==> At(v, f, Parent(q)) < |v.disk|
  {
    if q.idx == [] then
      v.(files := v.files[f := v.files[f].(block := v.files[f].block[q.slot := b])])
    else
      var t := At(v, f, Parent(q));
      v.(disk := v.disk[t := SetPtr(v.disk[t], Last(q), b)])
  }

  ghost function Store(v: Volume, b: nat, t: Block): Volume
    requires b < |v.disk|
  {
    v.(disk := v.disk[b := t])
  }

  lemma ParentValid(p: nat, q: Path)
    requires ValidPath(p, q) && q.idx != []
    ensures ValidPath(p, Parent(q)) && !IsData(Parent(q)) && Last(q) < p
  {
  }

  lemma SetPtrOther(disk: Disk, t: nat, i: nat, b: nat, j: nat)
    requires 0 < t < |disk| && 4 * i + 4 <= |disk[t]| && b < TWO_32
    ensures Ptr(disk[t := SetPtr(disk[t], i, b)], t, j) == if j == i then b else Ptr(disk, t, j)
  {
  }

  /** Overwriting a block no file uses as a table leaves every mapping alone. */
  lemma {:induction false} StoreAt(v: Volume, b: nat, t: Block, g: nat, r: Path)
    requires 0 < b < |v.disk| && NotTable(v, b)
    requires g in v.files && ValidPath(v.p, r)
    ensures At(Store(v, b, t), g, r) == At(v, g, r)
    decreases |r.idx|
  {
    if r.idx != [] {
      ParentValid(v.p, r);
      StoreAt(v, b, t, g, Parent(r));
    }
  }

  /** Ownership depends on the map alone. */
  lemma SameMapWf(v: Volume, w: Volume)
    requires Wf(v) && SameMap(v, w) && Sized(w) && v.used <= w.used && forall b :: b in w.used ==> b < |w.disk|
    ensures Wf(w)
  {
    forall f, q, g, r | f in w.files && g in w.files && ValidPath(w.p, q) && ValidPath(w.p, r) && Meet(w, f, q, g, r)
      ensures f == g && q == r
    {
      assert Meet(v, f, q, g, r);
    }
  }

  lemma {:induction false} StoreWf(v: Volume, b: nat, t: Block)
    requires Wf(v) && 0 < b < |v.disk| && NotTable(v, b) && |t| == 4 * v.p
    ensures Wf(Store(v, b, t)) && SameMap(v, Store(v, b, t))
  {
    var w := Store(v, b, t);
    forall g, r | g in v.files && ValidPath(v.p, r) ensures At(w, g, r) == At(v, g, r) {
      StoreAt(v, b, t, g, r);
    }
    SameMapWf(v, w);
  }

  /** What may be linked at `q`: anything at a data path, and only a fresh zeroed block at a
      path that leads on to other blocks. */
  ghost predicate Linkable(v: Volume, f: nat, q: Path, b: nat)
    requires f in v.files
  {
    && ValidPath(v.p, q) && 0 < b < TWO_32
    && (q.idx != [] ==> 0 < At(v, f, Parent(q)) < |v.disk|)
    && (IsData(q) || (At(v, f, q) == 0 && b < |v.disk| && v.disk[b] == Zeros(4 * v.p) && Unowned(v, b)))
  }

  lemma {:induction false} LinkAt(v: Volume, f: nat, q: Path, b: nat, g: nat, r: Path)
    requires Wf(v) && f in v.files && Linkable(v, f, q, b)
    requires g in v.files && ValidPath(v.p, r)
    ensures At(Link(v, f, q, b), g, r) == if g == f && r == q then b else At(v, g, r)
    decreases |r.idx|
  {
    if r.idx != [] {
      ParentValid(v.p, r);
      LinkAt(v, f, q, b, g, Parent(r));
      if g == f && Parent(r) == q {
        assert Ptr(v.disk, b, Last(r)) == 0;
      } else if q.idx != [] {
        ParentValid(v.p, q);
        var t := At(v, f, Parent(q));
        if At(v, g, Parent(r)) == t {
          assert Meet(v, g, Parent(r), f, Parent(q));
          SetPtrOther(v.disk, t, Last(q), b, Last(r));
          SamePath(q, r);
        }
      }
    }
  }

  lemma SamePath(q: Path, r: Path)
    requires q.idx != [] && r.idx != []
    ensures q == r <==> Parent(q) == Parent(r) && Last(q) == Last(r)
  {
    if Parent(q) == Parent(r) && Last(q) == Last(r) {
      assert r.idx == Parent(r).idx + [Last(r)] && q.idx == Parent(q).idx + [Last(q)];
    }
  }

  /** Linking an allocated, unowned block remaps exactly one path and keeps the trees disjoint. */
  lemma {:induction false} LinkWf(v: Volume, f: nat, q: Path, b: nat)
    requires Wf(v) && f in v.files && Linkable(v, f, q, b) && b in v.used && Unowned(v, b)
    ensures Wf(Link(v, f, q, b)) && Remapped(v, Link(v, f, q, b), f, q, b)
  {
    forall g, r | g in v.files && ValidPath(v.p, r)
      ensures At(Link(v, f, q, b), g, r) == if g == f && r == q then b else At(v, g, r)
    {
      LinkAt(v, f, q, b, g, r);
    }
    var w := Link(v, f, q, b);
    forall g, r, h, s | g in w.files && h in w.files && ValidPath(w.p, r) && ValidPath(w.p, s) && Meet(w, g, r, h, s)
      ensures g == h && r == s
    {
      if !(g == f && r == q) && !(h == f && s == q) {
        assert Meet(v, g, r, h, s);
      }
    }
  }

  /** The table that stands at `q` once it exists: the old one, or a zeroed block. */
  ghost function TableAt(v: Volume, f: nat, q: Path, b: nat): Block
    requires f in v.files && b < |v.disk|
  {
    if At(v, f, q) == 0 then Zeros(4 * v.p) else v.disk[b]
  }

  /** Making sure a table exists at an inner path: either `b` is already there, or `b` is a
      newly allocated block that is zeroed and linked. */
  ghost predicate Tabling(v: Volume, f: nat, q: Path, b: nat) {
    && f in v.files && ValidPath(v.p, q) && !IsData(q) && 0 < b < |v.disk| && b in v.used
    && (q.idx != [] ==> 0 < At(v, f, Parent(q)) < |v.disk|)
    && (if At(v, f, q) == 0 then Unowned(v, b) else At(v, f, q) == b)
  }

  ghost function WithTable(v: Volume, f: nat, q: Path, b: nat): Volume
    requires Sized(v) && Tabling(v, f, q, b)
  {
    var w := Store(v, b, TableAt(v, f, q, b));
    if q.idx == [] then
      w.(files := w.files[f := w.files[f].(block := w.files[f].block[q.slot := b])])
    else
      var t := At(v, f, Parent(q));
      w.(disk := w.disk[t := SetPtr(w.disk[t], Last(q), b)])
  }

  lemma {:induction false} WithTableWf(v: Volume, f: nat, q: Path, b: nat)
    requires Wf(v) && Tabling(v, f, q, b)
    ensures Wf(WithTable(v, f, q, b)) && Remapped(v, WithTable(v, f, q, b), f, q, b)
  {
    var w := Store(v, b, TableAt(v, f, q, b));
    if q.idx != [] { ParentValid(v.p, q); }
    if At(v, f, q) == 0 {
      StoreWf(v, b, Zeros(4 * v.p));
      LinkWf(w, f, q, b);
      assert WithTable(v, f, q, b) == Link(w, f, q, b);
    } else {
      assert w.disk == v.disk;
      if q.idx == [] {
        assert v.files[f].block[q.slot := b] == v.files[f].block;
        assert WithTable(v, f, q, b).files == v.files;
      } else {
        var t := At(v, f, Parent(q));
        assert Ptr(v.disk, t, Last(q)) == b;
        PutU32Same(v.disk[t], 4 * Last(q));
        assert WithTable(v, f, q, b).disk == v.disk;
      }
    }
  }
}
