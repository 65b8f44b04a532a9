/** Directories: a name-to-inode map kept in the blocks of a file. */
module Ext2Dir {
  import opened Errno
  import opened Invariants
  import opened Arith
  import opened Bytes
  import opened Ext2Tree
  import opened Ext2Bmap
  import opened Ext2Graft
  import opened Ext2Files
  import opened Ext2Space
  import opened Ext2Fs
  import opened Ext2DirBlock


  /** The entries in logical block `l`; a hole has none. */
  ghost function BlockEntries(v: Volume, d: nat, l: nat): seq<Entry>
    requires Sized(v) && d in v.files
  {
    var b := Logical(v, d, PathOf(v.p, l));
    if Mapped(v, d, l) == 0 || !Tiled(b) then [] else All(b)
  }

  /** The entries of the first `n` blocks, block by block. */
  ghost function Blocks(v: Volume, d: nat, n: nat): (bs: seq<seq<Entry>>)
    requires Sized(v) && d in v.files
    ensures |bs| == n
  {
    seq(n, k requires 0 <= k => BlockEntries(v, d, k))
  }

  /** All entries of a directory of `n` blocks, in the order the driver meets them. */
  ghost function DirEntries(v: Volume, d: nat, n: nat): seq<Entry>
    requires Sized(v) && d in v.files
  {
    Flat(Blocks(v, d, n))
  }

  /** A directory of `n` blocks: its size is a whole number of blocks, every block that is there
      is tiled by records, and nothing is mapped past the end. Blocks have at most 32 KiB, so
      `rec_len` can span one. */
  ghost predicate DirOk(v: Volume, d: nat, n: nat) {
    && Wf(v) && 256 <= v.p <= 8192 && d in v.files && v.files[d].size == Times(4 * v.p, n) < TWO_32
    && n < MaxLbn(v.p)
    && (forall l :: 0 <= l < n && Mapped(v, d, l) != 0 ==> Tiled(Logical(v, d, PathOf(v.p, l))))
    && (forall l :: n <= l < MaxLbn(v.p) ==> Mapped(v, d, l) == 0)
  }

  /** Data block `t` now stands at path `q` of file `d`, mapped before or not. */
  ghost predicate Placed(v: Volume, w: Volume, d: nat, q: Path, t: Block) {
    && Wf(v) && Wf(w) && v.p == w.p && v.files.Keys == w.files.Keys && d in v.files
    && At(w, d, q) != 0 && Replaced(v, w, d, q, t)
    && forall r :: ValidPath(v.p, r) && IsData(r) && r != q ==> (At(w, d, r) == 0 <==> At(v, d, r) == 0)
  }

  lemma PlacedBlocks(v: Volume, w: Volume, d: nat, l: nat, t: Block, k: nat)
    requires 0 < v.p && Placed(v, w, d, PathOf(v.p, l), t) && l < MaxLbn(v.p) && k < MaxLbn(v.p)
    ensures k != l ==>
      (Mapped(w, d, k) == 0 <==> Mapped(v, d, k) == 0) && BlockEntries(w, d, k) == BlockEntries(v, d, k)
    ensures k != l ==> Logical(w, d, PathOf(v.p, k)) == Logical(v, d, PathOf(v.p, k))
    ensures k == l ==> Mapped(w, d, k) != 0 && Logical(w, d, PathOf(v.p, k)) == t
    ensures k == l && Tiled(t) ==> BlockEntries(w, d, k) == All(t)
  {
    PathOfValid(v.p, k);
    PathOfValid(v.p, l);
    if k != l && PathOf(v.p, k) == PathOf(v.p, l) { PathOfInjective(v.p, k, l); }
  }

  lemma BlocksLive(v: Volume, d: nat, n: nat)
    requires Sized(v) && d in v.files
    ensures forall k :: 0 <= k < n ==> Live(Blocks(v, d, n)[k])
  {
    forall k | 0 <= k < n ensures Live(Blocks(v, d, n)[k]) {
      var b := Logical(v, d, PathOf(v.p, k));
      if Tiled(b) { EntriesLive(b, 0, |b|); }
    }
  }

  /** The other files are untouched by what is placed in `d`. */
  lemma PlacedOthers(v: Volume, w: Volume, d: nat, q: Path, t: Block)
    requires Placed(v, w, d, q, t) && 256 <= v.p
    ensures OthersKept(v, w, d)
  {
    forall g, x | g in v.files && g != d && 0 <= x < TWO_32 ensures ByteAt(w, g, x) == ByteAt(v, g, x) {
      Position(v.p, x, 0, x);
      assert Logical(w, g, PathOf(v.p, BlockOf(v.p, x))) == Logical(v, g, PathOf(v.p, BlockOf(v.p, x)));
    }
  }

  /** Placing a tiled block in a directory of `n` blocks, which then has `m` blocks. */
  lemma PlacedDir(v: Volume, w: Volume, d: nat, n: nat, m: nat, l: nat, t: Block)
    requires DirOk(v, d, n) && l < m && n <= m <= n + 1 && m < MaxLbn(v.p)
    requires Placed(v, w, d, PathOf(v.p, l), t) && Tiled(t) && w.files[d].size == Times(4 * v.p, m) < TWO_32
    ensures DirOk(w, d, m) && Blocks(w, d, m) == Blocks(v, d, m)[l := All(t)]
  {
    forall k | 0 <= k < MaxLbn(v.p)
      ensures k < m && Mapped(w, d, k) != 0 ==> Tiled(Logical(w, d, PathOf(v.p, k)))
      ensures k >= m ==> Mapped(w, d, k) == 0
      ensures BlockEntries(w, d, k) == if k == l then All(t) else BlockEntries(v, d, k)
    {
      PlacedBlocks(v, w, d, l, t, k);
    }
    var bs, cs := Blocks(w, d, m), Blocks(v, d, m)[l := All(t)];
    forall k | 0 <= k < m ensures bs[k] == cs[k] {
    }
  }

  /** A block past the end of the directory holds nothing. */
  lemma OneMore(v: Volume, d: nat, n: nat)
    requires DirOk(v, d, n)
    ensures DirEntries(v, d, n + 1) == DirEntries(v, d, n)
  {
    assert Blocks(v, d, n + 1) == Blocks(v, d, n) + [[]];
    FlatEmpty(Blocks(v, d, n));
  }

  /** What `ext2_bmap` and the block it gives mean for the directory. */
  lemma BlockAt(v: Volume, d: nat, n: nat, l: nat)
    requires DirOk(v, d, n) && l < n
    ensures Bmap(v.p, v.disk, v.files[d].block, l) == Mapped(v, d, l) < |v.disk| || Mapped(v, d, l) == 0
    ensures Bmap(v.p, v.disk, v.files[d].block, l) == Mapped(v, d, l)
    ensures Mapped(v, d, l) == 0 ==> BlockEntries(v, d, l) == []
    ensures Mapped(v, d, l) != 0 ==>
      v.disk[Mapped(v, d, l)] == Logical(v, d, PathOf(v.p, l)) && Tiled(v.disk[Mapped(v, d, l)])
    ensures Mapped(v, d, l) != 0 ==> BlockEntries(v, d, l) == All(v.disk[Mapped(v, d, l)])
  {
    PathOfValid(v.p, l);
    BmapResolves(v.p, v.disk, v.files[d].block, l);
  }

  /** The blocks behind the first `n` logical blocks. */
  ghost function Phys(v: Volume, d: nat, n: nat): (ps: seq<nat>)
    requires 0 < v.p && d in v.files
    ensures |ps| == n
  {
    seq(n, k requires 0 <= k => Mapped(v, d, k))
  }

  /** What the driver sees of a directory, block by block: where the block is and what it holds. */
  ghost predicate Seen(p: nat, disk: Disk, inode: Inode, ps: seq<nat>, bs: seq<seq<Entry>>) {
    && 0 < p && |ps| == |bs| && inode.size == Times(4 * p, |ps|)
    && (forall l :: 0 <= l < |ps| ==> Bmap(p, disk, inode.block, l) == ps[l])
    && (forall l :: 0 <= l < |ps| && ps[l] == 0 ==> bs[l] == [])
    && (forall l :: 0 <= l < |ps| && ps[l] != 0 ==> Shown(p, disk, ps[l], bs[l]))
    && (forall l :: 0 <= l < |ps| ==> Live(bs[l]))
  }

  ghost predicate Shown(p: nat, disk: Disk, b: nat, es: seq<Entry>) {
    b < |disk| && |disk[b]| == 4 * p && Tiled(disk[b]) && es == All(disk[b])
  }

  lemma DirSeen(v: Volume, d: nat, n: nat)
    requires DirOk(v, d, n)
    ensures Seen(v.p, v.disk, v.files[d], Phys(v, d, n), Blocks(v, d, n))
  {
    BlocksLive(v, d, n);
    var ps, bs := Phys(v, d, n), Blocks(v, d, n);
    forall l | 0 <= l < n
      ensures Bmap(v.p, v.disk, v.files[d].block, l) == ps[l] && (ps[l] == 0 ==> bs[l] == [])
      ensures ps[l] != 0 ==> Shown(v.p, v.disk, ps[l], bs[l])
    {
      BlockAt(v, d, n, l);
    }
  }

  lemma SizeSeen(p: nat, n: nat, l: nat)
    requires l <= n && 0 < p
    ensures Times(4 * p, l) < Times(4 * p, n) <==> l < n
  {
    if l < n { TimesOrder(4 * p, l, n); }
  }

  method LookupAll(p: nat, disk: Disk, inode: Inode, name: Name, ghost ps: seq<nat>,
    ghost bs: seq<seq<Entry>>) returns (ino: nat)
    requires Seen(p, disk, inode, ps, bs)
    ensures ino == Find(Flat(bs), name)
  {
    SizeSeen(p, |ps|, 0);
    var lbn: nat, consumed: nat := 0, 0;
    while consumed < inode.size
      invariant lbn <= |ps| && consumed == Times(4 * p, lbn) && (consumed < inode.size <==> lbn < |ps|)
      invariant Find(Flat(bs[..lbn]), name) == 0
      decreases |ps| - lbn
    {
      FlatStep(bs, lbn, name);
      var phys := Bmap(p, disk, inode.block, lbn);
      if phys != 0 {
        ino := FindInBlock(disk[phys], name);
        if ino != 0 {
          FlatFind(bs, lbn + 1, name);
          return;
        }
      }
      consumed := consumed + 4 * p;
      lbn := lbn + 1;
      SizeSeen(p, |ps|, lbn);
    }
    assert bs[..lbn] == bs;
    ino := 0;
  }

  /** `ext2_dir_lookup` */
  method Lookup(fs: Ext2, d: nat, name: Name, ghost n: nat) returns (ino: nat)
    requires fs.Valid() && DirOk(fs.Vol(), d, n) && d in fs.inodes && fs.inodes[d] == fs.files[d]
    ensures ino == if fs.files[d].isDir then Find(DirEntries(fs.Vol(), d, n), name) else 0
  {
    var inode := fs.inodes[d];
    if !inode.isDir { return 0; }
    DirSeen(fs.Vol(), d, n);
    ino := LookupAll(fs.p, fs.disk, inode, name, Phys(fs.Vol(), d, n), Blocks(fs.Vol(), d, n));
  }

  /** The block the new entry goes to: the first one from `l` on that is missing or has room,
      or the one past the end. */
  ghost function Where(disk: Disk, ps: seq<nat>, needed: nat, l: nat): nat
    decreases if l < |ps| then |ps| - l else 0
  {
    if l >= |ps| then |ps|
    else if ps[l] == 0 || (ps[l] < |disk| && Tiled(disk[ps[l]]) && Room(disk[ps[l]], 0, needed)) then l
    else Where(disk, ps, needed, l + 1)
  }

  /** Every block is there and has no room. */
  ghost predicate Packed(disk: Disk, ps: seq<nat>, needed: nat) {
    forall l :: 0 <= l < |ps| ==> 0 < ps[l] < |disk| && Tiled(disk[ps[l]]) && !Room(disk[ps[l]], 0, needed)
  }

  lemma {:induction false} PackedWhere(disk: Disk, ps: seq<nat>, needed: nat, l: nat)
    requires Packed(disk, ps, needed) && l <= |ps|
    ensures Where(disk, ps, needed, l) == |ps|
    decreases |ps| - l
  {
    if l < |ps| { PackedWhere(disk, ps, needed, l + 1); }
  }

  /** The block loop of `ext2_dir_add_entry`, up to the block that takes the entry. */
  method ScanAdd(p: nat, disk: Disk, inode: Inode, ino: nat, name: Name, kind: Byte, ghost ps: seq<nat>,
    ghost bs: seq<seq<Entry>>)
    returns (l: nat, phys: nat, c: Block)
    requires Seen(p, disk, inode, ps, bs) && 0 < ino < TWO_32 && |name| < 256
    ensures l == Where(disk, ps, Need(|name|), 0) <= |ps| && phys == if l < |ps| then ps[l] else 0
    ensures phys != 0 ==> |c| == 4 * p && Tiled(c) && Inserted(bs[l], All(c), Entry(name, ino, kind))
  {
    SizeSeen(p, |ps|, 0);
    var consumed: nat := 0;
    l := 0;
    while consumed < inode.size
      invariant l <= |ps| && consumed == Times(4 * p, l) && (consumed < inode.size <==> l < |ps|)
      invariant Where(disk, ps, Need(|name|), 0) == Where(disk, ps, Need(|name|), l)
      decreases |ps| - l
    {
      phys := Bmap(p, disk, inode.block, l);
      if phys == 0 { return l, 0, []; }
      var ok;
      ok, c := AddInBlock(disk[phys], ino, name, kind);
      if ok { return; }
      consumed := consumed + 4 * p;
      l := l + 1;
      SizeSeen(p, |ps|, l);
    }
    phys, c := 0, [];
  }

  /** There are enough free blocks for a new block and for the tables missing on the way to it. */
  ghost predicate Linked(v: Volume, d: nat, q: Path, free: nat)
    requires d in v.files
  {
    free >= 1 + Missing(v, d, q, |q.idx|)
  }

  ghost predicate SameData(v: Volume, w: Volume) {
    && Wf(v) && Wf(w) && SameMap(v, w)
    && forall g, r :: g in v.files && ValidPath(v.p, r) && IsData(r) ==> Logical(w, g, r) == Logical(v, g, r)
  }

  /** A new block for the directory, linked by a `BmapSet` that succeeded. */
  lemma PlacedNew(v: Volume, u: Volume, w: Volume, x: Volume, y: Volume, d: nat, q: Path, b: nat, t: Block, size: nat)
    requires Wf(v) && Wf(u) && u == v.(used := u.used) && MapSet(u, w, d, q, b) && 0 < b && |t| == 4 * v.p
    requires ValidPath(v.p, q) && IsData(q) && At(v, d, q) == 0 && b < |w.disk| && x == Store(w, b, t)
    requires y == Resized(x, d, size)
    ensures Whole(Placed(v, y, d, q, t))
  {
    FreshChunk(v, u, w, d, q, b);
    StoreData(w, d, q, t);
    ReplacedTwice(v, w, x, d, q, Logical(w, d, q), t);
    ResizedSame(x, d, size);
    PlacedResized(v, x, d, q, t, size);
    assert forall r :: At(u, d, r) == At(v, d, r);
  }

  lemma PlacedResized(v: Volume, x: Volume, d: nat, q: Path, t: Block, size: nat)
    requires Wf(v) && Wf(x) && v.p == x.p && v.files.Keys == x.files.Keys && d in v.files && Replaced(v, x, d, q, t)
    ensures Sized(Resized(x, d, size)) && Replaced(v, Resized(x, d, size), d, q, t)
  {
    var y := Resized(x, d, size);
    assert forall g, r :: g in v.files ==> At(y, g, r) == At(x, g, r);
    assert forall g, r :: g in v.files ==> Logical(y, g, r) == Logical(x, g, r);
  }

  /** A new block that could not be linked: it is in no file, so nothing changes but the size. */
  lemma NotPlaced(v: Volume, u: Volume, y: Volume, d: nat, b: nat, t: Block, size: nat)
    requires Wf(v) && Wf(u) && u == v.(used := u.used) && d in v.files && 0 < b < |v.disk| && b !in v.used &&
      |t| == 4 * v.p
    requires y == Resized(Store(u, b, t), d, size)
    ensures SameData(v, y)
  {
    assert forall g, r :: g in v.files ==> At(u, g, r) == At(v, g, r);
    StoreWf(u, b, t);
    var x := Store(u, b, t);
    ResizedSame(x, d, size);
    forall g, r | g in v.files && ValidPath(v.p, r) && IsData(r) ensures Logical(y, g, r) == Logical(v, g, r) {
      assert At(y, g, r) == At(x, g, r) == At(v, g, r);
    }
  }

  /** An entry placed in or taken from a block of the directory is placed in or taken from the
      directory: `x` are the block's entries afterwards. */
  lemma EntriesPlaced(v: Volume, w: Volume, d: nat, m: nat, l: nat, x: seq<Entry>, e: Entry)
    requires Sized(v) && Sized(w) && d in v.files && d in w.files && l < m && Blocks(w, d, m) == Blocks(v, d, m)[l := x]
    ensures Inserted(BlockEntries(v, d, l), x, e) ==> Whole(Inserted(DirEntries(v, d, m), DirEntries(w, d, m), e))
    ensures Inserted(x, BlockEntries(v, d, l), e) ==> Whole(Inserted(DirEntries(w, d, m), DirEntries(v, d, m), e))
  {
    var bs := Blocks(v, d, m);
    assert bs[l] == BlockEntries(v, d, l);
    FlatPlaced(bs, l, x, e, DirEntries(v, d, m), DirEntries(w, d, m));
  }

  /** The directory keeps its entries when only its size grows by a block. */
  lemma GrownDir(v: Volume, w: Volume, d: nat, n: nat)
    requires DirOk(v, d, n) && n + 1 < MaxLbn(v.p) && Wf(w) && SameMap(v, w) &&
      w.files[d].size == Times(4 * v.p, n + 1) < TWO_32
    requires forall g, r :: g in v.files && ValidPath(v.p, r) && IsData(r) ==> Logical(w, g, r) == Logical(v, g, r)
    ensures DirOk(w, d, n + 1) && DirEntries(w, d, n + 1) == DirEntries(v, d, n)
  {
    forall k | 0 <= k < MaxLbn(v.p)
      ensures Mapped(w, d, k) == Mapped(v, d, k) && Logical(w, d, PathOf(v.p, k)) == Logical(v, d, PathOf(v.p, k))
      ensures BlockEntries(w, d, k) == BlockEntries(v, d, k)
    {
      PathOfValid(v.p, k);
    }
    OneMore(v, d, n);
    assert Blocks(w, d, n + 1) == Blocks(v, d, n + 1);
  }

  /** Writing the new block and the inode that has grown by one block. */
  method CommitBlock(fs: Ext2, d: nat, inode: Inode, phys: nat, blk: Block)
    requires phys < |fs.disk| && d in fs.files && fs.files[d] == inode
    modifies fs`disk, fs`files, fs`inodes
    ensures fs.Vol() == Resized(Store(old(fs.Vol()), phys, blk), d, inode.size + 4 * fs.p)
    ensures fs.inodes == old(fs.inodes)[d := fs.files[d]]
  {
    ghost var w := fs.Vol();
    var grown := inode.(size := inode.size + 4 * fs.p);
    fs.disk := fs.disk[phys := blk];
    fs.inodes := fs.inodes[d := grown];
    fs.files := fs.files[d := grown];
    assert fs.Vol() == Resized(Store(w, phys, blk), d, inode.size + 4 * fs.p);
  }

  /** Directory `d` has grown by a block, and no other inode has changed. */
  ghost predicate Lengthened(v: Volume, y: Volume, d: nat) {
    && Wf(v) && Wf(y) && v.p == y.p && v.files.Keys == y.files.Keys && d in v.files
    && y.files[d].size == v.files[d].size + 4 * v.p && y.files[d].isDir == v.files[d].isDir
    && forall g :: g in v.files && g != d ==> y.files[g] == v.files[g]
  }

  /** What `AddBlock` leaves: the block in place, or, if it could not be linked, all data as it was. */
  ghost predicate Added(v: Volume, y: Volume, d: nat, q: Path, t: Block, free: nat) {
    && Lengthened(v, y, d)
    && (Linked(v, d, q, free) ==> Placed(v, y, d, q, t))
    && (!Linked(v, d, q, free) ==> SameData(v, y))
  }

  lemma LengthenedNew(v: Volume, u: Volume, w: Volume, x: Volume, y: Volume, d: nat, q: Path, b: nat, t: Block,
    size: nat)
    requires Wf(v) && u == v.(used := u.used) && d in v.files && ValidPath(v.p, q) && IsData(q)
    requires 0 < b && |t| == 4 * v.p && MapSet(u, w, d, q, b)
    requires w.files == v.files[d := w.files[d]] && w.files[d] == v.files[d].(block := w.files[d].block)
    requires b < |w.disk| && x == Store(w, b, t) && size == v.files[d].size + 4 * v.p && y == Resized(x, d, size)
    ensures Whole(Lengthened(v, y, d))
  {
    StoreData(w, d, q, t);
    ResizedSame(x, d, size);
  }

  lemma AddedPlaced(v: Volume, y: Volume, d: nat, q: Path, t: Block, free: nat)
    requires Whole(Lengthened(v, y, d)) && d in v.files && Linked(v, d, q, free) && Whole(Placed(v, y, d, q, t))
    ensures Whole(Added(v, y, d, q, t, free))
  {
  }

  /** `w` is the volume after `BmapSet`, `y` the one after the block and the inode are written. */
  lemma AddedLinked(v: Volume, u: Volume, w: Volume, x: Volume, y: Volume, d: nat, q: Path, b: nat, t: Block,
    size: nat, free: nat)
    requires Wf(v) && Wf(u) && u == v.(used := u.used) && d in v.files && ValidPath(v.p, q) && IsData(q) &&
      At(v, d, q) == 0
    requires 0 < b && |t| == 4 * v.p && MapSet(u, w, d, q, b) && Linked(u, d, q, free)
    requires w.files == v.files[d := w.files[d]] && w.files[d] == v.files[d].(block := w.files[d].block)
    requires b < |w.disk| && x == Store(w, b, t) && size == v.files[d].size + 4 * v.p && y == Resized(x, d, size)
    ensures Whole(Added(v, y, d, q, t, free))
  {
    MissingSame(v, u, d, q, |q.idx|);
    LengthenedNew(v, u, w, x, y, d, q, b, t, size);
    PlacedNew(v, u, w, x, y, d, q, b, t, size);
    AddedPlaced(v, y, d, q, t, free);
  }

  lemma AddedLost(v: Volume, u: Volume, w: Volume, y: Volume, d: nat, q: Path, b: nat, t: Block, free: nat)
    requires Wf(v) && u == v.(used := u.used) && d in v.files && !Linked(u, d, q, free)
    requires 0 < b < |v.disk| && b !in v.used && |t| == 4 * v.p && Wf(w) && w == v.(used := w.used)
    requires y == Resized(Store(w, b, t), d, v.files[d].size + 4 * v.p)
    ensures Added(v, y, d, q, t, free)
  {
    MissingSame(v, u, d, q, |q.idx|);
    NotPlaced(v, w, y, d, b, t, v.files[d].size + 4 * v.p);
  }

  /** What `BmapSet` makes of the volume, with `free` blocks left. */
  ghost predicate BmapDone(u: Volume, w: Volume, d: nat, q: Path, b: nat, rc: int, free: nat) {
    && Wf(u) && Wf(w) && d in u.files && d in w.files && (rc == 0 <==> free >= Missing(u, d, q, |q.idx|))
    && (rc == 0 ==> MapSet(u, w, d, q, b) && w.files == u.files[d := w.files[d]])
    && (rc != 0 ==> w == u.(used := w.used)) && w.files[d] == u.files[d].(block := w.files[d].block)
  }

  lemma AddedEither(v: Volume, u: Volume, w: Volume, y: Volume, d: nat, q: Path, b: nat, t: Block, free: nat, rc: int)
    requires Whole(BmapDone(u, w, d, q, b, rc, free)) && Wf(v) && u == v.(used := u.used)
    requires ValidPath(v.p, q) && IsData(q) && At(v, d, q) == 0
    requires 0 < b < |v.disk| && b !in v.used && |t| == 4 * v.p && b < |w.disk|
    requires y == Resized(Store(w, b, t), d, v.files[d].size + 4 * v.p)
    ensures Whole(Added(v, y, d, q, t, free + 1))
  {
    if rc == 0 {
      AddedLinked(v, u, w, Store(w, b, t), y, d, q, b, t, v.files[d].size + 4 * v.p, free + 1);
    } else {
      AddedLost(v, u, w, y, d, q, b, t, free + 1);
    }
  }

  /** Enter a newly allocated block in the map, write it and the inode. The result of
      `ext2_bmap_set` is not looked at. */
  method EnterBlock(fs: Ext2, d: nat, inode: Inode, l: nat, phys: nat, blk: Block)
    returns (ghost rc: int, ghost w: Volume)
    requires Whole(fs.Valid()) && d in fs.files && fs.files[d] == inode && l < MaxLbn(fs.p)
    requires 0 < phys < |fs.disk| && phys !in fs.blocks.free && Unowned(fs.Vol(), phys)
    requires |blk| == 4 * fs.p && inode.size + 4 * fs.p < TWO_32
    modifies fs`disk, fs`files, fs`inodes, fs.blocks
    ensures Whole(fs.Housed()) &&
      Whole(BmapDone(old(fs.Vol()), w, d, PathOf(fs.p, l), phys, rc, old(fs.blocks.totalFree)))
    ensures phys < |w.disk| && fs.Vol() == Resized(Store(w, phys, blk), d, inode.size + 4 * fs.p)
    ensures fs.inodes == old(fs.inodes)[d := fs.files[d]]
  {
    var linked, inode' := fs.BmapSet(d, inode, l, phys);
    rc, w := linked, fs.Vol();
    CommitBlock(fs, d, inode', phys, blk);
  }

  method LinkBlock(fs: Ext2, d: nat, inode: Inode, l: nat, phys: nat, blk: Block, ghost v: Volume)
    requires Whole(fs.Valid()) && Wf(v) && fs.Vol() == v.(used := fs.Vol().used)
    requires d in v.files && v.files[d] == inode && l < MaxLbn(fs.p) && Mapped(v, d, l) == 0
    requires 0 < phys < |fs.disk| && phys !in v.used && phys !in fs.blocks.free
    requires |blk| == 4 * fs.p && inode.size + 4 * fs.p < TWO_32
    modifies fs`disk, fs`files, fs`inodes, fs.blocks
    ensures Whole(fs.Valid())
    ensures Whole(Added(v, fs.Vol(), d, PathOf(fs.p, l), blk, old(fs.blocks.totalFree) + 1))
    ensures fs.inodes == old(fs.inodes)[d := fs.files[d]]
  {
    PathOfValid(fs.p, l);
    ghost var u, free := fs.Vol(), fs.blocks.totalFree;
    assert forall g, r :: g in v.files ==> At(u, g, r) == At(v, g, r);
    ghost var rc, w;
    rc, w := EnterBlock(fs, d, inode, l, phys, blk);
    AddedEither(v, u, w, fs.Vol(), d, PathOf(fs.p, l), phys, blk, free, rc);
  }

  /** The end of `ext2_dir_add_entry` when a block is missing. */
  method AddBlock(fs: Ext2, d: nat, inode: Inode, l: nat, blk: Block) returns (rc: int)
    requires Whole(fs.Valid()) && d in fs.files && fs.files[d] == inode && l < MaxLbn(fs.p) &&
      Mapped(fs.Vol(), d, l) == 0
    requires |blk| == 4 * fs.p && inode.size + 4 * fs.p < TWO_32
    modifies fs`disk, fs`files, fs`inodes, fs.blocks
    ensures Whole(fs.Valid())
    ensures rc == 0 || rc == -ENOSPC
    ensures rc != 0 <==> old(fs.blocks.totalFree) == 0
    ensures rc != 0 ==> fs.Vol() == old(fs.Vol()) && fs.inodes == old(fs.inodes)
    ensures rc == 0 ==> Whole(Added(old(fs.Vol()), fs.Vol(), d, PathOf(fs.p, l), blk, old(fs.blocks.totalFree)))
    ensures rc == 0 ==> fs.inodes == old(fs.inodes)[d := fs.files[d]]
  {
    ghost var v := fs.Vol();
    var phys := fs.blocks.Alloc();
    if phys == 0 { return -ENOSPC; }
    GrowUsed(v, fs.Vol().used);
    LinkBlock(fs, d, inode, l, phys, blk, v);
    rc := 0;
  }

  lemma SameDataOthers(v: Volume, w: Volume, d: nat)
    requires SameData(v, w) && 256 <= v.p
    ensures OthersKept(v, w, d)
  {
    forall g, x | g in v.files && g != d && 0 <= x < TWO_32 ensures ByteAt(w, g, x) == ByteAt(v, g, x) {
      Position(v.p, x, 0, x);
      assert Logical(w, g, PathOf(v.p, BlockOf(v.p, x))) == Logical(v, g, PathOf(v.p, BlockOf(v.p, x)));
    }
  }

  ghost predicate SmallFiles(v: Volume) {
    forall g :: g in v.files ==> v.files[g].size < TWO_32
  }

  lemma OneMoreFits(p: nat, n: nat)
    requires 256 <= p && Times(4 * p, n) + 4 * p < TWO_32
    ensures Times(4 * p, n + 1) < TWO_32 && n + 1 < MaxLbn(p)
  {
    PositionInRange(p, Times(4 * p, n + 1));
    Join(4 * p, n + 1, 0);
  }

  /** The directory and the other files after an entry has gone into a block that was there. */
  lemma InPlace(v: Volume, w: Volume, d: nat, n: nat, l: nat, c: Block, e: Entry)
    requires DirOk(v, d, n) && SmallFiles(v) && l < n && Mapped(v, d, l) != 0 && |c| == 4 * v.p && Tiled(c)
    requires Mapped(v, d, l) < |v.disk| && w == Store(v, Mapped(v, d, l), c)
    ensures DirOk(w, d, n) && OthersSame(v, w, d)
    ensures Inserted(BlockEntries(v, d, l), All(c), e) ==> Inserted(DirEntries(v, d, n), DirEntries(w, d, n), e)
    ensures Inserted(All(c), BlockEntries(v, d, l), e) ==> Inserted(DirEntries(w, d, n), DirEntries(v, d, n), e)
  {
    var q := PathOf(v.p, l);
    PathOfValid(v.p, l);
    StoreData(v, d, q, c);
    PlacedDir(v, w, d, n, n, l, c);
    EntriesPlaced(v, w, d, n, l, All(c), e);
    PlacedOthers(v, w, d, q, c);
    Unchanged(v, w, w, d);
  }

  /** The same after a block was added and linked. */
  lemma WithBlock(v: Volume, y: Volume, d: nat, n: nat, l: nat, t: Block, free: nat, e: Entry)
    requires DirOk(v, d, n) && SmallFiles(v) && l <= n && Mapped(v, d, l) == 0 && Tiled(t) && All(t) == [e]
    requires v.files[d].size + 4 * v.p < TWO_32 && Added(v, y, d, PathOf(v.p, l), t, free)
    requires Linked(v, d, PathOf(v.p, l), free)
    ensures Whole(DirOk(y, d, n + 1)) && Whole(OthersSame(v, y, d))
    ensures Whole(Inserted(DirEntries(v, d, n), DirEntries(y, d, n + 1), e))
  {
    DirWithin(v, y, d, n, l, t);
    EntryWithin(v, y, d, n, l, t, e);
    OthersBeside(v, y, d, PathOf(v.p, l), t);
  }

  lemma DirWithin(v: Volume, y: Volume, d: nat, n: nat, l: nat, t: Block)
    requires DirOk(v, d, n) && 256 <= v.p && l <= n && Tiled(t) && Placed(v, y, d, PathOf(v.p, l), t)
    requires y.files[d].size == v.files[d].size + 4 * v.p < TWO_32
    ensures Whole(DirOk(y, d, n + 1)) && Blocks(y, d, n + 1) == Blocks(v, d, n + 1)[l := All(t)]
  {
    OneMoreFits(v.p, n);
    assert y.files[d].size == Times(4 * v.p, n + 1);
    PlacedDir(v, y, d, n, n + 1, l, t);
  }

  lemma EntryWithin(v: Volume, y: Volume, d: nat, n: nat, l: nat, t: Block, e: Entry)
    requires DirOk(v, d, n) && Sized(y) && d in y.files && l <= n && Tiled(t) && All(t) == [e] &&
      BlockEntries(v, d, l) == []
    requires Blocks(y, d, n + 1) == Blocks(v, d, n + 1)[l := All(t)]
    ensures Whole(Inserted(DirEntries(v, d, n), DirEntries(y, d, n + 1), e))
  {
    InsertedHere([], e);
    OneMore(v, d, n);
    EntriesPlaced(v, y, d, n + 1, l, All(t), e);
  }

  lemma OthersBeside(v: Volume, y: Volume, d: nat, q: Path, t: Block)
    requires Wf(v) && Wf(y) && SmallFiles(v) && 256 <= v.p && v.files.Keys == y.files.Keys && d in v.files &&
      Placed(v, y, d, q, t)
    requires forall g :: g in v.files && g != d ==> y.files[g] == v.files[g]
    ensures Whole(OthersSame(v, y, d))
  {
    PlacedOthers(v, y, d, q, t);
    Unchanged(v, y, y, d);
  }

  /** The same after a block was added that could not be linked. */
  lemma WithoutBlock(v: Volume, y: Volume, d: nat, n: nat, q: Path, t: Block, free: nat)
    requires DirOk(v, d, n) && SmallFiles(v)
    requires v.files[d].size + 4 * v.p < TWO_32 && Added(v, y, d, q, t, free) && !Linked(v, d, q, free)
    ensures DirOk(y, d, n + 1) && OthersSame(v, y, d)
    ensures DirEntries(y, d, n + 1) == DirEntries(v, d, n)
  {
    OneMoreFits(v.p, n);
    GrownDir(v, y, d, n);
    SameDataOthers(v, y, d);
    Unchanged(v, y, y, d);
  }

  /** Whether a new entry will be found: its block exists, or the new block can be linked. */
  ghost predicate Stored(v: Volume, d: nat, l: nat, free: nat)
    requires 0 < v.p && d in v.files
  {
    Mapped(v, d, l) != 0 || Linked(v, d, PathOf(v.p, l), free)
  }

  /** The thirteenth block needs a table besides itself if there is none. */
  lemma SecondNeeded(v: Volume, d: nat, free: nat)
    requires Sized(v) && d in v.files && v.files[d].block[IND] == 0 && 0 < free
    ensures Stored(v, d, NDIR, free) <==> free >= 2
  {
    var q := PathOf(v.p, NDIR);
    assert q == Path(IND, [0]) && Prefix(q, 0) == Path(IND, []);
    assert At(v, d, Prefix(q, 0)) == 0;
    assert Missing(v, d, q, 1) == 1;
  }

  /** The directory after `ext2_dir_add_entry` returned 0, when the entry goes to block `l`. */
  ghost predicate AddDone(v: Volume, w: Volume, d: nat, n: nat, m: nat, l: nat, free: nat, e: Entry) {
    && DirOk(v, d, n) && DirOk(w, d, m) && v.p == w.p && v.files.Keys == w.files.Keys && OthersSame(v, w, d)
    && if Stored(v, d, l, free) then Inserted(DirEntries(v, d, n), DirEntries(w, d, m), e)
       else DirEntries(w, d, m) == DirEntries(v, d, n)
  }

  method AddInPlace(fs: Ext2, d: nat, inode: Inode, l: nat, phys: nat, c: Block, ghost n: nat, ghost e: Entry)
    requires Whole(fs.Valid()) && Whole(DirOk(fs.Vol(), d, n)) && fs.files[d] == inode && l < n &&
      phys == Mapped(fs.Vol(), d, l) != 0
    requires |c| == 4 * fs.p && Tiled(c) && Inserted(BlockEntries(fs.Vol(), d, l), All(c), e)
    modifies fs`disk, fs`inodes
    ensures Whole(fs.Valid()) && fs.inodes == old(fs.inodes)[d := inode]
    ensures Whole(AddDone(old(fs.Vol()), fs.Vol(), d, n, n, l, fs.blocks.totalFree, e))
  {
    ghost var v := fs.Vol();
    BlockAt(v, d, n, l);
    fs.disk := fs.disk[phys := c];
    fs.inodes := fs.inodes[d := inode];
    InPlace(v, fs.Vol(), d, n, l, c, e);
  }

  method AddNew(fs: Ext2, d: nat, inode: Inode, l: nat, blk: Block, ghost n: nat, ghost e: Entry) returns (rc: int)
    requires Whole(fs.Valid()) && Whole(DirOk(fs.Vol(), d, n)) && fs.files[d] == inode && l <= n &&
      Mapped(fs.Vol(), d, l) == 0
    requires |blk| == 4 * fs.p && Tiled(blk) && All(blk) == [e] && inode.size + 4 * fs.p < TWO_32
    modifies fs`disk, fs`files, fs`inodes, fs.blocks
    ensures Whole(fs.Valid())
    ensures rc == if old(fs.blocks.totalFree) == 0 then -ENOSPC else 0
    ensures rc != 0 ==> fs.Vol() == old(fs.Vol()) && fs.inodes == old(fs.inodes)
    ensures rc == 0 ==> Whole(AddDone(old(fs.Vol()), fs.Vol(), d, n, n + 1, l, old(fs.blocks.totalFree), e))
    ensures rc == 0 ==> fs.inodes == old(fs.inodes)[d := fs.files[d]]
  {
    ghost var v, free := fs.Vol(), fs.blocks.totalFree;
    rc := AddBlock(fs, d, inode, l, blk);
    if rc == 0 {
      if Linked(v, d, PathOf(fs.p, l), free) {
        WithBlock(v, fs.Vol(), d, n, l, blk, free, e);
      } else {
        WithoutBlock(v, fs.Vol(), d, n, PathOf(fs.p, l), blk, free);
      }
    }
  }

  /** The entry goes to block `l`: into the block that was scanned, or into a new one. */
  method PlaceEntry(fs: Ext2, d: nat, inode: Inode, ino: nat, name: Name, kind: Byte, l: nat, phys: nat, c: Block,
    ghost n: nat)
    returns (rc: int, ghost m: nat)
    requires Whole(fs.Valid()) && Whole(DirOk(fs.Vol(), d, n)) && fs.files[d] == inode && l <= n &&
      phys == Mapped(fs.Vol(), d, l)
    requires 0 < ino < TWO_32 && |name| < 256 && inode.size + 4 * fs.p < TWO_32
    requires phys != 0 ==>
      |c| == 4 * fs.p && Tiled(c) && Inserted(BlockEntries(fs.Vol(), d, l), All(c), Entry(name, ino, kind))
    modifies fs`disk, fs`files, fs`inodes, fs.blocks
    ensures Whole(fs.Valid())
    ensures rc == if phys == 0 && old(fs.blocks.totalFree) == 0 then -ENOSPC else 0
    ensures rc != 0 ==> fs.Vol() == old(fs.Vol()) && fs.inodes == old(fs.inodes)
    ensures rc == 0 ==>
      Whole(AddDone(old(fs.Vol()), fs.Vol(), d, n, m, l, old(fs.blocks.totalFree), Entry(name, ino, kind)))
    ensures rc == 0 ==> fs.inodes == old(fs.inodes)[d := fs.files[d]]
  {
    if phys != 0 {
      AddInPlace(fs, d, inode, l, phys, c, n, Entry(name, ino, kind));
      return 0, n;
    }
    var blk := MakeBlock(4 * fs.p, ino, name, kind);
    rc := AddNew(fs, d, inode, l, blk, n, Entry(name, ino, kind));
    m := n + 1;
  }

  /** `ext2_dir_add_entry`. When it returns 0, the entry is in the directory exactly when its
      block was there or could be linked; the driver does not notice a failed link. */
  method AddEntry(fs: Ext2, d: nat, ino: nat, name: Name, kind: Byte, ghost n: nat) returns (rc: int, ghost m: nat)
    requires Whole(fs.Valid()) && Whole(DirOk(fs.Vol(), d, n)) && d in fs.inodes && fs.inodes[d] == fs.files[d]
    requires 0 < ino < TWO_32 && |name| < 256 && fs.files[d].size + 4 * fs.p < TWO_32
    modifies fs`disk, fs`files, fs`inodes, fs.blocks
    ensures Whole(fs.Valid())
    ensures var l := Where(old(fs.disk), Phys(old(fs.Vol()), d, n), Need(|name|), 0);
      rc == if !old(fs.files[d].isDir) then -ENOTDIR
            else if Mapped(old(fs.Vol()), d, l) == 0 && old(fs.blocks.totalFree) == 0 then -ENOSPC else 0
    ensures rc != 0 ==> fs.Vol() == old(fs.Vol()) && fs.inodes == old(fs.inodes)
    ensures rc == 0 ==> var l := Where(old(fs.disk), Phys(old(fs.Vol()), d, n), Need(|name|), 0);
      Whole(AddDone(old(fs.Vol()), fs.Vol(), d, n, m, l, old(fs.blocks.totalFree), Entry(name, ino, kind)))
    ensures rc == 0 ==> fs.inodes == old(fs.inodes)[d := fs.files[d]]
  {
    m := n;
    var inode := fs.inodes[d];
    if !inode.isDir { return -ENOTDIR, n; }
    ghost var ps, bs := Phys(fs.Vol(), d, n), Blocks(fs.Vol(), d, n);
    DirSeen(fs.Vol(), d, n);
    var l, phys, c := ScanAdd(fs.p, fs.disk, inode, ino, name, kind, ps, bs);
    rc, m := PlaceEntry(fs, d, inode, ino, name, kind, l, phys, c, n);
  }

  /** A directory of twelve full blocks without an indirect table: with one free block the call
      returns 0 and the directory has the entries it had; with more it has the new one. */
  method ThirteenthBlock(fs: Ext2, d: nat, ino: nat, name: Name, kind: Byte) returns (rc: int, ghost m: nat)
    requires Whole(fs.Valid()) && Whole(DirOk(fs.Vol(), d, NDIR)) && d in fs.inodes && fs.inodes[d] == fs.files[d]
    requires 0 < ino < TWO_32 && |name| < 256 && fs.files[d].size + 4 * fs.p < TWO_32 && fs.files[d].isDir
    requires fs.files[d].block[IND] == 0 && Packed(fs.disk, Phys(fs.Vol(), d, NDIR), Need(|name|))
    requires 0 < fs.blocks.totalFree
    modifies fs`disk, fs`files, fs`inodes, fs.blocks
    ensures Whole(fs.Valid()) && rc == 0 && DirOk(old(fs.Vol()), d, NDIR) && DirOk(fs.Vol(), d, m)
    ensures old(fs.blocks.totalFree) == 1 ==> DirEntries(fs.Vol(), d, m) == old(DirEntries(fs.Vol(), d, NDIR))
    ensures old(fs.blocks.totalFree) > 1 ==>
      Inserted(old(DirEntries(fs.Vol(), d, NDIR)), DirEntries(fs.Vol(), d, m), Entry(name, ino, kind))
  {
    ghost var v, free := fs.Vol(), fs.blocks.totalFree;
    PackedWhere(fs.disk, Phys(v, d, NDIR), Need(|name|), 0);
    SecondNeeded(v, d, free);
    rc, m := AddEntry(fs, d, ino, name, kind, NDIR);
  }

  method RemoveFrom(p: nat, disk: Disk, inode: Inode, l: nat, name: Name, ghost ps: seq<nat>, ghost bs: seq<seq<Entry>>)
    returns (ok: bool, phys: nat, c: Block)
    requires Seen(p, disk, inode, ps, bs) && 4 * p < TWO_16 && l < |ps|
    ensures phys == ps[l] && (ok <==> Find(bs[l], name) != 0)
    ensures ok ==>
      phys != 0 && |c| == 4 * p && Tiled(c) && Whole(Inserted(All(c), bs[l], First(bs[l], name)))
  {
    phys := Bmap(p, disk, inode.block, l);
    ok, c := false, [];
    if phys != 0 {
      ok, c := RemoveInBlock(disk[phys], name);
    }
  }

  /** The block loop of `ext2_dir_remove_entry`, up to the block that holds the name. */
  method ScanRemove(p: nat, disk: Disk, inode: Inode, name: Name, ghost ps: seq<nat>, ghost bs: seq<seq<Entry>>)
    returns (ok: bool, l: nat, phys: nat, c: Block)
    requires Seen(p, disk, inode, ps, bs) && 4 * p < TWO_16
    ensures ok <==> Find(Flat(bs), name) != 0
    ensures ok ==> l < |ps| && phys == ps[l] != 0 && |c| == 4 * p && Tiled(c)
    ensures ok ==> Inserted(All(c), bs[l], First(Flat(bs), name))
  {
    SizeSeen(p, |ps|, 0);
    var consumed: nat := 0;
    l := 0;
    while consumed < inode.size
      invariant l <= |ps| && consumed == Times(4 * p, l) && (consumed < inode.size <==> l < |ps|)
      invariant Find(Flat(bs[..l]), name) == 0
      decreases |ps| - l
    {
      FlatStep(bs, l, name);
      ok, phys, c := RemoveFrom(p, disk, inode, l, name, ps, bs);
      if ok {
        FlatFind(bs, l + 1, name);
        return;
      }
      consumed := consumed + 4 * p;
      l := l + 1;
      SizeSeen(p, |ps|, l);
    }
    assert bs[..l] == bs;
    ok, phys, c := false, 0, [];
  }

  /** `ext2_dir_remove_entry` */
  method RemoveEntry(fs: Ext2, d: nat, name: Name, ghost n: nat) returns (rc: int)
    requires Whole(fs.Valid()) && Whole(DirOk(fs.Vol(), d, n)) && d in fs.inodes && fs.inodes[d] == fs.files[d]
    modifies fs`disk
    ensures Whole(fs.Valid()) && Whole(DirOk(fs.Vol(), d, n))
    ensures rc == if Find(DirEntries(old(fs.Vol()), d, n), name) != 0 then 0 else -ENOENT
    ensures rc != 0 ==> fs.disk == old(fs.disk)
    ensures rc == 0 ==> OthersSame(old(fs.Vol()), fs.Vol(), d)
    ensures rc == 0 ==> Inserted(DirEntries(fs.Vol(), d, n), DirEntries(old(fs.Vol()), d, n),
                                 First(DirEntries(old(fs.Vol()), d, n), name))
  {
    ghost var v := fs.Vol();
    DirSeen(v, d, n);
    var ok, l, phys, c := ScanRemove(fs.p, fs.disk, fs.inodes[d], name, Phys(v, d, n), Blocks(v, d, n));
    if !ok { return -ENOENT; }
    BlockAt(v, d, n, l);
    fs.disk := fs.disk[phys := c];
    InPlace(v, fs.Vol(), d, n, l, c, First(DirEntries(v, d, n), name));
    rc := 0;
  }

  /** What an insertion means for lookups: the new name is found, all others as before, and names
      stay unique. */
  lemma AddIsMapUpdate(v: Volume, w: Volume, d: nat, n: nat, m: nat, e: Entry, name: Name)
    requires Sized(v) && Sized(w) && d in v.files && d in w.files && e.ino != 0
    requires Inserted(DirEntries(v, d, n), DirEntries(w, d, m), e) && Find(DirEntries(v, d, n), e.name) == 0
    ensures First(DirEntries(w, d, m), name) == if name == e.name then e else First(DirEntries(v, d, n), name)
    ensures Unique(DirEntries(v, d, n)) ==> Unique(DirEntries(w, d, m))
  {
    BlocksLive(v, d, n);
    FlatLive(Blocks(v, d, n));
    InsertedFind(DirEntries(v, d, n), DirEntries(w, d, m), e, name);
    InsertedUnique(DirEntries(v, d, n), DirEntries(w, d, m), e);
  }

  /** What a removal means for lookups, names being unique: the name is gone, all others stay. */
  lemma RemoveIsMapRemoval(v: Volume, w: Volume, d: nat, n: nat, e: Entry, name: Name)
    requires Sized(v) && Sized(w) && d in v.files && d in w.files && e.ino != 0 && Unique(DirEntries(v, d, n))
    requires Inserted(DirEntries(w, d, n), DirEntries(v, d, n), e)
    ensures Find(DirEntries(w, d, n), e.name) == 0
    ensures name != e.name ==> First(DirEntries(w, d, n), name) == First(DirEntries(v, d, n), name)
    ensures Unique(DirEntries(w, d, n))
  {
    BlocksLive(w, d, n);
    FlatLive(Blocks(w, d, n));
    InsertedUnique(DirEntries(w, d, n), DirEntries(v, d, n), e);
    InsertedFind(DirEntries(w, d, n), DirEntries(v, d, n), e, name);
  }
}
