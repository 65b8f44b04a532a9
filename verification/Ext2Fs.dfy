/** The mounted ext2 volume: the block map and the file operations, over a disk of blocks. */
module Ext2Fs {
  import opened Errno
  import opened Invariants
  import opened Arith
  import opened Bytes
  import opened FileSpec
  import FileRun
  import opened Ext2Alloc
  import opened Ext2Tree
  import opened Ext2Bmap
  import opened Ext2Graft
  import opened Ext2Files
  import opened Ext2Layout
  import opened Ext2Space

  /** `ext2_file_handle_t` together with the position the VFS keeps for it. */
  class Handle {
    var ino: nat
    var inode: Inode
    var fileSize: nat
    var position: nat
  }

  /** `w` is `v` with block `b` entered at data path `q` of file `f`, and nothing else remapped. */
  ghost predicate MapSet(v: Volume, w: Volume, f: nat, q: Path, b: nat) {
    && Wf(v) && Wf(w) && v.p == w.p && v.files.Keys == w.files.Keys && v.used <= w.used && |v.disk| == |w.disk|
    && f in v.files && b < |v.disk|
    && (forall g, r :: g in v.files && ValidPath(v.p, r) && IsData(r) ==>
          At(w, g, r) == if g == f && r == q then b else At(v, g, r))
    && Replaced(v, w, f, q, v.disk[b]) && Wired(v, w, f, q)
    && (forall g :: g in v.files ==> w.files[g].size == v.files[g].size)
  }

  /** The block map in ordinary arithmetic: logical block `lbn` of `f` has become `b`, and no other logical
      block of any file has moved. */
  lemma MapSetPlaces(v: Volume, w: Volume, f: nat, lbn: nat, b: nat, g: nat, l: nat)
    requires 0 < v.p && lbn < MaxLbn(v.p) && g in v.files && l < MaxLbn(v.p)
    requires Whole(MapSet(v, w, f, PathOf(v.p, lbn), b))
    ensures w.p == v.p && g in w.files
    ensures Place(v.p, w.disk, w.files[g].block, l) ==
      if g == f && l == lbn then b else Place(v.p, v.disk, v.files[g].block, l)
  {
    var q := PathOf(v.p, l);
    PathOfValid(v.p, l);
    if PathOf(v.p, lbn) == q { PathOfInjective(v.p, lbn, l); }
    BmapResolves(v.p, v.disk, v.files[g].block, l);
    BmapIs(v.p, v.disk, v.files[g].block, l);
    BmapResolves(v.p, w.disk, w.files[g].block, l);
    BmapIs(v.p, w.disk, w.files[g].block, l);
    assert At(w, g, q) == if g == f && q == PathOf(v.p, lbn) then b else At(v, g, q);
  }

  lemma GraftWires(v: Volume, w: Volume, f: nat, q: Path, bs: seq<nat>, b: nat)
    requires Grafted(v, w, f, q, bs, b) && ValidPath(v.p, q) && 0 < b && forall k :: 0 <= k < |bs| ==> 0 < bs[k]
    ensures Wired(v, w, f, q)
  {
    forall r | ValidPath(v.p, r) ensures Void(w, f, r) <==> Void(v, f, r) && !Leads(r, q) {
      if Leads(r, q) && r != q {
        IsPrefix(q, r, |r.idx|);
      }
    }
  }

  lemma GraftSets(u: Volume, f: nat, q: Path, bs: seq<nat>, b: nat, disk: Disk, cs: seq<Block>)
    requires Wf(u) && Tables(u, f, q, bs)
    requires 0 < b < |u.disk| && b in u.used && Unowned(u, b) && b !in bs
    requires Entered(u.p, TablesOf(u, f, q, bs), q.idx, bs, b, cs) && GraftedDisk(u.disk, disk, bs, cs)
    ensures MapSet(u, u.(disk := disk, files := GraftedFiles(u, f, q, bs, b)), f, q, b)
  {
    Graft(u, f, q, bs, b, disk, cs);
    GraftData(u, u.(disk := disk, files := GraftedFiles(u, f, q, bs, b)), f, q, bs, b);
    GraftWires(u, u.(disk := disk, files := GraftedFiles(u, f, q, bs, b)), f, q, bs, b);
  }

  lemma SetsFrom(v: Volume, used: set<nat>, w: Volume, f: nat, q: Path, b: nat)
    requires Wf(v) && v.used <= used && MapSet(v.(used := used), w, f, q, b)
    ensures MapSet(v, w, f, q, b)
  {
    var u := v.(used := used);
    assert forall g, r :: g in v.files ==> At(u, g, r) == At(v, g, r);
    assert forall g, r :: g in v.files ==> Logical(u, g, r) == Logical(v, g, r);
  }

  /** `ns` are the blocks the tables on the way to `q` are in, 0 for a missing table. */
  ghost predicate Nodes(v: Volume, f: nat, q: Path, ns: seq<nat>) {
    && f in v.files && ValidPath(v.p, q) && IsData(q) && |ns| == |q.idx|
    && forall k :: 0 <= k < |ns| ==> At(v, f, Prefix(q, k)) == ns[k] < |v.disk|
  }

  /** The driver's choice of table blocks: what is there, or distinct blocks that were free. */
  ghost predicate Picked(v: Volume, used: set<nat>, ns: seq<nat>, bs: seq<nat>) {
    && |bs| == |ns|
    && v.used <= used && (forall c :: c in used ==> c < |v.disk|)
    && (forall k :: 0 <= k < |bs| ==> Serves(v, used, ns[k], bs[k]))
    && (forall j, k :: 0 <= j < k < |bs| && ns[j] == 0 && ns[k] == 0 ==> bs[j] != bs[k])
  }

  lemma PickedTables(v: Volume, used: set<nat>, f: nat, q: Path, ns: seq<nat>, bs: seq<nat>)
    requires Wf(v) && Nodes(v, f, q, ns) && Picked(v, used, ns, bs)
    ensures Wf(v.(used := used)) && Tables(v.(used := used), f, q, bs)
  {
    GrowUsed(v, used);
    var u := v.(used := used);
    forall j, k | 0 <= j < k < |bs| ensures bs[j] != bs[k] {
      PrefixValid(v.p, q, j);
      PrefixValid(v.p, q, k);
      assert |Prefix(q, j).idx| != |Prefix(q, k).idx|;
      assert Meet(v, f, Prefix(q, j), f, Prefix(q, k)) <==> At(v, f, Prefix(q, j)) == At(v, f, Prefix(q, k)) != 0;
    }
    forall k | 0 <= k < |bs|
      ensures if At(u, f, Prefix(q, k)) == 0 then Unowned(u, bs[k]) else At(u, f, Prefix(q, k)) == bs[k]
    {
      PrefixValid(v.p, q, k);
      assert At(u, f, Prefix(q, k)) == At(v, f, Prefix(q, k)) && Serves(v, used, ns[k], bs[k]);
    }
  }

  lemma OwnedIsNot(v: Volume, used: set<nat>, f: nat, q: Path, ns: seq<nat>, bs: seq<nat>, b: nat)
    requires Wf(v) && Nodes(v, f, q, ns) && Picked(v, used, ns, bs) && b in v.used && Unowned(v, b)
    ensures b !in bs && Unowned(v.(used := used), b)
  {
    forall k | 0 <= k < |bs| ensures bs[k] != b {
      PrefixValid(v.p, q, k);
      assert Serves(v, used, ns[k], bs[k]) && At(v, f, Prefix(q, k)) == ns[k];
    }
    assert forall g, r :: g in v.files ==> At(v.(used := used), g, r) == At(v, g, r);
  }

  /** The tables as they are before the store: the ones in place, or zeroed ones. */
  function TablesFrom(p: nat, disk: Disk, ns: seq<nat>): (ts: seq<Block>)
    requires forall k :: 0 <= k < |ns| ==> ns[k] < |disk|
    ensures |ts| == |ns|
  {
    seq(|ns|, k requires 0 <= k < |ns| => TableOr0(p, disk, ns[k]))
  }

  /** The outcome of storing the tables: `v` is the volume before, `used` the blocks in use after. */
  lemma TablesStored(v: Volume, used: set<nat>, f: nat, q: Path, ns: seq<nat>, bs: seq<nat>, b: nat, disk: Disk,
    cs: seq<Block>)
    requires Wf(v) && Nodes(v, f, q, ns) && Picked(v, used, ns, bs) && 0 < b && b in v.used && Unowned(v, b)
    requires Entered(v.p, TablesFrom(v.p, v.disk, ns), q.idx, bs, b, cs) && GraftedDisk(v.disk, disk, bs, cs)
    ensures Whole(MapSet(v, v.(used := used, disk := disk, files := GraftedFiles(v, f, q, bs, b)), f, q, b))
  {
    var u, ts := v.(used := used), TablesFrom(v.p, v.disk, ns);
    PickedTables(v, used, f, q, ns, bs);
    OwnedIsNot(v, used, f, q, ns, bs, b);
    assert TablesOf(u, f, q, bs) == ts by {
      forall k | 0 <= k < |bs| ensures TablesOf(u, f, q, bs)[k] == ts[k] {
        assert At(u, f, Prefix(q, k)) == At(v, f, Prefix(q, k)) == ns[k] && Serves(v, used, ns[k], bs[k]);
      }
    }
    GraftSets(u, f, q, bs, b, disk, cs);
    SetsFrom(v, used, u.(disk := disk, files := GraftedFiles(u, f, q, bs, b)), f, q, b);
  }

  function One(n: nat): nat {
    if n == 0 then 1 else 0
  }

  function TableOr0(p: nat, disk: Disk, n: nat): Block
    requires n < |disk|
  {
    if n == 0 then Zeros(4 * p) else disk[n]
  }

  /** `b` serves as table where `n` stood. */
  ghost predicate Serves(v: Volume, used: set<nat>, n: nat, b: nat) {
    0 < b && b in used && if n == 0 then b !in v.used else b == n
  }

  /** A table on the way to `q`, when `n` is what its path resolves to. */
  lemma NodeAt(v: Volume, f: nat, q: Path, k: nat, n: nat)
    requires Wf(v) && |v.disk| > 0 && f in v.files && ValidPath(v.p, q) && k < |q.idx| && At(v, f, Prefix(q, k)) == n
    ensures n == 0 || n in v.used
    ensures n < |v.disk|
    ensures Missing(v, f, q, k + 1) == Missing(v, f, q, k) + One(n)
  {
    PrefixValid(v.p, q, k);
  }

  /** The tables on the single-, double- and triple-indirect paths, as the driver reads them. */
  lemma SingleNodes(v: Volume, f: nat, i: nat, n1: nat)
    requires Wf(v) && |v.disk| > 0 && f in v.files && i < v.p && n1 == v.files[f].block[IND]
    ensures Nodes(v, f, Path(IND, [i]), [n1])
    ensures (n1 == 0 || n1 in v.used) && n1 < |v.disk|
    ensures Missing(v, f, Path(IND, [i]), 1) == One(n1)
  {
    var q := Path(IND, [i]);
    assert Prefix(q, 0) == Path(IND, []);
    NodeAt(v, f, q, 0, n1);
  }

  lemma DoubleNodes(v: Volume, f: nat, i: nat, j: nat, n1: nat, n2: nat)
    requires Wf(v) && |v.disk| > 0 && f in v.files && i < v.p && j < v.p
    requires n1 == v.files[f].block[DIND] && n2 == Ptr(v.disk, n1, i)
    ensures Nodes(v, f, Path(DIND, [i, j]), [n1, n2])
    ensures (n1 == 0 || n1 in v.used) && (n2 == 0 || n2 in v.used) && n1 < |v.disk| && n2 < |v.disk|
    ensures Missing(v, f, Path(DIND, [i, j]), 2) == One(n1) + One(n2)
  {
    var q := Path(DIND, [i, j]);
    assert Prefix(q, 0) == Path(DIND, []) && Prefix(q, 1) == Path(DIND, [i]);
    ResolveOne(v.disk, v.files[f].block, DIND, i);
    NodeAt(v, f, q, 0, n1);
    NodeAt(v, f, q, 1, n2);
  }

  lemma TripleNodes(v: Volume, f: nat, i: nat, j: nat, k: nat, n1: nat, n2: nat, n3: nat)
    requires Wf(v) && |v.disk| > 0 && f in v.files && i < v.p && j < v.p && k < v.p
    requires n1 == v.files[f].block[TIND] && n2 == Ptr(v.disk, n1, i) && n3 == Ptr(v.disk, n2, j)
    ensures Nodes(v, f, Path(TIND, [i, j, k]), [n1, n2, n3])
    ensures (n1 == 0 || n1 in v.used) && (n2 == 0 || n2 in v.used) && (n3 == 0 || n3 in v.used)
    ensures n1 < |v.disk| && n2 < |v.disk| && n3 < |v.disk|
    ensures Missing(v, f, Path(TIND, [i, j, k]), 3) == One(n1) + One(n2) + One(n3)
  {
    var q := Path(TIND, [i, j, k]);
    assert Prefix(q, 0) == Path(TIND, []) && Prefix(q, 1) == Path(TIND, [i]) && Prefix(q, 2) == Path(TIND, [i, j]);
    ResolveOne(v.disk, v.files[f].block, TIND, i);
    ResolveTwo(v.disk, v.files[f].block, TIND, i, j);
    NodeAt(v, f, q, 0, n1);
    NodeAt(v, f, q, 1, n2);
    NodeAt(v, f, q, 2, n3);
  }

  lemma SingleStored(v: Volume, used: set<nat>, f: nat, i: nat, n1: nat, b1: nat, phys: nat, disk: Disk)
    requires Wf(v) && f in v.files && i < v.p && n1 == v.files[f].block[IND] && n1 < |v.disk|
    requires v.used <= used && forall c :: c in used ==> c < |v.disk|
    requires 0 < phys && phys in v.used && Unowned(v, phys) && Serves(v, used, n1, b1)
    requires disk == v.disk[b1 := SetPtr(TableOr0(v.p, v.disk, n1), i, phys)]
    ensures Whole(MapSet(v, v.(used := used, disk := disk,
      files := v.files[f := v.files[f].(block := v.files[f].block[IND := b1])]), f, Path(IND, [i]), phys))
  {
    SingleNodes(v, f, i, n1);
    TablesStored(v, used, f, Path(IND, [i]), [n1], [b1], phys, disk, [SetPtr(TableOr0(v.p, v.disk, n1), i, phys)]);
  }

  /** The disk after a double- or triple-indirect store holds the grafted tables. */
  lemma DoubleDisk(was: Disk, disk: Disk, c1: Block, c2: Block, b1: nat, b2: nat)
    requires b1 < |was| && b2 < |was| && b1 != b2 && disk == was[b2 := c2][b1 := c1]
    ensures GraftedDisk(was, disk, [b1, b2], [c1, c2])
  {
  }

  lemma TripleDisk(was: Disk, disk: Disk, c1: Block, c2: Block, c3: Block, b1: nat, b2: nat, b3: nat)
    requires b1 < |was| && b2 < |was| && b3 < |was| && b1 != b2 && b1 != b3 && b2 != b3
    requires disk == was[b3 := c3][b2 := c2][b1 := c1]
    ensures GraftedDisk(was, disk, [b1, b2, b3], [c1, c2, c3])
  {
  }

  lemma Distinct(v: Volume, used: set<nat>, f: nat, q: Path, ns: seq<nat>, bs: seq<nat>)
    requires Wf(v) && Nodes(v, f, q, ns) && Picked(v, used, ns, bs)
    ensures forall k :: 0 <= k < |bs| ==> bs[k] < |v.disk|
    ensures forall j, k :: 0 <= j < k < |bs| ==> bs[j] != bs[k]
  {
    PickedTables(v, used, f, q, ns, bs);
  }

  lemma DoubleStored(v: Volume, used: set<nat>, f: nat, i: nat, j: nat, n1: nat, n2: nat, b1: nat, b2: nat,
    phys: nat, disk: Disk)
    requires Wf(v) && Nodes(v, f, Path(DIND, [i, j]), [n1, n2]) && Picked(v, used, [n1, n2], [b1, b2])
    requires 0 < phys && phys in v.used && Unowned(v, phys) && i < v.p && j < v.p
    requires n1 < |v.disk| && n2 < |v.disk| && b1 < |v.disk| && b2 < |v.disk|
    requires disk == v.disk[b2 := SetPtr(TableOr0(v.p, v.disk, n2), j, phys)][b1 := SetPtr(TableOr0(v.p, v.disk, n1),
      i, b2)]
    ensures Whole(MapSet(v, v.(used := used, disk := disk,
      files := GraftedFiles(v, f, Path(DIND, [i, j]), [b1, b2], phys)), f, Path(DIND, [i, j]), phys))
  {
    var q: Path, ns: seq<nat>, bs: seq<nat> := Path(DIND, [i, j]), [n1, n2], [b1, b2];
    assert bs[0] != bs[1] by { Distinct(v, used, f, q, ns, bs); }
    var c1, c2 := SetPtr(TableOr0(v.p, v.disk, n1), i, b2), SetPtr(TableOr0(v.p, v.disk, n2), j, phys);
    DoubleDisk(v.disk, disk, c1, c2, b1, b2);
    assert Next(bs, 0, phys) == b2 && Next(bs, 1, phys) == phys;
    TablesStored(v, used, f, q, ns, bs, phys, disk, [c1, c2]);
  }

  lemma ThreeEntered(p: nat, ts: seq<Block>, idx: seq<nat>, bs: seq<nat>, b: nat, cs: seq<Block>)
    requires |ts| == |idx| == |bs| == |cs| == 3 && b < TWO_32
    requires |ts[0]| == |ts[1]| == |ts[2]| == 4 * p && idx[0] < p && idx[1] < p && idx[2] < p
    requires bs[0] < TWO_32 && bs[1] < TWO_32 && bs[2] < TWO_32
    requires cs[0] == SetPtr(ts[0], idx[0], bs[1]) && cs[1] == SetPtr(ts[1], idx[1], bs[2])
    requires cs[2] == SetPtr(ts[2], idx[2], b)
    ensures Entered(p, ts, idx, bs, b, cs)
  {
    forall m | 0 <= m < 3
      ensures |ts[m]| == 4 * p && idx[m] < p && bs[m] < TWO_32 && cs[m] == SetPtr(ts[m], idx[m], Next(bs, m, b))
    {
      assert m == 0 || m == 1 || m == 2;
    }
  }

  lemma TripleEntered(p: nat, disk: Disk, n1: nat, n2: nat, n3: nat, i: nat, j: nat, k: nat, b1: nat, b2: nat,
    b3: nat, b: nat, c1: Block, c2: Block, c3: Block)
    requires |disk| <= TWO_32 && forall m :: 0 <= m < |disk| ==> |disk[m]| == 4 * p
    requires n1 < |disk| && n2 < |disk| && n3 < |disk| && i < p && j < p && k < p
    requires b1 < |disk| && b2 < |disk| && b3 < |disk| && b < TWO_32
    requires c1 == SetPtr(TableOr0(p, disk, n1), i, b2) && c2 == SetPtr(TableOr0(p, disk, n2), j, b3)
    requires c3 == SetPtr(TableOr0(p, disk, n3), k, b)
    ensures Entered(p, TablesFrom(p, disk, [n1, n2, n3]), [i, j, k], [b1, b2, b3], b, [c1, c2, c3])
  {
    ThreeEntered(p, TablesFrom(p, disk, [n1, n2, n3]), [i, j, k], [b1, b2, b3], b, [c1, c2, c3]);
  }

  lemma ThreePicked(v: Volume, used: set<nat>, n1: nat, n2: nat, n3: nat, b1: nat, b2: nat, b3: nat)
    requires v.used <= used && forall c :: c in used ==> c < |v.disk|
    requires Serves(v, used, n1, b1) && Serves(v, used, n2, b2) && Serves(v, used, n3, b3)
    requires n1 == 0 ==> b1 != b2 && b1 != b3
    requires n2 == 0 ==> b2 != b3
    ensures Picked(v, used, [n1, n2, n3], [b1, b2, b3])
  {
  }

  lemma TripleStored(v: Volume, used: set<nat>, f: nat, i: nat, j: nat, k: nat,
                     n1: nat, n2: nat, n3: nat, b1: nat, b2: nat, b3: nat, phys: nat, disk: Disk)
    requires Wf(v) && Nodes(v, f, Path(TIND, [i, j, k]), [n1, n2, n3]) && Picked(v, used, [n1, n2, n3], [b1, b2, b3])
    requires 0 < phys && phys in v.used && Unowned(v, phys) && i < v.p && j < v.p && k < v.p
    requires n1 < |v.disk| && n2 < |v.disk| && n3 < |v.disk| && b1 < |v.disk| && b2 < |v.disk| && b3 < |v.disk|
    requires disk == v.disk[b3 := SetPtr(TableOr0(v.p, v.disk, n3), k, phys)]
      [b2 := SetPtr(TableOr0(v.p, v.disk, n2), j, b3)][b1 := SetPtr(TableOr0(v.p, v.disk, n1), i, b2)]
    ensures Whole(MapSet(v, v.(used := used, disk := disk,
      files := GraftedFiles(v, f, Path(TIND, [i, j, k]), [b1, b2, b3], phys)), f, Path(TIND, [i, j, k]), phys))
  {
    var q: Path, ns: seq<nat>, bs: seq<nat> := Path(TIND, [i, j, k]), [n1, n2, n3], [b1, b2, b3];
    assert bs[0] != bs[1] && bs[0] != bs[2] && bs[1] != bs[2] by { Distinct(v, used, f, q, ns, bs); }
    var c1, c2 := SetPtr(TableOr0(v.p, v.disk, n1), i, b2), SetPtr(TableOr0(v.p, v.disk, n2), j, b3);
    var c3 := SetPtr(TableOr0(v.p, v.disk, n3), k, phys);
    TripleDisk(v.disk, disk, c1, c2, c3, b1, b2, b3);
    TripleEntered(v.p, v.disk, n1, n2, n3, i, j, k, b1, b2, b3, phys, c1, c2, c3);
    TablesStored(v, used, f, q, ns, bs, phys, disk, [c1, c2, c3]);
  }

  /** `need` blocks were taken from the free ones, exactly if there were as many; otherwise all were. */
  ghost predicate Drew(free: nat, left: nat, need: nat, rc: int) {
    (rc == 0 <==> need <= free) && left == if rc == 0 then free - need else 0
  }

  /** Block `b` was taken for a table where `n` stood: it is `n`, or it left the free set. */
  ghost predicate Took(before: set<nat>, after: set<nat>, n: nat, b: nat) {
    0 < b && if n == 0 then b in before && b !in after else b == n
  }

  lemma DoubleCost(v: Volume, f: nat, i: nat, j: nat, n1: nat, n2: nat, q: Path)
    requires Wf(v) && |v.disk| > 0 && f in v.files && i < v.p && j < v.p && q == Path(DIND, [i, j])
    requires n1 == v.files[f].block[DIND] && n2 == Ptr(v.disk, n1, i)
    ensures n1 < |v.disk| && n2 < |v.disk| && Missing(v, f, q, |q.idx|) == One(n1) + One(n2)
  {
    DoubleNodes(v, f, i, j, n1, n2);
  }

  lemma TripleCost(v: Volume, f: nat, i: nat, j: nat, k: nat, n1: nat, n2: nat, n3: nat, q: Path)
    requires Wf(v) && |v.disk| > 0 && f in v.files && i < v.p && j < v.p && k < v.p && q == Path(TIND, [i, j, k])
    requires n1 == v.files[f].block[TIND] && n2 == Ptr(v.disk, n1, i) && n3 == Ptr(v.disk, n2, j)
    ensures n1 < |v.disk| && n2 < |v.disk| && n3 < |v.disk| && Missing(v, f, q, |q.idx|) == One(n1) + One(n2) + One(n3)
  {
    TripleNodes(v, f, i, j, k, n1, n2, n3);
  }

  /** Two tables are stored, the lower one first: `b2` holds `phys` at `j`, `b1` holds `b2` at `i`. */
  ghost predicate Woven2(p: nat, was: Disk, disk: Disk, free: set<nat>, left: set<nat>, n1: nat, i: nat, j: nat,
    phys: nat, b1: nat, b2: nat)
    requires i < p && j < p && phys < TWO_32 && |was| <= TWO_32 && forall m :: 0 <= m < |was| ==> |was[m]| == 4 * p
  {
    var n2 := Ptr(was, n1, i);
    && n1 < |was| && n2 < |was| && b1 < |was| && b2 < |was| && left <= free
    && Took(free, left, n1, b1) && Took(free, left, n2, b2) && (n1 == 0 ==> b1 != b2)
    && disk == was[b2 := SetPtr(TableOr0(p, was, n2), j, phys)][b1 := SetPtr(TableOr0(p, was, n1), i, b2)]
  }

  /** The same with three tables. */
  ghost predicate Woven3(p: nat, was: Disk, disk: Disk, free: set<nat>, left: set<nat>, n1: nat, i: nat, j: nat,
    k: nat, phys: nat, b1: nat, b2: nat, b3: nat)
    requires i < p && j < p && k < p && phys < TWO_32 && |was| <= TWO_32
    requires forall m :: 0 <= m < |was| ==> |was[m]| == 4 * p
  {
    var n2 := Ptr(was, n1, i);
    var n3 := Ptr(was, n2, j);
    && n1 < |was| && n2 < |was| && n3 < |was| && b1 < |was| && b2 < |was| && b3 < |was| && left <= free
    && Took(free, left, n1, b1) && Took(free, left, n2, b2) && Took(free, left, n3, b3)
    && (n1 == 0 ==> b1 != b2 && b1 != b3) && (n2 == 0 ==> b2 != b3)
    && disk == was[b3 := SetPtr(TableOr0(p, was, n3), k, phys)][b2 := SetPtr(TableOr0(p, was, n2), j, b3)]
      [b1 := SetPtr(TableOr0(p, was, n1), i, b2)]
  }

  /** The blocks of a disk of `n` blocks that are not free. */
  ghost function Occupied(n: nat, free: set<nat>): set<nat> {
    set b: nat | b < n && b !in free
  }

  lemma TookServes(v: Volume, free: set<nat>, left: set<nat>, n: nat, b: nat)
    requires v.used == Occupied(|v.disk|, free) && Took(free, left, n, b) && left <= free && b < |v.disk|
    requires n != 0 ==> n in v.used
    ensures Serves(v, Occupied(|v.disk|, left), n, b)
  {
  }

  lemma Woven2Sets(v: Volume, w: Volume, f: nat, i: nat, j: nat, q: Path, phys: nat, b1: nat, b2: nat, free: set<nat>,
    left: set<nat>)
    requires Wf(v) && |v.disk| > 0 && f in v.files && i < v.p && j < v.p && v.used == Occupied(|v.disk|, free)
    requires 0 < phys < TWO_32 && phys in v.used && Unowned(v, phys) && q == Path(DIND, [i, j])
    requires Woven2(v.p, v.disk, w.disk, free, left, v.files[f].block[DIND], i, j, phys, b1, b2)
    requires w == v.(used := Occupied(|v.disk|, left), disk := w.disk,
      files := v.files[f := v.files[f].(block := v.files[f].block[DIND := b1])])
    ensures Whole(MapSet(v, w, f, q, phys))
  {
    var n1, n2 := v.files[f].block[DIND], Ptr(v.disk, v.files[f].block[DIND], i);
    DoubleNodes(v, f, i, j, n1, n2);
    TookServes(v, free, left, n1, b1);
    TookServes(v, free, left, n2, b2);
    assert Picked(v, w.used, [n1, n2], [b1, b2]);
    DoubleStored(v, w.used, f, i, j, n1, n2, b1, b2, phys, w.disk);
  }

  lemma Woven3Sets(v: Volume, w: Volume, f: nat, i: nat, j: nat, k: nat, q: Path, phys: nat, b1: nat, b2: nat, b3: nat,
    free: set<nat>, left: set<nat>)
    requires Wf(v) && |v.disk| > 0 && f in v.files && i < v.p && j < v.p && k < v.p
    requires v.used == Occupied(|v.disk|, free) && 0 < phys < TWO_32 && phys in v.used && Unowned(v, phys)
    requires q == Path(TIND, [i, j, k])
    requires Woven3(v.p, v.disk, w.disk, free, left, v.files[f].block[TIND], i, j, k, phys, b1, b2, b3)
    requires w == v.(used := Occupied(|v.disk|, left), disk := w.disk,
      files := v.files[f := v.files[f].(block := v.files[f].block[TIND := b1])])
    ensures Whole(MapSet(v, w, f, q, phys))
  {
    var n1 := v.files[f].block[TIND];
    var n2 := Ptr(v.disk, n1, i);
    var n3 := Ptr(v.disk, n2, j);
    TripleNodes(v, f, i, j, k, n1, n2, n3);
    TookServes(v, free, left, n1, b1);
    TookServes(v, free, left, n2, b2);
    TookServes(v, free, left, n3, b3);
    ThreePicked(v, w.used, n1, n2, n3, b1, b2, b3);
    TripleStored(v, w.used, f, i, j, k, n1, n2, n3, b1, b2, b3, phys, w.disk);
  }

  /** A hole that has just been given block `b`: it used to read as zeros, it now reads as `b`. */
  lemma FreshChunk(v: Volume, u: Volume, w: Volume, f: nat, q: Path, b: nat)
    requires Wf(v) && u == v.(used := u.used) && MapSet(u, w, f, q, b)
    requires ValidPath(v.p, q) && IsData(q) && At(v, f, q) == 0 && 0 < b
    ensures Logical(v, f, q) == Zeros(4 * v.p) && At(w, f, q) == b
    ensures Replaced(v, w, f, q, Logical(w, f, q))
  {
    assert forall g, r :: g in v.files ==> At(u, g, r) == At(v, g, r);
    assert forall g, r :: g in v.files ==> Logical(u, g, r) == Logical(v, g, r);
  }

  /** `q` leads to block `b` now, no byte has changed, and `blk` is the block, unless it is not needed. */
  ghost predicate Provided(v: Volume, w: Volume, f: nat, q: Path, b: nat, whole: bool, blk: Block) {
    && Wf(v) && Wf(w) && v.p == w.p && v.files.Keys == w.files.Keys && f in v.files && ValidPath(v.p, q) && IsData(q)
    && At(w, f, q) == b != 0 && Replaced(v, w, f, q, Logical(w, f, q)) && (whole || blk == Logical(v, f, q))
  }

  lemma ReplacedNone(v: Volume, f: nat, q: Path)
    requires Wf(v) && f in v.files && ValidPath(v.p, q) && IsData(q)
    ensures Replaced(v, v, f, q, Logical(v, f, q))
  {
  }

  lemma SameBytes(v: Volume, w: Volume, u: Volume, f: nat)
    requires Sized(v) && Wf(w) && u == w.(used := u.used) && v.files.Keys == w.files.Keys && OthersKept(v, w, f)
    ensures OthersKept(v, u, f)
  {
    assert forall g, r :: g in w.files ==> At(u, g, r) == At(w, g, r);
    assert forall g, r :: g in w.files ==> Logical(u, g, r) == Logical(w, g, r);
    forall g, x | g in v.files && g != f && 0 <= x < TWO_32 ensures ByteAt(u, g, x) == ByteAt(v, g, x) {
      assert ByteAt(u, g, x) == ByteAt(w, g, x);
    }
  }

  /** Marking blocks as used changes no byte. */
  lemma SameImage(w: Volume, u: Volume, f: nat)
    requires Wf(w) && u == w.(used := u.used) && f in w.files
    ensures Image(u, f) == Image(w, f)
  {
    assert forall r :: At(u, f, r) == At(w, f, r);
    assert forall r :: Logical(u, f, r) == Logical(w, f, r);
    var a, b := Image(u, f), Image(w, f);
    forall x | 0 <= x < TWO_32 ensures a[x] == b[x] {
      assert ByteAt(u, f, x) == ByteAt(w, f, x);
    }
  }

  lemma ImageWrote(w: Volume, u: Volume, f: nat, pos: nat, data: seq<Byte>)
    requires Sized(w) && Sized(u) && w.files.Keys == u.files.Keys && f in w.files
    requires pos + |data| <= TWO_32 && Wrote(w, u, f, pos, data)
    ensures Image(u, f) == WriteSpec(Image(w, f), pos, data)
  {
    var a, b := Image(u, f), WriteSpec(Image(w, f), pos, data);
    forall x | 0 <= x < TWO_32 ensures a[x] == b[x] {
      assert ByteAt(u, f, x) == if f == f && pos <= x < pos + |data| then data[x - pos] else ByteAt(w, f, x);
    }
  }

  lemma KeepOthers(v: Volume, w: Volume, u: Volume, f: nat, pos: nat, data: seq<Byte>)
    requires Sized(v) && Sized(w) && Sized(u) && v.files.Keys == w.files.Keys == u.files.Keys
    requires OthersKept(v, w, f) && Wrote(w, u, f, pos, data)
    ensures OthersKept(v, u, f)
  {
    forall g, x | g in v.files && g != f && 0 <= x < TWO_32 ensures ByteAt(u, g, x) == ByteAt(v, g, x) {
      assert ByteAt(u, g, x) == ByteAt(w, g, x);
    }
  }

  /** A write on its way: `written` bytes are stored, the position is `pos`. */
  ghost predicate Progress(v: Volume, w: Volume, f: nat, from: nat, buf: seq<Byte>, written: nat, pos: nat) {
    && Sized(v) && Sized(w) && v.files.Keys == w.files.Keys && f in v.files && OthersKept(v, w, f)
    && written <= |buf| && from < TWO_32 && pos == Low32(from + written)
    && Image(w, f) == Ring(Image(v, f), from, buf[..written])
  }

  lemma Begun(v: Volume, f: nat, from: nat, buf: seq<Byte>)
    requires Sized(v) && f in v.files && from < TWO_32
    ensures Whole(Progress(v, v, f, from, buf, 0, from))
  {
    var s, none := Image(v, f), buf[..0];
    assert Ring(s, from, none) == WriteSpec(s, from, none) == s;
  }

  lemma Stopped(v: Volume, w: Volume, u: Volume, f: nat, from: nat, buf: seq<Byte>, written: nat, pos: nat)
    requires Whole(Progress(v, w, f, from, buf, written, pos)) && Wf(w) && u == w.(used := u.used)
    ensures Whole(Progress(v, u, f, from, buf, written, pos))
  {
    SameBytes(v, w, u, f);
    SameImage(w, u, f);
  }

  lemma Proceeded(v: Volume, w: Volume, u: Volume, f: nat, from: nat, buf: seq<Byte>, written: nat, pos: nat, n: nat,
    more: nat, next: nat)
    requires Whole(Progress(v, w, f, from, buf, written, pos)) && Sized(u) && u.files.Keys == w.files.Keys
    requires written + n <= |buf| && pos + n <= TWO_32 && Wrote(w, u, f, pos, buf[written..written + n])
    requires more == written + n && next == Low32(pos + n)
    ensures Whole(Progress(v, u, f, from, buf, more, next))
  {
    KeepOthers(v, w, u, f, pos, buf[written..written + n]);
    ImageWrote(w, u, f, pos, buf[written..written + n]);
    RingOn(Image(v, f), Image(w, f), Image(u, f), from, buf, written, n, pos);
  }

  lemma RingOn(s: seq<Byte>, t: seq<Byte>, r: seq<Byte>, from: nat, buf: seq<Byte>, written: nat, n: nat, pos: nat)
    requires from < TWO_32 && pos == Low32(from + written) && pos + n <= TWO_32 && written + n <= |buf|
    requires t == Ring(s, from, buf[..written]) && r == WriteSpec(t, pos, buf[written..written + n])
    ensures r == Ring(s, from, buf[..written + n]) && Low32(pos + n) == Low32(from + (written + n))
  {
    var done, chunk := buf[..written], buf[written..written + n];
    Low32Plus(from + written, n);
    RingMore(s, from, done, chunk, pos);
    assert done + chunk == buf[..written + n];
  }

  ghost predicate OthersSame(v: Volume, u: Volume, f: nat)
    requires Sized(v) && Sized(u) && v.files.Keys == u.files.Keys
  {
    forall g :: g in u.files && g != f ==> Contents(u, g) == Contents(v, g) && (TailZero(u, g) <==> TailZero(v, g))
  }

  /** The other files, when their bytes and sizes are kept. */
  lemma Unchanged(v: Volume, w: Volume, u: Volume, f: nat)
    requires Sized(v) && Sized(w) && Sized(u) && v.files.Keys == w.files.Keys == u.files.Keys && OthersKept(v, w, f)
    requires forall g, x: nat :: g in w.files ==> ByteAt(u, g, x) == ByteAt(w, g, x)
    requires forall g :: g in v.files && g != f ==> u.files[g].size == v.files[g].size < TWO_32
    ensures OthersSame(v, u, f)
  {
    forall g | g in u.files && g != f ensures Contents(u, g) == Contents(v, g) && (TailZero(u, g) <==> TailZero(v, g)) {
      forall x | 0 <= x < TWO_32 ensures ByteAt(u, g, x) == ByteAt(v, g, x) {
        assert ByteAt(w, g, x) == ByteAt(v, g, x);
      }
      SameContents(v, u, g);
    }
  }

  /** Between the end of the file and `at` nothing but zeros is stored. */
  ghost predicate GapZero(v: Volume, f: nat, at: nat)
    requires Sized(v) && f in v.files
  {
    forall x :: v.files[f].size <= x < at && x < TWO_32 ==> ByteAt(v, f, x) == 0
  }

  /** The contents of `f` after a completed write: those of a byte array exactly when the write ends
      below 2^32 and nothing was left behind in the gap. */
  ghost predicate WriteDone(v: Volume, u: Volume, f: nat, start: nat, buf: seq<Byte>)
    requires Sized(v) && Sized(u) && f in v.files && f in u.files
  {
    && (Contents(u, f) == WriteSpec(Contents(v, f), start, buf) <==> start + |buf| < TWO_32 && GapZero(v, f, start))
    && (TailZero(v, f) && start + |buf| < TWO_32 ==> TailZero(u, f))
  }

  /** `n` of the bytes of `buf` reached the file at `at`; the size follows when all of them did. */
  ghost predicate Put(v: Volume, u: Volume, f: nat, at: nat, buf: seq<Byte>, n: nat)
    requires Sized(v) && Sized(u) && v.files.Keys == u.files.Keys && f in v.files
  {
    && n <= |buf| && at < TWO_32 && OthersKept(v, u, f) && Image(u, f) == Ring(Image(v, f), at, buf[..n])
    && var end := Low32(at + |buf|);
    u.files[f].size == if n == |buf| > 0 && v.files[f].size < end then end else v.files[f].size
  }

  /** A file of the volume, apart from the disk. */
  ghost function Apart(v: Volume, f: nat): FileRun.File
    requires Sized(v) && f in v.files
  {
    FileRun.File(Image(v, f), v.files[f].size)
  }

  lemma ApartText(v: Volume, f: nat)
    requires Sized(v) && f in v.files && v.files[f].size < TWO_32
    ensures FileRun.Text(Apart(v, f)) == Contents(v, f)
    ensures FileRun.Clean(Apart(v, f)) <==> TailZero(v, f)
  {
    var x := Apart(v, f);
    forall i: nat | i < TWO_32 ensures FileRun.ByteOf(x, i) == ByteAt(v, f, i) {
    }
    if FileRun.Clean(x) {
      forall i | v.files[f].size <= i < TWO_32 ensures ByteAt(v, f, i) == 0 {
        assert FileRun.ByteOf(x, i) == 0;
      }
    }
  }

  lemma ApartGap(v: Volume, f: nat, at: nat)
    requires Sized(v) && f in v.files && at < TWO_32
    ensures FileRun.GapZero(Apart(v, f), at) <==> GapZero(v, f, at)
  {
    var x := Apart(v, f);
    forall i: nat | i < TWO_32 ensures FileRun.ByteOf(x, i) == ByteAt(v, f, i) {
    }
    if FileRun.GapZero(x, at) {
      forall i | v.files[f].size <= i < at ensures ByteAt(v, f, i) == 0 {
        assert FileRun.ByteOf(x, i) == 0;
      }
    }
  }

  lemma RingFull(s: seq<Byte>, t: seq<Byte>, size: nat, after: nat, f: nat, start: nat, at: nat, end: nat,
    buf: seq<Byte>)
    requires at == Low32(start) && end == Low32(at + |buf|) && size < TWO_32 && buf != []
    requires t == Ring(s, at, buf[..|buf|]) && after == if size < end then end else size
    ensures Whole(FileRun.Full(FileRun.File(s, size), FileRun.File(t, after), start, buf))
  {
    Low32Plus(start, |buf|);
    FileRun.FullWrite(FileRun.File(s, size), FileRun.Write(f, start, buf, |buf|, true));
  }

  lemma FullDone(v: Volume, u: Volume, f: nat, start: nat, buf: seq<Byte>)
    requires Sized(v) && Sized(u) && f in v.files && f in u.files && v.files[f].size < TWO_32 &&
      u.files[f].size < TWO_32
    requires Whole(FileRun.Full(Apart(v, f), Apart(u, f), start, buf))
    ensures Whole(WriteDone(v, u, f, start, buf))
  {
    ApartText(v, f);
    ApartText(u, f);
    if start < TWO_32 { ApartGap(v, f, start); }
  }

  lemma PutDone(v: Volume, u: Volume, f: nat, start: nat, at: nat, end: nat, buf: seq<Byte>)
    requires Sized(v) && Sized(u) && v.files.Keys == u.files.Keys && f in v.files && v.files[f].size < TWO_32 &&
      buf != []
    requires at == Low32(start) && end == Low32(at + |buf|) && Whole(Put(v, u, f, at, buf, |buf|))
    ensures Whole(WriteDone(v, u, f, start, buf))
  {
    RingFull(Image(v, f), Image(u, f), v.files[f].size, u.files[f].size, f, start, at, end, buf);
    FullDone(v, u, f, start, buf);
  }

  /** What a write leaves of which `n` bytes reached the file: the other files as they were, and the
      file as a byte array if the call was completed and the gap was clean. */
  ghost predicate Outcome(v: Volume, u: Volume, f: nat, start: nat, buf: seq<Byte>, n: nat) {
    && Sized(v) && Sized(u) && v.files.Keys == u.files.Keys && f in v.files
    && OthersSame(v, u, f) && Put(v, u, f, Low32(start), buf, n)
    && (n == |buf| > 0 ==> WriteDone(v, u, f, start, buf))
  }

  /** Where the bytes of a write are on the disk. */
  lemma OutcomeLaid(v: Volume, u: Volume, f: nat, start: nat, buf: seq<Byte>, n: nat)
    requires Whole(Outcome(v, u, f, start, buf, n)) && 256 <= v.p == u.p
    ensures f in v.files && u.files.Keys == v.files.Keys && Whole(Elsewhere(v.p, v.disk, v.files, u.disk, u.files, f))
    ensures Whole(Laid(v.p, v.disk, v.files[f].block, u.disk, u.files[f].block, Low32(start), buf, n))
  {
    LaidBy(v, u, f, Low32(start), buf, n);
    ElsewhereBy(v, u, f);
  }

  lemma WroteLaid(v: Volume, u: Volume, f: nat, pos: nat, data: seq<Byte>)
    requires Sized(v) && Sized(u) && 256 <= v.p == u.p && v.files.Keys == u.files.Keys && f in v.files
    requires EvenBlocks(v.p) && pos < TWO_32 && OffsetOf(v.p, pos) + |data| <= 4 * v.p && Wrote(v, u, f, pos, data)
    ensures Whole(Elsewhere(v.p, v.disk, v.files, u.disk, u.files, f))
    ensures Whole(Laid(v.p, v.disk, v.files[f].block, u.disk, u.files[f].block, pos, data, |data|))
  {
    InOneBlock(v.p, pos, |data|);
    LaidChunk(v, u, f, pos, data);
    assert OthersKept(v, u, f);
    ElsewhereBy(v, u, f);
  }

  lemma Reached(v: Volume, w: Volume, f: nat, from: nat, buf: seq<Byte>, n: nat, pos: nat)
    requires Whole(Progress(v, w, f, from, buf, n, pos))
    ensures pos == Low32(from + n)
  {
  }

  lemma Concluded(v: Volume, w: Volume, u: Volume, f: nat, start: nat, buf: seq<Byte>, n: nat, pos: nat)
    requires Wf(v) && Wf(w) && buf != [] && n <= |buf| && Whole(Progress(v, w, f, Low32(start), buf, n, pos))
    requires SameSizes(v, w) && f in w.files
    requires u == if n < |buf| then w else Resized(w, f, if w.files[f].size < pos then pos else w.files[f].size)
    ensures Whole(Outcome(v, u, f, start, buf, n))
  {
    if n < |buf| {
      Failed(v, w, f, start, buf, n, pos);
    } else {
      Committed(v, w, u, f, start, buf, pos);
    }
  }

  /** What a completed write leaves behind, from what its loop did; `u` is `w` with the new size. */
  lemma Committed(v: Volume, w: Volume, u: Volume, f: nat, start: nat, buf: seq<Byte>, pos: nat)
    requires Wf(v) && Wf(w) && buf != [] && Whole(Progress(v, w, f, Low32(start), buf, |buf|, pos))
    requires SameSizes(v, w) && f in w.files && u == Resized(w, f, if w.files[f].size < pos then pos
      else w.files[f].size)
    ensures Whole(Outcome(v, u, f, start, buf, |buf|))
  {
    CommittedPut(v, w, u, f, Low32(start), buf, pos);
    PutDone(v, u, f, start, Low32(start), Low32(Low32(start) + |buf|), buf);
    MakeOutcome(v, u, f, start, buf, |buf|);
  }

  lemma MakeOutcome(v: Volume, u: Volume, f: nat, start: nat, buf: seq<Byte>, n: nat)
    requires Sized(v) && Sized(u) && v.files.Keys == u.files.Keys && f in v.files
    requires Whole(OthersSame(v, u, f)) && Whole(Put(v, u, f, Low32(start), buf, n))
    requires n == |buf| > 0 ==> Whole(WriteDone(v, u, f, start, buf))
    ensures Whole(Outcome(v, u, f, start, buf, n))
  {
  }

  lemma CommittedPut(v: Volume, w: Volume, u: Volume, f: nat, at: nat, buf: seq<Byte>, pos: nat)
    requires Wf(v) && Wf(w) && buf != [] && Whole(Progress(v, w, f, at, buf, |buf|, pos))
    requires SameSizes(v, w) && f in w.files && u == Resized(w, f, if w.files[f].size < pos then pos
      else w.files[f].size)
    ensures Sized(u) && v.files.Keys == u.files.Keys && Whole(OthersSame(v, u, f)) &&
      Whole(Put(v, u, f, at, buf, |buf|))
  {
    ResizedSame(w, f, if w.files[f].size < pos then pos else w.files[f].size);
    Unchanged(v, w, u, f);
    SizedPut(v, w, u, f, at, buf, pos);
  }

  lemma SizedPut(v: Volume, w: Volume, u: Volume, f: nat, at: nat, buf: seq<Byte>, pos: nat)
    requires Sized(v) && Sized(w) && Sized(u) && u.files.Keys == w.files.Keys && buf != [] && f in w.files
    requires Whole(Progress(v, w, f, at, buf, |buf|, pos)) && SameSizes(v, w)
    requires u.files[f].size == if w.files[f].size < pos then pos else w.files[f].size
    requires forall g, x: nat :: g in w.files ==> ByteAt(u, g, x) == ByteAt(w, g, x)
    ensures Whole(Put(v, u, f, at, buf, |buf|))
  {
    ImageSame(w, u, f);
    assert OthersKept(v, u, f);
  }

  lemma ImageSame(w: Volume, u: Volume, f: nat)
    requires Sized(w) && Sized(u) && f in w.files && f in u.files && forall x: nat :: ByteAt(u, f, x) == ByteAt(w, f, x)
    ensures Image(u, f) == Image(w, f)
  {
  }

  lemma Untouched(v: Volume, f: nat, start: nat, buf: seq<Byte>)
    requires Sized(v) && f in v.files
    ensures Whole(Outcome(v, v, f, start, buf, 0))
  {
    Begun(v, f, Low32(start), buf);
  }

  ghost predicate SameSizes(v: Volume, w: Volume) {
    v.files.Keys == w.files.Keys && forall g :: g in v.files ==> w.files[g].size == v.files[g].size < TWO_32
  }

  lemma Failed(v: Volume, w: Volume, f: nat, start: nat, buf: seq<Byte>, n: nat, pos: nat)
    requires Wf(v) && Wf(w) && n < |buf| && Whole(Progress(v, w, f, Low32(start), buf, n, pos)) && SameSizes(v, w)
    ensures Whole(Outcome(v, w, f, start, buf, n))
  {
    Unchanged(v, w, w, f);
    MakeOutcome(v, w, f, start, buf, n);
  }

  /** The slice of the block behind a position is the slice of the contents. */
  lemma ChunkIs(v: Volume, f: nat, pos: nat, n: nat, q: Path)
    requires Wf(v) && 256 <= v.p && f in v.files && 0 < n && pos + n <= v.files[f].size < TWO_32
    requires OffsetOf(v.p, pos) + n <= 4 * v.p && q == PathOf(v.p, BlockOf(v.p, pos))
    ensures Logical(v, f, q)[OffsetOf(v.p, pos)..OffsetOf(v.p, pos) + n] == Contents(v, f)[pos..pos + n]
  {
    ChunkRead(v, f, pos, n, q);
    var off, t, s := OffsetOf(v.p, pos), Logical(v, f, q), Contents(v, f);
    var a, b := s[pos..pos + n], t[off..off + n];
    forall k | 0 <= k < n ensures a[k] == b[k] {
      assert ByteAt(v, f, pos + k) == t[off + (pos + k - pos)];
    }
  }

  class Ext2 {
    /** 32-bit pointers per block; a block has `4 * p` bytes. */
    const p: nat
    const blocks: GroupAllocator
    const readOnly: bool
    var disk: Disk
    /** The inode table. */
    var inodes: map<nat, Inode>
    /** The current inode of every file: the open handle's copy, or the one in the table. */
    ghost var files: map<nat, Inode>

    ghost function Vol(): Volume
      reads this, blocks
    {
      Volume(p, disk, files, Occupied(|disk|, blocks.free))
    }

    /** Bits past the end of the device are set, so only blocks of the device are free. */
    ghost predicate Housed()
      reads this, blocks
    {
      && 256 <= p && EvenBlocks(p)
      && blocks.Valid() && (forall b :: b in blocks.free ==> b < |disk|)
      && forall f :: f in files ==> files[f].size < TWO_32
    }

    ghost predicate Valid()
      reads this, blocks
    {
      Housed() && Wf(Vol())
    }

    constructor (p: nat, blocks: GroupAllocator, disk: Disk, inodes: map<nat, Inode>, readOnly: bool)
      requires 256 <= p && EvenBlocks(p) && blocks.Valid() && forall b :: b in blocks.free ==> b < |disk|
      requires Wf(Volume(p, disk, inodes, Occupied(|disk|, blocks.free)))
      requires forall f :: f in inodes ==> inodes[f].size < TWO_32
      ensures Valid() && this.disk == disk && this.inodes == this.files == inodes && this.blocks == blocks &&
        this.p == p
    {
      this.p, this.blocks, this.disk, this.inodes, this.files, this.readOnly := p, blocks, disk, inodes, inodes,
        readOnly;
    }

    /** A table to store into: the block `node` as it is, or a newly allocated one with all
        entries zero. `b == 0` means there was no free block. */
    method LoadTable(node: nat) returns (b: nat, t: Block)
      requires Whole(Valid()) && node < |disk|
      modifies blocks
      ensures Valid() && Vol() == old(Vol()).(used := Vol().used)
      ensures node != 0 ==>
        b == node && t == disk[node] && blocks.free == old(blocks.free) && blocks.totalFree == old(blocks.totalFree)
      ensures node == 0 ==> |t| == 4 * p && (b == 0 <==> old(blocks.totalFree) == 0)
      ensures node == 0 && b == 0 ==> blocks.free == old(blocks.free) && blocks.totalFree == 0
      ensures node == 0 && b != 0 ==>
        t == Zeros(4 * p) && b in old(blocks.free) && blocks.free == old(blocks.free) - {b}
      ensures node == 0 && b != 0 ==> blocks.totalFree == old(blocks.totalFree) - 1
    {
      if node == 0 {
        ghost var v := Vol();
        b := blocks.Alloc();
        t := Zeros(4 * p);
        GrowUsed(v, Vol().used);
      } else {
        b, t := node, disk[node];
      }
    }

    /** `ext2_set_indirect`: enter `phys` in the table at `node`, making the table if needed. */
    method SetIndirect(node: nat, index: nat, phys: nat) returns (rc: int, b: nat)
      requires Whole(Valid()) && node < |disk| && index < p && phys < TWO_32
      modifies this`disk, blocks
      ensures blocks.Valid() && blocks.free <= old(blocks.free)
      ensures rc == 0 || rc == -ENOSPC
      ensures rc != 0 <==> node == 0 && old(blocks.totalFree) == 0
      ensures rc != 0 ==> disk == old(disk) && blocks.free == old(blocks.free) && blocks.totalFree == 0
      ensures rc == 0 && node != 0 ==>
        b == node && blocks.free == old(blocks.free) && blocks.totalFree == old(blocks.totalFree)
      ensures rc == 0 && node == 0 ==> b in old(blocks.free) && blocks.free == old(blocks.free) - {b}
      ensures rc == 0 && node == 0 ==> blocks.totalFree == old(blocks.totalFree) - 1
      ensures rc == 0 ==> 0 < b < |old(disk)|
      ensures rc == 0 ==> disk == old(disk)[b := SetPtr(if node == 0 then Zeros(4 * p)
        else old(disk)[node], index, phys)]
    {
      var t;
      b, t := LoadTable(node);
      if b == 0 { return -ENOSPC, 0; }
      disk := disk[b := SetPtr(t, index, phys)];
      rc := 0;
    }

    method SetSingle(ghost f: nat, inode: Inode, i: nat, phys: nat) returns (rc: int, inode': Inode)
      requires Whole(Valid()) && f in files && files[f] == inode && i < p
      requires 0 < phys < |disk| && phys !in blocks.free && Unowned(Vol(), phys)
      modifies this`disk, this`files, blocks
      ensures Whole(Valid())
      ensures rc == 0 || rc == -ENOSPC
      ensures Whole(Drew(old(blocks.totalFree), blocks.totalFree, Missing(old(Vol()), f, Path(IND, [i]), 1), rc))
      ensures rc == 0 ==> Whole(MapSet(old(Vol()), Vol(), f, Path(IND, [i]), phys)) && files == old(files)[f := inode']
      ensures rc != 0 ==> disk == old(disk) && files == old(files) && inode' == inode
      ensures inode' == inode.(block := inode'.block)
    {
      ghost var v := Vol();
      SingleNodes(v, f, i, inode.block[IND]);
      var b;
      rc, b := SetIndirect(inode.block[IND], i, phys);
      inode' := inode;
      if rc != 0 {
        assert Vol() == v;
        return;
      }
      inode' := inode.(block := inode.block[IND := b]);
      files := files[f := inode'];
      SingleStored(v, Vol().used, f, i, inode.block[IND], b, phys, disk);
    }

    /** Enter `phys` two tables below: in the table that entry `i` of the table at `node` leads to. */
    method SetThrough(node: nat, i: nat, j: nat, phys: nat) returns (rc: int, b1: nat, ghost b2: nat)
      requires Whole(Valid()) && node < |disk| && Ptr(disk, node, i) < |disk| && i < p && j < p && phys < TWO_32
      modifies this`disk, blocks
      ensures blocks.Valid() && blocks.free <= old(blocks.free)
      ensures rc == 0 || rc == -ENOSPC
      ensures rc == 0 <==> old(blocks.totalFree) >= One(node) + One(Ptr(old(disk), node, i))
      ensures rc == 0 ==> blocks.totalFree == old(blocks.totalFree) - One(node) - One(Ptr(old(disk), node, i))
      ensures rc != 0 ==> disk == old(disk) && blocks.totalFree == 0
      ensures rc == 0 ==>
        Whole(Woven2(p, old(disk), disk, old(blocks.free), blocks.free, node, i, j, phys, b1, b2))
    {
      var t;
      b1, t := LoadTable(node);
      if b1 == 0 { return -ENOSPC, 0, 0; }
      var entry := U32At(t, 4 * i);
      assert entry == Ptr(disk, node, i);
      var b;
      rc, b := SetIndirect(entry, j, phys);
      b2 := b;
      if rc != 0 { return; }
      disk := disk[b1 := SetPtr(t, i, b)];
    }

    method SetDouble(ghost f: nat, inode: Inode, i: nat, j: nat, phys: nat, ghost q: Path)
      returns (rc: int, inode': Inode)
      requires Whole(Valid()) && f in files && files[f] == inode && i < p && j < p
      requires 0 < phys < |disk| && phys !in blocks.free && Unowned(Vol(), phys) && q == Path(DIND, [i, j])
      modifies this`disk, this`files, blocks
      ensures Whole(Valid())
      ensures rc == 0 || rc == -ENOSPC
      ensures Whole(Drew(old(blocks.totalFree), blocks.totalFree, Missing(old(Vol()), f, q, |q.idx|), rc))
      ensures rc == 0 ==> Whole(MapSet(old(Vol()), Vol(), f, q, phys)) && files == old(files)[f := inode']
      ensures rc != 0 ==> disk == old(disk) && files == old(files) && inode' == inode
      ensures inode' == inode.(block := inode'.block)
    {
      ghost var v := Vol();
      ghost var n1 := inode.block[DIND];
      ghost var n2 := Ptr(disk, n1, i);
      DoubleCost(v, f, i, j, n1, n2, q);
      var b1; ghost var b2;
      rc, b1, b2 := SetThrough(inode.block[DIND], i, j, phys);
      inode' := inode;
      if rc != 0 {
        GrowUsed(v, Vol().used);
        return;
      }
      inode' := inode.(block := inode.block[DIND := b1]);
      files := files[f := inode'];
      Woven2Sets(v, Vol(), f, i, j, q, phys, b1, b2, old(blocks.free), blocks.free);
    }

    /** The same, three tables below. */
    method SetThrough3(node: nat, i: nat, j: nat, k: nat, phys: nat)
      returns (rc: int, b1: nat, ghost b2: nat, ghost b3: nat)
      requires Whole(Valid()) && i < p && j < p && k < p && phys < TWO_32
      requires node < |disk| && Ptr(disk, node, i) < |disk| && Ptr(disk, Ptr(disk, node, i), j) < |disk|
      modifies this`disk, blocks
      ensures blocks.Valid() && blocks.free <= old(blocks.free)
      ensures rc == 0 || rc == -ENOSPC
      ensures var n2 := Ptr(old(disk), node, i);
        && (rc == 0 <==> old(blocks.totalFree) >= One(node) + One(n2) + One(Ptr(old(disk), n2, j)))
        && (rc == 0 ==> blocks.totalFree == old(blocks.totalFree) - One(node) - One(n2) - One(Ptr(old(disk), n2, j)))
      ensures rc != 0 ==> disk == old(disk) && blocks.totalFree == 0
      ensures rc == 0 ==>
        Whole(Woven3(p, old(disk), disk, old(blocks.free), blocks.free, node, i, j, k, phys, b1, b2, b3))
    {
      var t;
      b1, t := LoadTable(node);
      if b1 == 0 { return -ENOSPC, 0, 0, 0; }
      var entry := U32At(t, 4 * i);
      assert entry == Ptr(disk, node, i);
      var b;
      rc, b, b3 := SetThrough(entry, j, k, phys);
      b2 := b;
      if rc != 0 { return; }
      disk := disk[b1 := SetPtr(t, i, b)];
    }

    /** The new root of the tree goes into the inode. */
    method EnterTriple(ghost f: nat, inode: Inode, ghost i: nat, ghost j: nat, ghost k: nat, ghost phys: nat, b1: nat,
      ghost b2: nat, ghost b3: nat, ghost q: Path, ghost v: Volume, ghost free: set<nat>)
      returns (inode': Inode)
      requires Whole(Wf(v)) && v.p == p && v.files == files && f in files && files[f] == inode && |disk| == |v.disk|
      requires Whole(Housed()) && v.used == Occupied(|v.disk|, free)
      requires i < p && j < p && k < p && 0 < phys < |disk| && phys in v.used && Unowned(v, phys)
      requires q == Path(TIND, [i, j, k])
      requires Whole(Woven3(p, v.disk, disk, free, blocks.free, inode.block[TIND], i, j, k, phys, b1, b2, b3))
      modifies this`files
      ensures Whole(Valid()) && Whole(MapSet(v, Vol(), f, q, phys)) && files == old(files)[f := inode']
      ensures inode' == inode.(block := inode'.block)
    {
      inode' := inode.(block := inode.block[TIND := b1]);
      files := files[f := inode'];
      Woven3Sets(v, Vol(), f, i, j, k, q, phys, b1, b2, b3, free, blocks.free);
    }

    method SetTriple(ghost f: nat, inode: Inode, i: nat, j: nat, k: nat, phys: nat, ghost q: Path)
      returns (rc: int, inode': Inode)
      requires Whole(Valid()) && f in files && files[f] == inode && i < p && j < p && k < p
      requires 0 < phys < |disk| && phys !in blocks.free && Unowned(Vol(), phys) && q == Path(TIND, [i, j, k])
      modifies this`disk, this`files, blocks
      ensures Whole(Valid())
      ensures rc == 0 || rc == -ENOSPC
      ensures Whole(Drew(old(blocks.totalFree), blocks.totalFree, Missing(old(Vol()), f, q, |q.idx|), rc))
      ensures rc == 0 ==> Whole(MapSet(old(Vol()), Vol(), f, q, phys)) && files == old(files)[f := inode']
      ensures rc != 0 ==> disk == old(disk) && files == old(files) && inode' == inode
      ensures inode' == inode.(block := inode'.block)
    {
      ghost var v := Vol();
      ghost var n1 := inode.block[TIND];
      ghost var n2 := Ptr(disk, n1, i);
      ghost var n3 := Ptr(disk, n2, j);
      TripleCost(v, f, i, j, k, n1, n2, n3, q);
      var b1; ghost var b2, b3;
      rc, b1, b2, b3 := SetThrough3(inode.block[TIND], i, j, k, phys);
      inode' := inode;
      if rc != 0 {
        GrowUsed(v, Vol().used);
        return;
      }
      inode' := EnterTriple(f, inode, i, j, k, phys, b1, b2, b3, q, v, old(blocks.free));
    }

    method SetDirect(ghost f: nat, inode: Inode, lbn: nat, phys: nat) returns (inode': Inode)
      requires Whole(Valid()) && f in files && files[f] == inode && lbn < NDIR
      requires 0 < phys < |disk| && phys !in blocks.free && Unowned(Vol(), phys)
      modifies this`files
      ensures Whole(Valid()) && Whole(MapSet(old(Vol()), Vol(), f, Path(lbn, []), phys))
      ensures files == old(files)[f := inode']
      ensures inode' == inode.(block := inode'.block)
    {
      ghost var v := Vol();
      inode' := inode.(block := inode.block[lbn := phys]);
      files := files[f := inode'];
      TablesStored(v, v.used, f, Path(lbn, []), [], [], phys, disk, []);
    }

    /** `ext2_bmap_set`: the map changes at logical block `lbn` and nowhere else. The call fails
        exactly when there are fewer free blocks than tables missing on the way, and then the
        map and the disk are as before (blocks taken for tables stay marked as used). */
    method BmapSet(ghost f: nat, inode: Inode, lbn: nat, phys: nat) returns (rc: int, inode': Inode)
      requires Whole(Valid()) && f in files && files[f] == inode && lbn < MaxLbn(p)
      requires 0 < phys < |disk| && phys !in blocks.free && Unowned(Vol(), phys)
      modifies this`disk, this`files, blocks
      ensures Whole(Valid())
      ensures rc == 0 || rc == -ENOSPC
      ensures Whole(Drew(old(blocks.totalFree), blocks.totalFree,
        Missing(old(Vol()), f, PathOf(p, lbn), |PathOf(p, lbn).idx|), rc))
      ensures rc == 0 ==> Whole(MapSet(old(Vol()), Vol(), f, PathOf(p, lbn), phys)) && files == old(files)[f := inode']
      ensures rc != 0 ==> disk == old(disk) && files == old(files) && inode' == inode
      ensures inode' == inode.(block := inode'.block)
    {
      PathOfValid(p, lbn);
      ghost var q := PathOf(p, lbn);
      if lbn < NDIR {
        assert q == Path(lbn, []);
        inode' := SetDirect(f, inode, lbn, phys);
        return 0, inode';
      }
      var l := lbn - NDIR;
      if l < p {
        assert q == Path(IND, [l]);
        rc, inode' := SetSingle(f, inode, l, phys);
        return;
      }
      l := l - p;
      var square := Times(p, p);
      if l < square {
        assert q == Path(DIND, [Quot(p, l), Rem(p, l)]);
        rc, inode' := SetDouble(f, inode, Quot(p, l), Rem(p, l), phys, q);
        return;
      }
      l := l - square;
      assert q == Path(TIND, [Quot(square, l), Rem(p, Quot(p, l)), Rem(p, l)]);
      rc, inode' := SetTriple(f, inode, Quot(square, l), Rem(p, Quot(p, l)), Rem(p, l), phys, q);
    }

    /** The block behind position `pos`, allocated and entered in the map if it was missing; `blk` is
        what it holds, except that a block that will be overwritten whole (`whole`) is not read: then
        `blk` is what the buffer held before. */
    method Provide(ghost f: nat, inode: Inode, pos: nat, whole: bool, stale: Block)
      returns (rc: int, inode': Inode, phys: nat, blk: Block)
      requires Whole(Valid()) && f in files && files[f] == inode && |stale| == 4 * p && pos < TWO_32
      modifies this`disk, this`files, blocks
      ensures Valid() && |blk| == 4 * p && files == old(files)[f := inode'] && inode'.size == inode.size
      ensures Whole(Paid(old(Vol()), Vol(), f, PathOf(p, BlockOf(p, pos)), old(blocks.totalFree), blocks.totalFree,
        rc == 0))
      ensures rc == 0 ==> Whole(Provided(old(Vol()), Vol(), f, PathOf(p, BlockOf(p, pos)), phys, whole, blk))
      ensures rc != 0 ==> rc == -ENOSPC && disk == old(disk) && files == old(files)
    {
      ghost var v, free := Vol(), blocks.totalFree;
      var lbn := BlockOf(p, pos);
      ghost var q := PathOf(p, lbn);
      Position(p, pos, 0, pos);
      PositionInRange(p, pos);
      BmapResolves(p, disk, inode.block, lbn);
      inode', blk := inode, stale;
      phys := Bmap(p, disk, inode.block, lbn);
      assert phys == At(v, f, q) && files == files[f := inode];
      if phys == 0 {
        phys := blocks.Alloc();
        if phys == 0 {
          PaidNot(v, f, q);
          return -ENOSPC, inode, 0, stale;
        }
        ghost var u := Vol();
        GrowUsed(v, u.used);
        blk := Zeros(4 * p);
        rc, inode' := BmapSet(f, inode, lbn, phys);
        PaidFor(v, u, Vol(), f, q, free, blocks.totalFree, rc == 0);
        if rc == 0 { FreshChunk(v, u, Vol(), f, q, phys); }
      } else {
        if !whole { blk := disk[phys]; }
        PaidAlready(v, f, q, free);
        ReplacedNone(v, f, q);
        rc := 0;
      }
    }

    /** One round of the loop in `ext2_vfs_write`: the bytes that fall into one block. `stale` is
        what the block buffer holds from the round before. */
    method StoreChunk(ghost f: nat, inode: Inode, pos: nat, data: seq<Byte>, stale: Block)
      returns (rc: int, inode': Inode, blk: Block)
      requires Whole(Valid()) && f in files && files[f] == inode && |stale| == 4 * p
      requires pos < TWO_32 && data != [] && OffsetOf(p, pos) + |data| <= 4 * p
      modifies this`disk, this`files, blocks
      ensures Valid() && |blk| == 4 * p && files.Keys == old(files).Keys
      ensures files == old(files)[f := inode'] && inode'.size == inode.size
      ensures rc == 0 ==> Wrote(old(Vol()), Vol(), f, pos, data)
      ensures rc == 0 ==>
        Whole(Laid(p, old(disk), inode.block, disk, inode'.block, pos, data, |data|)) &&
        Whole(Elsewhere(p, old(disk), old(files), disk, files, f))
      ensures Whole(Paid(old(Vol()), Vol(), f, PathOf(p, BlockOf(p, pos)), old(blocks.totalFree), blocks.totalFree,
        rc == 0))
      ensures rc != 0 ==> rc == -ENOSPC && disk == old(disk) && files == old(files)
    {
      ghost var v, free := Vol(), blocks.totalFree;
      var boff := OffsetOf(p, pos);
      ghost var q := PathOf(p, BlockOf(p, pos));
      Position(p, pos, |data|, pos);
      var phys;
      rc, inode', phys, blk := Provide(f, inode, pos, boff == 0 && |data| == 4 * p, stale);
      if rc != 0 { return; }
      ghost var w := Vol();
      assert Splice(blk, boff, data) == Splice(Logical(v, f, q), boff, data);
      blk := Splice(blk, boff, data);
      StoreData(w, f, q, blk);
      disk := disk[phys := blk];
      ReplacedTwice(v, w, Vol(), f, q, Logical(w, f, q), blk);
      BlockWrote(v, Vol(), f, pos, data, q);
      WroteLaid(v, Vol(), f, pos, data);
      PaidStored(v, w, Vol(), f, q, free, blocks.totalFree);
    }

    /** The handle holds the current inode of its file. */
    ghost predicate Opened(h: Handle)
      reads this, h
    {
      h.ino in files && files[h.ino] == h.inode && h.fileSize == h.inode.size
    }

    /** One round of the loop, for the handle's inode. */
    method StoreMore(h: Handle, ghost v: Volume, ghost free: nat, ghost from: nat, pos: nat, buf: seq<Byte>,
      written: nat, stale: Block)
      returns (rc: int, more: nat, next: nat, blk: Block)
      requires Whole(Valid()) && h.ino in files && files[h.ino] == h.inode && |stale| == 4 * p && written < |buf|
      requires Whole(Progress(v, Vol(), h.ino, from, buf, written, pos)) && v.p == p
      requires Whole(Spent(v, Vol(), h.ino, from, written, free, blocks.totalFree))
      modifies this`disk, this`files, blocks, h`inode
      ensures Whole(Valid()) && files == old(files)[h.ino := h.inode] && h.inode.size == old(h.inode.size)
      ensures (rc == 0 || rc == -ENOSPC) && |blk| == 4 * p
      ensures if rc == 0 then written < more <= |buf| else more == written
      ensures Whole(Progress(v, Vol(), h.ino, from, buf, more, next))
      ensures rc == 0 ==> Whole(Spent(v, Vol(), h.ino, from, more, free, blocks.totalFree))
      ensures rc != 0 ==> Whole(Afforded(v, h.ino, from, |buf|, more, free, blocks.totalFree))
    {
      var n := 4 * p - OffsetOf(p, pos);
      if n > |buf| - written { n := |buf| - written; }
      var chunk := buf[written..written + n];
      ghost var w, left := Vol(), blocks.totalFree;
      Reached(v, w, h.ino, from, buf, written, pos);
      var inode;
      rc, inode, blk := StoreChunk(h.ino, h.inode, pos, chunk, stale);
      h.inode := inode;
      if rc != 0 {
        more, next := written, pos;
        Stopped(v, w, Vol(), h.ino, from, buf, written, pos);
        AffordedSome(v, w, Vol(), h.ino, from, written, |buf|, pos, free, left, blocks.totalFree);
      } else {
        more, next := written + n, Low32(pos + n);
        InOneBlock(p, pos, n);
        Proceeded(v, w, Vol(), h.ino, from, buf, written, pos, n, more, next);
        SpentMore(v, w, Vol(), h.ino, from, written, n, pos, more, free, left, blocks.totalFree);
      }
    }

    /** The loop of `ext2_vfs_write`: `buf` goes to 32-bit position `from`, wrapping at 2^32. When
        the disk fills up, `stored` bytes have reached the file. */
    method StoreAll(h: Handle, from: nat, buf: seq<Byte>) returns (rc: int, pos: nat, ghost stored: nat)
      requires Whole(Valid()) && Opened(h) && from < TWO_32
      modifies this`disk, this`files, blocks, h`inode
      ensures Whole(Valid()) && files == old(files)[h.ino := h.inode] && h.inode.size == old(h.inode.size)
      ensures rc == 0 || rc == -ENOSPC
      ensures stored <= |buf| && (rc == 0 <==> stored == |buf|)
      ensures Whole(Progress(old(Vol()), Vol(), h.ino, from, buf, stored, pos))
      ensures Whole(Afforded(old(Vol()), h.ino, from, |buf|, stored, old(blocks.totalFree), blocks.totalFree))
    {
      ghost var v, f, free := Vol(), h.ino, blocks.totalFree;
      Begun(v, f, from, buf);
      SpentNone(v, f, from, free);
      var blk := Zeros(4 * p);
      var written := 0;
      pos := from;
      while written < |buf|
        invariant written <= |buf| && |blk| == 4 * p
        invariant Whole(Valid()) && files == old(files)[f := h.inode] && h.inode.size == old(h.inode.size)
        invariant Whole(Progress(v, Vol(), f, from, buf, written, pos))
        invariant Whole(Spent(v, Vol(), f, from, written, free, blocks.totalFree))
      {
        stored := written;
        rc, written, pos, blk := StoreMore(h, v, free, from, pos, buf, written, blk);
        if rc != 0 { return; }
      }
      AffordedAll(v, Vol(), f, from, written, free, blocks.totalFree);
      rc, stored := 0, written;
    }

    /** The end of `ext2_vfs_write`: the size grows to the new position, and the inode is
        written back to the table. */
    method Commit(h: Handle, pos: nat)
      requires Whole(Valid()) && Opened(h) && pos < TWO_32
      modifies this`files, this`inodes, h`inode, h`fileSize, h`position
      ensures Whole(Valid()) && Opened(h) && h.position == pos
      ensures inodes == old(inodes)[h.ino := h.inode] && files == old(files)[h.ino := h.inode]
      ensures Vol() == Resized(old(Vol()), h.ino, if old(h.inode.size) < pos then pos else old(h.inode.size))
    {
      ghost var w := Vol();
      ghost var size := if h.inode.size < pos then pos else h.inode.size;
      if pos > h.inode.size {
        h.inode := h.inode.(size := pos);
        h.fileSize := pos;
      }
      h.position := pos;
      inodes := inodes[h.ino := h.inode];
      files := files[h.ino := h.inode];
      assert Vol() == Resized(w, h.ino, size);
      ResizedSame(w, h.ino, size);
    }

    /** The loop and what follows it. `w` is the volume after the loop, `pos` the position. */
    method StoreAndCommit(h: Handle, buf: seq<Byte>)
      returns (rc: int, ghost stored: nat, ghost w: Volume, ghost pos: nat)
      requires Whole(Valid()) && Opened(h)
      modifies this`disk, this`files, this`inodes, blocks, h`inode, h`fileSize, h`position
      ensures Whole(Valid()) && Opened(h) && files == old(files)[h.ino := h.inode]
      ensures h.ino in w.files && Wf(w) && SameSizes(old(Vol()), w) && stored <= |buf|
      ensures Whole(Progress(old(Vol()), w, h.ino, Low32(old(h.position)), buf, stored, pos))
      ensures Whole(Afforded(old(Vol()), h.ino, Low32(old(h.position)), |buf|, stored, old(blocks.totalFree),
        blocks.totalFree))
      ensures stored < |buf| ==> rc == -ENOSPC && Vol() == w && h.position == old(h.position) && inodes == old(inodes)
      ensures stored == |buf| ==> rc == |buf| && h.position == pos && inodes == old(inodes)[h.ino := h.inode]
      ensures stored == |buf| ==> Vol() == Resized(w, h.ino, if w.files[h.ino].size < pos then pos
        else w.files[h.ino].size)
    {
      var at;
      rc, at, stored := StoreAll(h, Low32(h.position), buf);
      pos, w := at, Vol();
      if rc != 0 { return; }
      Commit(h, at);
      rc := |buf|;
    }

    /** The rest of `ext2_vfs_write` once there is something to write. */
    method WriteBytes(h: Handle, buf: seq<Byte>) returns (rc: int, ghost stored: nat)
      requires Whole(Valid()) && Opened(h) && buf != []
      modifies this`disk, this`files, this`inodes, blocks, h`inode, h`fileSize, h`position
      ensures Whole(Valid()) && Opened(h) && files == old(files)[h.ino := h.inode]
      ensures Whole(Outcome(old(Vol()), Vol(), h.ino, old(h.position), buf, stored))
      ensures Whole(Afforded(old(Vol()), h.ino, Low32(old(h.position)), |buf|, stored, old(blocks.totalFree),
        blocks.totalFree))
      ensures stored < |buf| ==> rc == -ENOSPC && h.position == old(h.position) && inodes == old(inodes)
      ensures stored == |buf| ==> rc == |buf| && h.position == Low32(Low32(old(h.position)) + stored)
      ensures stored == |buf| ==> inodes == old(inodes)[h.ino := h.inode]
    {
      ghost var v, start := Vol(), h.position;
      ghost var w, pos;
      rc, stored, w, pos := StoreAndCommit(h, buf);
      Reached(v, w, h.ino, Low32(start), buf, stored, pos);
      Concluded(v, w, Vol(), h.ino, start, buf, stored, pos);
    }

    /** `ext2_vfs_write`. A write that returns the full count acts on the file as on a sparse byte
        array exactly when its end stays below 2^32 and the gap before it is clean. It is cut short
        exactly when fewer blocks are free than are missing for its bytes, tables included: then it
        has stored what the free blocks suffice for, has taken them all, and has left size, position
        and inode table. Whatever it returns, no other file changes. */
    method Write(h: Handle, buf: seq<Byte>) returns (rc: int, ghost stored: nat)
      requires Whole(Valid()) && Opened(h)
      modifies this`disk, this`files, this`inodes, blocks, h`inode, h`fileSize, h`position
      ensures Whole(Valid()) && Opened(h) && files == old(files)[h.ino := h.inode]
      ensures Whole(Outcome(old(Vol()), Vol(), h.ino, old(h.position), buf, stored))
      ensures Whole(Laid(p, old(disk), old(h.inode).block, disk, h.inode.block, Low32(old(h.position)), buf, stored))
      ensures Whole(Elsewhere(p, old(disk), old(files), disk, files, h.ino))
      ensures !readOnly ==> Whole(Afforded(old(Vol()), h.ino, Low32(old(h.position)), |buf|, stored,
        old(blocks.totalFree), blocks.totalFree))
      ensures readOnly ==> rc == -EROFS
      ensures !readOnly ==> rc == if stored == |buf| then |buf| else -ENOSPC
      ensures readOnly || buf == [] ==> stored == 0 && Vol() == old(Vol())
      ensures stored == |buf| > 0 ==>
        h.position == Low32(Low32(old(h.position)) + stored) && inodes == old(inodes)[h.ino := h.inode]
      ensures stored < |buf| || buf == [] ==> h.position == old(h.position) && inodes == old(inodes)
    {
      ghost var v, start := Vol(), h.position;
      if readOnly || buf == [] {
        assert files == files[h.ino := h.inode];
        Untouched(Vol(), h.ino, h.position, buf);
        SpentNone(Vol(), h.ino, Low32(h.position), blocks.totalFree);
        AffordedAll(Vol(), Vol(), h.ino, Low32(h.position), 0, blocks.totalFree, blocks.totalFree);
        OutcomeLaid(v, v, h.ino, start, buf, 0);
        return if readOnly then -EROFS else 0, 0;
      }
      rc, stored := WriteBytes(h, buf);
      OutcomeLaid(v, Vol(), h.ino, start, buf, stored);
    }

    /** One round of the loop in `ext2_vfs_read`: the bytes that fall into one block. */
    method LoadChunk(ghost f: nat, inode: Inode, pos: nat, n: nat) returns (chunk: seq<Byte>)
      requires Whole(Valid()) && f in files && files[f] == inode && 0 < n && pos + n <= inode.size
      requires OffsetOf(p, pos) + n <= 4 * p
      ensures chunk == Contents(Vol(), f)[pos..pos + n]
      ensures forall k :: 0 <= k < n ==> chunk[k] == OnDisk(p, disk, inode.block, pos + k)
    {
      ghost var v := Vol();
      var lbn, boff := BlockOf(p, pos), OffsetOf(p, pos);
      ghost var q := PathOf(p, lbn);
      PositionInRange(p, pos);
      PathOfValid(p, lbn);
      BmapResolves(p, disk, inode.block, lbn);
      ChunkIs(v, f, pos, n, q);
      var phys := Bmap(p, disk, inode.block, lbn);
      assert phys == At(v, f, q);
      chunk := if phys == 0 then Zeros(n) else disk[phys][boff..boff + n];
      assert chunk == Logical(v, f, q)[boff..boff + n];
      PieceIs(v, f, pos, chunk);
    }

    /** The loop of `ext2_vfs_read`. */
    method LoadAll(ghost f: nat, inode: Inode, from: nat, n: nat) returns (data: seq<Byte>)
      requires Whole(Valid()) && f in files && files[f] == inode && from + n <= inode.size
      ensures data == Contents(Vol(), f)[from..from + n]
    {
      data := [];
      ghost var s := Contents(Vol(), f);
      var pos := from;
      while |data| < n
        invariant |data| <= n && pos == from + |data|
        invariant data == s[from..pos]
      {
        var m := 4 * p - OffsetOf(p, pos);
        if m > n - |data| { m := n - |data|; }
        var chunk := LoadChunk(f, inode, pos, m);
        Joined(s, data, chunk, from, pos + m);
        data := data + chunk;
        pos := pos + m;
      }
    }

    /** `ext2_vfs_read`: the bytes of the file at the position, as many as there are. */
    method Read(h: Handle, count: nat) returns (data: seq<Byte>)
      requires Whole(Valid()) && Opened(h)
      modifies h`position
      ensures data == ReadSpec(Contents(Vol(), h.ino), Low32(old(h.position)), count)
      ensures var at, size := Low32(old(h.position)), h.inode.size;
        |data| == if at >= size then 0 else if at + count > size then size - at else count
      ensures forall k :: 0 <= k < |data| ==> data[k] == OnDisk(p, disk, h.inode.block, Low32(old(h.position)) + k)
      ensures h.position == if data == [] then old(h.position) else Low32(old(h.position)) + |data|
    {
      var pos := Low32(h.position);
      if pos >= h.fileSize { return []; }
      var n := if pos + count > h.fileSize then h.fileSize - pos else count;
      if n == 0 { return []; }
      data := LoadAll(h.ino, h.inode, pos, n);
      PieceIs(Vol(), h.ino, pos, data);
      h.position := pos + n;
    }
  }
}