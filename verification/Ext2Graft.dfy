/** The net effect of `ext2_bmap_set`: the tables missing on the way to a logical block are
    added, zeroed, and the block is entered in the last one. The driver writes the tables from
    the leaf up; here they are linked from the root down, one `WithTable` at a time, and
    `GraftDisk` says what every block holds at the end. */
module Ext2Graft {
  import opened Invariants
  import opened Bytes
  import opened Ext2Tree

  function Prefix(q: Path, k: nat): Path
    requires k <= |q.idx|
  {
    Path(q.slot, q.idx[..k])
  }

  /** `bs[k]` is the table block at depth `k` of path `q`: the one in place, or a new one. */
  ghost predicate Tables(v: Volume, f: nat, q: Path, bs: seq<nat>) {
    && f in v.files && ValidPath(v.p, q) && IsData(q) && |bs| == |q.idx|
    && (forall k :: 0 <= k < |bs| ==> 0 < bs[k] < |v.disk| && bs[k] in v.used)
    && (forall k :: 0 <= k < |bs| ==>
          if At(v, f, Prefix(q, k)) == 0 then Unowned(v, bs[k]) else At(v, f, Prefix(q, k)) == bs[k])
    && (forall j, k :: 0 <= j < k < |bs| ==> bs[j] != bs[k])
  }

  /** `w` is `v` with the first `m` tables of path `q` in place. */
  ghost predicate Grown(v: Volume, w: Volume, f: nat, q: Path, bs: seq<nat>, m: nat)
    requires f in v.files && m <= |bs| == |q.idx|
  {
    && Wf(w) && v.p == w.p && v.files.Keys == w.files.Keys && v.used == w.used && |v.disk| == |w.disk|
    && (forall g, r ::
          g in v.files && ValidPath(v.p, r) && !(g == f && r.slot == q.slot && r.idx <= q.idx && |r.idx| < m) ==>
            At(w, g, r) == At(v, g, r))
    && (forall k :: 0 <= k < m ==> At(w, f, Prefix(q, k)) == bs[k])
  }

  /** The tables on the way to `q`, before the new entries are stored in them. */
  ghost function TablesOf(v: Volume, f: nat, q: Path, bs: seq<nat>): (ts: seq<Block>)
    requires Sized(v) && Tables(v, f, q, bs)
    ensures |ts| == |bs| && forall k :: 0 <= k < |ts| ==> |ts[k]| == 4 * v.p
  {
    seq(|bs|, k requires 0 <= k < |bs| => TableAt(v, f, Prefix(q, k), bs[k]))
  }

  /** What a disk holds once the first `m` tables are in place. */
  ghost predicate GrownDisk(p: nat, was: Disk, disk: Disk, ts: seq<Block>, idx: seq<nat>, bs: seq<nat>, m: nat)
    requires m <= |bs| == |ts| == |idx|
    requires forall k :: 0 <= k < |bs| ==> |ts[k]| == 4 * p && idx[k] < p && bs[k] < TWO_32
  {
    && |disk| == |was|
    && (forall b :: 0 <= b < |was| && b !in bs[..m] ==> disk[b] == was[b])
    && (forall k :: 0 <= k < m ==> bs[k] < |was|)
    && (forall k :: 0 <= k < m - 1 ==> disk[bs[k]] == SetPtr(ts[k], idx[k], bs[k + 1]))
    && (m > 0 ==> disk[bs[m - 1]] == ts[m - 1])
  }

  ghost predicate GrownFiles(v: Volume, w: Volume, f: nat, q: Path, bs: seq<nat>, m: nat)
    requires f in v.files && m <= |bs|
  {
    w.files == if m == 0 then v.files else v.files[f := v.files[f].(block := v.files[f].block[q.slot := bs[0]])]
  }

  lemma GrowOneDisk(p: nat, was: Disk, disk: Disk, ts: seq<Block>, idx: seq<nat>, bs: seq<nat>, m: nat, x: Disk)
    requires m < |bs| == |ts| == |idx|
    requires forall k :: 0 <= k < |bs| ==> |ts[k]| == 4 * p && idx[k] < p && bs[k] < |was| && bs[k] < TWO_32
    requires forall j, k :: 0 <= j < k < |bs| ==> bs[j] != bs[k]
    requires GrownDisk(p, was, disk, ts, idx, bs, m)
    requires m == 0 ==> x == disk[bs[m] := ts[m]]
    requires m > 0 ==> x == disk[bs[m] := ts[m]][bs[m - 1] := SetPtr(ts[m - 1], idx[m - 1], bs[m])]
    ensures GrownDisk(p, was, x, ts, idx, bs, m + 1)
  {
    assert bs[..m + 1] == bs[..m] + [bs[m]];
    if m > 0 { assert bs[m - 1] in bs[..m]; }
  }

  lemma PrefixValid(p: nat, q: Path, k: nat)
    requires ValidPath(p, q) && k < |q.idx|
    ensures ValidPath(p, Prefix(q, k)) && !IsData(Prefix(q, k))
    ensures k > 0 ==> Parent(Prefix(q, k)) == Prefix(q, k - 1) && Last(Prefix(q, k)) == q.idx[k - 1]
  {
    if k > 0 {
      assert q.idx[..k][..k - 1] == q.idx[..k - 1];
    }
  }

  /** A path is a proper prefix of `q` of length below `m` iff it is one of `Prefix(q, 0..m)`. */
  lemma IsPrefix(q: Path, r: Path, k: nat)
    requires r.slot == q.slot && r.idx <= q.idx && |r.idx| == k
    ensures r == Prefix(q, k)
  {
  }

  /** Adding the next table keeps the invariant. */
  lemma {:induction false} GrowOne(v: Volume, w: Volume, f: nat, q: Path, bs: seq<nat>, m: nat)
    requires Wf(v) && Tables(v, f, q, bs) && m < |bs| && Grown(v, w, f, q, bs, m)
    ensures Tabling(w, f, Prefix(q, m), bs[m])
    ensures Grown(v, WithTable(w, f, Prefix(q, m), bs[m]), f, q, bs, m + 1)
  {
    var t := Prefix(q, m);
    PrefixValid(v.p, q, m);
    assert At(w, f, t) == At(v, f, t);
    if At(v, f, t) == 0 {
      forall g, r | g in w.files && ValidPath(w.p, r) ensures At(w, g, r) != bs[m] {
        if g == f && r.slot == q.slot && r.idx <= q.idx && |r.idx| < m {
          IsPrefix(q, r, |r.idx|);
        }
      }
    }
    WithTableWf(w, f, t, bs[m]);
    var x := WithTable(w, f, t, bs[m]);
    forall g, r | g in v.files && ValidPath(v.p, r) && !(g == f && r.slot == q.slot && r.idx <= q.idx &&
      |r.idx| < m + 1)
      ensures At(x, g, r) == At(v, g, r)
    {
      assert r != t || g != f;
    }
    forall k | 0 <= k < m + 1 ensures At(x, f, Prefix(q, k)) == bs[k] {
      PrefixValid(v.p, q, k);
      if k < m { assert |Prefix(q, k).idx| < |t.idx|; }
    }
  }

  ghost predicate GrownVolume(v: Volume, w: Volume, f: nat, q: Path, bs: seq<nat>, m: nat)
    requires Sized(v) && Tables(v, f, q, bs) && m <= |bs|
  {
    && Grown(v, w, f, q, bs, m)
    && GrownDisk(v.p, v.disk, w.disk, TablesOf(v, f, q, bs), q.idx, bs, m)
    && GrownFiles(v, w, f, q, bs, m)
  }

  lemma {:induction false} GrowOneVolume(v: Volume, w: Volume, f: nat, q: Path, bs: seq<nat>, m: nat, n: nat)
    requires Wf(v) && Tables(v, f, q, bs) && m < |bs| && n == m + 1 && Whole(GrownVolume(v, w, f, q, bs, m))
    ensures Tabling(w, f, Prefix(q, m), bs[m])
    ensures Whole(GrownVolume(v, WithTable(w, f, Prefix(q, m), bs[m]), f, q, bs, n))
  {
    GrowOne(v, w, f, q, bs, m);
    var t := Prefix(q, m);
    PrefixValid(v.p, q, m);
    assert bs[m] !in bs[..m];
    assert TableAt(w, f, t, bs[m]) == TablesOf(v, f, q, bs)[m];
    var x := WithTable(w, f, t, bs[m]);
    GrowOneDisk(v.p, v.disk, w.disk, TablesOf(v, f, q, bs), q.idx, bs, m, x.disk);
  }

  /** All tables of the path in place. */
  lemma GrowNone(v: Volume, f: nat, q: Path, bs: seq<nat>)
    requires Wf(v) && Tables(v, f, q, bs)
    ensures Whole(GrownVolume(v, v, f, q, bs, 0))
  {
  }

  lemma {:induction false} GrowAll(v: Volume, f: nat, q: Path, bs: seq<nat>, m: nat) returns (w: Volume)
    requires Wf(v) && Tables(v, f, q, bs) && m <= |bs|
    ensures Whole(GrownVolume(v, w, f, q, bs, m))
    decreases m
  {
    if m == 0 {
      w := v;
      GrowNone(v, f, q, bs);
    } else {
      w := GrowAll(v, f, q, bs, m - 1);
      GrowOneVolume(v, w, f, q, bs, m - 1, m);
      w := WithTable(w, f, Prefix(q, m - 1), bs[m - 1]);
    }
  }

  /** The maps agree at every data path except `q` of `f`, which now leads to `b`; on the way to
      `q` tables may have been added, and nothing else is owned that was not before. */
  ghost predicate Grafted(v: Volume, w: Volume, f: nat, q: Path, bs: seq<nat>, b: nat) {
    && Wf(w) && v.p == w.p && v.files.Keys == w.files.Keys && v.used == w.used && |v.disk| == |w.disk|
    && f in v.files && |bs| == |q.idx|
    && (forall g, r :: g in v.files && ValidPath(v.p, r) && !(g == f && r.slot == q.slot && r.idx <= q.idx)
          ==> At(w, g, r) == At(v, g, r))
    && (forall k :: 0 <= k < |bs| ==> At(w, f, Prefix(q, k)) == bs[k])
    && At(w, f, q) == b
  }

  /** What table `k` on the path points to: the next table, or the block itself. */
  function Next(bs: seq<nat>, k: nat, b: nat): nat
    requires k < |bs|
  {
    if k + 1 < |bs| then bs[k + 1] else b
  }

  /** `cs` are the tables on the way once the new entries are stored in them. */
  ghost predicate Entered(p: nat, ts: seq<Block>, idx: seq<nat>, bs: seq<nat>, b: nat, cs: seq<Block>) {
    && |cs| == |bs| == |ts| == |idx| && b < TWO_32
    && (forall k :: 0 <= k < |bs| ==> |ts[k]| == 4 * p && idx[k] < p && bs[k] < TWO_32)
    && forall k :: 0 <= k < |bs| ==> cs[k] == SetPtr(ts[k], idx[k], Next(bs, k, b))
  }

  /** The disk after the graft: the tables in their blocks, everything else as it was. */
  ghost predicate GraftedDisk(was: Disk, disk: Disk, bs: seq<nat>, cs: seq<Block>) {
    && |disk| == |was| && |bs| == |cs|
    && (forall c :: 0 <= c < |was| && c !in bs ==> disk[c] == was[c])
    && (forall k :: 0 <= k < |bs| ==> bs[k] < |was| && disk[bs[k]] == cs[k])
  }

  ghost function GraftedFiles(v: Volume, f: nat, q: Path, bs: seq<nat>, b: nat): map<nat, Inode>
    requires f in v.files
  {
    v.files[f := v.files[f].(block := v.files[f].block[q.slot := if bs == [] then b else bs[0]])]
  }

  lemma {:induction false} GraftMap(v: Volume, u: Volume, f: nat, q: Path, bs: seq<nat>, b: nat)
    requires Wf(v) && Tables(v, f, q, bs) && Grown(v, u, f, q, bs, |bs|)
    requires 0 < b < |v.disk| && b in v.used && Unowned(v, b) && b !in bs
    ensures bs != [] ==> Parent(q) == Prefix(q, |bs| - 1) && At(u, f, Parent(q)) == bs[|bs| - 1]
    ensures Grafted(v, Link(u, f, q, b), f, q, bs, b)
  {
    var d := |bs|;
    if d > 0 {
      ParentValid(v.p, q);
      assert Parent(q) == Prefix(q, d - 1);
    }
    forall g, r | g in u.files && ValidPath(u.p, r) ensures At(u, g, r) != b {
      if g == f && r.slot == q.slot && r.idx <= q.idx && |r.idx| < d {
        IsPrefix(q, r, |r.idx|);
      }
    }
    LinkWf(u, f, q, b);
    var w := Link(u, f, q, b);
    forall k | 0 <= k < d ensures At(w, f, Prefix(q, k)) == bs[k] {
      PrefixValid(v.p, q, k);
      assert |Prefix(q, k).idx| < |q.idx|;
    }
    forall g, r | g in v.files && ValidPath(v.p, r) && !(g == f && r.slot == q.slot && r.idx <= q.idx)
      ensures At(w, g, r) == At(v, g, r)
    {
      assert !(g == f && r == q);
    }
  }

  lemma GraftDisk(p: nat, was: Disk, disk: Disk, ts: seq<Block>, idx: seq<nat>, bs: seq<nat>, b: nat, x: Disk,
    cs: seq<Block>)
    requires Entered(p, ts, idx, bs, b, cs)
    requires forall k :: 0 <= k < |bs| ==> bs[k] < |was|
    requires forall j, k :: 0 <= j < k < |bs| ==> bs[j] != bs[k]
    requires GrownDisk(p, was, disk, ts, idx, bs, |bs|)
    requires bs == [] ==> x == disk
    requires bs != [] ==> x == disk[bs[|bs| - 1] := SetPtr(ts[|bs| - 1], idx[|bs| - 1], b)]
    ensures GraftedDisk(was, x, bs, cs)
  {
    assert bs[..|bs|] == bs;
    forall k | 0 <= k < |bs| ensures x[bs[k]] == cs[k] {
      assert cs[k] == SetPtr(ts[k], idx[k], Next(bs, k, b));
    }
  }

  /** Entering block `b` at data path `q`, with the tables `bs` on the way: any disk and inodes
      that hold the grafted contents make a well-formed volume with the grafted map. */
  lemma {:induction false} Graft(v: Volume, f: nat, q: Path, bs: seq<nat>, b: nat, disk: Disk, cs: seq<Block>)
    requires Wf(v) && Tables(v, f, q, bs)
    requires 0 < b < |v.disk| && b in v.used && Unowned(v, b) && b !in bs
    requires Entered(v.p, TablesOf(v, f, q, bs), q.idx, bs, b, cs) && GraftedDisk(v.disk, disk, bs, cs)
    ensures Grafted(v, v.(disk := disk, files := GraftedFiles(v, f, q, bs, b)), f, q, bs, b)
  {
    var u := GrowAll(v, f, q, bs, |bs|);
    GraftMap(v, u, f, q, bs, b);
    var w := Link(u, f, q, b);
    GraftDisk(v.p, v.disk, u.disk, TablesOf(v, f, q, bs), q.idx, bs, b, w.disk, cs);
    GraftUnique(v.disk, w.disk, disk, bs, cs);
    assert w.files == GraftedFiles(v, f, q, bs, b);
    assert w == v.(disk := disk, files := GraftedFiles(v, f, q, bs, b));
  }

  /** Two disks with the same grafted contents are the same. */
  lemma GraftUnique(was: Disk, x: Disk, y: Disk, bs: seq<nat>, cs: seq<Block>)
    requires GraftedDisk(was, x, bs, cs) && GraftedDisk(was, y, bs, cs)
    ensures x == y
  {
    forall c | 0 <= c < |was| ensures x[c] == y[c] {
      if c in bs {
        var k :| 0 <= k < |bs| && bs[k] == c;
        assert x[bs[k]] == cs[k];
      }
    }
  }

  /** Marking more blocks as used breaks nothing. */
  lemma GrowUsed(v: Volume, u: set<nat>)
    requires Wf(v) && v.used <= u && forall b :: b in u ==> b < |v.disk|
    ensures Wf(v.(used := u)) && SameMap(v, v.(used := u))
  {
    var w := v.(used := u);
    assert forall f, q :: f in v.files ==> At(w, f, q) == At(v, f, q);
    SameMapWf(v, w);
  }
}
