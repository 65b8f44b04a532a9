/** Whole runs of file writes on an ext2 volume, whatever the calls return. */
module Ext2Run {
  import opened Errno
  import opened Invariants
  import opened Arith
  import opened Bytes
  import opened FileSpec
  import opened FileRun
  import opened Ext2Tree
  import opened Ext2Bmap
  import opened Ext2Graft
  import opened Ext2Files
  import opened Ext2Space
  import opened Ext2Fs

  /** One write: no other file changes, and the bytes that reached the file are where they belong. */
  ghost predicate Step(v: Volume, w: Volume, op: Op) {
    && Wf(v) && Wf(w) && op.Write? && op.ring && Proper(op) && op.f in v.files && v.files.Keys == w.files.Keys
    && Put(v, w, op.f, Low32(op.at), op.data, op.n)
    && forall g :: g in v.files && g != op.f ==> w.files[g].size == v.files[g].size
  }

  /** Every write is a step, whatever it returns and wherever it ends. */
  method WriteStep(fs: Ext2, h: Handle, buf: seq<Byte>) returns (rc: int, ghost n: nat)
    requires Whole(fs.Valid()) && fs.Opened(h)
    modifies fs`disk, fs`files, fs`inodes, fs.blocks, h`inode, h`fileSize, h`position
    ensures Whole(fs.Valid()) && fs.Opened(h)
    ensures Whole(Step(old(fs.Vol()), fs.Vol(), Write(h.ino, old(h.position), buf, n, true)))
  {
    rc, n := fs.Write(h, buf);
  }

  ghost predicate Run(vs: seq<Volume>, ops: seq<Op>) {
    && |vs| == |ops| + 1
    && forall i :: 0 <= i < |ops| ==> Step(vs[i], vs[i + 1], ops[i])
  }

  ghost predicate ShowsFile(v: Volume, f: nat, x: File)
    requires Sized(v) && f in v.files
  {
    v.files[f].size == x.size && forall i :: 0 <= i < TWO_32 ==> ByteAt(v, f, i) == ByteOf(x, i)
  }

  /** Every file on the volume is the file of the same number. */
  ghost predicate Shows(v: Volume, files: map<nat, File>) {
    && Wf(v) && v.files.Keys == files.Keys
    && forall f :: f in files ==> ShowsFile(v, f, files[f])
  }

  lemma ShownContents(v: Volume, files: map<nat, File>, f: nat)
    requires Shows(v, files) && f in files && files[f].size < TWO_32
    ensures Contents(v, f) == Text(files[f])
  {
    assert ShowsFile(v, f, files[f]);
  }

  lemma StepBytes(v: Volume, w: Volume, op: Op, x: File)
    requires Step(v, w, op) && ShowsFile(v, op.f, x)
    ensures ShowsFile(w, op.f, Apply(x, op))
  {
    Low32Plus(op.at, |op.data|);
    forall i | 0 <= i < TWO_32 ensures ByteAt(w, op.f, i) == ByteOf(Apply(x, op), i) {
      assert ByteAt(v, op.f, i) == ByteOf(x, i);
      RingByte(Image(v, op.f), x.stored, Low32(op.at), op.data[..op.n], i);
      assert Image(w, op.f)[i] == ByteAt(w, op.f, i);
    }
  }

  lemma StepShows(v: Volume, w: Volume, op: Op, files: map<nat, File>)
    requires Step(v, w, op) && Shows(v, files)
    ensures op.f in files && Shows(w, files[op.f := Apply(files[op.f], op)])
  {
    StepBytes(v, w, op, files[op.f]);
    forall f | f in files && f != op.f ensures ShowsFile(w, f, files[f]) {
      assert ShowsFile(v, f, files[f]);
    }
  }

  /** After any sequence of writes to any files at any positions, full or cut short by a full disk,
      every byte of every file is the one the calls stored, and zero where they stored none. */
  lemma {:induction false} RunShows(vs: seq<Volume>, ops: seq<Op>, files: map<nat, File>)
    requires Run(vs, ops) && Shows(vs[0], files)
    ensures Calls(files, ops) && Shows(vs[|ops|], Replay(files, ops))
    decreases |ops|
  {
    if ops != [] {
      assert Step(vs[0], vs[1], ops[0]);
      StepShows(vs[0], vs[1], ops[0], files);
      var rest, tail := vs[1..], ops[1..];
      forall i | 0 <= i < |tail| ensures Step(rest[i], rest[i + 1], tail[i]) {
        assert Step(vs[i + 1], vs[i + 2], ops[i + 1]);
      }
      RunShows(rest, tail, files[ops[0].f := Apply(files[ops[0].f], ops[0])]);
      forall i | 1 <= i < |ops| ensures ops[i].f in files && Proper(ops[i]) {
        assert ops[i] == tail[i - 1];
      }
    }
  }

  ghost predicate Tidy(v: Volume) {
    Wf(v) && forall f :: f in v.files ==> v.files[f].size < TWO_32 && TailZero(v, f)
  }

  ghost function AllContents(v: Volume): map<nat, seq<Byte>>
    requires Sized(v)
  {
    map f | f in v.files :: Contents(v, f)
  }

  ghost function AllApart(v: Volume): map<nat, File>
    requires Sized(v)
  {
    map f | f in v.files :: Apart(v, f)
  }

  lemma ApartShows(v: Volume)
    requires Tidy(v)
    ensures Shows(v, AllApart(v)) && AllClean(AllApart(v)) && Texts(AllApart(v)) == AllContents(v)
  {
    forall f | f in v.files
      ensures ShowsFile(v, f, Apart(v, f)) && Clean(Apart(v, f)) && Text(Apart(v, f)) == Contents(v, f)
    {
      ApartText(v, f);
    }
  }

  lemma ShownAll(v: Volume, files: map<nat, File>)
    requires Shows(v, files) && AllClean(files)
    ensures AllContents(v) == Texts(files)
  {
    forall f | f in files ensures Contents(v, f) == Text(files[f]) {
      ShownContents(v, files, f);
    }
  }

  /** The contents of all files after any run of completed writes are those the byte arrays have after
      the same writes, with zeros in the gaps. */
  lemma RunContents(vs: seq<Volume>, ops: seq<Op>)
    requires Run(vs, ops) && Tidy(vs[0]) && forall i :: 0 <= i < |ops| ==> Completed(ops[i])
    ensures Wf(vs[|ops|]) && forall i :: 0 <= i < |ops| ==> ops[i].f in vs[0].files
    ensures AllContents(vs[|ops|]) == Edited(AllContents(vs[0]), ops)
  {
    var files := AllApart(vs[0]);
    ApartShows(vs[0]);
    RunShows(vs, ops, files);
    CompletedRun(files, ops);
    ShownAll(vs[|ops|], Replay(files, ops));
  }

  lemma DirectPath(p: nat, c: nat, pos: nat, i: nat)
    requires 0 < p && c == 4 * p && i < NDIR && pos == Times(c, i)
    ensures PathOf(p, BlockOf(p, pos)) == Path(i, []) && Way(Path(i, [])) == {Path(i, [])}
  {
    Join(c, i, 0);
    var q := Path(i, []);
    assert Prefix(q, 0) == q && Stops(q, 0) == {};
  }

  /** The first block of a file costs one block, a second one another. */
  lemma OneBlock(v: Volume, f: nat, c: nat, n: nat)
    requires Sized(v) && 256 <= v.p && c == 4 * v.p < TWO_32 && f in v.files && v.files[f].block[0] == 0 && 0 < n <= c
    ensures Touched(v.p, 0, n) == {Path(0, [])} && Required(v, f, 0, n) == 1
  {
    var a := Path(0, []);
    Join(c, 0, 0);
    DirectPath(v.p, c, 0, 0);
    TouchedMore(v.p, 0, 0, n, 0);
    assert Touched(v.p, 0, n) == {a};
    assert Holes(v, f, {a}) == {a};
  }

  lemma TwoBlocks(v: Volume, f: nat, c: nat, n: nat)
    requires Sized(v) && 256 <= v.p && c == 4 * v.p < TWO_32 && n == c + 1
    requires f in v.files && v.files[f].block[0] == 0 && v.files[f].block[1] == 0
    ensures Required(v, f, 0, n) == 2
  {
    var a, b := Path(0, []), Path(1, []);
    OneBlock(v, f, c, c);
    assert Times(c, 1) == c;
    DirectPath(v.p, c, c, 1);
    assert Touched(v.p, 0, n) == {a} + {b};
    assert Holes(v, f, {a} + {b}) == {a} + {b};
  }

  lemma CutAtBlock(v: Volume, f: nat, c: nat, n: nat, stored: nat, left: nat)
    requires Sized(v) && 256 <= v.p && c == 4 * v.p < TWO_32 && n == c + 1
    requires f in v.files && v.files[f].block[0] == 0 && v.files[f].block[1] == 0
    requires Whole(Afforded(v, f, 0, n, stored, 1, left))
    ensures stored == c && left == 0
  {
    TwoBlocks(v, f, c, n);
    if stored < c { OneBlock(v, f, c, stored + 1); }
  }

  /** A block that shows a byte is there, so writing to it costs nothing. */
  lemma NoCost(w: Volume, f: nat, at: nat, stored: nat, left: nat)
    requires Wf(w) && 256 <= w.p && f in w.files && ByteAt(w, f, at) != 0 && at < TWO_32
    requires Whole(Afforded(w, f, at, 1, stored, 0, left))
    ensures stored == 1
  {
    var q := PathOf(w.p, BlockOf(w.p, at));
    Position(w.p, at, 1, at);
    assert At(w, f, q) != 0;
    TouchedMore(w.p, at, 0, 1, at);
    CostIs(w, f, q);
    assert Touched(w.p, at, 1) == Way(q);
  }

  /** The bytes and the size after a write that does not pass 2^32. */
  lemma OutcomeImage(v: Volume, w: Volume, f: nat, start: nat, buf: seq<Byte>, n: nat, d: seq<Byte>)
    requires start + |buf| < TWO_32 && n <= |buf| && d == buf[..n] && buf != []
    requires Whole(Outcome(v, w, f, start, buf, n))
    ensures Sized(v) && Sized(w) && f in v.files && f in w.files && Image(w, f) == WriteSpec(Image(v, f), start, d)
    ensures w.files[f].size == if n == |buf| && v.files[f].size < start + n then start + n else v.files[f].size
  {
  }

  lemma ImageShows(w: Volume, f: nat, x: nat)
    requires Sized(w) && f in w.files && x < TWO_32
    ensures ByteAt(w, f, x) == Image(w, f)[x]
  {
  }

  lemma SevensNine(s: seq<Byte>, a: seq<Byte>, b: seq<Byte>, c: nat)
    requires 1 < c && a == WriteSpec(s, 0, Sevens(c)) && b == WriteSpec(a, c - 1, [9])
    ensures c <= |a| && c <= |b| && a[c - 1] == 7 && b[..c] == Sevens(c - 1) + [9]
  {
  }

  lemma ContentsOf(u: Volume, f: nat, c: nat)
    requires Sized(u) && f in u.files && u.files[f].size == c < TWO_32
    ensures Contents(u, f) == Image(u, f)[..c]
  {
  }

  lemma SevensThenNine(v: Volume, w: Volume, u: Volume, f: nat, c: nat)
    requires 1 < c < TWO_32 - 1 && Sized(v) && Sized(w) && Sized(u) && f in v.files && f in w.files && f in u.files
    requires Image(w, f) == WriteSpec(Image(v, f), 0, Sevens(c)) && Image(u, f) == WriteSpec(Image(w, f), c - 1, [9])
    requires u.files[f].size == c
    ensures Contents(u, f) == Sevens(c - 1) + [9]
  {
    SevensNine(Image(v, f), Image(w, f), Image(u, f), c);
    ContentsOf(u, f, c);
  }

  /** One byte more than a block of sevens, with room for one block. */
  method WriteSevens(fs: Ext2, h: Handle, c: nat) returns (rc: int)
    requires Whole(fs.Valid()) && fs.Opened(h) && !fs.readOnly && h.position == 0 && c == 4 * fs.p < TWO_32 - 1
    requires h.inode.size == 0 && h.inode.block[0] == 0 && h.inode.block[1] == 0 && fs.blocks.totalFree == 1
    modifies fs`disk, fs`files, fs`inodes, fs.blocks, h`inode, h`fileSize, h`position
    ensures Whole(fs.Valid()) && fs.Opened(h) && rc == -ENOSPC && fs.blocks.totalFree == 0 && h.inode.size == 0
    ensures Sized(old(fs.Vol())) && Sized(fs.Vol()) && h.ino in old(fs.files)
    ensures Image(fs.Vol(), h.ino) == WriteSpec(Image(old(fs.Vol()), h.ino), 0, Sevens(c))
  {
    ghost var v := fs.Vol();
    var sevens := Sevens(c + 1);
    ghost var n;
    rc, n := fs.Write(h, sevens);
    CutAtBlock(v, h.ino, c, c + 1, n, fs.blocks.totalFree);
    assert sevens[..c] == Sevens(c);
    OutcomeImage(v, fs.Vol(), h.ino, 0, sevens, n, Sevens(c));
  }

  /** One byte over a byte that shows, with no room for a block. */
  method Overwrite(fs: Ext2, h: Handle, at: nat, buf: seq<Byte>) returns (rc: int)
    requires Whole(fs.Valid()) && fs.Opened(h) && !fs.readOnly && h.position == at < TWO_32 - 1 && |buf| == 1
    requires fs.blocks.totalFree == 0 && h.inode.size <= at && Image(fs.Vol(), h.ino)[at] != 0
    modifies fs`disk, fs`files, fs`inodes, fs.blocks, h`inode, h`fileSize, h`position
    ensures Whole(fs.Valid()) && fs.Opened(h) && rc == 1 && h.inode.size == at + 1
    ensures Sized(old(fs.Vol())) && Sized(fs.Vol()) && h.ino in old(fs.files)
    ensures Image(fs.Vol(), h.ino) == WriteSpec(Image(old(fs.Vol()), h.ino), at, buf)
  {
    ghost var w := fs.Vol();
    ghost var m;
    ImageShows(w, h.ino, at);
    rc, m := fs.Write(h, buf);
    NoCost(w, h.ino, at, m, fs.blocks.totalFree);
    assert buf[..1] == buf;
    OutcomeImage(w, fs.Vol(), h.ino, at, buf, m, buf);
  }

  /** A run that leaves bytes behind: on a volume with one free block, one byte more than a block of
      sevens goes to an empty file, which stays empty; then a 9 goes to the last byte of the block.
      Where a byte array would hold zeros in front of it, the file holds the sevens. */
  method LeftoverRun(fs: Ext2, h: Handle) returns (rc: int, again: int)
    requires Whole(fs.Valid()) && fs.Opened(h) && !fs.readOnly && h.position == 0 && 4 * fs.p < TWO_32 - 1
    requires h.inode.size == 0 && h.inode.block[0] == 0 && h.inode.block[1] == 0 && fs.blocks.totalFree == 1
    modifies fs`disk, fs`files, fs`inodes, fs.blocks, h`inode, h`fileSize, h`position
    ensures Whole(fs.Valid()) && fs.Opened(h) && rc == -ENOSPC && again == 1
    ensures Sized(fs.Vol()) && Contents(fs.Vol(), h.ino) == Sevens(4 * fs.p - 1) + [9]
    ensures WriteSpec([], 4 * fs.p - 1, [9]) == Zeros(4 * fs.p - 1) + [9]
  {
    ghost var v := fs.Vol();
    var c := 4 * fs.p;
    rc := WriteSevens(fs, h, c);
    ghost var w := fs.Vol();
    assert Image(w, h.ino)[c - 1] == 7;
    h.position := c - 1;
    again := Overwrite(fs, h, c - 1, [9]);
    SevensThenNine(v, w, fs.Vol(), h.ino, c);
  }
}
