/** Whole runs of writes and truncations on a FAT32 volume, whatever the calls return. */
module FatRun {
  import opened Invariants
  import opened Arith
  import opened Bytes
  import opened FileSpec
  import opened FileRun
  import opened FatChains
  import opened FatFiles
  import opened Fat32

  /** The volume and the sizes in the directory entries. */
  datatype State = State(v: Volume, sizes: map<nat, nat>)

  ghost predicate Good(s: State) {
    Sound(s.v) && s.sizes.Keys == s.v.chains.Keys
  }

  function Sizes(entries: map<nat, Entry>): map<nat, nat> {
    map f | f in entries :: entries[f].size
  }

  ghost function Now(fs: Fat32): State
    requires fs.table.Valid()
    reads fs, fs.table
  {
    State(fs.Vol(), Sizes(fs.entries))
  }

  /** One call: no other file changes, and the bytes that reached the file are where they belong. */
  ghost predicate Step(a: State, b: State, op: Op) {
    && Good(a) && Good(b) && Proper(op) && op.f in a.sizes && OthersKept(a.v, b.v, op.f)
    && b.sizes == a.sizes[op.f := Resized(a.sizes[op.f], op)]
    && match op
       case Write(f, at, data, n, ring) => !ring && Wrote(a.v, b.v, f, Low32(at), data[..n])
       case Truncate(f) => TailZero(b.v, f, 0)
  }

  /** How much of `buf` a write stored that returned `rc`. */
  function Reached(rc: int): nat {
    if rc < 0 then 0 else rc
  }

  lemma WriteEffect(v: Volume, w: Volume, f: nat, size: nat, after: nat, at: nat, to: int, buf: seq<Byte>, rc: int)
    requires Whole(Outcome(v, w, f, size, after, at, to, buf, rc)) && buf != []
    ensures Reached(rc) <= |buf| && Whole(Wrote(v, w, f, Low32(at), buf[..Reached(rc)]))
    ensures Whole(OthersKept(v, w, f)) && after == Resized(size, Write(f, at, buf, Reached(rc), false))
  {
  }

  lemma NoEffect(v: Volume, f: nat, size: nat, at: nat)
    requires Whole(Sound(v))
    ensures Whole(Wrote(v, v, f, Low32(at), [])) && Whole(OthersKept(v, v, f))
    ensures size == Resized(size, Write(f, at, [], 0, false))
  {
  }

  lemma SizeOf(c: nat, chains: Chains, was: map<nat, Entry>, now: map<nat, Entry>, f: nat)
    requires Whole(Listed(c, chains, now)) && Whole(Relisted(was, now, f))
    ensures Sizes(now).Keys == chains.Keys && Sizes(now) == Sizes(was)[f := now[f].size]
  {
  }

  lemma WriteIsStep(v: Volume, w: Volume, sizes: map<nat, nat>, after: map<nat, nat>, f: nat, at: nat,
    buf: seq<Byte>, n: nat)
    requires Whole(OthersKept(v, w, f)) && sizes.Keys == v.chains.Keys && after.Keys == w.chains.Keys && f in sizes
    requires n <= |buf| && Whole(Wrote(v, w, f, Low32(at), buf[..n]))
    requires f in after && after == sizes[f := after[f]] && after[f] == Resized(sizes[f], Write(f, at, buf, n, false))
    ensures Whole(Step(State(v, sizes), State(w, after), Write(f, at, buf, n, false)))
  {
    assert Step(State(v, sizes), State(w, after), Write(f, at, buf, n, false));
  }

  lemma TruncateIsStep(a: State, b: State, f: nat)
    requires Whole(OthersKept(a.v, b.v, f)) && a.sizes.Keys == a.v.chains.Keys && b.sizes.Keys == b.v.chains.Keys
    requires Sound(b.v) && f in b.v.chains && Whole(TailZero(b.v, f, 0)) && f in a.sizes && b.sizes == a.sizes[f := 0]
    ensures Whole(Step(a, b, Truncate(f)))
  {
    assert Step(a, b, Truncate(f));
  }

  /** Every write is a step, whatever it returns. */
  method WriteStep(fs: Fat32, h: Handle, buf: seq<Byte>) returns (rc: int)
    requires Whole(fs.Valid()) && fs.Opened(h) && 0 <= h.position
    modifies fs.table, fs`data, fs`chains, fs`place, fs`entries, h`first, h`size, h`position
    ensures Whole(fs.Valid()) && fs.Opened(h) && Reached(rc) <= |buf|
    ensures Whole(Step(old(Now(fs)), Now(fs), Write(h.id, old(h.position), buf, Reached(rc), false)))
  {
    ghost var v, was, size, at: nat := fs.Vol(), fs.entries, h.size, h.position;
    RelistedSame(was, h.id);
    SizeOf(fs.c, fs.chains, was, was, h.id);
    rc := fs.Write(h, buf);
    if buf == [] {
      NoEffect(v, h.id, size, at);
    } else {
      WriteEffect(v, fs.Vol(), h.id, size, h.size, at, h.position, buf, rc);
    }
    SizeOf(fs.c, fs.chains, was, fs.entries, h.id);
    WriteIsStep(v, fs.Vol(), Sizes(was), Sizes(fs.entries), h.id, at, buf, Reached(rc));
  }

  method TruncateStep(fs: Fat32, h: Handle) returns (rc: int)
    requires Whole(fs.Valid()) && fs.Opened(h)
    modifies fs.table, fs`entries, fs`chains, h`first, h`size
    ensures Whole(fs.Valid()) && fs.Opened(h)
    ensures Whole(Step(old(Now(fs)), Now(fs), Truncate(h.id)))
  {
    ghost var v, was := fs.Vol(), fs.entries;
    RelistedSame(was, h.id);
    SizeOf(fs.c, fs.chains, was, was, h.id);
    rc := fs.Truncate(h);
    SizeOf(fs.c, fs.chains, was, fs.entries, h.id);
    TruncateIsStep(State(v, Sizes(was)), Now(fs), h.id);
  }

  ghost predicate Run(states: seq<State>, ops: seq<Op>) {
    && |states| == |ops| + 1
    && forall i :: 0 <= i < |ops| ==> Step(states[i], states[i + 1], ops[i])
  }

  ghost predicate ShowsFile(s: State, f: nat, x: File)
    requires Good(s) && f in s.sizes
  {
    s.sizes[f] == x.size && forall i: nat :: ByteAt(s.v, f, i) == ByteOf(x, i)
  }

  /** Every file on the volume is the file of the same number. */
  ghost predicate Shows(s: State, files: map<nat, File>) {
    && Good(s) && s.sizes.Keys == files.Keys
    && forall f :: f in files ==> ShowsFile(s, f, files[f])
  }

  lemma ShownContents(s: State, files: map<nat, File>, f: nat)
    requires Shows(s, files) && f in files
    ensures Contents(s.v, f, s.sizes[f]) == Text(files[f])
  {
    assert ShowsFile(s, f, files[f]);
  }

  lemma StepShows(a: State, b: State, op: Op, files: map<nat, File>)
    requires Step(a, b, op) && Shows(a, files)
    ensures op.f in files && Shows(b, files[op.f := Apply(files[op.f], op)])
  {
    var x, y := files[op.f], Apply(files[op.f], op);
    assert ShowsFile(a, op.f, x);
    forall i: nat ensures ByteAt(b.v, op.f, i) == ByteOf(y, i) {
      assert ByteAt(a.v, op.f, i) == ByteOf(x, i);
    }
    forall f | f in files && f != op.f ensures ShowsFile(b, f, files[f]) {
      assert ShowsFile(a, f, files[f]);
    }
  }

  /** After any sequence of calls on any files, at any positions, with any results (short writes on a
      full disk and ends past 2^32 included) every byte of every file is the one the calls stored.
      Clusters that a truncation gave back and another file took over never show their old bytes. */
  lemma {:induction false} RunShows(states: seq<State>, ops: seq<Op>, files: map<nat, File>)
    requires Run(states, ops) && Shows(states[0], files)
    ensures Calls(files, ops) && Shows(states[|ops|], Replay(files, ops))
    decreases |ops|
  {
    if ops != [] {
      assert Step(states[0], states[1], ops[0]);
      StepShows(states[0], states[1], ops[0], files);
      var rest, tail := states[1..], ops[1..];
      forall i | 0 <= i < |tail| ensures Step(rest[i], rest[i + 1], tail[i]) {
        assert Step(states[i + 1], states[i + 2], ops[i + 1]);
      }
      RunShows(rest, tail, files[ops[0].f := Apply(files[ops[0].f], ops[0])]);
      forall i | 1 <= i < |ops| ensures ops[i].f in files && Proper(ops[i]) {
        assert ops[i] == tail[i - 1];
      }
    }
  }

  ghost predicate Tidy(s: State) {
    Good(s) && forall f :: f in s.sizes ==> s.sizes[f] < TWO_32 && TailZero(s.v, f, s.sizes[f])
  }

  ghost function AllContents(s: State): map<nat, seq<Byte>>
    requires Good(s)
  {
    map f | f in s.sizes :: Contents(s.v, f, s.sizes[f])
  }

  ghost function AllApart(s: State): map<nat, File>
    requires Good(s)
  {
    map f | f in s.sizes :: File(Contents(s.v, f, s.sizes[f]), s.sizes[f])
  }

  lemma ApartShows(s: State)
    requires Tidy(s)
    ensures Shows(s, AllApart(s)) && AllClean(AllApart(s)) && Texts(AllApart(s)) == AllContents(s)
  {
    forall f | f in s.sizes
      ensures var x := AllApart(s)[f]; ShowsFile(s, f, x) && Clean(x) && Text(x) == Contents(s.v, f, s.sizes[f])
    {
    }
  }

  lemma ShownAll(s: State, files: map<nat, File>)
    requires Shows(s, files)
    ensures AllContents(s) == Texts(files)
  {
    forall f | f in files ensures Contents(s.v, f, s.sizes[f]) == Text(files[f]) {
      ShownContents(s, files, f);
    }
  }

  /** The contents of all files after any run of completed writes and truncations are those the byte
      arrays have after the same calls, with zeros in the gaps. */
  lemma RunContents(states: seq<State>, ops: seq<Op>)
    requires Run(states, ops) && Tidy(states[0]) && forall i :: 0 <= i < |ops| ==> Completed(ops[i])
    ensures Good(states[|ops|]) && forall i :: 0 <= i < |ops| ==> ops[i].f in states[0].sizes
    ensures AllContents(states[|ops|]) == Edited(AllContents(states[0]), ops)
  {
    var files := AllApart(states[0]);
    ApartShows(states[0]);
    RunShows(states, ops, files);
    CompletedRun(files, ops);
    ShownAll(states[|ops|], Replay(files, ops));
  }

  lemma SevensThenNine(v: Volume, w: Volume, u: Volume, f: nat, c: nat)
    requires 1 < c && Whole(Wrote(v, w, f, 0, Sevens(c))) && Whole(Wrote(w, u, f, c - 1, [9])) && f in v.chains
    ensures Sound(u) && f in u.chains && Contents(u, f, c) == Sevens(c - 1) + [9]
  {
    var s, t := Contents(u, f, c), Sevens(c - 1) + [9];
    forall x | 0 <= x < c ensures s[x] == t[x] {
      assert ByteAt(u, f, x) == if c - 1 <= x < c then [9][x - (c - 1)] else ByteAt(w, f, x);
    }
  }

  lemma CutAtCluster(v: Volume, w: Volume, f: nat, n: nat, rc: int)
    requires f in v.chains && v.chains[f] == [] && Spare(v.fat) == 1 && 1 < v.c && n == v.c + 1
    requires Whole(Counts(v, w, f, 0, n, rc))
    ensures rc == v.c && f in w.chains && Capacity(w, f) == 1
  {
    assert Times(v.c, 1) == v.c;
  }

  lemma LastByteFits(w: Volume, u: Volume, f: nat, pos: nat, rc: int)
    requires f in w.chains && Capacity(w, f) == 1 && pos < w.c && Whole(Counts(w, u, f, pos, 1, rc))
    ensures rc == 1
  {
    assert Times(w.c, 1) == w.c;
  }

  lemma OneWritten(v: Volume, w: Volume, f: nat, size: nat, after: nat, at: nat, to: int, buf: seq<Byte>, rc: int)
    requires Whole(Outcome(v, w, f, size, after, at, to, buf, rc)) && |buf| == rc == 1 && size <= at < TWO_32 - 1
    ensures Whole(Wrote(v, w, f, at, buf)) && after == at + 1
  {
    assert Stored(buf, rc) == buf;
  }

  /** One byte inside the only cluster of a file that has no room for another. */
  method Overwrite(fs: Fat32, h: Handle, pos: nat, buf: seq<Byte>) returns (rc: int)
    requires Whole(fs.Valid()) && fs.Opened(h) && h.position == pos && pos < fs.c && pos < TWO_32 - 1 && |buf| == 1
    requires h.id in fs.chains && Capacity(fs.Vol(), h.id) == 1 && h.size <= pos
    modifies fs.table, fs`data, fs`chains, fs`place, fs`entries, h`first, h`size, h`position
    ensures Whole(fs.Valid()) && fs.Opened(h) && rc == 1 && h.size == pos + 1
    ensures Whole(Wrote(old(fs.Vol()), fs.Vol(), h.id, pos, buf))
  {
    ghost var w, size := fs.Vol(), h.size;
    rc := fs.Write(h, buf);
    LastByteFits(w, fs.Vol(), h.id, pos, rc);
    OneWritten(w, fs.Vol(), h.id, size, h.size, pos, h.position, buf, rc);
  }

  method WriteSevens(fs: Fat32, h: Handle) returns (rc: int)
    requires Whole(fs.Valid()) && fs.Opened(h) && h.first == 0 && h.size == 0 && h.position == 0
    requires Spare(fs.table.View()) == 1 && 1 < fs.c < TWO_32 - 1
    modifies fs.table, fs`data, fs`chains, fs`place, fs`entries, h`first, h`size, h`position
    ensures Whole(fs.Valid()) && fs.Opened(h) && rc == fs.c && h.size == 0 && h.id in old(fs.chains)
    ensures Whole(Wrote(old(fs.Vol()), fs.Vol(), h.id, 0, Sevens(fs.c)))
    ensures h.id in fs.chains && Capacity(fs.Vol(), h.id) == 1
  {
    ghost var v := fs.Vol();
    StartsEmpty(v, fs.entries, h.id);
    var sevens := Sevens(fs.c + 1);
    rc := fs.Write(h, sevens);
    CutAtCluster(v, fs.Vol(), h.id, fs.c + 1, rc);
    assert Stored(sevens, rc) == Sevens(fs.c);
  }

  /** A run that leaves bytes behind: on a volume with one free cluster, one byte more than a cluster
      of sevens goes to an empty file, which stays empty; then a 9 goes to the last byte of the
      cluster. Where a byte array would hold zeros in front of it, the file holds the sevens. */
  method LeftoverRun(fs: Fat32, h: Handle) returns (rc: int, again: int)
    requires Whole(fs.Valid()) && fs.Opened(h) && h.first == 0 && h.size == 0 && h.position == 0
    requires Spare(fs.table.View()) == 1 && 1 < fs.c < TWO_32 - 1
    modifies fs.table, fs`data, fs`chains, fs`place, fs`entries, h`first, h`size, h`position
    ensures Whole(fs.Valid()) && fs.Opened(h) && rc == fs.c && again == 1
    ensures h.id in fs.chains && Contents(fs.Vol(), h.id, h.size) == Sevens(fs.c - 1) + [9]
    ensures WriteSpec([], fs.c - 1, [9]) == Zeros(fs.c - 1) + [9]
  {
    ghost var v := fs.Vol();
    rc := WriteSevens(fs, h);
    ghost var w := fs.Vol();
    h.position := fs.c - 1;
    again := Overwrite(fs, h, fs.c - 1, [9]);
    SevensThenNine(v, w, fs.Vol(), h.id, fs.c);
  }
}
