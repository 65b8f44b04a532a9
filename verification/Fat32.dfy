/** The mounted FAT32 volume: cluster allocation and file reads and writes. */
module Fat32 {
  import opened Errno
  import opened Invariants
  import opened Arith
  import opened Bytes
  import opened FileSpec
  import opened FatTable
  import opened FatChains
  import opened FatFiles
  import opened FatLayout

  /** What a directory entry says of a file. */
  datatype Entry = Entry(first: nat, size: nat)

  /** A file's directory entry fits its chain: the chain starts there and holds the whole file. */
  ghost predicate Fits(c: nat, chain: seq<nat>, e: Entry) {
    e.first == First(chain) && e.size <= Times(c, |chain|) && e.size < TWO_32
  }

  ghost predicate Listed(c: nat, chains: Chains, entries: map<nat, Entry>) {
    && entries.Keys == chains.Keys
    && forall f {:trigger Fits(c, chains[f], entries[f])} :: f in chains ==> Fits(c, chains[f], entries[f])
  }

  /** Chain `f` may have grown; the others are as they were. */
  ghost predicate Longer(was: Chains, now: Chains, f: nat) {
    f in was && f in now && was[f] <= now[f] && now == was[f := now[f]]
  }

  class Handle {
    var id: nat
    var first: nat
    var size: nat
    var position: int
  }

  /** A position inside a chain at the start of a cluster is in a cluster of the chain. */
  lemma Within(c: nat, i: nat, at: nat, n: nat)
    requires 0 < c
    ensures at == Times(c, i + 1) < Times(c, n) ==> i + 1 < n
  {
    Join(c, i + 1, 0);
    QuotBound(c, Times(c, i + 1), n);
  }

  /** A position inside a file lies in a cluster of its chain. */
  lemma Room(v: Volume, entries: map<nat, Entry>, f: nat, pos: nat)
    requires Whole(Sound(v)) && Whole(Listed(v.c, v.chains, entries)) && f in entries && pos < entries[f].size
    ensures f in v.chains && Quot(v.c, pos) < |v.chains[f]| && v.chains[f][0] == entries[f].first
    ensures entries[f].size <= Times(v.c, |v.chains[f]|)
  {
    assert Fits(v.c, v.chains[f], entries[f]);
    QuotBound(v.c, pos, |v.chains[f]|);
  }

  /** Exactly the clusters of a chain became free. */
  ghost predicate Freed(was: seq<nat>, now: seq<nat>, chain: seq<nat>) {
    |now| == |was| && forall k :: 0 <= k < |was| ==> now[k] == if k in chain then FREE else was[k]
  }

  lemma FreedWhole(v: Volume, w: Volume, f: nat)
    requires Whole(Sound(v)) && f in v.chains && v.chains[f] != []
    requires w == v.(fat := FreeFrom(v.fat, v.chains[f][0]).0, chains := v.chains[f := []])
    ensures Whole(Sound(w)) && Whole(OthersKept(v, w, f)) && Whole(TailZero(w, f, 0)) &&
      Whole(Freed(v.fat, w.fat, v.chains[f]))
  {
    ChainPath(v.fat, v.chains, v.place, f);
    FreesChain(v.fat, v.chains[f]);
    FreedOthers(v, w, f);
  }

  lemma ListedEmpty(c: nat, chains: Chains, entries: map<nat, Entry>, f: nat)
    requires Whole(Listed(c, chains, entries)) && f in chains
    ensures Whole(Listed(c, chains[f := []], entries[f := Entry(0, 0)]))
  {
    var cs, es := chains[f := []], entries[f := Entry(0, 0)];
    forall g | g in cs ensures Fits(c, cs[g], es[g]) {
      assert Fits(c, chains[g], entries[g]);
    }
  }

  lemma EmptyZero(v: Volume, f: nat)
    requires Whole(Sound(v)) && f in v.chains && v.chains[f] == []
    ensures Whole(OthersKept(v, v, f)) && Whole(TailZero(v, f, 0)) && Whole(Freed(v.fat, v.fat, v.chains[f]))
  {
    forall i: nat ensures Piece(v, f, i) == Zeros(v.c) {
    }
  }

  lemma SizeFits(c: nat, chains: Chains, entries: map<nat, Entry>, f: nat)
    requires Whole(Listed(c, chains, entries)) && f in entries
    ensures f in chains && entries[f].size < TWO_32
  {
    assert Fits(c, chains[f], entries[f]);
  }

  /** No directory entry but that of `f` has changed. */
  ghost predicate Relisted(was: map<nat, Entry>, now: map<nat, Entry>, f: nat) {
    f in now && now == was[f := now[f]]
  }

  lemma RelistedTwice(was: map<nat, Entry>, mid: map<nat, Entry>, now: map<nat, Entry>, f: nat)
    requires Whole(Relisted(was, mid, f)) && Whole(Relisted(mid, now, f))
    ensures Whole(Relisted(was, now, f))
  {
  }

  lemma RelistedSame(entries: map<nat, Entry>, f: nat)
    requires f in entries
    ensures Whole(Relisted(entries, entries, f))
  {
  }

  lemma RelistedOne(entries: map<nat, Entry>, f: nat, e: Entry)
    ensures Whole(Relisted(entries, entries[f := e], f))
  {
  }

  lemma AllOf(buf: seq<Byte>, n: nat)
    requires n == |buf|
    ensures buf[..n] == buf
  {
  }

  lemma Wrapped(at: nat, n: nat)
    ensures Low32(at + n) <= Low32(at) + n && Low32(at + n) < TWO_32
  {
  }

  lemma ListedResize(c: nat, chains: Chains, entries: map<nat, Entry>, f: nat, size: nat)
    requires Whole(Listed(c, chains, entries)) && f in chains && size <= Times(c, |chains[f]|) && size < TWO_32
    ensures f in entries && Whole(Listed(c, chains, entries[f := Entry(entries[f].first, size)]))
  {
    assert Fits(c, chains[f], entries[f]);
    var es := entries[f := Entry(entries[f].first, size)];
    forall g | g in chains ensures Fits(c, chains[g], es[g]) {
      assert Fits(c, chains[g], entries[g]);
    }
  }

  lemma KeptOthers(v: Volume, w: Volume, f: nat, pos: nat, d: seq<Byte>)
    requires Whole(Wrote(v, w, f, pos, d))
    ensures Whole(OthersKept(v, w, f))
  {
  }

  /** The bytes that reached the file when a write of `buf` returned `rc`. */
  function Stored(buf: seq<Byte>, rc: int): seq<Byte>
    requires rc <= |buf|
  {
    if rc < 0 then [] else buf[..rc]
  }

  /** What a write of `buf` at `at` has done that returned the full count. */
  ghost predicate WriteDone(v: Volume, w: Volume, f: nat, size: nat, after: nat, at: nat, buf: seq<Byte>) {
    && f in v.chains && Wrote(v, w, f, Low32(at), buf)
    && after == (if Low32(at + |buf|) > size then Low32(at + |buf|) else size)
    && (Contents(w, f, after) == WriteSpec(Contents(v, f, size), at, buf) <==>
          at + |buf| < TWO_32 && GapZero(v, f, size, at))
    && (TailZero(v, f, size) && at + |buf| < TWO_32 ==> TailZero(w, f, after))
  }

  lemma Done(v: Volume, w: Volume, f: nat, size: nat, after: nat, at: nat, end: nat, pos: nat, buf: seq<Byte>,
    d: seq<Byte>)
    requires f in v.chains && Whole(Wrote(v, w, f, pos, d)) && pos == Low32(at) && d == buf && size < TWO_32 &&
      buf != []
    requires end == at + |buf| && after == (if Low32(end) > size then Low32(end) else size)
    ensures Whole(WriteDone(v, w, f, size, after, at, buf))
  {
    if at + |buf| < TWO_32 {
      WrittenContents(v, w, f, size, at, buf);
    }
    assert |Contents(w, f, after)| == after < TWO_32;
  }

  lemma FirstUsed(v: Volume, f: nat)
    requires Sound(v) && f in v.chains && v.chains[f] != []
    ensures 2 <= First(v.chains[f])
  {
  }

  lemma StartsEmpty(v: Volume, entries: map<nat, Entry>, f: nat)
    requires Whole(Sound(v)) && Whole(Listed(v.c, v.chains, entries)) && f in entries && entries[f].first == 0
    ensures f in v.chains && v.chains[f] == []
  {
    assert Fits(v.c, v.chains[f], entries[f]);
    if v.chains[f] != [] { FirstUsed(v, f); }
  }

  lemma NotEmpty(v: Volume, entries: map<nat, Entry>, f: nat)
    requires Whole(Sound(v)) && Whole(Listed(v.c, v.chains, entries)) && f in entries && entries[f].first != 0
    ensures f in v.chains && v.chains[f] != [] && v.chains[f][0] == entries[f].first
  {
    assert Fits(v.c, v.chains[f], entries[f]);
  }

  lemma ListedStart(c: nat, chains: Chains, entries: map<nat, Entry>, f: nat, k: nat, e: Entry)
    requires Whole(Listed(c, chains, entries)) && f in chains && chains[f] == [] && e == Entry(k, entries[f].size)
    ensures Whole(Listed(c, chains[f := [k]], entries[f := e]))
  {
    var cs, es := chains[f := [k]], entries[f := e];
    forall g | g in cs ensures Fits(c, cs[g], es[g]) {
      assert Fits(c, chains[g], entries[g]);
    }
  }

  lemma ListedLonger(c: nat, was: Chains, now: Chains, entries: map<nat, Entry>, f: nat)
    requires Whole(Listed(c, was, entries)) && Whole(Longer(was, now, f)) && was[f] != []
    ensures Whole(Listed(c, now, entries))
  {
    LongerHolds(c, was, now, f);
    forall g | g in now ensures Fits(c, now[g], entries[g]) {
      assert Fits(c, was[g], entries[g]);
    }
  }

  /** What ends in a cluster of a chain lies within the chain. */
  lemma Covered(c: nat, i: nat, n: nat, end: nat)
    requires i < n && end <= Times(c, i + 1)
    ensures end <= Times(c, n)
  {
    if i + 1 < n { TimesOrder(c, i + 1, n); }
  }

  lemma LongerHolds(c: nat, was: Chains, now: Chains, f: nat)
    requires Longer(was, now, f)
    ensures Times(c, |was[f]|) <= Times(c, |now[f]|)
  {
    if |was[f]| < |now[f]| { TimesOrder(c, |was[f]|, |now[f]|); }
  }

  /** `d` was written at `pos` of file `f`. For that its chain may have got free clusters, with zeros in
      them; unless `ok`, it got all there were. */
  ghost predicate Poured(v: Volume, w: Volume, f: nat, pos: nat, d: seq<Byte>, ok: bool) {
    Longer(v.chains, w.chains, f) && Wrote(v, w, f, pos, d) && Drawn(v, w, f, ok)
  }

  lemma PouredNone(v: Volume, f: nat, pos: nat)
    requires Whole(Sound(v)) && f in v.chains
    ensures Whole(Poured(v, v, f, pos, [], true))
  {
    WroteNothing(v, f, pos);
  }

  lemma PouredNowhere(v: Volume, w: Volume, f: nat, pos: nat, ok: bool)
    requires Whole(Poured(v, w, f, 0, [], ok))
    ensures Whole(Poured(v, w, f, pos, [], ok)) && Whole(Wrote(v, w, f, pos, []))
  {
  }

  /** Growing a chain afterwards makes no difference to what was written. */
  lemma PouredThen(v: Volume, w: Volume, u: Volume, f: nat, pos: nat, d: seq<Byte>, ok: bool)
    requires Whole(Poured(v, w, f, pos, d, true)) && Whole(Poured(w, u, f, 0, [], ok))
    ensures Whole(Poured(v, u, f, pos, d, ok))
  {
    forall g, x: nat | g in v.chains ensures ByteAt(u, g, x) == ByteAt(w, g, x) {
    }
  }

  /** More of a buffer goes into clusters that are there. */
  lemma PouredOn(v: Volume, w: Volume, u: Volume, f: nat, pos: nat, buf: seq<Byte>, n: nat, take: nat)
    requires n + take <= |buf| && Whole(Poured(v, w, f, pos, buf[..n], true)) && u == w.(data := u.data)
    requires Whole(Wrote(w, u, f, pos + n, buf[n..n + take]))
    ensures Whole(Poured(v, u, f, pos, buf[..n + take], true))
  {
    var done, chunk := buf[..n], buf[n..n + take];
    assert done + chunk == buf[..n + take];
    WroteMore(v, w, u, f, pos, done, chunk);
  }

  /** What a write of `n > 0` bytes at `pos` returns when its file can have `cap` clusters. */
  function Counted(c: nat, cap: nat, pos: nat, n: nat): int {
    if pos + n <= Times(c, cap) then n else if pos < Times(c, cap) then Times(c, cap) - pos else -ENOSPC
  }

  /** The count `rc` and the clusters drawn for it. */
  ghost predicate Counts(v: Volume, w: Volume, f: nat, pos: nat, n: nat, rc: int) {
    Drawn(v, w, f, rc == n) && rc == Counted(v.c, Capacity(v, f), pos, n)
  }

  /** A chain that ends at or before `pos`, with no cluster left. */
  lemma NoRoom(v: Volume, w: Volume, f: nat, pos: nat, n: nat)
    requires Whole(Poured(v, w, f, 0, [], false)) && 0 < v.c && f in w.chains && 0 < n
    requires |w.chains[f]| <= Quot(v.c, pos)
    ensures Whole(Counts(v, w, f, pos, n, -ENOSPC)) && Whole(Wrote(v, w, f, pos, []))
  {
    QuotBound(v.c, pos, |w.chains[f]|);
  }

  /** `written` of `n` bytes lie within the chain, and if there are more the chain is full. */
  lemma CountIs(v: Volume, w: Volume, f: nat, pos: nat, n: nat, written: nat, d: seq<Byte>)
    requires Whole(Poured(v, w, f, pos, d, written == n)) && written <= n && f in w.chains
    requires pos + written <= Times(v.c, |w.chains[f]|)
    requires 0 < n && (written < n ==> pos + written == Times(v.c, |w.chains[f]|) && 0 < written)
    ensures Whole(Counts(v, w, f, pos, n, written)) && Whole(Wrote(v, w, f, pos, d))
  {
    if |w.chains[f]| < Capacity(v, f) { TimesOrder(v.c, |w.chains[f]|, Capacity(v, f)); }
  }

  /** What a write of `buf` at `at` has done that returned `rc`; the position is `to` and the size
      `after` then. */
  ghost predicate Outcome(v: Volume, w: Volume, f: nat, size: nat, after: nat, at: nat, to: int, buf: seq<Byte>,
    rc: int)
  {
    && rc <= |buf| && OthersKept(v, w, f) && Wrote(v, w, f, Low32(at), Stored(buf, rc))
    && (rc < |buf| ==> to == at && after == size)
    && (rc == |buf| ==> to == at + |buf| && WriteDone(v, w, f, size, after, at, buf))
  }

  /** A piece of the contents is what is on the disk there. */
  lemma BytesRead(v: Volume, row: seq<Raw>, entries: map<nat, Entry>, f: nat, pos: nat, out: seq<Byte>, size: nat)
    requires Whole(Sound(v)) && v.fat == Lows(row) && Whole(Listed(v.c, v.chains, entries)) && f in entries
    requires f in v.chains && pos + |out| <= size && out == Contents(v, f, size)[pos..pos + |out|]
    ensures 0 < v.c && Whole(Shown(v.c, row, v.data, entries[f].first, pos, out))
  {
    assert Fits(v.c, v.chains[f], entries[f]);
    forall k | 0 <= k < |out| ensures out[k] == OnDisk(v.c, row, v.data, entries[f].first, pos + k) {
      ByteIs(v, row, f, pos + k);
      assert out[k] == Contents(v, f, size)[pos + k];
    }
  }

  /** No byte on the disk of a file but `f` is different. */
  ghost predicate Elsewhere(c: nat, was: seq<Raw>, held: seq<Cluster>, before: map<nat, Entry>, row: seq<Raw>,
    data: seq<Cluster>, after: map<nat, Entry>, f: nat)
    requires 0 < c && before.Keys == after.Keys
  {
    forall g, x: nat :: g in after && g != f ==>
      OnDisk(c, row, data, after[g].first, x) == OnDisk(c, was, held, before[g].first, x)
  }

  lemma ElsewhereBy(v: Volume, w: Volume, was: seq<Raw>, row: seq<Raw>, before: map<nat, Entry>,
    after: map<nat, Entry>, f: nat)
    requires OthersKept(v, w, f) && v.fat == Lows(was) && w.fat == Lows(row)
    requires Listed(v.c, v.chains, before) && Listed(w.c, w.chains, after)
    ensures Elsewhere(v.c, was, v.data, before, row, w.data, after, f)
  {
    forall g, x: nat | g in after && g != f
      ensures OnDisk(w.c, row, w.data, after[g].first, x) == OnDisk(v.c, was, v.data, before[g].first, x)
    {
      assert Fits(v.c, v.chains[g], before[g]) && Fits(w.c, w.chains[g], after[g]);
      ByteIs(v, was, g, x);
      ByteIs(w, row, g, x);
      assert ByteAt(w, g, x) == ByteAt(v, g, x);
    }
  }

  /** Where the bytes of a write are on the disk. */
  lemma OutcomeLaid(v: Volume, w: Volume, was: seq<Raw>, row: seq<Raw>, before: map<nat, Entry>,
    after: map<nat, Entry>, f: nat, size: nat, now: nat, at: nat, to: int, buf: seq<Byte>, rc: int)
    requires Whole(Outcome(v, w, f, size, now, at, to, buf, rc)) && v.fat == Lows(was) && w.fat == Lows(row)
    requires Whole(Listed(v.c, v.chains, before)) && Whole(Listed(w.c, w.chains, after)) && f in before
    ensures 0 < v.c && f in after && before.Keys == after.Keys && rc <= |buf|
    ensures Whole(Laid(v.c, was, v.data, before[f].first, row, w.data, after[f].first, Low32(at), Stored(buf, rc)))
    ensures Whole(Elsewhere(v.c, was, v.data, before, row, w.data, after, f))
  {
    assert Fits(v.c, v.chains[f], before[f]) && Fits(w.c, w.chains[f], after[f]);
    LaidBy(v, w, was, row, f, Low32(at), Stored(buf, rc));
    ElsewhereBy(v, w, was, row, before, after, f);
  }

  lemma ShortOutcome(v: Volume, w: Volume, f: nat, size: nat, at: nat, pos: nat, buf: seq<Byte>, rc: int)
    requires pos == Low32(at) && rc < |buf| && Whole(Wrote(v, w, f, pos, Stored(buf, rc)))
    ensures Whole(Outcome(v, w, f, size, size, at, at, buf, rc))
  {
    KeptOthers(v, w, f, pos, Stored(buf, rc));
  }

  lemma FullOutcome(v: Volume, w: Volume, f: nat, size: nat, after: nat, at: nat, to: int, pos: nat, buf: seq<Byte>,
    n: nat)
    requires pos == Low32(at) && to == at + n && n == |buf| > 0 && size < TWO_32 && f in v.chains
    requires after == if Low32(to) > size then Low32(to) else size
    requires Whole(Wrote(v, w, f, pos, Stored(buf, n)))
    ensures Whole(Outcome(v, w, f, size, after, at, to, buf, n))
  {
    KeptOthers(v, w, f, pos, Stored(buf, n));
    AllOf(buf, n);
    Done(v, w, f, size, after, at, to, pos, buf, Stored(buf, n));
  }

  class Fat32 {
    const table: Table
    const c: nat
    var data: seq<Cluster>
    var entries: map<nat, Entry>
    ghost var chains: Chains
    ghost var place: map<nat, Pos>

    ghost function Vol(): Volume
      requires table.Valid()
      reads this, table
    {
      Volume(c, table.View(), data, chains, place)
    }

    ghost predicate Linked()
      reads this, table
    {
      Whole(table.Valid()) && Whole(Sound(Vol()))
    }

    ghost predicate Valid()
      reads this, table
    {
      Linked() && Whole(Listed(c, chains, entries))
    }

    constructor (table: Table, data: seq<Cluster>, c: nat, entries: map<nat, Entry>, ghost chains: Chains,
      ghost place: map<nat, Pos>)
      requires table.Valid() && Sound(Volume(c, table.View(), data, chains, place)) && Listed(c, chains, entries)
      ensures Valid() && this.table == table && this.data == data && this.entries == entries && this.chains == chains
    {
      this.table, this.data, this.c, this.entries, this.chains, this.place := table, data, c, entries, chains, place;
    }

    /** `fat32_alloc_cluster`: the first free cluster, marked as an end. */
    method AllocCluster() returns (rc: int, k: nat)
      requires table.Valid()
      modifies table
      ensures table.Valid() && (rc == 0 || rc == -ENOSPC)
      ensures rc != 0 <==> forall j :: 2 <= j < |old(table.View())| ==> old(table.View())[j] != FREE
      ensures rc != 0 ==> table.View() == old(table.View())
      ensures rc == 0 ==>
        2 <= k < |old(table.View())| && old(table.View())[k] == 0 && table.View() == old(table.View())[k := 0x0FFF_FFF8]
      ensures rc == 0 ==> forall j :: 2 <= j < k ==> old(table.View())[j] != FREE
    {
      k := 2;
      while k < table.entries
        invariant 2 <= k && table.Valid() && table.View() == old(table.View())
        invariant forall j :: 2 <= j < k && j < table.entries ==> table.View()[j] != FREE
      {
        var entry;
        rc, entry := table.Get(k);
        if entry == FREE {
          rc := table.Put(k, EOC);
          return 0, k;
        }
        k := k + 1;
      }
      return -ENOSPC, 0;
    }

    /** `fat32_extend_chain`. A cluster that cannot be linked is given back. */
    method ExtendChain(last: nat) returns (rc: int, k: nat)
      requires table.Valid() && table.entries <= BAD
      modifies table
      ensures table.Valid()
      ensures rc == -ENOSPC <==> forall j :: 2 <= j < |old(table.View())| ==> old(table.View())[j] != FREE
      ensures rc != -ENOSPC ==> rc == if 2 <= last < table.entries then 0 else -EINVAL
      ensures rc != 0 ==> table.View() == old(table.View())
      ensures rc == 0 ==> 2 <= k < |old(table.View())| && old(table.View())[k] == FREE
      ensures rc == 0 ==> table.View() == old(table.View())[k := EOC][last := k]
    {
      rc, k := AllocCluster();
      if rc != 0 { return; }
      rc := table.Put(last, k);
      if rc != 0 {
        var undo := table.Put(k, FREE);
      }
    }

    /** A cluster of a file is written. */
    method Store(ghost f: nat, ghost i: nat, k: nat, t: Cluster)
      requires Whole(Linked()) && f in chains && i < |chains[f]| && k == chains[f][i] && |t| == c
      modifies this`data
      ensures Whole(Linked()) && Whole(Replaced(old(Vol()), Vol(), f, i, t)) && data == old(data)[k := t]
    {
      StoreReplaces(Vol(), f, i, t);
      data := data[k := t];
    }

    /** A cluster of zeros behind a chain: no byte of any file changes. */
    method Grow(ghost f: nat, last: nat) returns (rc: int, k: nat)
      requires Whole(Linked()) && f in chains && chains[f] != [] && last == chains[f][|chains[f]| - 1]
      modifies table, this`data, this`chains, this`place
      ensures Whole(Linked()) && (rc == 0 || rc == -ENOSPC)
      ensures rc != 0 ==> Vol() == old(Vol())
      ensures rc == 0 ==> chains == old(chains)[f := old(chains)[f] + [k]]
      ensures Whole(Poured(old(Vol()), Vol(), f, 0, [], rc == 0))
    {
      ghost var v := Vol();
      rc, k := ExtendChain(last);
      if rc != 0 {
        NoneLeft(v, f);
        WroteNothing(v, f, 0);
        return;
      }
      GrowWrites(v, f, k);
      GrowDraws(v, f, k);
      data := data[k := Zeros(c)];
      place := place[k := Pos(f, |chains[f]|)];
      chains := chains[f := chains[f] + [k]];
      assert Vol() == Extended(Cleared(v, k), f, k);
    }

    /** The cluster after place `i`, made if the chain ends there, with `d` written so far. */
    method Advance(ghost f: nat, ghost i: nat, cluster: nat, ghost pos: nat, ghost d: seq<Byte>, ghost v: Volume)
      returns (rc: int, next: nat)
      requires Whole(Linked()) && f in chains && i < |chains[f]| && cluster == chains[f][i]
      requires Whole(Poured(v, Vol(), f, pos, d, true))
      modifies table, this`data, this`chains, this`place
      ensures Whole(Linked()) && (rc == 0 || rc == -ENOSPC)
      ensures Whole(Poured(v, Vol(), f, pos, d, rc == 0)) && Whole(Longer(old(chains), chains, f))
      ensures f in chains && if rc == 0 then i + 1 < |chains[f]| && next == chains[f][i + 1] else i + 1 == |chains[f]|
    {
      ghost var w := Vol();
      NextCluster(w, f, i);
      rc, next := table.Get(cluster);
      if next >= EOC {
        rc, next := Grow(f, cluster);
        PouredThen(v, w, Vol(), f, pos, d, rc == 0);
      }
    }

    /** The cluster at place `n` of a chain, made if the chain is too short: the first phase of
        `fat32_vfs_write`. Clusters that are made hold zeros, so no file changes. */
    method Walk(ghost f: nat, first: nat, n: nat, ghost v: Volume) returns (rc: int, cluster: nat)
      requires Whole(Linked()) && f in chains && chains[f] != [] && first == chains[f][0]
      requires Whole(Poured(v, Vol(), f, 0, [], true))
      modifies table, this`data, this`chains, this`place
      ensures Whole(Linked()) && (rc == 0 || rc == -ENOSPC)
      ensures Whole(Poured(v, Vol(), f, 0, [], rc == 0)) && Whole(Longer(old(chains), chains, f))
      ensures f in chains && if rc == 0 then n < |chains[f]| && cluster == chains[f][n] else |chains[f]| <= n
    {
      cluster := first;
      for i := 0 to n
        invariant Whole(Linked()) && Whole(Poured(v, Vol(), f, 0, [], true)) && Whole(Longer(old(chains), chains, f))
        invariant f in chains && i < |chains[f]| && cluster == chains[f][i]
      {
        rc, cluster := Advance(f, i, cluster, 0, [], v);
        if rc != 0 { return; }
      }
      rc := 0;
    }

    /** Bytes that fall into one cluster: read it, change it, write it back. */
    method FillOne(ghost f: nat, ghost i: nat, cluster: nat, off: nat, chunk: seq<Byte>, ghost pos: nat)
      requires Whole(Linked()) && f in chains && i < |chains[f]| && cluster == chains[f][i]
      requires off + |chunk| <= c && off < c && pos == Times(c, i) + off
      modifies this`data
      ensures Whole(Linked()) && Whole(Wrote(old(Vol()), Vol(), f, pos, chunk))
    {
      ghost var v := Vol();
      Join(c, i, off);
      var t := Splice(data[cluster], off, chunk);
      Store(f, i, cluster, t);
      PieceWrote(v, Vol(), f, pos, chunk);
    }

    /** As much of `buf` as the cluster takes; `written` bytes of it are out already. */
    method FillHere(ghost f: nat, ghost i: nat, cluster: nat, off: nat, ghost pos: nat, buf: seq<Byte>, written: nat,
      ghost v: Volume)
      returns (more: nat)
      requires Whole(Linked()) && written < |buf| && Next(f, i, cluster, off, pos + written)
      requires Whole(Poured(v, Vol(), f, pos, buf[..written], true))
      modifies this`data
      ensures Whole(Linked()) && written < more <= |buf| && Whole(Poured(v, Vol(), f, pos, buf[..more], true))
      ensures pos + more <= Times(c, i + 1) && (more < |buf| ==> pos + more == Times(c, i + 1))
    {
      var take := if |buf| - written < c - off then |buf| - written else c - off;
      ghost var w := Vol();
      FillOne(f, i, cluster, off, buf[written..written + take], pos + written);
      PouredOn(v, w, Vol(), f, pos, buf, written, take);
      more := written + take;
    }

    /** The next byte goes to offset `off` of `cluster`, at place `i` of the chain. */
    ghost predicate Next(f: nat, i: nat, cluster: nat, off: nat, at: nat)
      reads this
    {
      f in chains && i < |chains[f]| && cluster == chains[f][i] && off < c && at == Times(c, i) + off
    }

    /** A write on its way, at place `i` of the chain: `n` bytes of `buf` are stored from `pos` on. It
        goes on at `cluster`, is at its end, or, with the error `rc`, at the end of the chain. */
    ghost predicate Along(v: Volume, f: nat, i: nat, cluster: nat, off: nat, pos: nat, buf: seq<Byte>, n: nat, rc: int)
      reads this, table
    {
      && Linked() && n <= |buf| && Whole(Poured(v, Vol(), f, pos, buf[..n], n == |buf| || rc == 0))
      && f in chains && i < |chains[f]| && pos + n <= Times(c, i + 1)
      && (n < |buf| && rc == 0 ==> Next(f, i, cluster, off, pos + n))
      && (n < |buf| && rc != 0 ==> 0 < n && pos + n == Times(c, |chains[f]|))
    }

    /** One round: fill the cluster and, if there is more to write, go on to the next. */
    method FillMore(ghost f: nat, ghost i: nat, cluster: nat, off: nat, ghost pos: nat, buf: seq<Byte>, written: nat,
      ghost v: Volume)
      returns (rc: int, next: nat, more: nat, ghost j: nat)
      requires written < |buf| && Whole(Along(v, f, i, cluster, off, pos, buf, written, 0))
      modifies table, this`data, this`chains, this`place
      ensures written < more <= |buf| && Whole(Along(v, f, j, next, 0, pos, buf, more, rc))
      ensures Whole(Longer(old(chains), chains, f))
    {
      more := FillHere(f, i, cluster, off, pos, buf, written, v);
      rc, next, j := 0, cluster, i;
      if more < |buf| {
        rc, next := Advance(f, i, cluster, pos, buf[..more], v);
        if rc == 0 { j := i + 1; }
      }
    }

    /** The second phase of `fat32_vfs_write`: `buf` goes along the chain from `pos` on. */
    method Fill(ghost f: nat, ghost first: nat, start: nat, from: nat, ghost pos: nat, buf: seq<Byte>,
      ghost v: Volume)
      returns (written: nat)
      requires Whole(Linked()) && Next(f, first, start, from, pos) && buf != []
      requires v.c == c && Whole(Poured(v, Vol(), f, 0, [], true))
      modifies table, this`data, this`chains, this`place
      ensures Whole(Linked()) && Whole(Longer(old(chains), chains, f)) && written <= |buf|
      ensures Whole(Wrote(v, Vol(), f, pos, buf[..written])) && Whole(Counts(v, Vol(), f, pos, |buf|, written))
      ensures f in chains && pos + written <= Times(c, |chains[f]|)
    {
      PouredNowhere(v, Vol(), f, pos, true);
      var cluster: nat, off: nat := start, from;
      ghost var i: nat := first;
      written := 0;
      var rc := 0;
      while written < |buf| && rc == 0
        invariant Whole(Along(v, f, i, cluster, off, pos, buf, written, rc)) && Whole(Longer(old(chains), chains, f))
        decreases |buf| - written
      {
        rc, cluster, written, i := FillMore(f, i, cluster, off, pos, buf, written, v);
        off := 0;
      }
      Covered(c, i, |chains[f]|, pos + written);
      CountIs(v, Vol(), f, pos, |buf|, written, buf[..written]);
    }

    /** The handle agrees with the directory entry of its file. */
    ghost predicate Opened(h: Handle)
      reads this, h
    {
      h.id in entries && entries[h.id] == Entry(h.first, h.size)
    }

    /** The first cluster of an empty file: cleared, and entered in the directory. */
    method Start(h: Handle) returns (rc: int)
      requires Whole(Valid()) && Opened(h) && h.first == 0
      modifies table, this`data, this`chains, this`place, this`entries, h`first
      ensures Whole(Valid()) && Opened(h) && (rc == 0 || rc == -ENOSPC)
      ensures rc != 0 ==> Vol() == old(Vol()) && entries == old(entries)
      ensures rc == 0 ==> chains == old(chains)[h.id := [h.first]]
      ensures Whole(Relisted(old(entries), entries, h.id))
      ensures Whole(Poured(old(Vol()), Vol(), h.id, 0, [], rc == 0))
      ensures h.id in chains && (rc != 0 ==> chains[h.id] == [])
    {
      ghost var v := Vol();
      StartsEmpty(v, entries, h.id);
      var k;
      rc, k := AllocCluster();
      if rc != 0 {
        NoneLeft(v, h.id);
        WroteNothing(v, h.id, 0);
        RelistedSame(entries, h.id);
        return;
      }
      GrowWrites(v, h.id, k);
      GrowDraws(v, h.id, k);
      data := data[k := Zeros(c)];
      h.first := k;
      RelistedOne(entries, h.id, Entry(k, h.size));
      entries := entries[h.id := Entry(k, h.size)];
      place := place[k := Pos(h.id, 0)];
      chains := chains[h.id := [k]];
      assert v.chains[h.id] + [k] == [k];
      assert Vol() == Extended(Cleared(v, k), h.id, k);
      ListedStart(c, v.chains, old(entries), h.id, k, entries[h.id]);
    }

    /** Afterwards the file has a first cluster, if there is room for one. */
    method Begin(h: Handle) returns (rc: int)
      requires Whole(Valid()) && Opened(h)
      modifies table, this`data, this`chains, this`place, this`entries, h`first
      ensures Whole(Valid()) && Opened(h) && Whole(Relisted(old(entries), entries, h.id))
      ensures rc == 0 || rc == -ENOSPC
      ensures Whole(Poured(old(Vol()), Vol(), h.id, 0, [], rc == 0))
      ensures h.id in chains && if rc == 0 then h.first != 0 else chains[h.id] == []
    {
      SizeFits(c, chains, entries, h.id);
      PouredNone(Vol(), h.id, 0);
      RelistedSame(entries, h.id);
      rc := 0;
      if h.first == 0 {
        rc := Start(h);
        if rc == 0 { FirstUsed(Vol(), h.id); }
      }
    }

    /** The same for a file that has a first cluster. */
    method WalkFile(h: Handle, n: nat, ghost v: Volume) returns (rc: int, cluster: nat)
      requires Whole(Valid()) && Opened(h) && h.first != 0 && Whole(Poured(v, Vol(), h.id, 0, [], true))
      modifies table, this`data, this`chains, this`place
      ensures Whole(Valid()) && (rc == 0 || rc == -ENOSPC) && Whole(Poured(v, Vol(), h.id, 0, [], rc == 0))
      ensures h.id in chains
      ensures if rc == 0 then n < |chains[h.id]| && cluster == chains[h.id][n] else |chains[h.id]| <= n
    {
      ghost var was := chains;
      NotEmpty(Vol(), entries, h.id);
      rc, cluster := Walk(h.id, h.first, n, v);
      ListedLonger(c, was, chains, entries, h.id);
    }

    /** A first cluster, and then the cluster at place `n`, as far as there is room. */
    method Reach(h: Handle, n: nat) returns (rc: int, cluster: nat)
      requires Whole(Valid()) && Opened(h)
      modifies table, this`data, this`chains, this`place, this`entries, h`first
      ensures Whole(Valid()) && Opened(h) && Whole(Relisted(old(entries), entries, h.id))
      ensures (rc == 0 || rc == -ENOSPC) && Whole(Poured(old(Vol()), Vol(), h.id, 0, [], rc == 0))
      ensures h.id in chains
      ensures if rc == 0 then n < |chains[h.id]| && cluster == chains[h.id][n] else |chains[h.id]| <= n
    {
      ghost var v := Vol();
      cluster := 0;
      rc := Begin(h);
      if rc != 0 { return; }
      rc, cluster := WalkFile(h, n, v);
    }

    /** `Fill`, for the file of a handle. */
    method FillFile(h: Handle, cluster: nat, pos: nat, buf: seq<Byte>, ghost v: Volume) returns (written: nat)
      requires Whole(Valid()) && Opened(h) && buf != []
      requires h.id in chains && Quot(c, pos) < |chains[h.id]| && cluster == chains[h.id][Quot(c, pos)]
      requires v.c == c && Whole(Poured(v, Vol(), h.id, 0, [], true))
      modifies table, this`data, this`chains, this`place
      ensures Whole(Valid()) && written <= |buf| && Whole(Wrote(v, Vol(), h.id, pos, Stored(buf, written)))
      ensures Whole(Counts(v, Vol(), h.id, pos, |buf|, written))
      ensures h.id in chains && pos + written <= Times(c, |chains[h.id]|)
    {
      ghost var was := chains;
      Split(c, pos);
      written := Fill(h.id, Quot(c, pos), cluster, Rem(c, pos), pos, buf, v);
      ListedLonger(c, was, chains, entries, h.id);
    }

    /** The two phases of `fat32_vfs_write`: the count, or an error when nothing could be stored. */
    method Deposit(h: Handle, pos: nat, buf: seq<Byte>) returns (rc: int)
      requires Whole(Valid()) && Opened(h) && buf != []
      modifies table, this`data, this`chains, this`place, this`entries, h`first
      ensures Whole(Valid()) && Opened(h) && Whole(Relisted(old(entries), entries, h.id))
      ensures rc <= |buf| && Whole(Wrote(old(Vol()), Vol(), h.id, pos, Stored(buf, rc)))
      ensures Whole(Counts(old(Vol()), Vol(), h.id, pos, |buf|, rc))
      ensures h.id in chains && (0 <= rc ==> pos + rc <= Times(c, |chains[h.id]|))
    {
      ghost var v := Vol();
      var cluster;
      rc, cluster := Reach(h, Quot(c, pos));
      if rc != 0 {
        NoRoom(v, Vol(), h.id, pos, |buf|);
        return;
      }
      rc := FillFile(h, cluster, pos, buf, v);
    }

    /** The end of `fat32_vfs_write`: the position moves, and the size grows to it. */
    method Conclude(h: Handle, written: nat)
      requires Whole(Valid()) && Opened(h) && 0 <= h.position && Low32(h.position) + written <= Times(c, |chains[h.id]|)
      modifies this`entries, h`size, h`position
      ensures Whole(Valid()) && Opened(h) && Whole(Relisted(old(entries), entries, h.id))
      ensures h.position == old(h.position) + written
      ensures h.size == if Low32(h.position) > old(h.size) then Low32(h.position) else old(h.size)
    {
      RelistedSame(entries, h.id);
      Wrapped(h.position, written);
      h.position := h.position + written;
      if Low32(h.position) > h.size {
        h.size := Low32(h.position);
        ListedResize(c, chains, entries, h.id, h.size);
        RelistedOne(entries, h.id, Entry(h.first, h.size));
        entries := entries[h.id := Entry(h.first, h.size)];
      }
    }

    /** The rest of a write that has stored all of `buf`. */
    method Finish(h: Handle, ghost pos: nat, ghost buf: seq<Byte>, n: nat, ghost v: Volume)
      requires Whole(Valid()) && Opened(h) && 0 <= h.position && pos == Low32(h.position) && n == |buf| > 0
      requires h.size < TWO_32 && h.id in v.chains && h.id in chains && pos + n <= Times(c, |chains[h.id]|)
      requires Whole(Wrote(v, Vol(), h.id, pos, Stored(buf, n)))
      modifies this`entries, h`size, h`position
      ensures Whole(Valid()) && Opened(h) && Whole(Relisted(old(entries), entries, h.id))
      ensures Vol() == old(Vol())
      ensures Whole(Outcome(v, Vol(), h.id, old(h.size), h.size, old(h.position), h.position, buf, n))
    {
      ghost var w, size, at: nat := Vol(), h.size, h.position;
      Conclude(h, n);
      FullOutcome(v, w, h.id, size, h.size, at, h.position, pos, buf, n);
    }

    method WriteBytes(h: Handle, buf: seq<Byte>) returns (rc: int)
      requires Whole(Valid()) && Opened(h) && buf != [] && 0 <= h.position
      modifies table, this`data, this`chains, this`place, this`entries, h`first, h`size, h`position
      ensures Whole(Valid()) && Opened(h) && Whole(Relisted(old(entries), entries, h.id))
      ensures Whole(Outcome(old(Vol()), Vol(), h.id, old(h.size), h.size, old(h.position), h.position, buf, rc))
      ensures Whole(Counts(old(Vol()), Vol(), h.id, Low32(old(h.position)), |buf|, rc))
    {
      ghost var v, at: nat := Vol(), h.position;
      var pos: nat := Low32(h.position);
      SizeFits(c, chains, entries, h.id);
      rc := Deposit(h, pos, buf);
      if rc < |buf| {
        ShortOutcome(v, Vol(), h.id, h.size, at, pos, buf, rc);
        return;
      }
      ghost var between := entries;
      Finish(h, pos, buf, rc, v);
      RelistedTwice(old(entries), between, entries, h.id);
    }

    /** `fat32_vfs_write`. Whatever it returns, no other file changes, and exactly as many bytes are
        stored as it says: all of them exactly when the file's clusters and the free ones hold them.
        A call that returns the full count acts on the file as on a byte array exactly when its end
        stays below 2^32 and nothing was left behind in the gap before it; one that does not leaves
        position and size, and no cluster free. */
    method Write(h: Handle, buf: seq<Byte>) returns (rc: int)
      requires Whole(Valid()) && Opened(h)
      modifies table, this`data, this`chains, this`place, this`entries, h`first, h`size, h`position
      ensures Whole(Valid()) && Opened(h) && Whole(Relisted(old(entries), entries, h.id))
      ensures buf != [] && 0 <= old(h.position) ==>
        Whole(Outcome(old(Vol()), Vol(), h.id, old(h.size), h.size, old(h.position), h.position, buf, rc)) &&
        Whole(Counts(old(Vol()), Vol(), h.id, Low32(old(h.position)), |buf|, rc))
      ensures buf != [] && 0 <= old(h.position) ==>
        rc <= |buf| && entries.Keys == old(entries).Keys &&
        Whole(Laid(c, old(table.copies)[0], old(data), old(h.first), table.copies[0], data, h.first,
          Low32(old(h.position)), if rc < 0 then [] else buf[..rc])) &&
        Whole(Elsewhere(c, old(table.copies)[0], old(data), old(entries), table.copies[0], data, entries, h.id))
      ensures buf == [] || old(h.position) < 0 ==>
        rc == (if buf == [] then 0 else -EINVAL) && Vol() == old(Vol()) && h.position == old(h.position) &&
        h.size == old(h.size)
    {
      if buf != [] && h.position >= 0 {
        ghost var v, was, before, size, at: nat := Vol(), table.copies[0], entries, h.size, h.position;
        rc := WriteBytes(h, buf);
        OutcomeLaid(v, Vol(), was, table.copies[0], before, entries, h.id, size, h.size, at, h.position, buf, rc);
        return;
      }
      RelistedSame(entries, h.id);
      rc := if buf == [] then 0 else -EINVAL;
    }

    /** `fat32_free_chain`, on any table and from any start. */
    method FreeChain(start: nat) returns (rc: int)
      requires Whole(table.Valid())
      modifies table
      ensures Whole(table.Valid()) && (table.View(), rc) == FreeFrom(old(table.View()), start)
    {
      var cluster: nat := start;
      while cluster >= 2 && cluster != BAD
        invariant Whole(table.Valid()) && FreeFrom(table.View(), cluster) == FreeFrom(old(table.View()), start)
        decreases InUse(table.View()), if cluster >= 2 then 1 else 0
      {
        ghost var fat := table.View();
        var next;
        rc, next := table.Get(cluster);
        if rc != 0 { return; }
        rc := table.Put(cluster, FREE);
        InUseLess(fat, cluster);
        if next >= EOC { return 0; }
        assert fat[cluster] == FREE ==> fat[cluster := FREE] == fat;
        cluster := next;
      }
      rc := 0;
    }

    /** `fat32_trunc_file`: the file is empty, its clusters are free, the other files are untouched. */
    method Truncate(h: Handle) returns (rc: int)
      requires Whole(Valid()) && Opened(h)
      modifies table, this`entries, this`chains, h`first, h`size
      ensures Whole(Valid()) && Opened(h) && rc == 0 && h.size == 0
      ensures entries == old(entries)[h.id := Entry(0, 0)] && chains == old(chains)[h.id := []]
      ensures Whole(OthersKept(old(Vol()), Vol(), h.id)) && Whole(TailZero(Vol(), h.id, 0))
      ensures Whole(Freed(old(table.View()), table.View(), old(chains)[h.id]))
    {
      ghost var v, f := Vol(), h.id;
      if h.first != 0 {
        NotEmpty(v, entries, f);
        rc := FreeChain(h.first);
        h.first := 0;
        chains := chains[f := []];
        FreedWhole(v, Vol(), f);
      } else {
        StartsEmpty(v, entries, f);
        EmptyZero(v, f);
        assert chains == chains[f := []];
      }
      h.size := 0;
      ListedEmpty(c, v.chains, entries, f);
      entries := entries[h.id := Entry(0, 0)];
      rc := 0;
    }

    /** The cluster at place `n` of a chain that is long enough. */
    method Follow(ghost f: nat, first: nat, n: nat) returns (cluster: nat)
      requires Whole(Linked()) && f in chains && n < |chains[f]| && first == chains[f][0]
      ensures cluster == chains[f][n]
    {
      cluster := first;
      for i := 0 to n
        invariant cluster == chains[f][i]
      {
        NextCluster(Vol(), f, i);
        var rc;
        rc, cluster := table.Get(cluster);
      }
    }

    /** One round of the loop of `fat32_vfs_read`. */
    method GatherOne(ghost f: nat, ghost i: nat, cluster: nat, off: nat, ghost pos: nat, take: nat, ghost size: nat)
      returns (chunk: seq<Byte>, next: nat)
      requires Whole(Linked()) && f in chains && i < |chains[f]| && cluster == chains[f][i]
      requires off < c && off + take <= c && pos == Times(c, i) + off && pos + take <= size
      ensures chunk == Contents(Vol(), f, size)[pos..pos + take]
      ensures i + 1 < |chains[f]| ==> next == chains[f][i + 1]
    {
      Join(c, i, off);
      PieceBytes(Vol(), f, pos, take, size);
      NextCluster(Vol(), f, i);
      chunk := data[cluster][off..off + take];
      var rc;
      rc, next := table.Get(cluster);
    }

    method GatherMore(ghost f: nat, ghost i: nat, cluster: nat, off: nat, ghost pos: nat, count: nat,
      ghost size: nat, ghost s: seq<Byte>, out: seq<Byte>)
      returns (more: seq<Byte>, next: nat)
      requires Whole(Linked()) && f in chains && i < |chains[f]| && cluster == chains[f][i] && off < c && |out| < count
      requires pos + |out| == Times(c, i) + off && pos + count <= size <= Times(c, |chains[f]|)
      requires s == Contents(Vol(), f, size) && out == s[pos..pos + |out|]
      ensures |out| < |more| <= count && more == s[pos..pos + |more|]
      ensures |more| < count ==> i + 1 < |chains[f]| && next == chains[f][i + 1] && pos + |more| == Times(c, i + 1)
    {
      var take := if count - |out| < c - off then count - |out| else c - off;
      Within(c, i, pos + |out| + take, |chains[f]|);
      var chunk;
      chunk, next := GatherOne(f, i, cluster, off, pos + |out|, take, size);
      Joined(s, out, chunk, pos, pos + |out| + take);
      more := out + chunk;
    }

    /** The loop of `fat32_vfs_read`. */
    method Gather(ghost f: nat, start: nat, ghost first: nat, from: nat, ghost pos: nat, count: nat, ghost size: nat,
      ghost s: seq<Byte>)
      returns (out: seq<Byte>)
      requires Whole(Linked()) && f in chains && first < |chains[f]| && start == chains[f][first] && from < c
      requires pos == Times(c, first) + from && pos + count <= size <= Times(c, |chains[f]|) &&
        s == Contents(Vol(), f, size)
      ensures out == s[pos..pos + count]
    {
      var cluster: nat, off: nat := start, from;
      ghost var i: nat := first;
      out := [];
      while |out| < count
        invariant |out| <= count && out == s[pos..pos + |out|]
        invariant |out| < count ==>
          i < |chains[f]| && cluster == chains[f][i] && off < c && pos + |out| == Times(c, i) + off
      {
        out, cluster := GatherMore(f, i, cluster, off, pos, count, size, s, out);
        off, i := 0, i + 1;
      }
    }

    /** The part of `fat32_vfs_read` that reads, for a range within the file. */
    method ReadBytes(h: Handle, pos: nat, n: nat) returns (out: seq<Byte>)
      requires Whole(Valid()) && Opened(h) && pos < h.size && n <= h.size - pos
      ensures h.id in chains && out == Contents(Vol(), h.id, h.size)[pos..pos + n]
      ensures |out| == n && Whole(Shown(c, table.copies[0], data, h.first, pos, out))
    {
      ghost var s := Contents(Vol(), h.id, h.size);
      Room(Vol(), entries, h.id, pos);
      var cluster := Follow(h.id, h.first, Quot(c, pos));
      Split(c, pos);
      out := Gather(h.id, cluster, Quot(c, pos), Rem(c, pos), pos, n, h.size, s);
      BytesRead(Vol(), table.copies[0], entries, h.id, pos, out, h.size);
    }

    /** `fat32_vfs_read`: the bytes of the file at the position, as many as there are. */
    method Read(h: Handle, count: nat) returns (out: seq<Byte>)
      requires Whole(Valid()) && Opened(h)
      modifies h`position
      ensures h.id in chains
      ensures out == if old(h.position) < 0 then []
        else ReadSpec(Contents(Vol(), h.id, h.size), Low32(old(h.position)), count)
      ensures h.position == old(h.position) + |out|
      ensures |out| == if old(h.position) < 0 || Low32(old(h.position)) >= h.size then 0
        else if count > h.size - Low32(old(h.position)) then h.size - Low32(old(h.position)) else count
      ensures 0 <= old(h.position) ==> Whole(Shown(c, table.copies[0], data, h.first, Low32(old(h.position)), out))
    {
      SizeFits(c, chains, entries, h.id);
      if count == 0 || h.position < 0 || Low32(h.position) >= h.size { return []; }
      var pos := Low32(h.position);
      var n := if count > h.size - pos then h.size - pos else count;
      out := ReadBytes(h, pos, n);
      h.position := h.position + n;
    }
  }
}
