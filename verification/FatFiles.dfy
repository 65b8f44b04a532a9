/** The bytes of files along their chains. */
module FatFiles {
  import opened Arith
  import opened Bytes
  import opened FileSpec
  import opened FatChains

  type Cluster = seq<Byte>

  /** The clusters' bytes together with the chains; `c` is the size of a cluster. */
  datatype Volume = Volume(c: nat, fat: seq<nat>, data: seq<Cluster>, chains: Chains, place: map<nat, Pos>)

  ghost predicate Sized(v: Volume) {
    0 < v.c && |v.data| == |v.fat| && forall k :: 0 <= k < |v.data| ==> |v.data[k]| == v.c
  }

  ghost predicate Sound(v: Volume) {
    Sized(v) && Wf(v.fat, v.chains, v.place)
  }

  /** The bytes of the cluster at place `i` of a chain; past the end there are zeros. */
  ghost function Piece(v: Volume, f: nat, i: nat): (t: Cluster)
    requires Sound(v) && f in v.chains
    ensures |t| == v.c
  {
    if i < |v.chains[f]| then v.data[v.chains[f][i]] else Zeros(v.c)
  }

  ghost function ByteAt(v: Volume, f: nat, x: nat): Byte
    requires Sound(v) && f in v.chains
  {
    Piece(v, f, Quot(v.c, x))[Rem(v.c, x)]
  }

  /** Following a chain: the table says where it goes on, or that it ends. */
  lemma NextCluster(v: Volume, f: nat, i: nat)
    requires Sound(v) && f in v.chains && i < |v.chains[f]|
    ensures 2 <= v.chains[f][i] < |v.fat|
    ensures v.fat[v.chains[f][i]] >= EOC <==> i + 1 == |v.chains[f]|
    ensures i + 1 < |v.chains[f]| ==> v.fat[v.chains[f][i]] == v.chains[f][i + 1]
  {
    assert i + 1 < |v.chains[f]| ==> v.chains[f][i + 1] < |v.fat|;
  }

  /** The same files with the same bytes, but for `data` at byte `start` of file `f`. */
  ghost predicate Wrote(v: Volume, w: Volume, f: nat, start: nat, data: seq<Byte>) {
    && Sound(v) && Sound(w) && v.c == w.c && v.chains.Keys == w.chains.Keys
    && forall g, x: nat :: g in v.chains ==>
         ByteAt(w, g, x) == if g == f && start <= x < start + |data| then data[x - start] else ByteAt(v, g, x)
  }

  /** The pieces agree except piece `i` of `f`, which is `t`. */
  ghost predicate Replaced(v: Volume, w: Volume, f: nat, i: nat, t: Cluster) {
    && Sound(v) && Sound(w) && v.c == w.c && v.chains.Keys == w.chains.Keys
    && forall g, j: nat :: g in v.chains ==> Piece(w, g, j) == if g == f && j == i then t else Piece(v, g, j)
  }

  lemma PieceWrote(v: Volume, w: Volume, f: nat, pos: nat, data: seq<Byte>)
    requires Sound(v) && f in v.chains && Rem(v.c, pos) + |data| <= v.c
    requires Replaced(v, w, f, Quot(v.c, pos), Splice(Piece(v, f, Quot(v.c, pos)), Rem(v.c, pos), data))
    ensures Wrote(v, w, f, pos, data)
  {
    var i, off := Quot(v.c, pos), Rem(v.c, pos);
    forall g, x: nat | g in v.chains
      ensures ByteAt(w, g, x) == if g == f && pos <= x < pos + |data| then data[x - pos] else ByteAt(v, g, x)
    {
      InBlock(v.c, pos, |data|, x);
      SpliceAt(Piece(v, f, i), off, data, Rem(v.c, x));
    }
  }

  /** A cluster of a chain is overwritten. */
  lemma StoreReplaces(v: Volume, f: nat, i: nat, t: Cluster)
    requires Sound(v) && f in v.chains && i < |v.chains[f]| && |t| == v.c
    ensures Replaced(v, v.(data := v.data[v.chains[f][i] := t]), f, i, t)
  {
    var w := v.(data := v.data[v.chains[f][i] := t]);
    forall g, j: nat | g in v.chains ensures Piece(w, g, j) == if g == f && j == i then t else Piece(v, g, j) {
      if j < |v.chains[g]| {
        assert v.place[v.chains[g][j]] == Pos(g, j) && v.place[v.chains[f][i]] == Pos(f, i);
      }
    }
  }

  lemma WroteNothing(v: Volume, f: nat, start: nat)
    requires Sound(v)
    ensures Wrote(v, v, f, start, [])
  {
  }

  lemma WroteMore(v: Volume, w: Volume, u: Volume, f: nat, start: nat, d: seq<Byte>, e: seq<Byte>)
    requires Wrote(v, w, f, start, d) && Wrote(w, u, f, start + |d|, e)
    ensures Wrote(v, u, f, start, d + e)
  {
    forall g, x: nat | g in v.chains
      ensures ByteAt(u, g, x) == if g == f && start <= x < start + |d + e| then (d + e)[x - start] else ByteAt(v, g, x)
    {
      assert ByteAt(w, g, x) == if g == f && start <= x < start + |d| then d[x - start] else ByteAt(v, g, x);
    }
  }

  /** The volume after cluster `k`, marked as an end and full of zeros, was put behind a chain. */
  ghost function Extended(v: Volume, f: nat, k: nat): Volume
    requires f in v.chains
  {
    var chain := v.chains[f];
    v.(fat := if chain == [] || chain[|chain| - 1] >= |v.fat| then v.fat else v.fat[chain[|chain| - 1] := k],
       chains := v.chains[f := chain + [k]], place := v.place[k := Pos(f, |chain|)])
  }

  lemma ExtendSound(v: Volume, f: nat, k: nat)
    requires Sound(v) && f in v.chains && 2 <= k < |v.fat| && v.fat[k] >= EOC
    requires forall g, i: nat :: g in v.chains && i < |v.chains[g]| ==> v.chains[g][i] != k
    ensures Sound(Extended(v, f, k))
  {
    if v.chains[f] == [] {
      assert [] + [k] == [k];
      StartKeeps(v.fat, v.chains, v.place, f, k);
    } else {
      ExtendKeeps(v.fat, v.chains, v.place, f, k);
    }
  }

  /** One more cluster of zeros changes no byte of any file. */
  lemma ExtendWrites(v: Volume, f: nat, k: nat)
    requires Sound(v) && f in v.chains && 2 <= k < |v.fat| && v.fat[k] >= EOC && v.data[k] == Zeros(v.c)
    requires forall g, i: nat :: g in v.chains && i < |v.chains[g]| ==> v.chains[g][i] != k
    ensures Wrote(v, Extended(v, f, k), f, 0, [])
  {
    var w := Extended(v, f, k);
    ExtendSound(v, f, k);
    forall g, j: nat | g in v.chains ensures Piece(w, g, j) == Piece(v, g, j) {
    }
  }

  /** A free cluster, marked as an end and cleared. */
  ghost function Cleared(v: Volume, k: nat): Volume
    requires k < |v.fat| && k < |v.data|
  {
    v.(fat := v.fat[k := EOC], data := v.data[k := Zeros(v.c)])
  }

  lemma ClearedWrites(v: Volume, f: nat, k: nat)
    requires Sound(v) && 2 <= k < |v.fat| && v.fat[k] == FREE
    ensures Wrote(v, Cleared(v, k), f, 0, [])
    ensures forall g, i: nat :: g in v.chains && i < |v.chains[g]| ==> v.chains[g][i] != k
  {
    FreeInNone(v.fat, v.chains, v.place, k);
    AllocKeeps(v.fat, v.chains, v.place, k, EOC);
    var w := Cleared(v, k);
    forall g, j: nat | g in v.chains ensures Piece(w, g, j) == Piece(v, g, j) {
    }
  }

  /** Taking a free cluster, clearing it and linking it behind a file changes no byte of any file. */
  lemma GrowWrites(v: Volume, f: nat, k: nat)
    requires Sound(v) && f in v.chains && 2 <= k < |v.fat| && v.fat[k] == FREE
    ensures Wrote(v, Extended(Cleared(v, k), f, k), f, 0, [])
  {
    ClearedWrites(v, f, k);
    ExtendWrites(Cleared(v, k), f, k);
    var none: seq<Byte> := [];
    assert none + none == none;
    WroteMore(v, Cleared(v, k), Extended(Cleared(v, k), f, k), f, 0, none, none);
  }

  /** The clusters that file `f` has or can still get. */
  ghost function Capacity(v: Volume, f: nat): nat
    requires f in v.chains
  {
    |v.chains[f]| + Spare(v.fat)
  }

  /** Clusters have moved from the free ones to file `f` only, and unless `ok` none is left. */
  ghost predicate Drawn(v: Volume, w: Volume, f: nat, ok: bool) {
    f in v.chains && f in w.chains && Capacity(w, f) == Capacity(v, f) && (!ok ==> Spare(w.fat) == 0)
  }

  lemma GrowDraws(v: Volume, f: nat, k: nat)
    requires Sound(v) && f in v.chains && 2 <= k < |v.fat| && v.fat[k] == FREE
    ensures Drawn(v, Extended(Cleared(v, k), f, k), f, true)
  {
    SpareUpdate(v.fat, k, EOC);
    if v.chains[f] != [] {
      FreeInNone(v.fat, v.chains, v.place, k);
      SpareUpdate(v.fat[k := EOC], v.chains[f][|v.chains[f]| - 1], k);
    }
  }

  lemma NoneLeft(v: Volume, f: nat)
    requires f in v.chains && forall j :: 2 <= j < |v.fat| ==> v.fat[j] != FREE
    ensures Drawn(v, v, f, false)
  {
    SpareNone(v.fat);
  }

  ghost function Contents(v: Volume, f: nat, size: nat): seq<Byte>
    requires Sound(v) && f in v.chains
  {
    seq(size, (x: nat) => ByteAt(v, f, x))
  }

  /** Nothing but zeros is stored past the end of the file. */
  ghost predicate TailZero(v: Volume, f: nat, size: nat)
    requires Sound(v) && f in v.chains
  {
    forall x: nat :: size <= x ==> ByteAt(v, f, x) == 0
  }

  /** Between the end of the file and `at` nothing but zeros is stored. */
  ghost predicate GapZero(v: Volume, f: nat, size: nat, at: nat)
    requires Sound(v) && f in v.chains
  {
    forall x: nat :: size <= x < at ==> ByteAt(v, f, x) == 0
  }

  /** Bytes written behind or over the old ones, with the new size: the byte array after the write,
      exactly when nothing was left behind in the gap. */
  lemma WrittenContents(v: Volume, w: Volume, f: nat, size: nat, start: nat, data: seq<Byte>)
    requires Wrote(v, w, f, start, data) && f in v.chains
    ensures var n := if size < start + |data| then start + |data| else size;
      && (Contents(w, f, n) == WriteSpec(Contents(v, f, size), start, data) <==> GapZero(v, f, size, start))
      && (TailZero(v, f, size) ==> TailZero(w, f, n))
  {
    var n := if size < start + |data| then start + |data| else size;
    var s, t := Contents(w, f, n), WriteSpec(Contents(v, f, size), start, data);
    forall x | 0 <= x < n
      ensures s[x] == if start <= x < start + |data| then data[x - start] else ByteAt(v, f, x)
      ensures t[x] == if start <= x < start + |data| then data[x - start] else if x < size then ByteAt(v, f, x) else 0
    {
      assert s[x] == ByteAt(w, f, x);
      if x < size { assert Contents(v, f, size)[x] == ByteAt(v, f, x); }
    }
    if s == t {
      forall x: nat | size <= x < start ensures ByteAt(v, f, x) == 0 {
        assert s[x] == t[x];
      }
    }
    if GapZero(v, f, size, start) { assert s == t; }
  }

  /** The files but `f` have the bytes they had. */
  ghost predicate OthersKept(v: Volume, w: Volume, f: nat) {
    && Sound(v) && Sound(w) && v.c == w.c && v.chains.Keys == w.chains.Keys
    && forall g, x: nat :: g in v.chains && g != f ==> ByteAt(w, g, x) == ByteAt(v, g, x)
  }

  /** The bytes of one piece, from offset `off` on. */
  lemma PieceBytes(v: Volume, f: nat, pos: nat, n: nat, size: nat)
    requires Sound(v) && f in v.chains && Rem(v.c, pos) + n <= v.c && pos + n <= size
    ensures Contents(v, f, size)[pos..pos + n] == Piece(v, f, Quot(v.c, pos))[Rem(v.c, pos)..Rem(v.c, pos) + n]
  {
    var s, t, off := Contents(v, f, size), Piece(v, f, Quot(v.c, pos)), Rem(v.c, pos);
    var a, b := s[pos..pos + n], t[off..off + n];
    forall k | 0 <= k < n ensures a[k] == b[k] {
      InBlock(v.c, pos, n, pos + k);
      assert s[pos + k] == ByteAt(v, f, pos + k);
    }
  }

  /** A file whose chain is freed is empty, and no other file changes. */
  lemma FreedOthers(v: Volume, w: Volume, f: nat)
    requires Sound(v) && f in v.chains && v.chains[f] != []
    requires w == v.(fat := FreeFrom(v.fat, v.chains[f][0]).0, chains := v.chains[f := []])
    ensures FreeFrom(v.fat, v.chains[f][0]).1 == 0 && OthersKept(v, w, f) && TailZero(w, f, 0)
  {
    FreeKeeps(v.fat, v.chains, v.place, f);
    forall g, i: nat | g in v.chains && g != f ensures Piece(w, g, i) == Piece(v, g, i) {
    }
    forall i: nat ensures Piece(w, f, i) == Zeros(v.c) {
    }
  }
}
