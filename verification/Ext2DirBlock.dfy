/** One directory block: records chained by `rec_len` from offset 0 to the end of the block. */
module Ext2DirBlock {
  import opened Sequences
  import opened Invariants
  import opened Bytes

  type Name = seq<Byte>

  /** A live directory entry; `kind` is its file type. */
  datatype Entry = Entry(name: Name, ino: nat, kind: Byte)

  /** The fields of `ext2_dirent_t` at offset `off`. */
  function Ino(b: seq<Byte>, off: nat): nat
    requires off + 8 <= |b|
  {
    U32At(b, off)
  }

  function RecLen(b: seq<Byte>, off: nat): nat
    requires off + 8 <= |b|
  {
    U16At(b, off + 4)
  }

  function NameLen(b: seq<Byte>, off: nat): nat
    requires off + 8 <= |b|
  {
    b[off + 6]
  }

  function Kind(b: seq<Byte>, off: nat): Byte
    requires off + 8 <= |b|
  {
    b[off + 7]
  }

  /** The space a record with a name of `n` bytes takes: `(8 + n + 3) & ~3`. */
  function Need(n: nat): (r: nat)
    ensures 8 + n <= r < 12 + n && r % 4 == 0
  {
    (8 + n + 3) / 4 * 4
  }

  /** A record that is aligned, stays in the block, and is large enough for its name. */
  predicate Record(b: seq<Byte>, off: nat) {
    && off + 8 <= |b| && 8 <= RecLen(b, off) && RecLen(b, off) % 4 == 0 && off + RecLen(b, off) <= |b|
    && (Ino(b, off) != 0 ==> Need(NameLen(b, off)) <= RecLen(b, off))
  }

  function NameAt(b: seq<Byte>, off: nat): Name
    requires Record(b, off) && Ino(b, off) != 0
  {
    b[off + 8..off + 8 + NameLen(b, off)]
  }

  function EntryAt(b: seq<Byte>, off: nat): seq<Entry>
    requires Record(b, off)
  {
    if Ino(b, off) == 0 then [] else [Entry(NameAt(b, off), Ino(b, off), Kind(b, off))]
  }

  /** The bytes of a record: inode and length are little-endian, then the name's length, the type and the
      name. */
  lemma RecordLayout(b: seq<Byte>, off: nat)
    requires Record(b, off)
    ensures var i: nat, j: nat, k: nat, l: nat := b[off], b[off + 1], b[off + 2], b[off + 3];
      Ino(b, off) == i + 0x100 * j + 0x1_0000 * k + 0x100_0000 * l
    ensures var i: nat, j: nat := b[off + 4], b[off + 5]; RecLen(b, off) == i + 0x100 * j
    ensures Ino(b, off) != 0 ==> var n: nat := b[off + 6];
      off + 8 + n <= |b| && EntryAt(b, off) == [Entry(b[off + 8..off + 8 + n], Ino(b, off), b[off + 7])]
  {
  }

  /** From `off` to `to`, records follow each other without gap or overlap. */
  ghost predicate Chain(b: seq<Byte>, off: nat, to: nat)
    decreases if off < to then to - off else 0
  {
    off == to || (off < to && Record(b, off) && off + RecLen(b, off) <= to && Chain(b, off + RecLen(b, off), to))
  }

  ghost function Entries(b: seq<Byte>, off: nat, to: nat): seq<Entry>
    requires Chain(b, off, to)
    decreases if off < to then to - off else 0
  {
    if off == to then [] else EntryAt(b, off) + Entries(b, off + RecLen(b, off), to)
  }

  /** The records tile the whole block. */
  ghost predicate Tiled(b: seq<Byte>) {
    Chain(b, 0, |b|)
  }

  ghost function All(b: seq<Byte>): seq<Entry>
    requires Tiled(b)
  {
    Entries(b, 0, |b|)
  }

  lemma SameRecord(b: seq<Byte>, c: seq<Byte>, off: nat)
    requires |b| == |c| && Record(b, off) && forall k :: off <= k < off + RecLen(b, off) ==> b[k] == c[k]
    ensures Record(c, off) && RecLen(c, off) == RecLen(b, off) && EntryAt(c, off) == EntryAt(b, off)
  {
    assert RecLen(c, off) == RecLen(b, off) && Ino(c, off) == Ino(b, off) && NameLen(c, off) == NameLen(b, off);
    if Ino(b, off) != 0 { assert NameAt(c, off) == NameAt(b, off); }
  }

  /** Records depend on their own bytes alone. */
  lemma {:induction false} ChainFrame(b: seq<Byte>, c: seq<Byte>, off: nat, to: nat)
    requires |b| == |c| && to <= |b| && Chain(b, off, to)
    requires forall k :: off <= k < to ==> b[k] == c[k]
    ensures Chain(c, off, to) && Entries(c, off, to) == Entries(b, off, to)
    decreases if off < to then to - off else 0
  {
    if off < to {
      var n := RecLen(b, off);
      SameRecord(b, c, off);
      ChainFrame(b, c, off + n, to);
    }
  }

  lemma {:induction false} ChainJoin(b: seq<Byte>, off: nat, mid: nat, to: nat)
    requires Chain(b, off, mid) && Chain(b, mid, to) && off <= mid <= to
    ensures Chain(b, off, to) && Entries(b, off, to) == Entries(b, off, mid) + Entries(b, mid, to)
    decreases if off < mid then mid - off else 0
  {
    if off < mid {
      var next := off + RecLen(b, off);
      ChainJoin(b, next, mid, to);
      Regroup(EntryAt(b, off), Entries(b, next, mid), Entries(b, mid, to));
    }
  }

  lemma ChainOne(b: seq<Byte>, off: nat)
    requires Record(b, off)
    ensures Chain(b, off, off + RecLen(b, off)) && Entries(b, off, off + RecLen(b, off)) == EntryAt(b, off)
  {
    assert Entries(b, off + RecLen(b, off), off + RecLen(b, off)) == [];
  }

  lemma Sections(b: seq<Byte>, from: nat, to: nat)
    requires from <= to <= |b| && Chain(b, 0, from) && Chain(b, from, to) && Chain(b, to, |b|)
    ensures Tiled(b) && All(b) == Entries(b, 0, from) + (Entries(b, from, to) + Entries(b, to, |b|))
  {
    ChainJoin(b, from, to, |b|);
    ChainJoin(b, 0, from, |b|);
  }

  /** Replacing the records between `from` and `to` keeps the block tiled, and replaces their entries. */
  lemma Rewrite(b: seq<Byte>, c: seq<Byte>, from: nat, to: nat)
    requires |b| == |c| && from <= to <= |b|
    requires Chain(b, 0, from) && Chain(b, to, |b|) && Chain(c, from, to)
    requires forall k :: 0 <= k < |b| && !(from <= k < to) ==> b[k] == c[k]
    ensures Tiled(c) && All(c) == Entries(b, 0, from) + (Entries(c, from, to) + Entries(b, to, |b|))
  {
    ChainFrame(b, c, 0, from);
    ChainFrame(b, c, to, |b|);
    Sections(c, from, to);
  }

  /** `all` is `a`, then `m`, then `z`. */
  ghost predicate Laid(all: seq<Entry>, a: seq<Entry>, m: seq<Entry>, z: seq<Entry>) {
    all == a + (m + z)
  }

  /** Outside `off` to `to` the bytes are the same. */
  ghost predicate SameOutside(b: seq<Byte>, c: seq<Byte>, off: nat, to: nat) {
    |c| == |b| && forall k :: 0 <= k < |b| && !(off <= k < to) ==> b[k] == c[k]
  }

  /** A record of length `len` with the entries `es`. */
  ghost predicate Holds(c: seq<Byte>, off: nat, len: nat, es: seq<Entry>) {
    Record(c, off) && RecLen(c, off) == len && EntryAt(c, off) == es
  }

  /** Records from `off` to `to` with the entries `es`. */
  ghost predicate Spans(b: seq<Byte>, off: nat, to: nat, es: seq<Entry>) {
    Chain(b, off, to) && Entries(b, off, to) == es
  }

  /** The same, in terms of entries. */
  lemma RewriteRecord(b: seq<Byte>, c: seq<Byte>, off: nat, to: nat, was: seq<Entry>, es: seq<Entry>,
    pre: seq<Entry>, rest: seq<Entry>)
    requires off <= to <= |b| && Whole(SameOutside(b, c, off, to)) && Whole(Spans(c, off, to, es))
    requires Whole(Spans(b, 0, off, pre)) && Whole(Spans(b, off, to, was)) && Whole(Spans(b, to, |b|, rest))
    ensures Tiled(b) && Whole(Laid(All(b), pre, was, rest))
    ensures Tiled(c) && Whole(Laid(All(c), pre, es, rest))
  {
    Sections(b, off, to);
    Rewrite(b, c, off, to);
  }

  /** Filling in inode, name length, type and name of the record at `off`; `rec_len` stays. */
  function Fill(b: seq<Byte>, off: nat, ino: nat, name: Name, kind: Byte): (c: seq<Byte>)
    requires off + 8 + |name| <= |b| && ino < TWO_32 && |name| < 256
    ensures |c| == |b|
  {
    var h := PutU32(b, off, ino)[off + 6 := |name|][off + 7 := kind];
    h[..off + 8] + name + h[off + 8 + |name|..]
  }

  /** `c` is `b` with the record at `off` filled in. */
  ghost predicate IsFilled(b: seq<Byte>, c: seq<Byte>, off: nat, ino: nat, name: Name, kind: Byte) {
    && |c| == |b| && off + 8 + |name| <= |b|
    && Ino(c, off) == ino && RecLen(c, off) == RecLen(b, off) && NameLen(c, off) == |name| && Kind(c, off) == kind
    && c[off + 8..off + 8 + |name|] == name
    && forall k :: 0 <= k < |b| && !(off <= k < off + 8 + |name|) ==> c[k] == b[k]
  }

  lemma Filled(b: seq<Byte>, off: nat, ino: nat, name: Name, kind: Byte)
    requires off + 8 + |name| <= |b| && 0 < ino < TWO_32 && |name| < 256
    ensures IsFilled(b, Fill(b, off, ino, name, kind), off, ino, name, kind)
  {
    var h := PutU32(b, off, ino)[off + 6 := |name|][off + 7 := kind];
    var c := Fill(b, off, ino, name, kind);
    assert c[off] == h[off] && c[off + 1] == h[off + 1] && c[off + 2] == h[off + 2] && c[off + 3] == h[off + 3];
    assert c[off + 4] == b[off + 4] && c[off + 5] == b[off + 5];
    assert U16At(c, off) == U16At(PutU32(b, off, ino), off) && U16At(c, off + 2) == U16At(PutU32(b, off, ino), off + 2);
  }

  lemma FilledRecord(b: seq<Byte>, c: seq<Byte>, off: nat, ino: nat, name: Name, kind: Byte)
    requires IsFilled(b, c, off, ino, name, kind) && 0 < ino
    requires Need(|name|) <= RecLen(b, off) && RecLen(b, off) % 4 == 0 && off + RecLen(b, off) <= |b|
    ensures Record(c, off) && RecLen(c, off) == RecLen(b, off) && EntryAt(c, off) == [Entry(name, ino, kind)]
  {
    assert NameAt(c, off) == name;
  }

  /** Shrinking a live record to the space it needs and opening a free one behind it. */
  function SplitRecord(b: seq<Byte>, off: nat): (c: seq<Byte>)
    requires Record(b, off) && Ino(b, off) != 0 && Need(NameLen(b, off)) + 8 <= RecLen(b, off)
    ensures |c| == |b|
  {
    var mine := Need(NameLen(b, off));
    PutU16(PutU16(b, off + 4, mine), off + mine + 4, RecLen(b, off) - mine)
  }

  /** `c` is `b` with the record at `off` split in two. */
  ghost predicate IsSplit(b: seq<Byte>, c: seq<Byte>, off: nat, mine: nat)
    requires off + 8 <= |b|
  {
    && |c| == |b| && off + mine + 8 <= |b|
    && RecLen(c, off) == mine && Ino(c, off) == Ino(b, off) && RecLen(c, off + mine) == RecLen(b, off) - mine
    && forall k :: 0 <= k < |b| && !(off + 4 <= k < off + 6) && !(off + mine + 4 <= k < off + mine + 6) ==> c[k] == b[k]
  }

  lemma SplitFields(b: seq<Byte>, off: nat)
    requires Record(b, off) && Ino(b, off) != 0 && Need(NameLen(b, off)) + 8 <= RecLen(b, off)
    ensures IsSplit(b, SplitRecord(b, off), off, Need(NameLen(b, off)))
  {
    var mine := Need(NameLen(b, off));
    var a := PutU16(b, off + 4, mine);
    var c := SplitRecord(b, off);
    assert RecLen(c, off) == RecLen(a, off);
    assert Ino(c, off) == Ino(b, off);
  }

  /** The record in front keeps its entry. */
  lemma FrontKept(b: seq<Byte>, s: seq<Byte>, c: seq<Byte>, off: nat, mine: nat, mid: nat, ino: nat, name: Name,
    kind: Byte)
    requires mid == off + mine && Record(b, off) && Ino(b, off) != 0
    requires mine == Need(NameLen(b, off)) && mine + Need(|name|) <= RecLen(b, off)
    requires IsSplit(b, s, off, mine) && IsFilled(s, c, off + mine, ino, name, kind)
    ensures Whole(Holds(c, off, mid - off, EntryAt(b, off)))
  {
    assert RecLen(c, off) == RecLen(s, off) && Ino(c, off) == Ino(s, off) && NameLen(c, off) == NameLen(b, off);
    assert NameAt(c, off) == NameAt(b, off);
  }

  lemma AlignedRest(m: nat, n: nat)
    requires m % 4 == 0 && n % 4 == 0
    ensures (m - n) % 4 == 0
  {
  }

  lemma BackFilled(b: seq<Byte>, s: seq<Byte>, c: seq<Byte>, off: nat, mine: nat, mid: nat, to: nat, ino: nat,
    name: Name, kind: Byte)
    requires mid == off + mine && Record(b, off) && to == off + RecLen(b, off)
    requires mine % 4 == 0 && mine + Need(|name|) <= RecLen(b, off)
    requires 0 < ino && IsSplit(b, s, off, mine) && IsFilled(s, c, off + mine, ino, name, kind)
    ensures mid <= to && Whole(Holds(c, mid, to - mid, [Entry(name, ino, kind)]))
  {
    AlignedRest(RecLen(b, off), mine);
    FilledRecord(s, c, off + mine, ino, name, kind);
  }

  lemma OutsideKept(b: seq<Byte>, s: seq<Byte>, c: seq<Byte>, off: nat, mine: nat, to: nat, ino: nat, name: Name,
    kind: Byte)
    requires off + 8 <= |b| && 8 <= mine && off + mine + 8 + |name| <= to
    requires IsSplit(b, s, off, mine) && IsFilled(s, c, off + mine, ino, name, kind)
    ensures Whole(SameOutside(b, c, off, to))
  {
    forall k | 0 <= k < |b| && !(off <= k < to) ensures b[k] == c[k] {
      assert s[k] == b[k];
    }
  }

  /** Both at once: two records where one was, and nothing else. */
  lemma SplitFilled(b: seq<Byte>, s: seq<Byte>, c: seq<Byte>, off: nat, mine: nat, mid: nat, to: nat, ino: nat,
    name: Name, kind: Byte)
    requires mid == off + mine && Record(b, off) && Ino(b, off) != 0 && to == off + RecLen(b, off)
    requires mine == Need(NameLen(b, off)) && mine + Need(|name|) <= RecLen(b, off)
    requires 0 < ino && Whole(IsSplit(b, s, off, mine)) && Whole(IsFilled(s, c, mid, ino, name, kind))
    ensures off <= mid <= to <= |b| && Whole(SameOutside(b, c, off, to))
    ensures Whole(Holds(c, off, mid - off, EntryAt(b, off))) && Whole(Holds(c, mid, to - mid, [Entry(name, ino, kind)]))
  {
    FrontKept(b, s, c, off, mine, mid, ino, name, kind);
    BackFilled(b, s, c, off, mine, mid, to, ino, name, kind);
    OutsideKept(b, s, c, off, mine, to, ino, name, kind);
  }

  lemma TwoRecords(c: seq<Byte>, off: nat, mid: nat, to: nat)
    requires Record(c, off) && mid == off + RecLen(c, off) && Record(c, mid) && to == mid + RecLen(c, mid)
    ensures Chain(c, off, to) && Entries(c, off, to) == EntryAt(c, off) + EntryAt(c, mid)
  {
    ChainOne(c, off);
    ChainOne(c, mid);
    ChainJoin(c, off, mid, to);
  }

  lemma TwoHeld(c: seq<Byte>, off: nat, mid: nat, to: nat, es: seq<Entry>, fs: seq<Entry>)
    requires off <= mid <= to && Whole(Holds(c, off, mid - off, es)) && Whole(Holds(c, mid, to - mid, fs))
    ensures Whole(Spans(c, off, to, es + fs))
  {
    TwoRecords(c, off, mid, to);
  }

  lemma OneHeld(c: seq<Byte>, off: nat, to: nat, es: seq<Entry>)
    requires off <= to && Whole(Holds(c, off, to - off, es))
    ensures Whole(Spans(c, off, to, es))
  {
    ChainOne(c, off);
  }

  /** The first entry with a name; inode 0 stands for none. */
  function First(es: seq<Entry>, name: Name): Entry {
    if es == [] then Entry(name, 0, 0) else if es[0].name == name then es[0] else First(es[1..], name)
  }

  /** The inode a list of entries gives for a name. */
  function Find(es: seq<Entry>, name: Name): nat {
    First(es, name).ino
  }

  ghost predicate Live(es: seq<Entry>) {
    forall i :: 0 <= i < |es| ==> es[i].ino != 0
  }

  ghost predicate Unique(es: seq<Entry>) {
    forall i, j :: 0 <= i < j < |es| ==> es[i].name != es[j].name
  }

  /** `fs` is `es` with `e` inserted somewhere. */
  ghost predicate Inserted(es: seq<Entry>, fs: seq<Entry>, e: Entry) {
    exists k :: 0 <= k <= |es| && fs == es[..k] + [e] + es[k..]
  }

  lemma {:induction false} FindAppend(a: seq<Entry>, b: seq<Entry>, name: Name)
    requires Live(a)
    ensures First(a + b, name) == if Find(a, name) != 0 then First(a, name) else First(b, name)
  {
    if a == [] {
      assert a + b == b;
    } else {
      assert (a + b)[1..] == a[1..] + b;
      FindAppend(a[1..], b, name);
    }
  }

  /** A name has an inode exactly when it is listed. */
  lemma {:induction false} FindListed(es: seq<Entry>, name: Name)
    requires Live(es)
    ensures Find(es, name) != 0 <==> exists i :: 0 <= i < |es| && es[i].name == name
  {
    if es != [] {
      FindListed(es[1..], name);
      if i :| 0 <= i < |es| && es[i].name == name {
        if i > 0 { assert es[1..][i - 1].name == name; }
      }
      if Find(es[1..], name) != 0 {
        var i :| 0 <= i < |es[1..]| && es[1..][i].name == name;
        assert es[i + 1].name == name;
      }
    }
  }

  lemma FoundBetween(a: seq<Entry>, z: seq<Entry>, e: Entry, name: Name)
    requires Live(a) && e.ino != 0 && Find(a + z, e.name) == 0
    ensures First(a + ([e] + z), name) == if name == e.name then e else First(a + z, name)
  {
    FindAppend(a, z, name);
    FindAppend(a, z, e.name);
    FindAppend(a, [e] + z, name);
    assert ([e] + z)[1..] == z;
  }

  /** Inserting an entry with a new name changes the lookup of that name alone. */
  lemma InsertedFind(es: seq<Entry>, fs: seq<Entry>, e: Entry, name: Name)
    requires Inserted(es, fs, e) && Live(es) && e.ino != 0 && Find(es, e.name) == 0
    ensures First(fs, name) == if name == e.name then e else First(es, name)
  {
    var k :| 0 <= k <= |es| && fs == es[..k] + [e] + es[k..];
    assert es == es[..k] + es[k..];
    assert fs == es[..k] + ([e] + es[k..]);
    FoundBetween(es[..k], es[k..], e, name);
  }

  /** With names unique, the new entry's name is the only one of its kind. */
  lemma InsertedUnique(es: seq<Entry>, fs: seq<Entry>, e: Entry)
    requires Inserted(es, fs, e) && Live(es)
    ensures Unique(fs) <==> Unique(es) && Find(es, e.name) == 0
  {
    var k :| 0 <= k <= |es| && fs == es[..k] + [e] + es[k..];
    FindListed(es, e.name);
    if Unique(fs) { UniqueWithout(es, fs, e, k); }
    if Unique(es) && Find(es, e.name) == 0 { UniqueWith(es, fs, e, k); }
  }

  lemma UniqueWithout(es: seq<Entry>, fs: seq<Entry>, e: Entry, k: nat)
    requires k <= |es| && fs == es[..k] + [e] + es[k..] && Unique(fs)
    ensures Unique(es) && forall i :: 0 <= i < |es| ==> es[i].name != e.name
  {
    assert fs[k] == e;
    forall i | 0 <= i < |es| ensures es[i].name != e.name {
      var i' := if i < k then i else i + 1;
      assert fs[i'] == es[i] && fs[i'].name != fs[k].name;
    }
    forall i, j | 0 <= i < j < |es| ensures es[i].name != es[j].name {
      var i', j' := if i < k then i else i + 1, if j < k then j else j + 1;
      assert fs[i'] == es[i] && fs[j'] == es[j] && fs[i'].name != fs[j'].name;
    }
  }

  lemma UniqueWith(es: seq<Entry>, fs: seq<Entry>, e: Entry, k: nat)
    requires k <= |es| && fs == es[..k] + [e] + es[k..] && Unique(es)
    requires forall i :: 0 <= i < |es| ==> es[i].name != e.name
    ensures Unique(fs)
  {
    forall i, j | 0 <= i < j < |fs| ensures fs[i].name != fs[j].name {
      assert i != k ==> fs[i] == es[if i < k then i else i - 1];
      assert j != k ==> fs[j] == es[if j < k then j else j - 1];
    }
  }

  lemma InsertedBetween(a: seq<Entry>, es: seq<Entry>, fs: seq<Entry>, b: seq<Entry>, e: Entry)
    requires Inserted(es, fs, e)
    ensures Inserted(a + (es + b), a + (fs + b), e)
  {
    var k :| 0 <= k <= |es| && fs == es[..k] + [e] + es[k..];
    var x, y := a + (es + b), a + (fs + b);
    assert y == x[..|a| + k] + [e] + x[|a| + k..];
  }

  lemma InsertedLaid(x: seq<Entry>, y: seq<Entry>, a: seq<Entry>, es: seq<Entry>, fs: seq<Entry>, z: seq<Entry>,
    e: Entry)
    requires Inserted(es, fs, e) && Whole(Laid(x, a, es, z)) && Whole(Laid(y, a, fs, z))
    ensures Whole(Inserted(x, y, e))
  {
    InsertedBetween(a, es, fs, z, e);
  }

  lemma InsertedHere(es: seq<Entry>, e: Entry)
    ensures Inserted(es, es + [e], e) && Inserted([], [e], e)
  {
    assert es + [e] == es[..|es|] + [e] + es[|es|..];
    var none: seq<Entry> := [];
    assert [e] == none[..0] + [e] + none[0..];
  }

  lemma {:induction false} EntriesLive(b: seq<Byte>, off: nat, to: nat)
    requires Chain(b, off, to)
    ensures Live(Entries(b, off, to))
    decreases if off < to then to - off else 0
  {
    if off < to { EntriesLive(b, off + RecLen(b, off), to); }
  }

  /** The record at `off` holds `name`. */
  predicate Matches(b: seq<Byte>, off: nat, name: Name)
    requires Record(b, off)
  {
    Ino(b, off) != 0 && NameLen(b, off) == |name| && b[off + 8..off + 8 + |name|] == name
  }

  /** One step along the chain. */
  lemma StepOver(b: seq<Byte>, off: nat)
    requires Chain(b, 0, off) && Chain(b, off, |b|) && off < |b|
    ensures Record(b, off) && Chain(b, 0, off + RecLen(b, off)) && Chain(b, off + RecLen(b, off), |b|)
  {
    ChainOne(b, off);
    ChainJoin(b, 0, off, off + RecLen(b, off));
  }

  /** The search along the chain. */
  ghost function FindFrom(b: seq<Byte>, off: nat, name: Name): Entry
    requires Chain(b, off, |b|)
    decreases if off < |b| then |b| - off else 0
  {
    if off == |b| then Entry(name, 0, 0)
    else if Matches(b, off, name) then Entry(name, Ino(b, off), Kind(b, off))
    else FindFrom(b, off + RecLen(b, off), name)
  }

  lemma FirstOfMore(es: seq<Entry>, e: Entry, name: Name)
    ensures First([e] + es, name) == if e.name == name then e else First(es, name)
  {
    assert ([e] + es)[1..] == es;
  }

  lemma {:induction false} FindFromIs(b: seq<Byte>, off: nat, name: Name)
    requires Chain(b, off, |b|)
    ensures FindFrom(b, off, name) == First(Entries(b, off, |b|), name)
    decreases if off < |b| then |b| - off else 0
  {
    if off < |b| {
      var rest := Entries(b, off + RecLen(b, off), |b|);
      FindFromIs(b, off + RecLen(b, off), name);
      if Ino(b, off) == 0 {
        assert EntryAt(b, off) + rest == rest;
      } else {
        FirstOfMore(rest, EntryAt(b, off)[0], name);
        assert Matches(b, off, name) <==> NameAt(b, off) == name;
      }
    }
  }

  /** The inner loop of `ext2_dir_lookup`. */
  method FindInBlock(b: seq<Byte>, name: Name) returns (ino: nat)
    requires Tiled(b)
    ensures ino == Find(All(b), name)
  {
    FindFromIs(b, 0, name);
    var off: nat := 0;
    while off < |b|
      invariant off <= |b| && Chain(b, off, |b|)
      invariant FindFrom(b, 0, name) == FindFrom(b, off, name)
      decreases |b| - off
    {
      if Matches(b, off, name) { return Ino(b, off); }
      off := off + RecLen(b, off);
    }
    ino := 0;
  }

  /** Free space of the record at `off`. */
  function Spare(b: seq<Byte>, off: nat): nat
    requires Record(b, off)
  {
    RecLen(b, off) - if Ino(b, off) == 0 then 0 else Need(NameLen(b, off))
  }

  /** Some record from `off` on has `needed` bytes to spare. */
  ghost predicate Room(b: seq<Byte>, off: nat, needed: nat)
    requires Chain(b, off, |b|)
    decreases if off < |b| then |b| - off else 0
  {
    off < |b| && (needed <= Spare(b, off) || Room(b, off + RecLen(b, off), needed))
  }

  /** The first record from `off` on with `needed` bytes to spare; the end of the block if there is none. */
  ghost function Spot(b: seq<Byte>, off: nat, needed: nat): nat
    requires Chain(b, off, |b|)
    decreases if off < |b| then |b| - off else 0
  {
    if off >= |b| || needed <= Spare(b, off) then off else Spot(b, off + RecLen(b, off), needed)
  }

  /** Where the record at `off` was, there is now the new entry if it was free; otherwise a record of just the
      size it needs, with the entry it had, and then one with the new entry. */
  ghost predicate Landed(b: seq<Byte>, c: seq<Byte>, off: nat, e: Entry) {
    && Record(b, off) && var mid, to := off + RecLen(b, off) - Spare(b, off), off + RecLen(b, off);
    && off <= mid <= to <= |b| && SameOutside(b, c, off, to) && Holds(c, mid, to - mid, [e])
    && (off < mid ==> Holds(c, off, mid - off, EntryAt(b, off)))
  }

  /** A second record, holding the new entry, behind the one at `off`. */
  lemma AddedBehind(b: seq<Byte>, c: seq<Byte>, off: nat, mid: nat, to: nat, es: seq<Entry>, e: Entry,
    pre: seq<Entry>, rest: seq<Entry>)
    requires off <= mid <= to <= |b| && Whole(SameOutside(b, c, off, to))
    requires Whole(Holds(c, off, mid - off, es)) && Whole(Holds(c, mid, to - mid, [e]))
    requires Whole(Spans(b, 0, off, pre)) && Whole(Holds(b, off, to - off, es)) && Whole(Spans(b, to, |b|, rest))
    ensures Tiled(b) && Tiled(c) && Whole(Inserted(All(b), All(c), e))
  {
    OneHeld(b, off, to, es);
    TwoHeld(c, off, mid, to, es, [e]);
    RewriteRecord(b, c, off, to, es, es + [e], pre, rest);
    InsertedHere(es, e);
    InsertedLaid(All(b), All(c), pre, es, es + [e], rest, e);
  }

  /** A free record takes the new entry. */
  lemma AddedFree(b: seq<Byte>, c: seq<Byte>, off: nat, to: nat, e: Entry, pre: seq<Entry>, rest: seq<Entry>)
    requires off <= to <= |b| && Whole(SameOutside(b, c, off, to)) && Whole(Holds(c, off, to - off, [e]))
    requires Whole(Spans(b, 0, off, pre)) && Whole(Holds(b, off, to - off, [])) && Whole(Spans(b, to, |b|, rest))
    ensures Tiled(b) && Tiled(c) && Whole(Inserted(All(b), All(c), e))
  {
    OneHeld(b, off, to, []);
    OneHeld(c, off, to, [e]);
    RewriteRecord(b, c, off, to, [], [e], pre, rest);
    InsertedHere([], e);
    InsertedLaid(All(b), All(c), pre, [], [e], rest, e);
  }

  /** The record at `off` gives up what it does not need to a new record behind it. */
  method AddBehind(b: seq<Byte>, off: nat, mid: nat, to: nat, ino: nat, name: Name, kind: Byte) returns (c: seq<Byte>)
    requires 0 < ino < TWO_32 && |name| < 256 && Record(b, off) && Ino(b, off) != 0
    requires mid == off + Need(NameLen(b, off)) && to == off + RecLen(b, off) && mid + Need(|name|) <= to
    ensures off <= mid <= to <= |b| && Whole(SameOutside(b, c, off, to))
    ensures Whole(Holds(c, off, mid - off, EntryAt(b, off))) && Whole(Holds(c, mid, to - mid, [Entry(name, ino, kind)]))
  {
    var s := SplitRecord(b, off);
    c := Fill(s, mid, ino, name, kind);
    SplitFields(b, off);
    Filled(s, mid, ino, name, kind);
    SplitFilled(b, s, c, off, mid - off, mid, to, ino, name, kind);
  }

  /** A free record at `off` takes the entry. */
  method AddOver(b: seq<Byte>, off: nat, to: nat, ino: nat, name: Name, kind: Byte) returns (c: seq<Byte>)
    requires 0 < ino < TWO_32 && |name| < 256 && Record(b, off) && Ino(b, off) == 0
    requires to == off + RecLen(b, off) && off + Need(|name|) <= to
    ensures off <= to <= |b| && Whole(SameOutside(b, c, off, to))
    ensures Whole(Holds(c, off, to - off, [Entry(name, ino, kind)]))
  {
    c := Fill(b, off, ino, name, kind);
    Filled(b, off, ino, name, kind);
    FilledRecord(b, c, off, ino, name, kind);
  }

  /** A record and what lies before and behind it. */
  lemma Around(b: seq<Byte>, off: nat, to: nat)
    requires Chain(b, 0, off) && Record(b, off) && to == off + RecLen(b, off) && Chain(b, to, |b|)
    ensures off <= to <= |b| && Whole(Holds(b, off, to - off, EntryAt(b, off)))
    ensures Whole(Spans(b, 0, off, Entries(b, 0, off))) && Whole(Spans(b, to, |b|, Entries(b, to, |b|)))
  {
  }

  lemma LandedBehind(b: seq<Byte>, c: seq<Byte>, off: nat, mid: nat, to: nat, e: Entry)
    requires Record(b, off) && Ino(b, off) != 0 && mid == off + Need(NameLen(b, off)) && to == off + RecLen(b, off)
    requires off <= mid <= to <= |b| && Whole(SameOutside(b, c, off, to))
    requires Whole(Holds(c, off, mid - off, EntryAt(b, off))) && Whole(Holds(c, mid, to - mid, [e]))
    ensures Whole(Landed(b, c, off, e))
  {
  }

  lemma LandedOver(b: seq<Byte>, c: seq<Byte>, off: nat, to: nat, e: Entry)
    requires Record(b, off) && Ino(b, off) == 0 && to == off + RecLen(b, off) <= |b|
    requires Whole(SameOutside(b, c, off, to)) && Whole(Holds(c, off, to - off, [e]))
    ensures Whole(Landed(b, c, off, e))
  {
  }

  method AddAt(b: seq<Byte>, off: nat, mine: nat, ino: nat, name: Name, kind: Byte) returns (c: seq<Byte>)
    requires 0 < ino < TWO_32 && |name| < 256
    requires Chain(b, 0, off) && Record(b, off) && Chain(b, off + RecLen(b, off), |b|)
    requires mine == if Ino(b, off) == 0 then 0 else Need(NameLen(b, off))
    requires RecLen(b, off) - mine >= Need(|name|)
    ensures |c| == |b| && Tiled(b) && Tiled(c) && Whole(Inserted(All(b), All(c), Entry(name, ino, kind)))
    ensures Whole(Landed(b, c, off, Entry(name, ino, kind)))
  {
    var mid, to := off + mine, off + RecLen(b, off);
    ghost var pre, rest, e := Entries(b, 0, off), Entries(b, to, |b|), Entry(name, ino, kind);
    Around(b, off, to);
    if Ino(b, off) != 0 {
      c := AddBehind(b, off, mid, to, ino, name, kind);
      AddedBehind(b, c, off, mid, to, EntryAt(b, off), e, pre, rest);
      LandedBehind(b, c, off, mid, to, e);
    } else {
      c := AddOver(b, off, to, ino, name, kind);
      AddedFree(b, c, off, to, e, pre, rest);
      LandedOver(b, c, off, to, e);
    }
  }

  /** The inner loop of `ext2_dir_add_entry`: the first record with enough free space takes the
      entry. It fails exactly when no record has. */
  method AddInBlock(b: seq<Byte>, ino: nat, name: Name, kind: Byte) returns (ok: bool, c: seq<Byte>)
    requires Tiled(b) && 0 < ino < TWO_32 && |name| < 256
    ensures ok <==> Room(b, 0, Need(|name|))
    ensures !ok ==> c == b
    ensures ok ==> |c| == |b| && Tiled(c) && Inserted(All(b), All(c), Entry(name, ino, kind))
    ensures ok ==> Whole(Landed(b, c, Spot(b, 0, Need(|name|)), Entry(name, ino, kind)))
  {
    var needed := Need(|name|);
    var off: nat := 0;
    while off < |b|
      invariant off <= |b| && Chain(b, 0, off) && Chain(b, off, |b|)
      invariant (Room(b, 0, needed) <==> Room(b, off, needed)) && Spot(b, 0, needed) == Spot(b, off, needed)
      decreases |b| - off
    {
      StepOver(b, off);
      var rec := RecLen(b, off);
      var mine := if Ino(b, off) == 0 then 0 else Need(NameLen(b, off));
      if rec - mine >= needed {
        c := AddAt(b, off, mine, ino, name, kind);
        return true, c;
      }
      off := off + rec;
    }
    return false, b;
  }

  /** A new directory block: one record that spans the block and holds the entry. */
  method MakeBlock(size: nat, ino: nat, name: Name, kind: Byte) returns (b: seq<Byte>)
    requires 264 <= size < TWO_16 && size % 4 == 0 && 0 < ino < TWO_32 && |name| < 256
    ensures |b| == size && Tiled(b) && All(b) == [Entry(name, ino, kind)]
  {
    var span := PutU16(Zeros(size), 4, size);
    b := Fill(span, 0, ino, name, kind);
    Filled(span, 0, ino, name, kind);
    FilledRecord(span, b, 0, ino, name, kind);
    ChainOne(b, 0);
  }

  lemma AlignedSum(m: nat, n: nat)
    requires m % 4 == 0 && n % 4 == 0
    ensures (m + n) % 4 == 0
  {
  }

  /** A record with a greater length keeps its entry. */
  lemma Grown(b: seq<Byte>, c: seq<Byte>, off: nat, len: nat)
    requires Record(b, off) && RecLen(b, off) <= len < TWO_16 && len % 4 == 0 && off + len <= |b|
    requires c == PutU16(b, off + 4, len)
    ensures Whole(Holds(c, off, len, EntryAt(b, off)))
  {
    assert Ino(c, off) == Ino(b, off) && NameLen(c, off) == NameLen(b, off);
    if Ino(b, off) != 0 { assert NameAt(c, off) == NameAt(b, off); }
  }

  /** Record `prev` grows over its successor. */
  method Absorb(b: seq<Byte>, prev: nat, off: nat, to: nat) returns (c: seq<Byte>)
    requires |b| < TWO_16 && Record(b, prev) && off == prev + RecLen(b, prev)
    requires Record(b, off) && to == off + RecLen(b, off)
    ensures prev <= off <= to <= |b| && Whole(SameOutside(b, c, prev, to))
    ensures Whole(Holds(c, prev, to - prev, EntryAt(b, prev)))
  {
    c := PutU16(b, prev + 4, RecLen(b, prev) + RecLen(b, off));
    AlignedSum(RecLen(b, prev), RecLen(b, off));
    Grown(b, c, prev, RecLen(b, prev) + RecLen(b, off));
  }

  /** The first record becomes a free one. */
  method ClearFirst(b: seq<Byte>, to: nat) returns (c: seq<Byte>)
    requires Record(b, 0) && to == RecLen(b, 0)
    ensures to <= |b| && Whole(SameOutside(b, c, 0, to)) && Whole(Holds(c, 0, to, []))
  {
    c := PutU32(b, 0, 0);
    assert RecLen(c, 0) == to && Ino(c, 0) == 0;
  }

  /** One record with the entry of `prev` where there were two. */
  lemma RemovedBehind(b: seq<Byte>, c: seq<Byte>, prev: nat, off: nat, to: nat, es: seq<Entry>, e: Entry,
    pre: seq<Entry>, rest: seq<Entry>)
    requires prev <= off <= to <= |b| && Whole(SameOutside(b, c, prev, to)) && Whole(Holds(c, prev, to - prev, es))
    requires Whole(Spans(b, 0, prev, pre)) && Whole(Spans(b, to, |b|, rest))
    requires Whole(Holds(b, prev, off - prev, es)) && Whole(Holds(b, off, to - off, [e]))
    ensures Tiled(c) && Tiled(b) && Whole(Inserted(All(c), All(b), e))
  {
    TwoHeld(b, prev, off, to, es, [e]);
    OneHeld(c, prev, to, es);
    RewriteRecord(b, c, prev, to, es + [e], es, pre, rest);
    InsertedHere(es, e);
    InsertedLaid(All(c), All(b), pre, es, es + [e], rest, e);
  }

  lemma RemovedFirst(b: seq<Byte>, c: seq<Byte>, to: nat, e: Entry, rest: seq<Entry>)
    requires to <= |b| && Whole(SameOutside(b, c, 0, to)) && Whole(Holds(c, 0, to, []))
    requires Whole(Spans(b, 0, 0, [])) && Whole(Holds(b, 0, to, [e])) && Whole(Spans(b, to, |b|, rest))
    ensures Tiled(c) && Tiled(b) && Whole(Inserted(All(c), All(b), e))
  {
    OneHeld(b, 0, to, [e]);
    OneHeld(c, 0, to, []);
    RewriteRecord(b, c, 0, to, [e], [], [], rest);
    InsertedHere([], e);
    InsertedLaid(All(c), All(b), [], [], [e], rest, e);
  }

  /** The first record from `off` on that holds `name`, and the record before it. */
  ghost function Hit(b: seq<Byte>, prev: nat, off: nat, name: Name): (nat, nat)
    requires Chain(b, off, |b|)
    decreases if off < |b| then |b| - off else 0
  {
    if off >= |b| || Matches(b, off, name) then (prev, off) else Hit(b, off, off + RecLen(b, off), name)
  }

  /** The record `prev` has grown over the one at `off`, or the record at the front has become free. */
  ghost predicate Erased(b: seq<Byte>, c: seq<Byte>, prev: nat, off: nat) {
    && Record(b, off) && var to := off + RecLen(b, off);
    if off > 0 then
      && prev < off && Record(b, prev) && SameOutside(b, c, prev, to) && Holds(c, prev, to - prev, EntryAt(b, prev))
    else SameOutside(b, c, 0, to) && Holds(c, 0, to, [])
  }

  /** The entry of the record at `off` goes: into the record before it, or, at the front, by its inode. */
  method RemoveAt(b: seq<Byte>, prev: nat, off: nat, name: Name) returns (c: seq<Byte>)
    requires |b| < TWO_16 && Record(b, off) && Chain(b, off + RecLen(b, off), |b|)
    requires Ino(b, off) != 0 && NameAt(b, off) == name
    requires off > 0 ==> prev < off && Chain(b, 0, prev) && Record(b, prev) && off == prev + RecLen(b, prev)
    ensures |c| == |b| && Tiled(b) && Tiled(c)
    ensures Whole(Inserted(All(c), All(b), Entry(name, Ino(b, off), Kind(b, off))))
    ensures Whole(Erased(b, c, prev, off))
  {
    var to := off + RecLen(b, off);
    ghost var e, rest := Entry(name, Ino(b, off), Kind(b, off)), Entries(b, to, |b|);
    if off > 0 {
      c := Absorb(b, prev, off, to);
      RemovedBehind(b, c, prev, off, to, EntryAt(b, prev), e, Entries(b, 0, prev), rest);
    } else {
      c := ClearFirst(b, to);
      RemovedFirst(b, c, to, e, rest);
    }
  }

  /** Record `prev` comes before the one at `off`, unless that is the first. */
  ghost predicate Behind(b: seq<Byte>, prev: nat, off: nat) {
    off > 0 ==> prev < off && Chain(b, 0, prev) && Record(b, prev) && off == prev + RecLen(b, prev)
  }

  /** The search has come to `off` without a hit. */
  ghost predicate Searching(b: seq<Byte>, prev: nat, off: nat, name: Name) {
    && off <= |b| && Chain(b, 0, off) && Chain(b, off, |b|) && Tiled(b) && Behind(b, prev, off)
    && First(All(b), name) == FindFrom(b, off, name) && Hit(b, 0, 0, name) == Hit(b, prev, off, name)
  }

  /** The record at `off` holds `name`, and none before it does. */
  ghost predicate Found(b: seq<Byte>, prev: nat, off: nat, name: Name) {
    && Tiled(b) && off < |b| && Chain(b, off, |b|) && Matches(b, off, name) && Behind(b, prev, off)
    && Hit(b, 0, 0, name) == (prev, off) && First(All(b), name) == Entry(name, Ino(b, off), Kind(b, off))
  }

  lemma SearchFrom(b: seq<Byte>, name: Name)
    requires Tiled(b)
    ensures Whole(Searching(b, 0, 0, name))
  {
    FindFromIs(b, 0, name);
  }

  lemma SearchStep(b: seq<Byte>, prev: nat, off: nat, name: Name)
    requires Whole(Searching(b, prev, off, name)) && off < |b|
    ensures Record(b, off)
    ensures Matches(b, off, name) ==> Whole(Found(b, prev, off, name))
    ensures !Matches(b, off, name) ==> Whole(Searching(b, off, off + RecLen(b, off), name))
  {
    StepOver(b, off);
  }

  lemma SearchEnd(b: seq<Byte>, prev: nat, off: nat, name: Name)
    requires Whole(Searching(b, prev, off, name))
    ensures off <= |b| && (off == |b| ==> Tiled(b) && Find(All(b), name) == 0)
  {
  }

  /** The inner loop of `ext2_dir_remove_entry`, up to the record that holds the name. */
  method Locate(b: seq<Byte>, name: Name) returns (ok: bool, prev: nat, off: nat)
    requires Tiled(b)
    ensures if ok then Whole(Found(b, prev, off, name)) else Find(All(b), name) == 0
  {
    SearchFrom(b, name);
    off, prev := 0, 0;
    while off < |b|
      invariant Whole(Searching(b, prev, off, name))
      decreases |b| - off
    {
      SearchStep(b, prev, off, name);
      if Matches(b, off, name) { return true, prev, off; }
      prev := off;
      off := off + RecLen(b, off);
    }
    SearchEnd(b, prev, off, name);
    ok := false;
  }

  /** The inner loop of `ext2_dir_remove_entry`. */
  method RemoveInBlock(b: seq<Byte>, name: Name) returns (ok: bool, c: seq<Byte>)
    requires Tiled(b) && |b| < TWO_16
    ensures ok <==> Find(All(b), name) != 0
    ensures !ok ==> c == b
    ensures ok ==> |c| == |b| && Tiled(c) && Inserted(All(c), All(b), First(All(b), name))
    ensures ok ==> Whole(Erased(b, c, Hit(b, 0, 0, name).0, Hit(b, 0, 0, name).1))
  {
    var prev, off;
    ok, prev, off := Locate(b, name);
    c := b;
    if ok { c := RemoveAt(b, prev, off, name); }
  }

  /** The entries of several blocks, in order. */
  function Flat(bs: seq<seq<Entry>>): seq<Entry> {
    if bs == [] then [] else Flat(bs[..|bs| - 1]) + bs[|bs| - 1]
  }

  /** Inserting into one block inserts into the whole. */
  lemma {:induction false} FlatInsert(bs: seq<seq<Entry>>, cs: seq<seq<Entry>>, l: nat, e: Entry)
    requires l < |bs| == |cs| && (forall k :: 0 <= k < |bs| && k != l ==> bs[k] == cs[k]) && Inserted(bs[l], cs[l], e)
    ensures Inserted(Flat(bs), Flat(cs), e)
    decreases |bs|
  {
    var m := |bs| - 1;
    var a, b := Flat(bs[..m]), Flat(cs[..m]);
    if l == m {
      assert bs[..m] == cs[..m];
      assert a + bs[m] == a + (bs[m] + []) && a + cs[m] == a + (cs[m] + []);
      InsertedBetween(a, bs[m], cs[m], [], e);
    } else {
      FlatInsert(bs[..m], cs[..m], l, e);
      assert [] + (a + bs[m]) == a + bs[m] && [] + (b + bs[m]) == b + bs[m];
      InsertedBetween([], a, b, bs[m], e);
    }
  }

  /** One list replaced by `x`, in either direction; `from` and `to` are the entries before and after. */
  lemma FlatPlaced(bs: seq<seq<Entry>>, l: nat, x: seq<Entry>, e: Entry, from: seq<Entry>, to: seq<Entry>)
    requires l < |bs| && from == Flat(bs) && to == Flat(bs[l := x])
    ensures Inserted(bs[l], x, e) ==> Inserted(from, to, e)
    ensures Inserted(x, bs[l], e) ==> Inserted(to, from, e)
  {
    if Inserted(bs[l], x, e) { FlatInsert(bs, bs[l := x], l, e); }
    if Inserted(x, bs[l], e) { FlatInsert(bs[l := x], bs, l, e); }
  }

  lemma {:induction false} FlatLive(bs: seq<seq<Entry>>)
    requires forall k :: 0 <= k < |bs| ==> Live(bs[k])
    ensures Live(Flat(bs))
    decreases |bs|
  {
    if bs != [] { FlatLive(bs[..|bs| - 1]); }
  }

  /** Looking up block by block is looking up in all entries. */
  lemma {:induction false} FlatFind(bs: seq<seq<Entry>>, k: nat, name: Name)
    requires k <= |bs| && forall i :: 0 <= i < |bs| ==> Live(bs[i])
    ensures Find(Flat(bs[..k]), name) != 0 ==> First(Flat(bs), name) == First(Flat(bs[..k]), name)
    decreases |bs| - k
  {
    if k == |bs| {
      assert bs[..k] == bs;
    } else {
      var a := bs[..k];
      assert bs[..k + 1][..k] == a;
      FlatLive(a);
      FindAppend(Flat(a), bs[k], name);
      FlatFind(bs, k + 1, name);
    }
  }

  lemma FlatStep(bs: seq<seq<Entry>>, k: nat, name: Name)
    requires k < |bs| && forall i :: 0 <= i < |bs| ==> Live(bs[i])
    requires Find(Flat(bs[..k]), name) == 0
    ensures First(Flat(bs[..k + 1]), name) == First(bs[k], name)
  {
    assert bs[..k + 1][..k] == bs[..k];
    FlatLive(bs[..k]);
    FindAppend(Flat(bs[..k]), bs[k], name);
  }

  lemma FlatEmpty(bs: seq<seq<Entry>>)
    ensures Flat(bs + [[]]) == Flat(bs)
  {
    assert (bs + [[]])[..|bs|] == bs;
  }
}
