/** Logical block numbers and the paths they stand for. */
module Ext2Bmap {
  import opened Arith
  import opened Bytes
  import opened Ext2Tree

  /** One past the last logical block the three trees can hold: 12 + p + p^2 + p^3. */
  function MaxLbn(p: nat): nat {
    NDIR + p + Times(p, p) + Times(Times(p, p), p)
  }

  /** The path `ext2_bmap` and `ext2_bmap_set` follow for a logical block. */
  function PathOf(p: nat, lbn: nat): Path
    requires 0 < p
  {
    if lbn < NDIR then Path(lbn, [])
    else if lbn - NDIR < p then Path(IND, [lbn - NDIR])
    else if lbn - NDIR - p < Times(p, p) then
      var l := lbn - NDIR - p;
      Path(DIND, [Quot(p, l), Rem(p, l)])
    else
      var l := lbn - NDIR - p - Times(p, p);
      Path(TIND, [Quot(Times(p, p), l), Rem(p, Quot(p, l)), Rem(p, l)])
  }

  function LbnOf(p: nat, q: Path): nat
    requires IsData(q)
  {
    if q.slot < NDIR then q.slot
    else if q.slot == IND then NDIR + q.idx[0]
    else if q.slot == DIND then NDIR + p + Times(p, q.idx[0]) + q.idx[1]
    else NDIR + p + Times(p, p) + Times(Times(p, p), q.idx[0]) + Times(p, q.idx[1]) + q.idx[2]
  }

  /** `ext2_bmap` */
  function Bmap(p: nat, disk: Disk, block: Slots, lbn: nat): nat
    requires 0 < p
  {
    if lbn < NDIR then block[lbn]
    else if lbn - NDIR < p then Ptr(disk, block[IND], lbn - NDIR)
    else if lbn - NDIR - p < Times(p, p) then
      var l := lbn - NDIR - p;
      var l1 := Ptr(disk, block[DIND], Quot(p, l));
      Ptr(disk, l1, Rem(p, l))
    else
      var l := lbn - NDIR - p - Times(p, p);
      var l1 := Ptr(disk, block[TIND], Quot(Times(p, p), l));
      var l2 := Ptr(disk, l1, Rem(p, Quot(p, l)));
      Ptr(disk, l2, Rem(p, l))
  }

  lemma Square(p: nat)
    requires 0 < p
    ensures p <= Times(p, p)
  {
    if p > 1 { TimesOrder(p, 1, p); }
  }

  /** Digits a, b, c in base p make the number a*p^2 + b*p + c, and determine it. */
  lemma DigitsOf(p: nat, l: nat)
    requires 0 < p
    ensures Quot(Times(p, p), l) == Quot(p, Quot(p, l))
    ensures l == Times(Times(p, p), Quot(p, Quot(p, l))) + Times(p, Rem(p, Quot(p, l))) + Rem(p, l)
  {
    var d := Quot(p, l);
    var a, b, c := Quot(p, d), Rem(p, d), Rem(p, l);
    Square(p);
    Split(p, l);
    Split(p, d);
    TimesAdd(p, Times(p, a), b);
    TimesAssoc(p, p, a);
    TimesOrder(p, b, p);
    Join(Times(p, p), a, Times(p, b) + c);
  }

  lemma DigitsTo(p: nat, a: nat, b: nat, c: nat)
    requires a < p && b < p && c < p
    ensures var l := Times(Times(p, p), a) + Times(p, b) + c;
      l < Times(Times(p, p), p) && Quot(Times(p, p), l) == a && Rem(p, Quot(p, l)) == b && Rem(p, l) == c
  {
    var l := Times(Times(p, p), a) + Times(p, b) + c;
    HighDigit(p, a, b, c, l);
    LowDigits(p, a, b, c, l);
  }

  lemma HighDigit(p: nat, a: nat, b: nat, c: nat, l: nat)
    requires a < p && b < p && c < p && l == Times(Times(p, p), a) + Times(p, b) + c
    ensures l < Times(Times(p, p), p) && Quot(Times(p, p), l) == a
  {
    TimesOrder(p, b, p);
    Join(Times(p, p), a, Times(p, b) + c);
    TimesOrder(Times(p, p), a, p);
  }

  lemma HighDigits(p: nat, a: nat, b: nat, d: nat)
    requires d == Times(p, a) + b
    ensures Times(p, d) == Times(Times(p, p), a) + Times(p, b)
  {
    TimesAssoc(p, p, a);
    TimesAdd(p, Times(p, a), b);
  }

  lemma LowDigits(p: nat, a: nat, b: nat, c: nat, l: nat)
    requires a < p && b < p && c < p && l == Times(Times(p, p), a) + Times(p, b) + c
    ensures Rem(p, Quot(p, l)) == b && Rem(p, l) == c
  {
    var d := Times(p, a) + b;
    HighDigits(p, a, b, d);
    Join(p, d, c);
    Join(p, a, b);
  }

  /** Below `MaxLbn` the indices stay inside their tables, and the block number can be
      read back from the path: different logical blocks have different paths. */
  lemma PathOfValid(p: nat, lbn: nat)
    requires 0 < p && lbn < MaxLbn(p)
    ensures ValidPath(p, PathOf(p, lbn)) && IsData(PathOf(p, lbn))
    ensures LbnOf(p, PathOf(p, lbn)) == lbn
  {
    Square(p);
    if lbn >= NDIR + p {
      var l := lbn - NDIR - p;
      if l < Times(p, p) {
        Split(p, l);
        QuotBound(p, l, p);
      } else {
        DigitsOf(p, l - Times(p, p));
        QuotBound(Times(p, p), l - Times(p, p), p);
      }
    }
  }

  /** Every data path is the path of some logical block. */
  lemma LbnOfValid(p: nat, q: Path)
    requires 0 < p && ValidPath(p, q) && IsData(q)
    ensures LbnOf(p, q) < MaxLbn(p) && PathOf(p, LbnOf(p, q)) == q
  {
    if q.slot == DIND {
      Join(p, q.idx[0], q.idx[1]);
      TimesOrder(p, q.idx[0], p);
    } else if q.slot == TIND {
      DigitsTo(p, q.idx[0], q.idx[1], q.idx[2]);
    }
  }

  lemma ResolveOne(disk: Disk, block: Slots, s: Slot, a: nat)
    ensures Resolve(disk, block, Path(s, [a])) == Ptr(disk, block[s], a)
  {
    assert Parent(Path(s, [a])) == Path(s, []);
  }

  lemma ResolveTwo(disk: Disk, block: Slots, s: Slot, a: nat, b: nat)
    ensures Resolve(disk, block, Path(s, [a, b])) == Ptr(disk, Ptr(disk, block[s], a), b)
  {
    assert Parent(Path(s, [a, b])) == Path(s, [a]);
    ResolveOne(disk, block, s, a);
  }

  lemma ResolveThree(disk: Disk, block: Slots, s: Slot, a: nat, b: nat, c: nat)
    ensures Resolve(disk, block, Path(s, [a, b, c])) == Ptr(disk, Ptr(disk, Ptr(disk, block[s], a), b), c)
  {
    assert Parent(Path(s, [a, b, c])) == Path(s, [a, b]);
    ResolveTwo(disk, block, s, a, b);
  }

  /** The unrolled lookup of the driver is path resolution. */
  lemma BmapResolves(p: nat, disk: Disk, block: Slots, lbn: nat)
    requires 0 < p && lbn < MaxLbn(p)
    ensures Bmap(p, disk, block, lbn) == Resolve(disk, block, PathOf(p, lbn))
  {
    var q := PathOf(p, lbn);
    if q.slot == IND {
      ResolveOne(disk, block, IND, q.idx[0]);
    } else if q.slot == DIND {
      ResolveTwo(disk, block, DIND, q.idx[0], q.idx[1]);
    } else if q.slot == TIND {
      ResolveThree(disk, block, TIND, q.idx[0], q.idx[1], q.idx[2]);
    }
  }

  lemma {:induction false} TimesGrows(m: nat, n: nat, a: nat, b: nat)
    requires a <= m && b <= n
    ensures Times(a, b) <= Times(m, n)
  {
    if b > 0 {
      TimesGrows(m, n - 1, a, b - 1);
    }
  }

  /** A 32-bit byte position never leaves the range of the trees once blocks have at
      least 1024 bytes, the smallest ext2 block. */
  lemma PositionInRange(p: nat, pos: nat)
    requires 256 <= p && pos < TWO_32
    ensures Quot(4 * p, pos) < MaxLbn(p)
  {
    TimesGrows(p, p, 256, 256);
    TimesIs(256, 256);
    TimesGrows(Times(p, p), p, 65536, 256);
    TimesIs(65536, 256);
    TimesGrows(4 * p, 0x40_0000, 1024, 0x40_0000);
    TimesIs(1024, 0x40_0000);
    QuotBound(4 * p, pos, 0x40_0000);
  }
}
