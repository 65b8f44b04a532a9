/** How many blocks a write takes. Every block a file can reach has a path, so the blocks that are
    missing for some data paths are the paths on the way to them that lead nowhere yet. */
module Ext2Space {
  import opened Invariants
  import opened Bytes
  import opened Ext2Tree
  import opened Ext2Bmap
  import opened Ext2Graft
  import opened Ext2Files

  /** Tables missing among the first `k` on the way to `q`. */
  ghost function Missing(v: Volume, f: nat, q: Path, k: nat): nat
    requires f in v.files && k <= |q.idx|
  {
    if k == 0 then 0 else Missing(v, f, q, k - 1) + if At(v, f, Prefix(q, k - 1)) == 0 then 1 else 0
  }

  /** The blocks needed to give `q` a block: none if it has one, else itself and the missing tables. */
  ghost function Cost(v: Volume, f: nat, q: Path): nat
    requires f in v.files
  {
    if At(v, f, q) != 0 then 0 else Missing(v, f, q, |q.idx|) + 1
  }

  /** The path leads nowhere. */
  ghost predicate Void(v: Volume, f: nat, r: Path)
    requires f in v.files
  {
    At(v, f, r) == 0
  }

  predicate Leads(r: Path, q: Path) {
    r.slot == q.slot && r.idx <= q.idx
  }

  /** In `w` the way to `q` is there; every other path of `f` leads somewhere exactly if it did in `v`. */
  ghost predicate Wired(v: Volume, w: Volume, f: nat, q: Path) {
    && v.p == w.p && f in v.files && f in w.files
    && forall r {:trigger Void(w, f, r)} :: ValidPath(v.p, r) ==> (Void(w, f, r) <==> Void(v, f, r) && !Leads(r, q))
  }

  /** The first `k` paths on the way to `q`, and `q` if `k` is greater than its length. */
  ghost function Stops(q: Path, k: nat): set<Path>
    requires k <= |q.idx| + 1
  {
    if k == 0 then {} else Stops(q, k - 1) + {Prefix(q, k - 1)}
  }

  ghost function Way(q: Path): set<Path> {
    Stops(q, |q.idx| + 1)
  }

  lemma {:induction false} StopsAre(q: Path, k: nat, r: Path)
    requires k <= |q.idx| + 1
    ensures r in Stops(q, k) <==> Leads(r, q) && |r.idx| < k
    decreases k
  {
    if k > 0 {
      StopsAre(q, k - 1, r);
      if Leads(r, q) && |r.idx| == k - 1 { IsPrefix(q, r, k - 1); }
    }
  }

  /** The paths of a set that lead nowhere. */
  ghost function Holes(v: Volume, f: nat, way: set<Path>): set<Path>
    requires f in v.files
  {
    set r | r in way && Void(v, f, r)
  }

  lemma {:induction false} HolesCount(v: Volume, f: nat, q: Path, k: nat)
    requires f in v.files && k <= |q.idx|
    ensures |Holes(v, f, Stops(q, k))| == Missing(v, f, q, k)
    decreases k
  {
    if k > 0 {
      HolesCount(v, f, q, k - 1);
      HolesNext(v, f, q, k);
    }
  }

  lemma HolesNext(v: Volume, f: nat, q: Path, k: nat)
    requires f in v.files && 0 < k <= |q.idx| + 1
    ensures |Holes(v, f, Stops(q, k))| ==
      |Holes(v, f, Stops(q, k - 1))| + if At(v, f, Prefix(q, k - 1)) == 0 then 1 else 0
  {
    var r := Prefix(q, k - 1);
    StopsAre(q, k - 1, r);
    var a, b := Holes(v, f, Stops(q, k)), Holes(v, f, Stops(q, k - 1));
    if At(v, f, r) == 0 {
      assert a == b + {r};
    } else {
      assert a == b;
    }
  }

  lemma {:induction false} NoWay(v: Volume, f: nat, q: Path, k: nat)
    requires f in v.files && k <= |q.idx| && At(v, f, Prefix(q, k)) != 0
    ensures Missing(v, f, q, k) == 0
    decreases k
  {
    if k > 0 {
      var r := Prefix(q, k);
      assert Parent(r) == Prefix(q, k - 1) by { assert q.idx[..k][..k - 1] == q.idx[..k - 1]; }
      NoWay(v, f, q, k - 1);
    }
  }

  /** The cost of a path is the number of holes on its way. */
  lemma CostIs(v: Volume, f: nat, q: Path)
    requires f in v.files
    ensures |Holes(v, f, Way(q))| == Cost(v, f, q)
  {
    var n := |q.idx|;
    assert Prefix(q, n) == q;
    HolesCount(v, f, q, n);
    HolesNext(v, f, q, n + 1);
    if At(v, f, q) != 0 { NoWay(v, f, q, n); }
  }

  lemma {:induction false} LeadsThere(v: Volume, f: nat, q: Path, r: Path)
    requires f in v.files && Leads(r, q) && At(v, f, q) != 0
    ensures At(v, f, r) != 0
    decreases |q.idx|
  {
    if |r.idx| < |q.idx| {
      LeadsThere(v, f, Parent(q), r);
    } else {
      assert r.idx == q.idx;
    }
  }

  lemma WiredAlready(v: Volume, f: nat, q: Path)
    requires f in v.files && At(v, f, q) != 0
    ensures Wired(v, v, f, q)
  {
    forall r | Leads(r, q) ensures At(v, f, r) != 0 {
      LeadsThere(v, f, q, r);
    }
  }

  lemma WayValid(p: nat, q: Path, r: Path)
    requires ValidPath(p, q) && r in Way(q)
    ensures ValidPath(p, r) && Leads(r, q)
  {
    StopsAre(q, |q.idx| + 1, r);
  }

  /** `w` is `v` with the paths of `way` given blocks, and no others. */
  ghost predicate Supplied(v: Volume, w: Volume, f: nat, way: set<Path>) {
    && v.p == w.p && f in v.files && f in w.files && (forall r :: r in way ==> ValidPath(v.p, r))
    && forall r {:trigger Void(w, f, r)} :: ValidPath(v.p, r) ==> (Void(w, f, r) <==> Void(v, f, r) && r !in way)
  }

  /** The holes a further path adds are those on its way that are holes now. */
  lemma MoreHoles(v: Volume, w: Volume, f: nat, way: set<Path>, q: Path)
    requires Supplied(v, w, f, way) && ValidPath(v.p, q)
    ensures |Holes(v, f, way + Way(q))| == |Holes(v, f, way)| + Cost(w, f, q)
  {
    forall r | r in Way(q) ensures ValidPath(v.p, r) {
      WayValid(v.p, q, r);
    }
    var a, b := Holes(v, f, way), Holes(w, f, Way(q));
    assert Holes(v, f, way + Way(q)) == a + b && a !! b;
    CostIs(w, f, q);
  }

  lemma SupplyMore(v: Volume, w: Volume, u: Volume, f: nat, way: set<Path>, q: Path)
    requires Supplied(v, w, f, way) && ValidPath(v.p, q) && Wired(w, u, f, q)
    ensures Supplied(v, u, f, way + Way(q))
  {
    forall r | r in Way(q) ensures ValidPath(v.p, r) {
      WayValid(v.p, q, r);
    }
    forall r | ValidPath(v.p, r) ensures Void(u, f, r) <==> Void(v, f, r) && r !in way + Way(q) {
      StopsAre(q, |q.idx| + 1, r);
    }
  }

  /** The paths on the way to the first `n` bytes from the 32-bit position `from` on. */
  ghost function Touched(p: nat, from: nat, n: nat): set<Path>
    requires 0 < p
  {
    if n == 0 then {} else Touched(p, from, n - 1) + Way(PathOf(p, BlockOf(p, Low32(from + n - 1))))
  }

  /** The number of blocks missing for those bytes. */
  ghost function Required(v: Volume, f: nat, from: nat, n: nat): nat
    requires 0 < v.p && f in v.files
  {
    |Holes(v, f, Touched(v.p, from, n))|
  }

  /** Bytes that fall into one block touch the way to that block. */
  lemma {:induction false} TouchedMore(p: nat, from: nat, m: nat, n: nat, pos: nat)
    requires 256 <= p && 0 < n && pos == Low32(from + m) && pos + n <= TWO_32 && OffsetOf(p, pos) + n <= 4 * p
    ensures Touched(p, from, m + n) == Touched(p, from, m) + Way(PathOf(p, BlockOf(p, pos)))
    decreases n
  {
    if n > 1 {
      TouchedMore(p, from, m, n - 1, pos);
      Low32Plus(from + m, n - 1);
      Position(p, pos, n, pos + n - 1);
    }
  }

  lemma {:induction false} RequiredGrows(v: Volume, f: nat, from: nat, m: nat, n: nat)
    requires 0 < v.p && f in v.files && m <= n
    ensures Required(v, f, from, m) <= Required(v, f, from, n) && Touched(v.p, from, m) <= Touched(v.p, from, n)
    decreases n
  {
    if m < n { RequiredGrows(v, f, from, m, n - 1); }
    var a, b := Holes(v, f, Touched(v.p, from, m)), Holes(v, f, Touched(v.p, from, n));
    assert a <= b;
    CardGrows(a, b);
  }

  lemma CardGrows(a: set<Path>, b: set<Path>)
    requires a <= b
    ensures |a| <= |b|
  {
    assert b == a + (b - a);
  }

  /** The blocks for the first `n` bytes are there, and came from the free ones. */
  ghost predicate Spent(v: Volume, w: Volume, f: nat, from: nat, n: nat, free: nat, left: nat) {
    0 < v.p && Supplied(v, w, f, Touched(v.p, from, n)) && free == left + Required(v, f, from, n)
  }

  lemma SpentNone(v: Volume, f: nat, from: nat, free: nat)
    requires Wf(v) && f in v.files
    ensures Whole(Spent(v, v, f, from, 0, free, free))
  {
    assert Holes(v, f, {}) == {};
  }

  /** What `n` bytes of one block cost: they are stored exactly when the free blocks suffice. */
  ghost predicate Paid(w: Volume, u: Volume, f: nat, q: Path, left: nat, rest: nat, ok: bool) {
    && f in w.files && (ok <==> Cost(w, f, q) <= left) && rest == (if ok then left - Cost(w, f, q) else 0)
    && (ok ==> Wired(w, u, f, q))
  }

  /** A path that has its block costs nothing. */
  lemma PaidAlready(v: Volume, f: nat, q: Path, free: nat)
    requires f in v.files && At(v, f, q) != 0
    ensures Whole(Paid(v, v, f, q, free, free, true))
  {
    WiredAlready(v, f, q);
  }

  lemma PaidNot(v: Volume, f: nat, q: Path)
    requires f in v.files && At(v, f, q) == 0
    ensures Whole(Paid(v, v, f, q, 0, 0, false))
  {
  }

  lemma {:induction false} MissingSame(v: Volume, u: Volume, f: nat, q: Path, k: nat)
    requires f in v.files && u == v.(used := u.used) && k <= |q.idx|
    ensures Missing(u, f, q, k) == Missing(v, f, q, k)
  {
    if k > 0 { MissingSame(v, u, f, q, k - 1); }
  }

  /** A block was taken for `q` itself, then blocks for the missing tables; `u` is `v` with the first
      marked as used. */
  lemma PaidFor(v: Volume, u: Volume, w: Volume, f: nat, q: Path, free: nat, rest: nat, ok: bool)
    requires f in v.files && u == v.(used := u.used) && At(v, f, q) == 0 && 0 < free
    requires ok <==> Missing(u, f, q, |q.idx|) <= free - 1
    requires rest == if ok then free - 1 - Missing(u, f, q, |q.idx|) else 0
    requires ok ==> Wired(u, w, f, q)
    ensures Whole(Paid(v, w, f, q, free, rest, ok))
  {
    MissingSame(v, u, f, q, |q.idx|);
    assert forall r :: At(u, f, r) == At(v, f, r);
  }

  /** Storing into a block changes no path. */
  lemma PaidStored(v: Volume, w: Volume, u: Volume, f: nat, q: Path, free: nat, rest: nat)
    requires Whole(Paid(v, w, f, q, free, rest, true)) && SameMap(w, u)
    ensures Whole(Paid(v, u, f, q, free, rest, true))
  {
    forall r | ValidPath(v.p, r) ensures Void(u, f, r) <==> Void(v, f, r) && !Leads(r, q) {
      assert Void(u, f, r) <==> Void(w, f, r);
    }
  }

  lemma SpentMore(v: Volume, w: Volume, u: Volume, f: nat, from: nat, m: nat, n: nat, pos: nat, more: nat,
    free: nat, left: nat, rest: nat)
    requires 256 <= v.p && Whole(Spent(v, w, f, from, m, free, left)) && 0 < n && more == m + n
    requires pos == Low32(from + m) && pos + n <= TWO_32 && OffsetOf(v.p, pos) + n <= 4 * v.p
    requires Whole(Paid(w, u, f, PathOf(v.p, BlockOf(v.p, pos)), left, rest, true))
    ensures Whole(Spent(v, u, f, from, more, free, rest))
  {
    var q, way := PathOf(v.p, BlockOf(v.p, pos)), Touched(v.p, from, m);
    Position(v.p, pos, n, pos);
    TouchedMore(v.p, from, m, n, pos);
    MoreHoles(v, w, f, way, q);
    SupplyMore(v, w, u, f, way, q);
  }

  /** What is stored of `n` bytes: as many as the free blocks suffice for. */
  ghost predicate Afforded(v: Volume, f: nat, from: nat, n: nat, stored: nat, free: nat, left: nat) {
    && 0 < v.p && f in v.files && stored <= n && Required(v, f, from, stored) <= free
    && if stored == n then left == free - Required(v, f, from, n)
       else left == 0 && free < Required(v, f, from, stored + 1)
  }

  lemma AffordedAll(v: Volume, w: Volume, f: nat, from: nat, n: nat, free: nat, left: nat)
    requires Whole(Spent(v, w, f, from, n, free, left))
    ensures Whole(Afforded(v, f, from, n, n, free, left))
  {
  }

  lemma AffordedSome(v: Volume, w: Volume, u: Volume, f: nat, from: nat, m: nat, n: nat, pos: nat, free: nat,
    left: nat, rest: nat)
    requires 256 <= v.p && Whole(Spent(v, w, f, from, m, free, left)) && m < n && pos == Low32(from + m)
    requires Whole(Paid(w, u, f, PathOf(v.p, BlockOf(v.p, pos)), left, rest, false))
    ensures Whole(Afforded(v, f, from, n, m, free, rest))
  {
    Position(v.p, pos, 1, pos);
    MoreHoles(v, w, f, Touched(v.p, from, m), PathOf(v.p, BlockOf(v.p, pos)));
  }

  /** All bytes are stored exactly when the blocks missing for them, tables included, are free. */
  lemma AllStored(v: Volume, f: nat, from: nat, n: nat, stored: nat, free: nat, left: nat)
    requires Whole(Afforded(v, f, from, n, stored, free, left))
    ensures f in v.files && 0 < v.p && (stored == n <==> Required(v, f, from, n) <= free)
  {
    if stored < n { RequiredGrows(v, f, from, stored + 1, n); }
  }
}
