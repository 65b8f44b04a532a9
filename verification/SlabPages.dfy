/** Objects in slab pages: the free ones are chained through the page, the others are with clients. */
module SlabPages {
  import opened Invariants
  import opened Arith
  import opened SlabLists

  const PAGE: nat := 4096
  const HEADER: nat := 40

  /** The object sizes of the eight caches: 8, 16, 32, ... 1024. */
  function ObjSize(idx: nat): nat {
    if idx == 0 then 8 else 2 * ObjSize(idx - 1)
  }

  lemma ObjSizes()
    ensures ObjSize(0) == 8 && ObjSize(1) == 16 && ObjSize(2) == 32 && ObjSize(3) == 64
    ensures ObjSize(4) == 128 && ObjSize(5) == 256 && ObjSize(6) == 512 && ObjSize(7) == 1024
  {
    assert ObjSize(2) == 32;
    assert ObjSize(4) == 128;
    assert ObjSize(6) == 512;
  }

  /** The page an address is in. */
  function Mask(o: nat): nat {
    o - o % PAGE
  }

  /** An object's place in the page at `a`. */
  ghost predicate IsSlot(a: nat, size: nat, o: nat) {
    0 < size && a + HEADER <= o && o + size <= a + PAGE && Rem(size, o - a - HEADER) == 0
  }

  lemma MaskSlot(a: nat, size: nat, o: nat)
    requires a % PAGE == 0 && IsSlot(a, size, o)
    ensures Mask(o) == a
  {
  }

  ghost predicate ChainAt(links: map<nat, nat>, s: seq<nat>, i: nat)
    requires i < |s| && s[i] in links
  {
    links[s[i]] == At(s, i + 1)
  }

  /** The words of the page chain the objects of `s`, in this order. */
  ghost predicate Chained(links: map<nat, nat>, head: nat, s: seq<nat>) {
    && head == At(s, 0)
    && (forall i: nat :: i < |s| ==> s[i] != 0 && s[i] in links)
    && (forall i: nat {:trigger ChainAt(links, s, i)} :: i < |s| ==> ChainAt(links, s, i))
    && (forall i: nat, j: nat :: i < j < |s| ==> s[i] != s[j])
  }

  lemma ChainPush(links: map<nat, nat>, head: nat, s: seq<nat>, o: nat)
    requires Chained(links, head, s) && o != 0 && o !in s
    ensures Chained(links[o := head], o, Cons(o, s))
  {
    var t := Cons(o, s);
    forall i: nat | i < |t| ensures t[i] in links[o := head] && ChainAt(links[o := head], t, i) {
      if i > 0 { assert t[i] == s[i - 1] && ChainAt(links, s, i - 1); }
    }
    forall i: nat, j: nat | i < j < |t| ensures t[i] != t[j] {
      assert t[j] == s[j - 1] && (i > 0 ==> t[i] == s[i - 1]);
    }
  }

  lemma ChainPop(links: map<nat, nat>, head: nat, s: seq<nat>)
    requires Chained(links, head, s) && s != []
    ensures head == s[0] && head in links && Chained(links, links[head], s[1..])
  {
    var t := s[1..];
    assert ChainAt(links, s, 0);
    forall i: nat | i < |t| ensures t[i] in links && t[i] != 0 && ChainAt(links, t, i) {
      assert t[i] == s[i + 1] && ChainAt(links, s, i + 1);
    }
  }

  /** The page's slots are its free objects and its live ones, and no object is both. */
  ghost predicate Divided(a: nat, size: nat, free: seq<nat>, live: set<nat>) {
    && (forall o: nat :: IsSlot(a, size, o) <==> o in free || (o in live && Mask(o) == a))
    && (forall o :: o in free ==> o !in live)
  }

  ghost predicate PageOk(a: nat, pg: Page, free: seq<nat>, live: set<nat>) {
    && a % PAGE == 0 && 0 < pg.objSize && Chained(pg.links, pg.freelist, free) && pg.freeCount == |free|
    && Divided(a, pg.objSize, free, live)
  }

  function Taken(pg: Page): Page
    requires pg.freelist in pg.links && 0 < pg.freeCount
  {
    pg.(freelist := pg.links[pg.freelist], freeCount := pg.freeCount - 1)
  }

  function Given(pg: Page, o: nat): Page {
    pg.(links := pg.links[o := pg.freelist], freelist := o, freeCount := pg.freeCount + 1)
  }

  /** The first free object goes to a client. */
  lemma TakeOk(a: nat, pg: Page, free: seq<nat>, live: set<nat>)
    requires PageOk(a, pg, free, live) && free != []
    ensures pg.freelist == free[0] != 0 && free[0] in pg.links && IsSlot(a, pg.objSize, free[0]) &&
      Mask(free[0]) == a && free[0] !in live
    ensures PageOk(a, Taken(pg), free[1..], live + {free[0]})
  {
    var o, rest := free[0], free[1..];
    ChainPop(pg.links, pg.freelist, free);
    assert o in free && IsSlot(a, pg.objSize, o);
    MaskSlot(a, pg.objSize, o);
    assert free == [o] + rest;
    forall q | q in rest ensures q !in live + {o} {
      assert q in free;
      var i :| 0 <= i < |rest| && rest[i] == q;
      assert free[i + 1] == q && free[0] != free[i + 1];
    }
  }

  /** A client's object comes back. */
  lemma GiveOk(a: nat, pg: Page, free: seq<nat>, live: set<nat>, o: nat)
    requires PageOk(a, pg, free, live) && o in live && Mask(o) == a
    ensures PageOk(a, Given(pg, o), Cons(o, free), live - {o})
  {
    assert IsSlot(a, pg.objSize, o) && o !in free;
    ChainPush(pg.links, pg.freelist, free, o);
  }

  /** Another page does not notice. */
  lemma OtherOk(b: nat, pg: Page, free: seq<nat>, live: set<nat>, o: nat)
    requires PageOk(b, pg, free, live) && Mask(o) != b
    ensures PageOk(b, pg, free, live + {o}) && PageOk(b, pg, free, live - {o})
  {
    forall q | q in free ensures q != o {
      assert IsSlot(b, pg.objSize, q);
      MaskSlot(b, pg.objSize, q);
    }
  }

  /** Slots one below the other: from the one before `p` down to `start`. */
  ghost predicate Downward(start: nat, size: nat, free: seq<nat>, p: nat) {
    if free == [] then p == start
    else
      && free[0] + size == p && free[|free| - 1] == start
      && forall i :: 0 < i < |free| ==> free[i] + size == free[i - 1]
  }

  lemma DownOne(start: nat, size: nat, free: seq<nat>, p: nat)
    requires Whole(Downward(start, size, free, p))
    ensures Whole(Downward(start, size, Cons(p, free), p + size))
  {
    var s := Cons(p, free);
    forall i | 0 < i < |s| ensures s[i] + size == s[i - 1] {
      assert s[i] == free[i - 1];
    }
  }

  /** All slots of a page, the last one first. */
  ghost predicate FromLast(a: nat, size: nat, free: seq<nat>) {
    free != [] && a + PAGE < free[0] + 2 * size && Downward(a + HEADER, size, free, free[0] + size)
  }

  /** `slab_page_init`: every slot of the page is chained, the last one first. */
  method InitPage(a: nat, size: nat, owner: nat) returns (pg: Page, ghost free: seq<nat>)
    requires a % PAGE == 0 && 0 < size <= 1024
    ensures pg.objSize == size && pg.owner == owner && pg.next == pg.prev == 0 && pg.total == pg.freeCount > 0
    ensures Chained(pg.links, pg.freelist, free) && pg.freeCount == |free| &&
      forall o: nat :: IsSlot(a, size, o) <==> o in free
    ensures Whole(FromLast(a, size, free))
  {
    var start, end := a + HEADER, a + PAGE;
    var p: nat, freelist: nat, count: nat := start, 0, 0;
    var links: map<nat, nat> := map[];
    free := [];
    while p + size <= end
      invariant start <= p && Rem(size, p - start) == 0 && Chained(links, freelist, free) && count == |free| &&
        (p > start ==> count > 0)
      invariant forall o: nat :: o in free <==> IsSlot(a, size, o) && o < p
      invariant Whole(Downward(start, size, free, p))
      decreases end - p
    {
      NextSlot(a, size, p);
      ChainPush(links, freelist, free, p);
      DownOne(start, size, free, p);
      links := links[p := freelist];
      freelist := p;
      free := Cons(p, free);
      count := count + 1;
      p := p + size;
    }
    pg := Page(0, 0, size, count, count, owner, freelist, links);
  }

  /** Between one slot and the next there is none. */
  lemma NextSlot(a: nat, size: nat, p: nat)
    requires 0 < size && a + HEADER <= p && Rem(size, p - a - HEADER) == 0
    ensures Rem(size, p + size - a - HEADER) == 0
    ensures forall o: nat :: IsSlot(a, size, o) && p <= o < p + size ==> o == p
  {
    forall o: nat | IsSlot(a, size, o) && p <= o < p + size ensures o == p {
      var x, y := p - a - HEADER, o - a - HEADER;
      Split(size, x);
      Split(size, y);
      QuotBound(size, y, Quot(size, x));
      QuotBound(size, y, Quot(size, x) + 1);
    }
  }
}
