/** The slab allocator on one CPU: global caches, and per-CPU caches once they are set up. */
module Slab {
  import opened Invariants
  import opened Arith
  import BuddyTree
  import BuddyAlloc
  import opened SlabLists
  import opened SlabPages

  const NONE: nat := 0xFFFF

  ghost predicate Objects(pages: Pages, free: map<nat, seq<nat>>, live: set<nat>) {
    && free.Keys == pages.Keys
    && (forall a :: a in pages ==> PageOk(a, pages[a], free[a], live))
    && (forall o :: o in live ==> Mask(o) in pages)
  }

  /** The page is on the list its fields call for: of its size, of its owner, and full exactly when
      no object is free. */
  predicate Right(pg: Page, id: ListId, cpu: nat) {
    && id.idx < 8 && pg.objSize == ObjSize(id.idx) && (id.full <==> pg.freeCount == 0)
    && pg.owner == if id.cpu then cpu else NONE
  }

  ghost predicate Homes(pages: Pages, home: map<nat, ListId>, cpu: nat, x: nat) {
    forall a :: a in pages && a != x ==> a in home && Right(pages[a], home[a], cpu)
  }

  /** Nothing but list links differs. */
  ghost predicate SameBodies(pages: Pages, r: Pages) {
    r.Keys == pages.Keys && forall a :: a in pages ==> r[a] == pages[a].(next := r[a].next, prev := r[a].prev)
  }

  lemma PushBodies(pages: Pages, head: nat, p: nat)
    ensures Whole(SameBodies(pages, Push(pages, head, p)))
  {
  }

  lemma UnlinkBodies(pages: Pages, p: nat)
    requires p in pages
    ensures Whole(SameBodies(pages, Unlink(pages, p)))
  {
  }

  lemma SameKept(pages: Pages, r: Pages, free: map<nat, seq<nat>>, live: set<nat>, home: map<nat, ListId>, cpu: nat,
    x: nat)
    requires Whole(SameBodies(pages, r))
    ensures Whole(Objects(pages, free, live)) ==> Whole(Objects(r, free, live))
    ensures Whole(Homes(pages, home, cpu, x)) ==> Whole(Homes(r, home, cpu, x))
  {
  }

  lemma TouchLinked(pages: Pages, heads: Heads, lists: Lists, p: nat, pg: Page)
    requires AllLinked(pages, heads, lists) && p in pages && pg.next == pages[p].next && pg.prev == pages[p].prev
    ensures Whole(AllLinked(pages[p := pg], heads, lists))
  {
    var r := pages[p := pg];
    assert r.Keys == pages.Keys;
    forall id | id in lists ensures Linked(r, heads[id], lists[id]) {
      assert Linked(pages, heads[id], lists[id]);
      OthersLinked(pages, r, heads[id], lists[id]);
    }
  }

  /** A page changed in place, with its links kept. */
  lemma TouchListed(pages: Pages, heads: Heads, lists: Lists, home: map<nat, ListId>, x: nat, p: nat, pg: Page)
    requires Whole(Listed(pages, heads, lists, home, x)) && p in pages && pg.next == pages[p].next &&
      pg.prev == pages[p].prev
    ensures Whole(Listed(pages[p := pg], heads, lists, home, x))
  {
    TouchLinked(pages, heads, lists, p, pg);
    assert pages[p := pg].Keys == pages.Keys;
  }

  lemma TouchHomes(pages: Pages, home: map<nat, ListId>, cpu: nat, p: nat, pg: Page)
    requires Whole(Homes(pages, home, cpu, 0)) && p in pages && 0 !in pages
    ensures Whole(Homes(pages[p := pg], home, cpu, p))
    ensures p in home && Right(pg, home[p], cpu) ==> Whole(Homes(pages[p := pg], home, cpu, 0))
  {
  }

  lemma TakeObjects(pages: Pages, free: map<nat, seq<nat>>, live: set<nat>, p: nat)
    requires Whole(Objects(pages, free, live)) && p in pages && pages[p].freeCount > 0
    ensures p in free && free[p] != [] && pages[p].freelist == free[p][0] != 0 && free[p][0] in pages[p].links
    ensures free[p][0] !in live && Mask(free[p][0]) == p && IsSlot(p, pages[p].objSize, free[p][0])
    ensures Whole(Objects(pages[p := Taken(pages[p])], free[p := free[p][1..]], live + {free[p][0]}))
  {
    assert PageOk(p, pages[p], free[p], live);
    TakeOk(p, pages[p], free[p], live);
    var o := free[p][0];
    forall a | a in pages && a != p ensures PageOk(a, pages[a], free[a], live + {o}) {
      OtherOk(a, pages[a], free[a], live, o);
    }
  }

  lemma GiveObjects(pages: Pages, free: map<nat, seq<nat>>, live: set<nat>, o: nat)
    requires Whole(Objects(pages, free, live)) && o in live
    ensures Mask(o) in pages && Mask(o) in free
    ensures Whole(Objects(pages[Mask(o) := Given(pages[Mask(o)], o)], free[Mask(o) := Cons(o, free[Mask(o)])],
      live - {o}))
  {
    var p := Mask(o);
    assert PageOk(p, pages[p], free[p], live);
    GiveOk(p, pages[p], free[p], live, o);
    forall a | a in pages && a != p ensures PageOk(a, pages[a], free[a], live - {o}) {
      OtherOk(a, pages[a], free[a], live, o);
    }
  }

  /** A new page with no live object. */
  lemma NewObjects(pages: Pages, free: map<nat, seq<nat>>, live: set<nat>, p: nat, pg: Page, fr: seq<nat>)
    requires Whole(Objects(pages, free, live)) && p !in pages && p % PAGE == 0 && 0 < pg.objSize && pg.freeCount == |fr|
    requires Chained(pg.links, pg.freelist, fr) && forall o: nat :: IsSlot(p, pg.objSize, o) <==> o in fr
    ensures Whole(Objects(pages[p := pg], free[p := fr], live))
  {
    forall o: nat | o in fr ensures o !in live {
      assert IsSlot(p, pg.objSize, o);
      MaskSlot(p, pg.objSize, o);
    }
  }

  /** What is in memory: the pages, the heads of the lists, and whether the CPU's caches are set up. */
  datatype Memory = Memory(pages: Pages, heads: Heads, initialized: bool)

  /** What it means: the lists in order, the list of each page, its free objects, and all objects
      that clients hold. */
  datatype Books = Books(lists: Lists, home: map<nat, ListId>, free: map<nat, seq<nat>>, live: set<nat>)

  /** All is well, but for where page `x` belongs. */
  ghost predicate Good(m: Memory, b: Books, cpu: nat, x: nat) {
    && cpu < 64 && Whole(Listed(m.pages, m.heads, b.lists, b.home, 0)) && Whole(Objects(m.pages, b.free, b.live))
    && Whole(Homes(m.pages, b.home, cpu, x)) && Whole(Quiet(m.initialized, b.lists))
  }

  /** A page goes from one list to another, where it belongs. */
  method Move(m: Memory, ghost b: Books, cpu: nat, from: ListId, to: ListId, p: nat, ghost k: nat)
    returns (n: Memory, ghost c: Books)
    requires Good(m, b, cpu, p) && from in b.lists && to in b.lists && k < |b.lists[from]| &&
      p == b.lists[from][k] && from != to
    requires p in m.pages && Whole(Right(m.pages[p], to, cpu)) && (to.cpu ==> m.initialized)
    ensures Good(n, c, cpu, 0) && Whole(SameBodies(m.pages, n.pages)) && n.initialized == m.initialized
    ensures c.free == b.free && c.live == b.live && c.home == b.home[p := to] && to in n.heads && n.heads[to] == p
    ensures c.lists == b.lists[from := Without(b.lists[from], k)][to := Cons(p, b.lists[to])]
  {
    QuietMove(m.initialized, b.lists, from, to, k);
    var r, hs := MovePage(m.pages, m.heads, b.lists, b.home, from, to, p, k);
    MoveBodies(m.pages, r, b.free, b.live, b.home, cpu, p, to);
    n := Memory(r, hs, m.initialized);
    c := Books(b.lists[from := Without(b.lists[from], k)][to := Cons(p, b.lists[to])], b.home[p := to], b.free, b.live);
  }

  /** The page at the head of a list. */
  lemma HeadPage(m: Memory, b: Books, cpu: nat, id: ListId)
    requires Good(m, b, cpu, 0) && IsList(id)
    ensures id in m.heads && id in b.lists && m.heads[id] == At(b.lists[id], 0)
    ensures m.heads[id] != 0 ==>
      && b.lists[id] != [] && b.lists[id][0] == m.heads[id] && m.heads[id] in m.pages
      && m.heads[id] in b.home && b.home[m.heads[id]] == id && Whole(Right(m.pages[m.heads[id]], id, cpu))
  {
    assert Linked(m.pages, m.heads[id], b.lists[id]);
  }

  /** A page is on the list it belongs to. */
  lemma PageHome(m: Memory, b: Books, cpu: nat, p: nat) returns (k: nat)
    requires Good(m, b, cpu, 0) && p in m.pages
    ensures p in b.home && b.home[p] in b.lists && IsList(b.home[p]) && Whole(Right(m.pages[p], b.home[p], cpu))
    ensures k < |b.lists[b.home[p]]| && b.lists[b.home[p]][k] == p && 0 !in m.pages
    ensures b.home[p].cpu ==> m.initialized
  {
    assert p in b.lists[b.home[p]];
    k :| 0 <= k < |b.lists[b.home[p]]| && b.lists[b.home[p]][k] == p;
  }

  /** A page changed in place, but not its links. */
  lemma Touch(m: Memory, b: Books, cpu: nat, p: nat, pg: Page, free: map<nat, seq<nat>>, live: set<nat>)
    requires Good(m, b, cpu, 0) && p in m.pages && pg.next == m.pages[p].next && pg.prev == m.pages[p].prev
    requires Whole(Objects(m.pages[p := pg], free, live))
    ensures var n, c := m.(pages := m.pages[p := pg]), b.(free := free, live := live);
      && Good(n, c, cpu, p) && (p in b.home && Whole(Right(pg, b.home[p], cpu)) ==> Good(n, c, cpu, 0))
  {
    TouchListed(m.pages, m.heads, b.lists, b.home, 0, p, pg);
    TouchHomes(m.pages, b.home, cpu, p, pg);
  }

  /** Page `p` is at place `k` of list `id`, and fits the list `id` or its counterpart. */
  ghost predicate Set(m: Memory, b: Books, cpu: nat, id: ListId, p: nat, k: nat) {
    && Good(m, b, cpu, p) && IsList(id) && id in b.lists && id.(full := !id.full) in b.lists
    && k < |b.lists[id]| && b.lists[id][k] == p && p in m.pages && (id.cpu ==> m.initialized)
    && (Whole(Right(m.pages[p], id, cpu)) ==> Good(m, b, cpu, 0))
    && (!Whole(Right(m.pages[p], id, cpu)) ==> Whole(Right(m.pages[p], id.(full := !id.full), cpu)))
  }

  /** A page at place `k` of list `id` is changed in place, and fits the list or its counterpart. */
  lemma Retouch(m: Memory, b: Books, cpu: nat, id: ListId, p: nat, k: nat, pg: Page, free: map<nat, seq<nat>>,
    live: set<nat>)
    requires Good(m, b, cpu, 0) && IsList(id) && id in b.lists && id.(full := !id.full) in b.lists
    requires k < |b.lists[id]| && b.lists[id][k] == p && p in m.pages && p in b.home && b.home[p] == id
    requires pg.next == m.pages[p].next && pg.prev == m.pages[p].prev && (id.cpu ==> m.initialized)
    requires Right(pg, id, cpu) || Right(pg, id.(full := !id.full), cpu)
    requires Whole(Objects(m.pages[p := pg], free, live))
    ensures Whole(Set(m.(pages := m.pages[p := pg]), b.(free := free, live := live), cpu, id, p, k))
  {
    Touch(m, b, cpu, p, pg, free, live);
  }

  ghost function BooksTaken(b: Books, p: nat): Books
    requires p in b.free && b.free[p] != []
  {
    b.(free := b.free[p := b.free[p][1..]], live := b.live + {b.free[p][0]})
  }

  /** Memory and books after the first free object of a page was taken. */
  lemma TakeStep(m: Memory, b: Books, cpu: nat, id: ListId, p: nat)
    requires Good(m, b, cpu, 0) && IsList(id) && !id.full && id in m.heads && m.heads[id] == p != 0
    requires p in m.pages && m.pages[p].freelist in m.pages[p].links && 0 < m.pages[p].freeCount && p in b.free &&
      b.free[p] != []
    ensures Whole(Set(m.(pages := m.pages[p := Taken(m.pages[p])]), BooksTaken(b, p), cpu, id, p, 0))
  {
    HeadPage(m, b, cpu, id);
    HeadPage(m, b, cpu, id.(full := true));
    TakeObjects(m.pages, b.free, b.live, p);
    Retouch(m, b, cpu, id, p, 0, Taken(m.pages[p]), BooksTaken(b, p).free, BooksTaken(b, p).live);
  }

  /** The page changes lists exactly when its last free object is taken. */
  lemma TakeMoves(m: Memory, b: Books, cpu: nat, id: ListId, p: nat)
    requires Good(m, b, cpu, 0) && IsList(id) && !id.full && id in m.heads && m.heads[id] == p != 0
    ensures p in m.pages && m.pages[p].freelist in m.pages[p].links && 0 < m.pages[p].freeCount && p in b.free &&
      b.free[p] != []
    ensures m.pages[p].freeCount == 1 <==> !Whole(Right(Taken(m.pages[p]), id, cpu))
  {
    HeadPage(m, b, cpu, id);
    TakeObjects(m.pages, b.free, b.live, p);
  }

  /** Object `o` of the page at `p` has gone to a client, and no other. */
  ghost predicate Took(m: Memory, b: Books, n: Memory, c: Books, p: nat, o: nat, idx: nat) {
    && n.pages.Keys == m.pages.Keys && n.initialized == m.initialized
    && o != 0 && o !in b.live && c.live == b.live + {o} && Mask(o) == p && IsSlot(p, ObjSize(idx), o)
    && p in m.pages && n.pages[p].owner == m.pages[p].owner && o == m.pages[p].freelist
  }

  lemma TakeTook(m: Memory, b: Books, cpu: nat, id: ListId, p: nat)
    requires Good(m, b, cpu, 0) && IsList(id) && !id.full && id in m.heads && m.heads[id] == p != 0
    ensures p in m.pages && m.pages[p].freelist in m.pages[p].links && 0 < m.pages[p].freeCount && p in b.free &&
      b.free[p] != []
    ensures Whole(Took(m, b, m.(pages := m.pages[p := Taken(m.pages[p])]), BooksTaken(b, p), p, m.pages[p].freelist,
      id.idx))
  {
    HeadPage(m, b, cpu, id);
    TakeObjects(m.pages, b.free, b.live, p);
    TookFacts(m, b, p, b.free[p][0], id.idx, Taken(m.pages[p]));
  }

  lemma TookFacts(m: Memory, b: Books, p: nat, o: nat, idx: nat, pg: Page)
    requires p in m.pages && p in b.free && b.free[p] != [] && o == b.free[p][0] && pg.owner == m.pages[p].owner
    requires o != 0 && o !in b.live && Mask(o) == p && IsSlot(p, ObjSize(idx), o) && o == m.pages[p].freelist
    ensures Whole(Took(m, b, m.(pages := m.pages[p := pg]), BooksTaken(b, p), p, o, idx))
  {
  }

  lemma MoveTook(m: Memory, b: Books, n: Memory, c: Books, n': Memory, c': Books, p: nat, o: nat, idx: nat)
    requires Whole(Took(m, b, n, c, p, o, idx)) && Whole(SameBodies(n.pages, n'.pages)) &&
      n'.initialized == n.initialized && c'.live == c.live
    ensures Whole(Took(m, b, n', c', p, o, idx))
  {
  }

  /** The first free object of the first page of a partial list; a page without free objects then
      goes to the full list. */
  method TakeObject(m: Memory, ghost b: Books, cpu: nat, id: ListId) returns (o: nat, n: Memory, ghost c: Books)
    requires Good(m, b, cpu, 0) && IsList(id) && !id.full && id in m.heads && m.heads[id] != 0
    ensures Good(n, c, cpu, 0) && Whole(Took(m, b, n, c, m.heads[id], o, id.idx))
  {
    var p := m.heads[id];
    TakeMoves(m, b, cpu, id, p);
    TakeStep(m, b, cpu, id, p);
    TakeTook(m, b, cpu, id, p);
    o := m.pages[p].freelist;
    n := m.(pages := m.pages[p := Taken(m.pages[p])]);
    c := BooksTaken(b, p);
    if m.pages[p].freeCount == 1 {
      ghost var n', c' := n, c;
      n, c := Refile(n, c, cpu, id, p, 0);
      MoveTook(m, b, n', c', n, c, p, o, id.idx);
    }
  }

  /** A page that no longer fits its list goes to the counterpart. */
  method Refile(m: Memory, ghost b: Books, cpu: nat, id: ListId, p: nat, ghost k: nat)
    returns (n: Memory, ghost c: Books)
    requires Whole(Set(m, b, cpu, id, p, k)) && !Whole(Right(m.pages[p], id, cpu))
    ensures Good(n, c, cpu, 0) && Whole(SameBodies(m.pages, n.pages)) && n.initialized == m.initialized &&
      c.live == b.live
    ensures id.(full := !id.full) in n.heads && n.heads[id.(full := !id.full)] == p
  {
    n, c := Move(m, b, cpu, id, id.(full := !id.full), p, k);
  }

  ghost function BooksGiven(b: Books, p: nat, o: nat): Books
    requires p in b.free
  {
    b.(free := b.free[p := Cons(o, b.free[p])], live := b.live - {o})
  }

  /** Memory and books after an object was put back on its page's free list. */
  lemma GiveStep(m: Memory, b: Books, cpu: nat, id: ListId, o: nat, k: nat)
    requires Good(m, b, cpu, 0) && o in b.live && Mask(o) in m.pages && Mask(o) in b.home && b.home[Mask(o)] == id
    requires IsList(id) && id in b.lists && k < |b.lists[id]| && b.lists[id][k] == Mask(o) && (id.cpu ==> m.initialized)
    requires Whole(Right(m.pages[Mask(o)], id, cpu))
    ensures Mask(o) in b.free
    ensures Whole(Set(m.(pages := m.pages[Mask(o) := Given(m.pages[Mask(o)], o)]), BooksGiven(b, Mask(o), o), cpu,
      id, Mask(o), k))
    ensures id.full <==> !Whole(Right(Given(m.pages[Mask(o)], o), id, cpu))
  {
    var p := Mask(o);
    HeadPage(m, b, cpu, id.(full := !id.full));
    GiveObjects(m.pages, b.free, b.live, o);
    Retouch(m, b, cpu, id, p, k, Given(m.pages[p], o), BooksGiven(b, p, o).free, BooksGiven(b, p, o).live);
  }

  /** Object `o` has come back, and no other: it is now the first free one of its page. */
  ghost predicate Gave(m: Memory, b: Books, n: Memory, c: Books, o: nat) {
    && n.pages.Keys == m.pages.Keys && n.initialized == m.initialized && c.live == b.live - {o}
    && Mask(o) in m.pages && var pg, was := n.pages[Mask(o)], m.pages[Mask(o)];
    && pg.freelist == o && o in pg.links && pg.links[o] == was.freelist
    && pg.freeCount == was.freeCount + 1 && pg.owner == was.owner && pg.objSize == was.objSize
  }

  lemma GiveGave(m: Memory, b: Books, o: nat, p: nat)
    requires p == Mask(o) && p in m.pages && p in b.free
    ensures Whole(Gave(m, b, m.(pages := m.pages[p := Given(m.pages[p], o)]), BooksGiven(b, p, o), o))
  {
  }

  lemma MoveGave(m: Memory, b: Books, n: Memory, c: Books, n': Memory, c': Books, o: nat)
    requires Whole(Gave(m, b, n, c, o)) && Whole(SameBodies(n.pages, n'.pages)) && n'.initialized == n.initialized &&
      c'.live == c.live
    ensures Whole(Gave(m, b, n', c', o))
  {
  }

  /** An object comes back; a page that was full goes to the partial list. */
  method GiveObject(m: Memory, ghost b: Books, cpu: nat, id: ListId, o: nat) returns (n: Memory, ghost c: Books)
    requires Good(m, b, cpu, 0) && o in b.live && Mask(o) in m.pages && Mask(o) in b.home && b.home[Mask(o)] == id
    ensures Good(n, c, cpu, 0) && Whole(Gave(m, b, n, c, o))
    ensures m.pages[Mask(o)].freeCount > 0 ==> n.heads == m.heads
    ensures m.pages[Mask(o)].freeCount == 0 ==>
      id.(full := false) in n.heads && n.heads[id.(full := false)] == Mask(o)
  {
    var p := Mask(o);
    ghost var k := PageHome(m, b, cpu, p);
    GiveStep(m, b, cpu, id, o, k);
    GiveGave(m, b, o, p);
    n := m.(pages := m.pages[p := Given(m.pages[p], o)]);
    c := BooksGiven(b, p, o);
    if m.pages[p].freeCount == 0 {
      ghost var n', c' := n, c;
      n, c := Refile(n, c, cpu, id, p, k);
      MoveGave(m, b, n', c', n, c, o);
    }
  }

  lemma {:induction false} Sizes(i: nat, j: nat)
    requires i <= j
    ensures 8 <= ObjSize(i) <= ObjSize(j) && (i < j ==> ObjSize(i) < ObjSize(j))
  {
    if i < j { Sizes(i, j - 1); } else if i > 0 { Sizes(i - 1, i - 1); }
  }

  lemma Born(pages: Pages, home: map<nat, ListId>, cpu: nat, p: nat, pg: Page)
    requires Whole(Homes(pages, home, cpu, 0)) && 0 !in pages
    ensures Whole(Homes(pages[p := pg], home, cpu, p))
  {
  }

  lemma NoZero(m: Memory, b: Books, cpu: nat)
    requires Good(m, b, cpu, 0)
    ensures 0 !in m.pages
  {
  }

  lemma NewKeys(pages: Pages, r: Pages, raw: nat, pg: Page)
    requires Whole(SameBodies(pages[raw := pg], r))
    ensures r.Keys == pages.Keys + {raw}
  {
  }

  /** The first free object of page `p` is its last slot. */
  ghost predicate LastSlot(n: Memory, p: nat, idx: nat) {
    p in n.pages && p + PAGE < n.pages[p].freelist + 2 * ObjSize(idx)
  }

  lemma NewLast(m: Memory, pages: Pages, r: Pages, hs: Heads, raw: nat, idx: nat, fr: seq<nat>)
    requires Whole(SameBodies(pages, r)) && raw in pages && Chained(pages[raw].links, pages[raw].freelist, fr)
    requires Whole(FromLast(raw, ObjSize(idx), fr))
    ensures Whole(LastSlot(Memory(r, hs, m.initialized), raw, idx))
  {
  }

  /** `alloc_raw_page` and `list_push`: a page from the buddy allocator, all free, on a partial list. */
  method NewPage(m: Memory, ghost b: Books, cpu: nat, id: ListId, raw: nat) returns (n: Memory, ghost c: Books)
    requires Good(m, b, cpu, 0) && IsList(id) && id in b.lists && !id.full && (id.cpu ==> m.initialized)
    requires raw % PAGE == 0 && raw != 0 && raw !in m.pages
    ensures Good(n, c, cpu, 0) && n.initialized == m.initialized && c.live == b.live && id in n.heads &&
      n.heads[id] == raw && n.pages.Keys == m.pages.Keys + {raw}
    ensures Whole(LastSlot(n, raw, id.idx))
  {
    var pg; ghost var fr;
    Sizes(0, id.idx);
    Sizes(id.idx, 7);
    ObjSizes();
    pg, fr := InitPage(raw, ObjSize(id.idx), if id.cpu then cpu else NONE);
    NoZero(m, b, cpu);
    NewListed(m.pages, m.heads, b.lists, b.home, raw, pg);
    NewObjects(m.pages, b.free, b.live, raw, pg, fr);
    Born(m.pages, b.home, cpu, raw, pg);
    QuietPush(m.initialized, b.lists, id, raw);
    var pages := m.pages[raw := pg];
    var r, hs := Attach(pages, m.heads, b.lists, b.home, id, raw);
    MoveBodies(pages, r, b.free[raw := fr], b.live, b.home, cpu, raw, id);
    NewKeys(m.pages, r, raw, pg);
    NewLast(m, pages, r, hs, raw, id.idx, fr);
    n := Memory(r, hs, m.initialized);
    c := Books(b.lists[id := Cons(raw, b.lists[id])], b.home[raw := id], b.free[raw := fr], b.live);
  }

  lemma QuietPush(initialized: bool, lists: Lists, id: ListId, p: nat)
    requires Whole(Quiet(initialized, lists)) && id in lists && (id.cpu ==> initialized)
    ensures Whole(Quiet(initialized, lists[id := Cons(p, lists[id])]))
  {
  }

  lemma OwnerObjects(pages: Pages, free: map<nat, seq<nat>>, live: set<nat>, p: nat, cpu: nat)
    requires Whole(Objects(pages, free, live)) && p in pages
    ensures Whole(Objects(pages[p := pages[p].(owner := cpu)], free, live))
  {
    assert PageOk(p, pages[p].(owner := cpu), free[p], live) by { assert PageOk(p, pages[p], free[p], live); }
  }

  /** The CPU takes over the first page of the global partial list. */
  method Adopt(m: Memory, ghost b: Books, cpu: nat, from: ListId, to: ListId) returns (n: Memory, ghost c: Books)
    requires Good(m, b, cpu, 0) && IsList(from) && !from.cpu && !from.full && to == from.(cpu := true)
    requires from in m.heads && m.heads[from] != 0 && m.initialized
    ensures Good(n, c, cpu, 0) && n.initialized == m.initialized && c.live == b.live && to in n.heads &&
      n.heads[to] == m.heads[from] && n.pages.Keys == m.pages.Keys
    ensures m.heads[from] in m.pages && n.pages[m.heads[from]].freelist == m.pages[m.heads[from]].freelist
  {
    var p := m.heads[from];
    HeadPage(m, b, cpu, from);
    HeadPage(m, b, cpu, to);
    OwnerObjects(m.pages, b.free, b.live, p, cpu);
    var page := m.pages[p].(owner := cpu);
    Touch(m, b, cpu, p, page, b.free, b.live);
    n, c := Move(m.(pages := m.pages[p := page]), b.(free := b.free, live := b.live), cpu, from, to, p, 0);
  }

  /** Object `o` of size class `idx` is new to the clients; what they hold else is as before. */
  ghost predicate Served(b: Books, c: Books, o: nat, idx: nat) {
    o != 0 && o !in b.live && c.live == b.live + {o} && IsSlot(Mask(o), ObjSize(idx), o)
  }

  /** The page of object `o` belongs to `owner`. */
  ghost predicate Placed(n: Memory, o: nat, owner: nat) {
    Mask(o) in n.pages && n.pages[Mask(o)].owner == owner
  }

  lemma TookServed(m: Memory, b: Books, m': Memory, b': Books, n: Memory, c: Books, p: nat, o: nat, idx: nat)
    requires Whole(Took(m', b', n, c, p, o, idx)) && b'.live == b.live
    ensures Whole(Served(b, c, o, idx))
  {
  }

  lemma TookKeys(m: Memory, b: Books, n: Memory, c: Books, p: nat, o: nat, idx: nat)
    requires Whole(Took(m, b, n, c, p, o, idx))
    ensures n.pages.Keys == m.pages.Keys && Mask(o) == p && p in n.pages && n.pages[p].owner == m.pages[p].owner
  {
  }

  /** No page of the list `id`, or of the global one it stands for, has a free object. */
  predicate Barren(m: Memory, id: ListId)
    requires id in m.heads && id.(cpu := false) in m.heads
  {
    m.heads[id] == 0 && m.heads[id.(cpu := false)] == 0
  }

  /** Page `p` is where the next object comes from: the first page of the list or, if there is none, of the
      global list or, if there is none, the new page. */
  ghost predicate Ready(m: Memory, n: Memory, id: ListId, raw: nat, p: nat)
    requires id in m.heads && id.(cpu := false) in m.heads
  {
    var global := m.heads[id.(cpu := false)];
    && p == (if m.heads[id] != 0 then m.heads[id] else if global != 0 then global else raw) && p in n.pages
    && (!Barren(m, id) ==> p in m.pages && n.pages[p].freelist == m.pages[p].freelist)
    && (Barren(m, id) ==> LastSlot(n, p, id.idx))
  }

  /** Object `o` is the first free one of the first page of the list or, if there is none, of the global
      list or, if there is none, the last of a new page. */
  ghost predicate Drawn(m: Memory, id: ListId, o: nat)
    requires id in m.heads && id.(cpu := false) in m.heads
  {
    var p, q := m.heads[id], m.heads[id.(cpu := false)];
    if p != 0 then p in m.pages && o == m.pages[p].freelist
    else if q != 0 then q in m.pages && o == m.pages[q].freelist
    else Mask(o) !in m.pages && Mask(o) + PAGE < o + 2 * ObjSize(id.idx)
  }

  lemma TookDrawn(m: Memory, b: Books, m': Memory, b': Books, n: Memory, c: Books, id: ListId, raw: nat, p: nat, o: nat)
    requires id in m.heads && id.(cpu := false) in m.heads && Whole(Ready(m, m', id, raw, p))
    requires Whole(Took(m', b', n, c, p, o, id.idx)) && (Barren(m, id) ==> raw !in m.pages)
    ensures Whole(Drawn(m, id, o))
  {
  }

  /** A page with a free object comes to the head of the list: it is there, or from the global list,
      or `raw`, which is what the buddy allocator gives when asked for a page. */
  method FindPage(m: Memory, ghost b: Books, cpu: nat, id: ListId, raw: nat) returns (n: Memory, ghost c: Books)
    requires Good(m, b, cpu, 0) && IsList(id) && !id.full && id in m.heads && id.(cpu := false) in m.heads &&
      (id.cpu ==> m.initialized)
    requires Barren(m, id) ==> raw != 0 && raw % PAGE == 0 && raw !in m.pages
    ensures Good(n, c, cpu, 0) && n.initialized == m.initialized && c.live == b.live
    ensures id in n.heads && n.heads[id] != 0
    ensures n.pages.Keys == if Barren(m, id) then m.pages.Keys + {raw} else m.pages.Keys
    ensures Whole(Ready(m, n, id, raw, n.heads[id]))
  {
    n, c := m, b;
    HeadPage(m, b, cpu, id);
    if m.heads[id] == 0 {
      var global := id.(cpu := false);
      if m.heads[global] != 0 {
        n, c := Adopt(m, b, cpu, global, id);
      } else {
        n, c := NewPage(m, b, cpu, id, raw);
      }
    }
  }

  /** `cpu_cache_alloc` and the global path of `slab_alloc`, on partial list `id`. */
  method CacheAlloc(m: Memory, ghost b: Books, cpu: nat, id: ListId, raw: nat)
    returns (o: nat, n: Memory, ghost c: Books)
    requires Good(m, b, cpu, 0) && IsList(id) && !id.full && id in m.heads && id.(cpu := false) in m.heads &&
      (id.cpu ==> m.initialized)
    requires Barren(m, id) ==> raw == 0 || (raw % PAGE == 0 && raw !in m.pages)
    ensures Good(n, c, cpu, 0) && n.initialized == m.initialized
    ensures o == 0 <==> raw == 0 && Barren(m, id)
    ensures o == 0 ==> n == m && c == b
    ensures o != 0 ==> Whole(Served(b, c, o, id.idx)) && Whole(Placed(n, o, if id.cpu then cpu else NONE))
    ensures o != 0 ==> n.pages.Keys == if Barren(m, id) then m.pages.Keys + {raw} else m.pages.Keys
    ensures o != 0 ==> Whole(Drawn(m, id, o))
  {
    if raw == 0 && Barren(m, id) { return 0, m, b; }
    n, c := FindPage(m, b, cpu, id, raw);
    ghost var m', b' := n, c;
    HeadPage(n, c, cpu, id);
    o, n, c := TakeObject(n, c, cpu, id);
    TookServed(m, b, m', b', n, c, m'.heads[id], o, id.idx);
    TookKeys(m', b', n, c, m'.heads[id], o, id.idx);
    TookDrawn(m, b, m', b', n, c, id, raw, m'.heads[id], o);
  }

  /** `cache_index_for_size` */
  method IndexOf(size: nat) returns (idx: int)
    ensures idx == -1 ==> forall i: nat :: i < 8 ==> ObjSize(i) != size
    ensures idx != -1 ==> 0 <= idx < 8 && ObjSize(idx) == size
  {
    for i := 0 to 8
      invariant forall j: nat :: j < i ==> ObjSize(j) != size
    {
      if ObjSize(i) == size { return i; }
    }
    idx := -1;
  }

  /** The list a page is on can be told from its fields. */
  lemma HomeIs(pg: Page, id: ListId, cpu: nat, idx: nat, initialized: bool)
    requires Whole(Right(pg, id, cpu)) && idx < 8 && pg.objSize == ObjSize(idx) && cpu < 64 && (id.cpu ==> initialized)
    ensures id == ListId(pg.owner != NONE && pg.owner == cpu && initialized, pg.freeCount == 0, idx)
  {
    if id.idx < idx { Sizes(id.idx, idx); } else if idx < id.idx { Sizes(idx, id.idx); }
  }

  /** The heads of the CPU's lists of the first `n` size classes are null. */
  function Dropped(heads: Heads, n: nat): Heads {
    map id | id in heads :: if id.cpu && id.idx < n then 0 else heads[id]
  }

  /** Memory after `slab_cpu_init`. */
  function Reset(m: Memory): Memory {
    m.(initialized := true, heads := Dropped(m.heads, 8))
  }

  lemma DropStep(heads: Heads, n: nat)
    requires ListId(true, false, n) in heads && ListId(true, true, n) in heads
    ensures Dropped(heads, n)[ListId(true, false, n) := 0][ListId(true, true, n) := 0] == Dropped(heads, n + 1)
  {
  }

  /** The loop of `slab_cpu_init`. */
  method DropHeads(heads: Heads) returns (hs: Heads)
    requires forall i: nat :: i < 8 ==> ListId(true, false, i) in heads && ListId(true, true, i) in heads
    ensures hs == Dropped(heads, 8)
  {
    hs := heads;
    assert hs == Dropped(heads, 0);
    for i := 0 to 8
      invariant hs == Dropped(heads, i)
    {
      DropStep(heads, i);
      hs := hs[ListId(true, false, i) := 0][ListId(true, true, i) := 0];
    }
  }

  lemma HeadsListed(m: Memory, b: Books, cpu: nat)
    requires Good(m, b, cpu, 0)
    ensures forall i: nat :: i < 8 ==> ListId(true, false, i) in m.heads && ListId(true, true, i) in m.heads
  {
    forall i: nat | i < 8 ensures ListId(true, false, i) in m.heads && ListId(true, true, i) in m.heads {
      assert IsList(ListId(true, false, i)) && IsList(ListId(true, true, i));
    }
  }

  lemma DroppedGood(m: Memory, b: Books, cpu: nat)
    requires Good(m, b, cpu, 0)
    ensures Whole(Good(Reset(m), b, cpu, 0)) <==> Reset(m).heads == m.heads
    ensures !m.initialized ==> Reset(m).heads == m.heads
  {
    var hs := Dropped(m.heads, 8);
    forall id | id in b.lists ensures Linked(m.pages, m.heads[id], b.lists[id]) && (m.heads[id] == 0 <==>
      b.lists[id] == []) {
    }
    if Good(Reset(m), b, cpu, 0) {
      forall id | id in m.heads ensures hs[id] == m.heads[id] {
        assert Linked(m.pages, hs[id], b.lists[id]);
      }
    }
  }

  /** What may be passed to `slab_free`: NULL, an address outside the slab pages, or a live object. */
  ghost predicate Releasable(m: Memory, b: Books, ptr: nat) {
    ptr != 0 && Mask(ptr) in m.pages ==> ptr in b.live
  }

  /** Page `p` has become the first of the partial list of its size and its owner if it was full; no list
      has another head otherwise. */
  ghost predicate Front(m: Memory, n: Memory, cpu: nat, p: nat) {
    && p in m.pages && var pg := m.pages[p];
    && (pg.freeCount > 0 ==> n.heads == m.heads)
    && forall idx: nat :: pg.freeCount == 0 && idx < 8 && ObjSize(idx) == pg.objSize ==>
         var id := ListId(pg.owner != NONE && pg.owner == cpu && m.initialized, false, idx);
         id in n.heads && n.heads[id] == p
  }

  lemma FrontOf(m: Memory, n: Memory, cpu: nat, p: nat, idx: nat)
    requires p in m.pages && idx < 8 && m.pages[p].objSize == ObjSize(idx)
    requires m.pages[p].freeCount > 0 ==> n.heads == m.heads
    requires m.pages[p].freeCount == 0 ==>
      var id := ListId(m.pages[p].owner != NONE && m.pages[p].owner == cpu && m.initialized, false, idx);
      id in n.heads && n.heads[id] == p
    ensures Whole(Front(m, n, cpu, p))
  {
    forall i: nat | i < 8 && ObjSize(i) == ObjSize(idx) ensures i == idx {
      if i < idx { Sizes(i, idx); } else if idx < i { Sizes(idx, i); }
    }
  }

  ghost predicate Released(m: Memory, b: Books, n: Memory, c: Books, cpu: nat, ptr: nat) {
    if ptr != 0 && Mask(ptr) in m.pages then Gave(m, b, n, c, ptr) && Front(m, n, cpu, Mask(ptr)) else n == m && c == b
  }

  method Free(m: Memory, ghost b: Books, cpu: nat, ptr: nat) returns (n: Memory, ghost c: Books)
    requires Good(m, b, cpu, 0) && Whole(Releasable(m, b, ptr))
    ensures Whole(Good(n, c, cpu, 0)) && Whole(Released(m, b, n, c, cpu, ptr))
  {
    if ptr == 0 || Mask(ptr) !in m.pages { return m, b; }
    n, c := GiveBack(m, b, cpu, ptr);
  }

  /** The part of `slab_free` that finds the lists of the object's page. */
  method GiveBack(m: Memory, ghost b: Books, cpu: nat, ptr: nat) returns (n: Memory, ghost c: Books)
    requires Good(m, b, cpu, 0) && Mask(ptr) in m.pages && ptr in b.live
    ensures Good(n, c, cpu, 0) && Whole(Gave(m, b, n, c, ptr)) && Whole(Front(m, n, cpu, Mask(ptr)))
  {
    var p := Mask(ptr);
    var page := m.pages[p];
    ghost var k := PageHome(m, b, cpu, p);
    ghost var home := b.home[p];
    var idx := IndexOf(page.objSize);
    SizeFound(page, home, cpu, idx);
    HomeIs(page, home, cpu, idx, m.initialized);
    n, c := GiveObject(m, b, cpu, ListId(page.owner != NONE && page.owner == cpu &&
      m.initialized, page.freeCount == 0, idx), ptr);
    FrontOf(m, n, cpu, p, idx);
  }

  lemma SizeFound(pg: Page, id: ListId, cpu: nat, idx: int)
    requires Whole(Right(pg, id, cpu)) && (idx == -1 ==> forall i: nat :: i < 8 ==> ObjSize(i) != pg.objSize)
    ensures idx != -1
  {
  }

  /** The objects and homes of pages whose links alone have changed. */
  lemma MoveBodies(pages: Pages, r: Pages, free: map<nat, seq<nat>>, live: set<nat>, home: map<nat, ListId>,
    cpu: nat, p: nat, to: ListId)
    requires Whole(SameBodies(pages, r)) && Whole(Objects(pages, free, live)) && Whole(Homes(pages, home, cpu, p))
    requires p in pages && Whole(Right(pages[p], to, cpu))
    ensures Whole(Objects(r, free, live)) && Whole(Homes(r, home[p := to], cpu, 0))
  {
    SameKept(pages, r, free, live, home, cpu, p);
    SameRight(pages, r, p, to, cpu);
    HomeAgain(r, home, cpu, p, to);
  }

  /** `list_remove` from one list and `list_push` onto another. */
  method MovePage(pages: Pages, heads: Heads, ghost lists: Lists, ghost home: map<nat, ListId>, from: ListId,
    to: ListId, p: nat, ghost k: nat)
    returns (r: Pages, hs: Heads)
    requires Whole(Listed(pages, heads, lists, home, 0)) && from in lists && to in lists && from != to
    requires k < |lists[from]| && p == lists[from][k]
    ensures Whole(Listed(r, hs, lists[from := Without(lists[from], k)][to := Cons(p, lists[to])], home[p := to], 0))
    ensures Whole(SameBodies(pages, r)) && to in hs && hs[to] == p
  {
    ghost var gone;
    r, hs, gone := Detach(pages, heads, lists, home, from, p, k);
    ghost var between := r;
    r, hs := Attach(r, hs, gone, home, to, p);
    SameTwice(pages, between, r);
  }

  /** No page is on a list of the CPU before its caches are set up. */
  ghost predicate Quiet(initialized: bool, lists: Lists) {
    !initialized ==> forall id :: id in lists && id.cpu ==> lists[id] == []
  }

  lemma QuietMove(initialized: bool, lists: Lists, from: ListId, to: ListId, k: nat)
    requires Whole(Quiet(initialized, lists)) && from in lists && to in lists && k < |lists[from]| && (to.cpu ==>
      initialized)
    ensures Whole(Quiet(initialized, lists[from := Without(lists[from], k)][to := Cons(lists[from][k], lists[to])]))
  {
  }

  lemma SameRight(a: Pages, b: Pages, p: nat, id: ListId, cpu: nat)
    requires Whole(SameBodies(a, b)) && p in a && Right(a[p], id, cpu)
    ensures p in b && Whole(Right(b[p], id, cpu))
  {
  }

  lemma SameTwice(a: Pages, b: Pages, c: Pages)
    requires Whole(SameBodies(a, b)) && Whole(SameBodies(b, c))
    ensures Whole(SameBodies(a, c))
  {
  }

  /** `list_remove`: a member of a list leaves it, and the others stay in order. */
  method ListRemove(pages: Pages, head: nat, p: nat, ghost s: seq<nat>, ghost k: nat) returns (r: Pages, h: nat)
    requires p in pages
    ensures r == Unlink(pages, p) && h == UnlinkHead(pages, head, p)
    ensures Whole(Linked(pages, head, s)) && k < |s| && p == s[k] ==> Whole(Linked(r, h, Without(s, k)))
  {
    if Linked(pages, head, s) && k < |s| && p == s[k] { UnlinkLinked(pages, head, s, k); }
    r, h := pages, head;
    var next, prev := pages[p].next, pages[p].prev;
    if prev != 0 {
      r := SetNext(r, prev, next);
    } else {
      h := next;
    }
    if next != 0 { r := SetPrev(r, next, prev); }
    r := SetNext(r, p, 0);
    r := SetPrev(r, p, 0);
  }

  /** `list_push`: a page that is not on the list becomes its head. */
  method ListPush(pages: Pages, head: nat, p: nat, ghost s: seq<nat>) returns (r: Pages)
    ensures r == Push(pages, head, p)
    ensures Whole(Linked(pages, head, s)) && p in pages && p != 0 && p !in s ==> Whole(Linked(r, p, Cons(p, s)))
  {
    if Linked(pages, head, s) && p in pages && p != 0 && p !in s { PushLinked(pages, head, s, p); }
    r := SetPrev(pages, p, 0);
    r := SetNext(r, p, head);
    if head != 0 { r := SetPrev(r, head, p); }
  }

  /** A page leaves its list. */
  method Detach(pages: Pages, heads: Heads, ghost lists: Lists, ghost home: map<nat, ListId>, id: ListId, p: nat,
    ghost k: nat)
    returns (r: Pages, hs: Heads, ghost ls: Lists)
    requires Whole(Listed(pages, heads, lists, home, 0)) && id in lists && k < |lists[id]| && p == lists[id][k]
    ensures ls == lists[id := Without(lists[id], k)] && Whole(Listed(r, hs, ls, home, p))
    ensures Whole(SameBodies(pages, r)) && p in r
  {
    DropListed(pages, heads, lists, home, id, k);
    UnlinkBodies(pages, p);
    var head;
    r, head := ListRemove(pages, heads[id], p, lists[id], k);
    hs := heads[id := head];
    ls := lists[id := Without(lists[id], k)];
  }

  /** A page goes to the head of a list. */
  method Attach(pages: Pages, heads: Heads, ghost lists: Lists, ghost home: map<nat, ListId>, id: ListId, p: nat)
    returns (r: Pages, hs: Heads)
    requires Whole(Listed(pages, heads, lists, home, p)) && id in lists && p in pages
    ensures Whole(Listed(r, hs, lists[id := Cons(p, lists[id])], home[p := id], 0))
    ensures Whole(SameBodies(pages, r)) && id in hs && hs[id] == p
  {
    PlaceListed(pages, heads, lists, home, id, p);
    PushBodies(pages, heads[id], p);
    r := ListPush(pages, heads[id], p, lists[id]);
    hs := heads[id := p];
  }

  lemma HomeAgain(pages: Pages, home: map<nat, ListId>, cpu: nat, p: nat, to: ListId)
    requires Whole(Homes(pages, home, cpu, p)) && p in pages && Whole(Right(pages[p], to, cpu))
    ensures Whole(Homes(pages, home[p := to], cpu, 0))
  {
  }

  /** The pages at these addresses are blocks of the least order that the buddy allocator has out; its
      pool starts at a page. */
  ghost predicate Backed(pages: set<nat>, start: nat, out: set<BuddyTree.Block>) {
    && start % PAGE == 0
    && forall a :: a in pages ==> start <= a && BuddyTree.Block(BuddyTree.MIN, Quot(PAGE, a - start)) in out
  }

  /** Pages of a pool are aligned exactly when the pool is. */
  lemma {:induction false} PageAligned(start: nat, i: nat)
    ensures (start + Times(PAGE, i)) % PAGE == 0 <==> start % PAGE == 0
  {
    if i > 0 { PageAligned(start, i - 1); }
  }

  /** A block that was not out is not among the pages. */
  lemma FreshPage(pages: set<nat>, start: nat, was: set<BuddyTree.Block>, i: nat, raw: nat)
    requires Whole(Backed(pages, start, was)) && BuddyTree.Block(BuddyTree.MIN, i) !in was
    requires raw == start + Times(PAGE, i)
    ensures raw % PAGE == 0 && raw !in pages
    ensures Whole(Backed(pages + {raw}, start, was + {BuddyTree.Block(BuddyTree.MIN, i)}))
  {
    PageAligned(start, i);
    Join(PAGE, i, 0);
  }

  /** The call of `buddy_alloc` in `alloc_raw_page`. */
  method RawPage(buddy: BuddyAlloc.Allocator, ghost pages: set<nat>) returns (raw: nat)
    requires Whole(buddy.Valid()) && Whole(Backed(pages, buddy.poolStart, buddy.out))
    modifies buddy`bits, buddy`freeSize, buddy`out, buddy`owner
    ensures Whole(buddy.Valid())
    ensures raw == 0 <==> Whole(BuddyTree.AllTaken(old(buddy.H()), BuddyTree.MIN))
    ensures raw == 0 ==> buddy.H() == old(buddy.H()) && Whole(Backed(pages, buddy.poolStart, buddy.out))
    ensures raw != 0 ==> raw % PAGE == 0 && raw !in pages
    ensures raw != 0 ==> Whole(Backed(pages + {raw}, buddy.poolStart, buddy.out))
  {
    ghost var was := buddy.out;
    ghost var b;
    BuddyAlloc.PageFits(buddy);
    raw, b := buddy.Alloc(PAGE);
    if raw != 0 { FreshPage(pages, buddy.poolStart, was, b.i, raw); }
  }

  /** The part of `slab_alloc` for one list; the buddy allocator is asked for a page only if needed. */
  method Serve(m: Memory, ghost b: Books, cpu: nat, id: ListId, buddy: BuddyAlloc.Allocator)
    returns (o: nat, n: Memory, ghost c: Books)
    requires Good(m, b, cpu, 0) && IsList(id) && !id.full && id in m.heads && id.(cpu := false) in m.heads &&
      (id.cpu ==> m.initialized)
    requires Whole(buddy.Valid()) && Whole(Backed(m.pages.Keys, buddy.poolStart, buddy.out))
    modifies buddy`bits, buddy`freeSize, buddy`out, buddy`owner
    ensures Good(n, c, cpu, 0) && n.initialized == m.initialized
    ensures Whole(buddy.Valid()) && Whole(Backed(n.pages.Keys, buddy.poolStart, buddy.out))
    ensures o == 0 <==> Barren(m, id) && Whole(BuddyTree.AllTaken(old(buddy.H()), BuddyTree.MIN))
    ensures o == 0 ==> n == m && c == b && buddy.H() == old(buddy.H())
    ensures o != 0 ==> Whole(Served(b, c, o, id.idx)) && Whole(Placed(n, o, if id.cpu then cpu else NONE))
    ensures o != 0 ==> Whole(Drawn(m, id, o)) && (!Barren(m, id) ==> buddy.H() == old(buddy.H()))
  {
    var raw := 0;
    if Barren(m, id) {
      raw := RawPage(buddy, m.pages.Keys);
    }
    o, n, c := CacheAlloc(m, b, cpu, id, raw);
  }

  class Slabs {
    const cpu: nat
    const buddy: BuddyAlloc.Allocator
    var m: Memory
    ghost var b: Books

    ghost predicate Valid()
      reads this, buddy
    {
      && Good(m, b, cpu, 0) && Whole(buddy.Valid())
      && Whole(Backed(m.pages.Keys, buddy.poolStart, buddy.out))
    }

    /** `slab_init` */
    constructor (cpu: nat, buddy: BuddyAlloc.Allocator)
      requires cpu < 64 && Whole(buddy.Valid()) && buddy.poolStart % PAGE == 0
      ensures Valid() && b.live == {} && !m.initialized && m.pages == map[] && this.buddy == buddy
    {
      this.cpu, this.buddy := cpu, buddy;
      m := Memory(map[], map c: bool, f: bool, i: nat | i < 8 :: ListId(c, f, i) := 0, false);
      b := Books(map c: bool, f: bool, i: nat | i < 8 :: ListId(c, f, i) := [], map[], map[], {});
    }

    /** `slab_cpu_init`, for the one CPU. It drops the heads of the CPU's lists: the books survive exactly
        when those lists were empty, as they are before the first call. */
    method CpuInit()
      requires Valid()
      modifies this`m, this`b
      ensures m == Reset(old(m)) && b == old(b)
      ensures Whole(Valid()) <==> Reset(old(m)).heads == old(m).heads
      ensures !old(m).initialized ==> Whole(Valid())
    {
      DroppedGood(m, b, cpu);
      HeadsListed(m, b, cpu);
      var heads := DropHeads(m.heads);
      Become(m.(initialized := true, heads := heads), b);
    }

    /** The partial list that an allocation of size class `i` looks at first. */
    function Partial(i: nat): ListId
      reads this`m
    {
      ListId(m.initialized, false, i)
    }

    /** The part of `slab_alloc` for size class `i`. */
    method AllocClass(i: nat) returns (ptr: nat)
      requires Whole(Valid()) && i < 8
      modifies this`m, this`b, buddy`bits, buddy`freeSize, buddy`out, buddy`owner
      ensures Whole(Valid()) && m.initialized == old(m.initialized)
      ensures Partial(i) in old(m).heads && Partial(i).(cpu := false) in old(m).heads
      ensures ptr == 0 <==>
        Barren(old(m), Partial(i)) && Whole(BuddyTree.AllTaken(old(buddy.H()), BuddyTree.MIN))
      ensures ptr == 0 ==> m == old(m) && b == old(b) && buddy.H() == old(buddy.H())
      ensures ptr != 0 ==>
        Whole(Served(old(b), b, ptr, i)) && Whole(Placed(m, ptr, if m.initialized then cpu else NONE))
      ensures ptr != 0 ==>
        Whole(Drawn(old(m), Partial(i), ptr)) && (!Barren(old(m), Partial(i)) ==> buddy.H() == old(buddy.H()))
    {
      var id := Partial(i);
      HeadPage(m, b, cpu, id);
      HeadPage(m, b, cpu, id.(cpu := false));
      var n; ghost var c;
      ptr, n, c := Serve(m, b, cpu, id, buddy);
      Become(n, c);
    }

    /** `slab_alloc`: an object of the least size class that is large enough. NULL exactly when there is
        no such class, or when no page of the class has a free object and the buddy allocator has no
        page. */
    method Alloc(size: nat) returns (ptr: nat, ghost idx: nat)
      requires Whole(Valid())
      modifies this`m, this`b, buddy`bits, buddy`freeSize, buddy`out, buddy`owner
      ensures Whole(Valid()) && m.initialized == old(m.initialized)
      ensures size <= 1024 ==> idx < 8 && size <= ObjSize(idx) && (forall j: nat :: j < idx ==> ObjSize(j) < size)
      ensures Partial(idx) in old(m).heads && Partial(idx).(cpu := false) in old(m).heads
      ensures ptr == 0 <==>
        size > 1024 || (Barren(old(m), Partial(idx)) && Whole(BuddyTree.AllTaken(old(buddy.H()), BuddyTree.MIN)))
      ensures ptr == 0 ==> m == old(m) && b == old(b) && buddy.H() == old(buddy.H())
      ensures ptr != 0 ==>
        Whole(Served(old(b), b, ptr, idx)) && Whole(Placed(m, ptr, if m.initialized then cpu else NONE))
      ensures ptr != 0 ==>
        Whole(Drawn(old(m), Partial(idx), ptr)) && (!Barren(old(m), Partial(idx)) ==> buddy.H() == old(buddy.H()))
    {
      idx := 0;
      ObjSizes();
      for i := 0 to 8
        invariant forall j: nat :: j < i ==> ObjSize(j) < size
        invariant m == old(m) && b == old(b) && buddy.H() == old(buddy.H()) && Whole(Valid())
      {
        if size <= ObjSize(i) {
          idx := i;
          Sizes(i, 7);
          ptr := AllocClass(i);
          return;
        }
      }
      ptr := 0;
    }

    /** `slab_free`. An address in a page that is not a slab page is left alone. */
    method Release(ptr: nat)
      requires Valid() && Whole(Releasable(m, b, ptr))
      modifies this`m, this`b
      ensures Whole(Valid()) && Whole(Released(old(m), old(b), m, b, cpu, ptr))
    {
      var n; ghost var c;
      n, c := Free(m, b, cpu, ptr);
      Become(n, c);
    }

    method Become(n: Memory, ghost c: Books)
      modifies this`m, this`b
      ensures m == n && b == c
    {
      m, b := n, c;
    }
  }

  /** A page of the CPU is on a list of the CPU, whose head is not null. */
  lemma OwnedHead(m: Memory, b: Books, cpu: nat, o: nat)
    requires Good(m, b, cpu, 0) && Whole(Placed(m, o, cpu))
    ensures Reset(m).heads != m.heads
  {
    var k := PageHome(m, b, cpu, Mask(o));
    var id := b.home[Mask(o)];
    HeadPage(m, b, cpu, id);
    assert id.cpu && m.heads[id] != 0 && Reset(m).heads[id] == 0;
  }

  /** Setting up the caches of the CPU again after an allocation: its pages are on no list. */
  method CpuInitAgain(slabs: Slabs, size: nat) returns (ptr: nat)
    requires Whole(slabs.Valid()) && slabs.m.initialized
    modifies slabs`m, slabs`b, slabs.buddy`bits, slabs.buddy`freeSize, slabs.buddy`out, slabs.buddy`owner
    ensures ptr != 0 ==> !Whole(slabs.Valid())
  {
    ghost var idx;
    ptr, idx := slabs.Alloc(size);
    if ptr != 0 { OwnedHead(slabs.m, slabs.b, slabs.cpu, ptr); }
    slabs.CpuInit();
  }

  /** A client holds object `ptr` of size class `idx`; its page is full and serves this CPU. */
  ghost predicate Packed(m: Memory, b: Books, cpu: nat, ptr: nat, idx: nat) {
    && ptr != 0 && ptr in b.live && Mask(ptr) != 0 && Mask(ptr) in m.pages && idx < 8 && cpu < 64
    && m.pages[Mask(ptr)].objSize == ObjSize(idx) && m.pages[Mask(ptr)].freeCount == 0
    && m.pages[Mask(ptr)].owner == if m.initialized then cpu else NONE
  }

  lemma PackedHeld(m: Memory, b: Books, cpu: nat, ptr: nat, idx: nat)
    requires Whole(Packed(m, b, cpu, ptr, idx))
    ensures Whole(Releasable(m, b, ptr)) && idx < 8
  {
  }

  /** After such an object was given back, its page is the first to serve the size class. */
  lemma PackedNext(m: Memory, b: Books, n: Memory, c: Books, cpu: nat, ptr: nat, idx: nat, id: ListId)
    requires Whole(Packed(m, b, cpu, ptr, idx)) && Whole(Released(m, b, n, c, cpu, ptr))
    requires id in n.heads && id.(cpu := false) in n.heads && id == ListId(n.initialized, false, idx)
    ensures !Barren(n, id) && forall o :: Whole(Drawn(n, id, o)) ==> o == ptr
  {
  }

  lemma LiveAgain(m: Memory, b: Books, n: Memory, c: Books, d: Books, cpu: nat, ptr: nat, idx: nat)
    requires Whole(Packed(m, b, cpu, ptr, idx)) && Whole(Released(m, b, n, c, cpu, ptr))
    requires Whole(Served(c, d, ptr, idx))
    ensures d.live == b.live
  {
    assert b.live - {ptr} + {ptr} == b.live;
  }

  /** An object of a full page that is given back is the next one handed out. */
  method ReleaseThenAlloc(slabs: Slabs, ptr: nat, idx: nat) returns (again: nat)
    requires Whole(slabs.Valid()) && Whole(Packed(slabs.m, slabs.b, slabs.cpu, ptr, idx))
    modifies slabs`m, slabs`b, slabs.buddy`bits, slabs.buddy`freeSize, slabs.buddy`out, slabs.buddy`owner
    ensures Whole(slabs.Valid()) && again == ptr && slabs.b.live == old(slabs.b.live)
  {
    ghost var m, b := slabs.m, slabs.b;
    PackedHeld(m, b, slabs.cpu, ptr, idx);
    slabs.Release(ptr);
    ghost var n, c := slabs.m, slabs.b;
    again := slabs.AllocClass(idx);
    PackedNext(m, b, n, c, slabs.cpu, ptr, idx, ListId(n.initialized, false, idx));
    LiveAgain(m, b, n, c, slabs.b, slabs.cpu, ptr, idx);
  }
}
