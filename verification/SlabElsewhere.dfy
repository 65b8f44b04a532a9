/** `slab_free` on another CPU than the one that owns the object's page. The code then works on the
    global lists, although the page is on a list of its owner. The memory here is that of the owner
    and the global caches; the lists of the CPU that frees play no part. */
module SlabElsewhere {
  import opened Invariants
  import opened SlabLists
  import opened SlabPages
  import opened Slab

  function Disowned(pages: Pages, p: nat): Pages
    requires p in pages
  {
    pages[p := pages[p].(owner := NONE)]
  }

  function Global(full: bool, idx: nat): ListId {
    ListId(false, full, idx)
  }

  function Owned(full: bool, idx: nat): ListId {
    ListId(true, full, idx)
  }

  ghost predicate HasLists(m: Memory, idx: nat) {
    forall c: bool, f: bool :: ListId(c, f, idx) in m.heads
  }

  /** Memory after the object `o` came back to the page at `p` in this way. */
  ghost function Misfiled(m: Memory, p: nat, o: nat, idx: nat): Memory
    requires p in m.pages && HasLists(m, idx)
  {
    var pages := m.pages[p := Given(m.pages[p], o)];
    if m.pages[p].freeCount > 0 then m.(pages := Disowned(pages, p))
    else
      var heads := m.heads[Global(true, idx) := UnlinkHead(pages, m.heads[Global(true, idx)], p)];
      var moved := Push(Unlink(pages, p), heads[Global(false, idx)], p);
      m.(pages := Disowned(moved, p), heads := heads[Global(false, idx) := p])
  }

  /** An object that a client holds, on a page of the CPU `cpu`. */
  ghost predicate Held(m: Memory, b: Books, cpu: nat, o: nat, idx: nat) {
    && Good(m, b, cpu, 0) && o in b.live && Mask(o) in m.pages && m.pages[Mask(o)].owner == cpu
    && idx < 8 && m.pages[Mask(o)].objSize == ObjSize(idx) && HasLists(m, idx)
  }

  /** Its page is on the owner's list. */
  lemma HeldHome(m: Memory, b: Books, cpu: nat, o: nat, idx: nat) returns (k: nat)
    requires Held(m, b, cpu, o, idx)
    ensures var p, id := Mask(o), Owned(m.pages[Mask(o)].freeCount == 0, idx);
      && p != 0 && p in b.home && b.home[p] == id && id in b.lists && k < |b.lists[id]| && b.lists[id][k] == p
      && m.heads[id] == At(b.lists[id], 0) && (m.pages[p].prev != 0 <==> k > 0) && m.initialized
  {
    var p := Mask(o);
    k := PageHome(m, b, cpu, p);
    HomeIs(m.pages[p], b.home[p], cpu, idx, m.initialized);
    var id := b.home[p];
    assert Linked(m.pages, m.heads[id], b.lists[id]);
    assert LinkAt(m.pages, b.lists[id], k);
  }

  /** The links of a list determine it. */
  lemma {:induction false} LinkedOnce(pages: Pages, head: nat, s: seq<nat>, t: seq<nat>, i: nat)
    requires Linked(pages, head, s) && Linked(pages, head, t) && i <= |s|
    ensures i <= |t| && s[..i] == t[..i]
    decreases i
  {
    if i > 0 {
      LinkedOnce(pages, head, s, t, i - 1);
      if i > 1 {
        assert LinkAt(pages, s, i - 2) && LinkAt(pages, t, i - 2) && s[i - 2] == s[..i - 1][i - 2] == t[i - 2];
      }
      assert At(s, i - 1) == At(t, i - 1) != 0;
    }
  }

  lemma ListOf(n: Memory, c: Books, cpu: nat, id: ListId)
    requires Good(n, c, cpu, 0) && IsList(id)
    ensures id in n.heads && id in c.lists && Linked(n.pages, n.heads[id], c.lists[id])
  {
  }

  lemma MemberRight(n: Memory, c: Books, cpu: nat, id: ListId, k: nat)
    requires Good(n, c, cpu, 0) && id in c.lists && k < |c.lists[id]|
    ensures c.lists[id][k] in n.pages && Right(n.pages[c.lists[id][k]], id, cpu)
  {
    assert Linked(n.pages, n.heads[id], c.lists[id]);
  }

  /** Whatever the books, a page linked from the head of a list of the CPU is owned by it. */
  lemma LinkedOwned(n: Memory, c: Books, cpu: nat, id: ListId, s: seq<nat>, k: nat)
    requires Good(n, c, cpu, 0) && id.cpu && IsList(id) && id in n.heads && Linked(n.pages, n.heads[id], s) && k < |s|
    ensures s[k] in n.pages && n.pages[s[k]].owner == cpu
  {
    ListOf(n, c, cpu, id);
    LinkedOnce(n.pages, n.heads[id], s, c.lists[id], k + 1);
    assert s[k] == s[..k + 1][k] == c.lists[id][k];
    MemberRight(n, c, cpu, id, k);
  }

  lemma StillLinked(pages: Pages, p: nat, pg: Page, head: nat, s: seq<nat>)
    requires Linked(pages, head, s) && p in pages && pg.next == pages[p].next && pg.prev == pages[p].prev
    ensures Linked(pages[p := pg], head, s)
  {
    OthersLinked(pages, pages[p := pg], head, s);
  }

  lemma PartialIs(m: Memory, p: nat, o: nat, idx: nat)
    requires p in m.pages && HasLists(m, idx) && m.pages[p].freeCount > 0
    ensures Misfiled(m, p, o, idx) == m.(pages := m.pages[p := Given(m.pages[p], o).(owner := NONE)])
  {
    assert m.pages[p := Given(m.pages[p], o)][p := Given(m.pages[p], o).(owner := NONE)] ==
           m.pages[p := Given(m.pages[p], o).(owner := NONE)];
  }

  /** A page with other free objects stays on its owner's list, but no longer says so. */
  lemma PartialLost(m: Memory, b: Books, cpu: nat, o: nat, idx: nat, c: Books)
    requires Held(m, b, cpu, o, idx) && m.pages[Mask(o)].freeCount > 0
    ensures !Good(Misfiled(m, Mask(o), o, idx), c, cpu, 0)
  {
    var p, id := Mask(o), Owned(false, idx);
    var k := HeldHome(m, b, cpu, o, idx);
    PartialIs(m, p, o, idx);
    ListOf(m, b, cpu, id);
    LostFrom(m, b.lists[id], cpu, id, p, k, Given(m.pages[p], o).(owner := NONE), c);
  }

  lemma LostFrom(m: Memory, s: seq<nat>, cpu: nat, id: ListId, p: nat, k: nat, pg: Page, c: Books)
    requires id.cpu && IsList(id) && id in m.heads && Linked(m.pages, m.heads[id], s) && k < |s| && s[k] == p
    requires p in m.pages && pg.next == m.pages[p].next && pg.prev == m.pages[p].prev && pg.owner == NONE
    ensures !Good(m.(pages := m.pages[p := pg]), c, cpu, 0)
  {
    var n := m.(pages := m.pages[p := pg]);
    StillLinked(m.pages, p, pg, m.heads[id], s);
    if Good(n, c, cpu, 0) { LinkedOwned(n, c, cpu, id, s, k); }
  }

  /** A full page at the head of its owner's list stays its head. */
  lemma FirstLost(m: Memory, b: Books, cpu: nat, o: nat, idx: nat, c: Books)
    requires Held(m, b, cpu, o, idx) && m.pages[Mask(o)].freeCount == 0 && m.pages[Mask(o)].prev == 0
    ensures !Good(Misfiled(m, Mask(o), o, idx), c, cpu, 0)
  {
    var p, id := Mask(o), Owned(true, idx);
    var k := HeldHome(m, b, cpu, o, idx);
    var n := Misfiled(m, p, o, idx);
    assert n.heads[id] == p && n.pages[p].owner == NONE;
    if Good(n, c, cpu, 0) { HeadPage(n, c, cpu, id); }
  }

  /** Taking out a page that is not first leaves every head. */
  lemma HeadsStay(pages: Pages, heads: Heads, p: nat, id: ListId)
    requires p in pages && pages[p].prev != 0 && id in heads
    ensures heads[id := UnlinkHead(pages, heads[id], p)] == heads
  {
  }

  /** The lists after `p` has left place `k` of `from`, whose head it was not, for `to`. */
  lemma MovedListed(pages: Pages, heads: Heads, lists: Lists, home: map<nat, ListId>, from: ListId, to: ListId,
    p: nat, k: nat, gone: Lists)
    requires Whole(Listed(pages, heads, lists, home, 0)) && from in lists && to in lists && from in heads && to in heads
    requires k < |lists[from]| && p == lists[from][k] && p in pages && pages[p].prev != 0
    requires gone == lists[from := Without(lists[from], k)] && to in gone
    ensures Whole(Listed(Push(Unlink(pages, p), heads[to], p), heads[to := p], gone[to := Cons(p, gone[to])],
      home[p := to], 0))
  {
    DropListed(pages, heads, lists, home, from, k);
    HeadsStay(pages, heads, p, from);
    PlaceListed(Unlink(pages, p), heads, gone, home, to, p);
  }

  lemma MovedBodies(pages: Pages, head: nat, p: nat)
    requires p in pages
    ensures Whole(SameBodies(pages, Push(Unlink(pages, p), head, p)))
  {
    UnlinkBodies(pages, p);
    PushBodies(Unlink(pages, p), head, p);
    SameTwice(pages, Unlink(pages, p), Push(Unlink(pages, p), head, p));
  }

  lemma HomesKept(pages: Pages, moved: Pages, home: map<nat, ListId>, cpu: nat, p: nat, pg: Page, to: ListId)
    requires Whole(Homes(pages, home, cpu, 0)) && 0 !in pages && p in pages && Whole(SameBodies(pages[p := pg], moved))
    requires Right(pg.(owner := NONE), to, cpu)
    ensures p in moved && Whole(Homes(Disowned(moved, p), home[p := to], cpu, 0))
  {
    var r := Disowned(moved, p);
    forall a | a in r ensures a in home[p := to] && Right(r[a], home[p := to][a], cpu) {
      if a != p { assert a in pages && Right(pages[a], home[a], cpu); }
    }
  }

  lemma ObjectsKept(pages: Pages, moved: Pages, p: nat, free: map<nat, seq<nat>>, live: set<nat>)
    requires p in pages && Whole(SameBodies(pages, moved)) && Whole(Objects(pages, free, live))
    ensures p in moved && Whole(Objects(Disowned(moved, p), free, live))
  {
    SameKept(pages, moved, free, live, map[], 0, p);
    OwnerObjects(moved, free, live, p, NONE);
  }

  lemma DisownedListed(moved: Pages, heads: Heads, lists: Lists, home: map<nat, ListId>, p: nat)
    requires Whole(Listed(moved, heads, lists, home, 0)) && p in moved
    ensures Whole(Listed(Disowned(moved, p), heads, lists, home, 0))
  {
    TouchListed(moved, heads, lists, home, 0, p, moved[p].(owner := NONE));
  }

  lemma FullIs(m: Memory, p: nat, o: nat, idx: nat, pages: Pages, moved: Pages)
    requires p in m.pages && HasLists(m, idx) && m.pages[p].freeCount == 0 && m.pages[p].prev != 0
    requires pages == m.pages[p := Given(m.pages[p], o)]
    requires moved == Push(Unlink(pages, p), m.heads[Global(false, idx)], p) && p in moved
    ensures Misfiled(m, p, o, idx) == Memory(Disowned(moved, p), m.heads[Global(false, idx) := p], m.initialized)
  {
    HeadsStay(pages, m.heads, p, Global(true, idx));
  }

  /** What is left of the owner's list, and the global list with the page in front. */
  lemma QuietHere(initialized: bool, lists: Lists, from: ListId, to: ListId, k: nat, p: nat, gone: Lists)
    requires Whole(Quiet(initialized, lists)) && from in lists && to in lists && k < |lists[from]| && !to.cpu
    requires gone == lists[from := Without(lists[from], k)] && to in gone
    ensures Whole(Quiet(initialized, gone[to := Cons(p, gone[to])]))
  {
  }

  lemma GoodParts(m: Memory, b: Books, cpu: nat)
    requires Good(m, b, cpu, 0)
    ensures cpu < 64 && 0 !in m.pages && Whole(Listed(m.pages, m.heads, b.lists, b.home, 0))
    ensures Whole(Objects(m.pages, b.free, b.live))
    ensures Whole(Homes(m.pages, b.home, cpu, 0)) && Whole(Quiet(m.initialized, b.lists))
  {
  }

  lemma MadeGood(pages: Pages, heads: Heads, initialized: bool, lists: Lists, home: map<nat, ListId>,
    free: map<nat, seq<nat>>, live: set<nat>, cpu: nat)
    requires cpu < 64 && Whole(Listed(pages, heads, lists, home, 0)) && Whole(Objects(pages, free, live))
    requires Whole(Homes(pages, home, cpu, 0)) && Whole(Quiet(initialized, lists))
    ensures Whole(Good(Memory(pages, heads, initialized), Books(lists, home, free, live), cpu, 0))
  {
  }

  /** Otherwise the page has come where it belongs now. */
  lemma Survives(m: Memory, b: Books, cpu: nat, o: nat, idx: nat) returns (c: Books)
    requires Held(m, b, cpu, o, idx) && m.pages[Mask(o)].freeCount == 0 && m.pages[Mask(o)].prev != 0
    ensures Whole(Good(Misfiled(m, Mask(o), o, idx), c, cpu, 0)) && c.live == b.live - {o}
  {
    var p, from, to := Mask(o), Owned(true, idx), Global(false, idx);
    var k := HeldHome(m, b, cpu, o, idx);
    ListOf(m, b, cpu, to);
    GoodParts(m, b, cpu);
    GiveObjects(m.pages, b.free, b.live, o);
    c := Refile(m, b, cpu, o, idx, k, p, from, to, Given(m.pages[p], o), b.free[p := Cons(o, b.free[p])]);
  }

  lemma Refile(m: Memory, b: Books, cpu: nat, o: nat, idx: nat, k: nat, p: nat, from: ListId, to: ListId, pg: Page,
    free: map<nat, seq<nat>>)
    returns (c: Books)
    requires cpu < 64 && 0 !in m.pages && Whole(Listed(m.pages, m.heads, b.lists, b.home, 0)) && HasLists(m, idx)
    requires Whole(Homes(m.pages, b.home, cpu, 0)) && Whole(Quiet(m.initialized, b.lists))
    requires p in m.pages && pg == Given(m.pages[p], o) && m.pages[p].freeCount == 0 && m.pages[p].prev != 0
    requires Whole(Objects(m.pages[p := pg], free, b.live - {o})) && idx < 8 && m.pages[p].objSize == ObjSize(idx)
    requires from == Owned(true, idx) && to == Global(false, idx) && from in b.lists && to in b.lists
    requires k < |b.lists[from]| && b.lists[from][k] == p
    ensures Whole(Good(Misfiled(m, p, o, idx), c, cpu, 0)) && c.live == b.live - {o}
  {
    var pages, gone := m.pages[p := pg], b.lists[from := Without(b.lists[from], k)];
    var moved := Push(Unlink(pages, p), m.heads[to], p);
    var heads, lists := m.heads[to := p], gone[to := Cons(p, gone[to])];
    TouchListed(m.pages, m.heads, b.lists, b.home, 0, p, pg);
    MovedListed(pages, m.heads, b.lists, b.home, from, to, p, k, gone);
    MovedBodies(pages, m.heads[to], p);
    DisownedListed(moved, heads, lists, b.home[p := to], p);
    ObjectsKept(pages, moved, p, free, b.live - {o});
    HomesKept(m.pages, moved, b.home, cpu, p, pg, to);
    QuietHere(m.initialized, b.lists, from, to, k, p, gone);
    FullIs(m, p, o, idx, pages, moved);
    MadeGood(Disowned(moved, p), heads, m.initialized, lists, b.home[p := to], free, b.live - {o}, cpu);
    c := Books(lists, b.home[p := to], free, b.live - {o});
  }

  /** Whether any books fit the memory, with that object back. */
  ghost predicate Kept(n: Memory, b: Books, cpu: nat, o: nat) {
    exists c :: Whole(Good(n, c, cpu, 0)) && c.live == b.live - {o}
  }

  /** The books survive exactly when the page was full and not the first of its list. */
  lemma KeptExactly(m: Memory, b: Books, cpu: nat, o: nat, idx: nat)
    requires Held(m, b, cpu, o, idx)
    ensures var pg := m.pages[Mask(o)];
      Kept(Misfiled(m, Mask(o), o, idx), b, cpu, o) <==> pg.freeCount == 0 && pg.prev != 0
  {
    var n, pg := Misfiled(m, Mask(o), o, idx), m.pages[Mask(o)];
    if pg.freeCount == 0 && pg.prev != 0 {
      var c := Survives(m, b, cpu, o, idx);
    } else {
      forall c ensures !Good(n, c, cpu, 0) {
        if pg.freeCount > 0 { PartialLost(m, b, cpu, o, idx, c); } else { FirstLost(m, b, cpu, o, idx, c); }
      }
    }
  }

  /** The path of `slab_free` for a page of another CPU. */
  method FreeElsewhere(m: Memory, ghost b: Books, ghost cpu: nat, o: nat, idx: nat) returns (n: Memory)
    requires Held(m, b, cpu, o, idx)
    ensures n == Misfiled(m, Mask(o), o, idx)
    ensures var pg := m.pages[Mask(o)]; Kept(n, b, cpu, o) <==> pg.freeCount == 0 && pg.prev != 0
  {
    KeptExactly(m, b, cpu, o, idx);
    var p := Mask(o);
    var wasFull := m.pages[p].freeCount == 0;
    var pages, heads := m.pages[p := Given(m.pages[p], o)], m.heads;
    if wasFull {
      var head;
      pages, head := ListRemove(pages, heads[Global(true, idx)], p, [], 0);
      heads := heads[Global(true, idx) := head];
      pages := ListPush(pages, heads[Global(false, idx)], p, []);
      heads := heads[Global(false, idx) := p];
    }
    pages := Disowned(pages, p);
    n := m.(pages := pages, heads := heads);
  }
}
