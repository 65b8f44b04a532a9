/** The doubly linked lists of slab pages, in memory: a page is at an address, and 0 is NULL. */
module SlabLists {
  import opened Invariants

  datatype Page = Page(next: nat, prev: nat, objSize: nat, total: nat, freeCount: nat, owner: nat, freelist: nat,
    links: map<nat, nat>)

  type Pages = map<nat, Page>

  /** One of the lists of one cache. */
  datatype ListId = ListId(cpu: bool, full: bool, idx: nat)

  type Heads = map<ListId, nat>

  type Lists = map<ListId, seq<nat>>

  function At(s: seq<nat>, i: int): nat {
    if 0 <= i < |s| then s[i] else 0
  }

  function Cons(p: nat, s: seq<nat>): (r: seq<nat>)
    ensures |r| == |s| + 1 && r[0] == p && forall i :: 0 <= i < |s| ==> r[i + 1] == s[i]
  {
    [p] + s
  }

  /** Page `i` of `s` points at its neighbours. */
  ghost predicate LinkAt(pages: Pages, s: seq<nat>, i: nat)
    requires i < |s| && s[i] in pages
  {
    pages[s[i]].next == At(s, i + 1) && pages[s[i]].prev == At(s, i - 1)
  }

  /** The pages of `s` are linked in both directions, in this order, from `head` on. */
  ghost predicate Linked(pages: Pages, head: nat, s: seq<nat>) {
    && head == At(s, 0)
    && (forall i: nat :: i < |s| ==> s[i] != 0 && s[i] in pages)
    && (forall i: nat {:trigger LinkAt(pages, s, i)} :: i < |s| ==> LinkAt(pages, s, i))
    && (forall i: nat, j: nat :: i < j < |s| ==> s[i] != s[j])
  }

  function SetNext(pages: Pages, p: nat, v: nat): (r: Pages)
    ensures r.Keys == pages.Keys
  {
    if p in pages then pages[p := pages[p].(next := v)] else pages
  }

  function SetPrev(pages: Pages, p: nat, v: nat): (r: Pages)
    ensures r.Keys == pages.Keys
  {
    if p in pages then pages[p := pages[p].(prev := v)] else pages
  }

  /** `list_push` */
  function Push(pages: Pages, head: nat, p: nat): (r: Pages)
    ensures r.Keys == pages.Keys
  {
    var one := SetNext(SetPrev(pages, p, 0), p, head);
    if head != 0 then SetPrev(one, head, p) else one
  }

  /** `list_remove`, on the pages */
  function Unlink(pages: Pages, p: nat): (r: Pages)
    requires p in pages
    ensures r.Keys == pages.Keys
  {
    var next, prev := pages[p].next, pages[p].prev;
    var one := if prev != 0 then SetNext(pages, prev, next) else pages;
    var two := if next != 0 then SetPrev(one, next, prev) else one;
    SetPrev(SetNext(two, p, 0), p, 0)
  }

  /** `list_remove`, on the head */
  function UnlinkHead(pages: Pages, head: nat, p: nat): nat
    requires p in pages
  {
    if pages[p].prev != 0 then head else pages[p].next
  }

  lemma PushLinked(pages: Pages, head: nat, s: seq<nat>, p: nat)
    requires Linked(pages, head, s) && p in pages && p != 0 && p !in s
    ensures Linked(Push(pages, head, p), p, Cons(p, s))
  {
    var r, t := Push(pages, head, p), Cons(p, s);
    forall i: nat | i < |t| ensures t[i] in r && LinkAt(r, t, i) {
      if i > 0 {
        assert t[i] == s[i - 1] && At(t, i + 1) == At(s, i);
        assert LinkAt(pages, s, i - 1);
      }
    }
  }

  function Without(s: seq<nat>, k: nat): seq<nat>
    requires k < |s|
  {
    s[..k] + s[k + 1..]
  }

  /** What one page sees of the removal of another. */
  lemma UnlinkAt(pages: Pages, p: nat, q: nat)
    requires p in pages && q in pages && q != p && q != 0
    ensures Unlink(pages, p)[q].next == if pages[p].prev == q then pages[p].next else pages[q].next
    ensures Unlink(pages, p)[q].prev == if pages[p].next == q then pages[p].prev else pages[q].prev
  {
  }

  lemma UnlinkElement(pages: Pages, head: nat, s: seq<nat>, k: nat, j: nat)
    requires Linked(pages, head, s) && k < |s| && j < |s| && j != k
    ensures s[j] != 0 && s[j] in pages && s[j] != s[k]
    ensures Unlink(pages, s[k])[s[j]].next == if j + 1 == k then At(s, k + 1) else At(s, j + 1)
    ensures Unlink(pages, s[k])[s[j]].prev == if j == k + 1 then At(s, k - 1) else At(s, j - 1)
  {
    assert s[j] != s[k] && LinkAt(pages, s, j) && LinkAt(pages, s, k);
    UnlinkAt(pages, s[k], s[j]);
    assert At(s, k - 1) == s[j] <==> j == k - 1;
    assert At(s, k + 1) == s[j] <==> j == k + 1;
  }

  /** Where the element at `i` was before element `k` was taken out. */
  function Skip(i: nat, k: nat): nat {
    if i < k then i else i + 1
  }

  lemma WithoutAt(s: seq<nat>, k: nat, i: nat)
    requires k < |s| && i + 1 < |s|
    ensures |Without(s, k)| == |s| - 1 && Without(s, k)[i] == s[Skip(i, k)]
    ensures At(Without(s, k), i + 1) == if Skip(i, k) + 1 == k then At(s, k + 1) else At(s, Skip(i, k) + 1)
    ensures At(Without(s, k), i - 1) == if Skip(i, k) == k + 1 then At(s, k - 1) else At(s, Skip(i, k) - 1)
  {
  }

  lemma UnlinkedAt(pages: Pages, head: nat, s: seq<nat>, k: nat, i: nat)
    requires Linked(pages, head, s) && k < |s| && i + 1 < |s|
    ensures |Without(s, k)| == |s| - 1
    ensures var r, p, t := Unlink(pages, s[k]), Without(s, k)[i], Without(s, k);
      p != 0 && p != s[k] && p in r && r[p].next == At(t, i + 1) && r[p].prev == At(t, i - 1)
  {
    WithoutAt(s, k, i);
    UnlinkElement(pages, head, s, k, Skip(i, k));
  }

  lemma WithoutDistinct(s: seq<nat>, k: nat, i: nat, j: nat)
    requires k < |s| && i < j < |s| - 1 && forall a: nat, b: nat :: a < b < |s| ==> s[a] != s[b]
    ensures |Without(s, k)| == |s| - 1 && Without(s, k)[i] != Without(s, k)[j]
  {
    WithoutAt(s, k, i);
    WithoutAt(s, k, j);
  }

  lemma UnlinkHeadIs(pages: Pages, head: nat, s: seq<nat>, k: nat)
    requires Linked(pages, head, s) && k < |s|
    ensures UnlinkHead(pages, head, s[k]) == At(Without(s, k), 0)
  {
    assert LinkAt(pages, s, k);
    if k > 0 { assert Without(s, k)[0] == s[0]; }
  }

  lemma UnlinkLinked(pages: Pages, head: nat, s: seq<nat>, k: nat)
    requires Linked(pages, head, s) && k < |s|
    ensures Whole(Linked(Unlink(pages, s[k]), UnlinkHead(pages, head, s[k]), Without(s, k)))
    ensures s[k] !in Without(s, k)
  {
    var t, r := Without(s, k), Unlink(pages, s[k]);
    UnlinkHeadIs(pages, head, s, k);
    forall i: nat | i < |t|
      ensures t[i] != 0 && t[i] != s[k] && t[i] in r && LinkAt(r, t, i) {
      UnlinkedAt(pages, head, s, k, i);
    }
    forall i: nat, j: nat | i < j < |t| ensures t[i] != t[j] {
      WithoutDistinct(s, k, i, j);
    }
  }

  /** Other lists do not notice: their pages keep their links. */
  lemma OthersLinked(pages: Pages, r: Pages, head: nat, s: seq<nat>)
    requires Linked(pages, head, s) && r.Keys == pages.Keys
    requires forall p :: p in s ==> r[p].next == pages[p].next && r[p].prev == pages[p].prev
    ensures Linked(r, head, s)
  {
    forall i: nat | i < |s| ensures LinkAt(r, s, i) {
      assert s[i] in s && LinkAt(pages, s, i);
    }
  }

  predicate IsList(id: ListId) {
    id.idx < 8
  }

  ghost predicate AllLinked(pages: Pages, heads: Heads, lists: Lists) {
    0 !in pages && heads.Keys == lists.Keys && forall id :: id in lists ==> Linked(pages, heads[id], lists[id])
  }

  /** Members of a list know it; `x` is on none. */
  ghost predicate Homed(lists: Lists, home: map<nat, ListId>, x: nat) {
    forall id, i: nat :: id in lists && i < |lists[id]| ==>
      lists[id][i] != x && lists[id][i] in home && home[lists[id][i]] == id
  }

  /** Everything but `x` is on the list it knows. */
  ghost predicate Covered(keys: set<nat>, lists: Lists, home: map<nat, ListId>, x: nat) {
    forall p :: p in keys && p != x ==> p in home && home[p] in lists && p in lists[home[p]]
  }

  /** Every page but `x` is on exactly one list, and every list is linked. */
  ghost predicate Listed(pages: Pages, heads: Heads, lists: Lists, home: map<nat, ListId>, x: nat) {
    && (forall id :: IsList(id) <==> id in lists)
    && AllLinked(pages, heads, lists) && Homed(lists, home, x) && Covered(pages.Keys, lists, home, x)
  }

  lemma DropHomed(lists: Lists, home: map<nat, ListId>, id: ListId, k: nat)
    requires Homed(lists, home, 0) && id in lists && k < |lists[id]|
    requires forall i: nat, j: nat :: i < j < |lists[id]| ==> lists[id][i] != lists[id][j]
    ensures Whole(Homed(lists[id := Without(lists[id], k)], home, lists[id][k]))
  {
    var s, p, after := lists[id], lists[id][k], lists[id := Without(lists[id], k)];
    assert home[p] == id;
    forall d, i: nat | d in after && i < |after[d]| ensures after[d][i] != p && after[d][i] in home &&
      home[after[d][i]] == d {
      if d == id {
        WithoutAt(s, k, i);
      } else {
        assert home[lists[d][i]] == d;
      }
    }
  }

  lemma DropCovered(keys: set<nat>, lists: Lists, home: map<nat, ListId>, id: ListId, k: nat)
    requires Covered(keys, lists, home, 0) && 0 !in keys && id in lists && k < |lists[id]|
    ensures Whole(Covered(keys, lists[id := Without(lists[id], k)], home, lists[id][k]))
  {
    var s, p, after := lists[id], lists[id][k], lists[id := Without(lists[id], k)];
    forall q | q in keys && q != p ensures q in home && home[q] in after && q in after[home[q]] {
      if home[q] == id {
        var j :| 0 <= j < |s| && s[j] == q;
        WithoutAt(s, k, if j < k then j else j - 1);
      }
    }
  }

  lemma DropLinked(pages: Pages, heads: Heads, lists: Lists, home: map<nat, ListId>, id: ListId, k: nat)
    requires AllLinked(pages, heads, lists) && Homed(lists, home, 0) && id in lists && k < |lists[id]|
    ensures lists[id][k] in pages
    ensures Whole(AllLinked(Unlink(pages, lists[id][k]), heads[id := UnlinkHead(pages, heads[id], lists[id][k])],
      lists[id := Without(lists[id], k)]))
  {
    assert Linked(pages, heads[id], lists[id]);
    UnlinkLinked(pages, heads[id], lists[id], k);
    var r := Unlink(pages, lists[id][k]);
    forall other | other in lists && other != id ensures Linked(r, heads[other], lists[other]) {
      DropOther(pages, heads, lists, home, id, k, other);
    }
  }

  lemma DropOther(pages: Pages, heads: Heads, lists: Lists, home: map<nat, ListId>, id: ListId, k: nat, other: ListId)
    requires AllLinked(pages, heads, lists) && Homed(lists, home, 0) && id in lists && k < |lists[id]| &&
      other in lists && other != id
    ensures lists[id][k] in pages && Linked(Unlink(pages, lists[id][k]), heads[other], lists[other])
  {
    var s, p := lists[id], lists[id][k];
    assert Linked(pages, heads[id], s) && Linked(pages, heads[other], lists[other]);
    forall q | q in lists[other] ensures Unlink(pages, p)[q].next == pages[q].next &&
      Unlink(pages, p)[q].prev == pages[q].prev {
      assert home[q] == other && home[p] == id;
      assert k + 1 < |s| ==> home[s[k + 1]] == id;
      assert k > 0 ==> home[s[k - 1]] == id;
      assert LinkAt(pages, s, k);
      UnlinkAt(pages, p, q);
    }
    OthersLinked(pages, Unlink(pages, p), heads[other], lists[other]);
  }

  /** A page taken off its list. */
  lemma DropListed(pages: Pages, heads: Heads, lists: Lists, home: map<nat, ListId>, id: ListId, k: nat)
    requires Whole(Listed(pages, heads, lists, home, 0)) && id in lists && k < |lists[id]|
    ensures id in heads && lists[id][k] in pages
    ensures Whole(Listed(Unlink(pages, lists[id][k]), heads[id := UnlinkHead(pages, heads[id], lists[id][k])],
                         lists[id := Without(lists[id], k)], home, lists[id][k]))
  {
    assert Linked(pages, heads[id], lists[id]);
    DropLinked(pages, heads, lists, home, id, k);
    DropHomed(lists, home, id, k);
    DropCovered(pages.Keys, lists, home, id, k);
  }

  lemma PlaceHomed(lists: Lists, home: map<nat, ListId>, id: ListId, p: nat)
    requires Homed(lists, home, p) && id in lists && p != 0 && forall d, i: nat :: d in lists && i < |lists[d]| ==>
      lists[d][i] != 0
    ensures Whole(Homed(lists[id := Cons(p, lists[id])], home[p := id], 0))
  {
    var s, after, at := lists[id], lists[id := Cons(p, lists[id])], home[p := id];
    forall d, i: nat | d in after && i < |after[d]| ensures after[d][i] != 0 && after[d][i] in at &&
      at[after[d][i]] == d {
      if d == id && i > 0 {
        assert after[d][i] == s[i - 1];
      } else if d != id {
        assert after[d][i] == lists[d][i];
      }
    }
  }

  lemma PlaceCovered(keys: set<nat>, lists: Lists, home: map<nat, ListId>, id: ListId, p: nat)
    requires Covered(keys, lists, home, p) && id in lists
    ensures Whole(Covered(keys, lists[id := Cons(p, lists[id])], home[p := id], 0))
  {
    var after, at := lists[id := Cons(p, lists[id])], home[p := id];
    forall q | q in keys && q != 0 ensures q in at && at[q] in after && q in after[at[q]] {
      if q == p { assert after[id][0] == p; }
    }
  }

  lemma PlaceOther(pages: Pages, heads: Heads, lists: Lists, home: map<nat, ListId>, id: ListId, p: nat, other: ListId)
    requires AllLinked(pages, heads, lists) && Homed(lists, home, p) && id in lists && p in pages &&
      other in lists && other != id
    ensures Linked(Push(pages, heads[id], p), heads[other], lists[other])
  {
    var s, r := lists[id], Push(pages, heads[id], p);
    assert Linked(pages, heads[id], s) && Linked(pages, heads[other], lists[other]);
    forall q | q in lists[other] ensures r[q].next == pages[q].next && r[q].prev == pages[q].prev {
      assert home[q] == other;
      assert s != [] ==> home[s[0]] == id;
    }
    OthersLinked(pages, r, heads[other], lists[other]);
  }

  lemma PlaceLinked(pages: Pages, heads: Heads, lists: Lists, home: map<nat, ListId>, id: ListId, p: nat)
    requires AllLinked(pages, heads, lists) && Homed(lists, home, p) && id in lists && p in pages
    ensures Whole(AllLinked(Push(pages, heads[id], p), heads[id := p], lists[id := Cons(p, lists[id])]))
  {
    var s, r := lists[id], Push(pages, heads[id], p);
    assert Linked(pages, heads[id], s);
    PushLinked(pages, heads[id], s, p);
    forall other | other in lists && other != id ensures Linked(r, heads[other], lists[other]) {
      PlaceOther(pages, heads, lists, home, id, p, other);
    }
  }

  /** A page that is on no list put at the head of one. */
  lemma PlaceListed(pages: Pages, heads: Heads, lists: Lists, home: map<nat, ListId>, id: ListId, p: nat)
    requires Whole(Listed(pages, heads, lists, home, p)) && id in lists && p in pages
    ensures id in heads &&
      Whole(Listed(Push(pages, heads[id], p), heads[id := p], lists[id := Cons(p, lists[id])], home[p := id], 0))
  {
    forall d, i: nat | d in lists && i < |lists[d]| ensures lists[d][i] != 0 {
      assert Linked(pages, heads[d], lists[d]);
    }
    PlaceLinked(pages, heads, lists, home, id, p);
    PlaceHomed(lists, home, id, p);
    PlaceCovered(pages.Keys, lists, home, id, p);
  }

  /** A new page, on no list yet. */
  lemma NewListed(pages: Pages, heads: Heads, lists: Lists, home: map<nat, ListId>, p: nat, page: Page)
    requires Whole(Listed(pages, heads, lists, home, 0)) && p !in pages && p != 0
    ensures Whole(Listed(pages[p := page], heads, lists, home, p))
  {
    forall id | id in lists ensures Linked(pages[p := page], heads[id], lists[id]) {
      assert Linked(pages, heads[id], lists[id]);
      forall i: nat | i < |lists[id]| ensures lists[id][i] in pages && LinkAt(pages[p := page], lists[id], i) {
        assert LinkAt(pages, lists[id], i);
      }
    }
    forall id, i: nat | id in lists && i < |lists[id]| ensures lists[id][i] != p {
      assert Linked(pages, heads[id], lists[id]);
    }
  }
}
