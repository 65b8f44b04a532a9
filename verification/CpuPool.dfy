/** Per-CPU stacks of blocks in front of the buddy allocator. */
module CpuPool {
  import opened Invariants
  import opened Arith
  import opened BuddyTree
  import opened BuddyAlloc

  const CPUS: nat := 64
  const CACHE: nat := 16
  const ORDERS: nat := 3

  /** The stack of order 12 + `k` on one CPU. */
  datatype Key = Key(cpu: nat, k: nat)

  datatype Slot = Slot(key: Key, j: nat)

  predicate IsKey(key: Key) {
    key.cpu < CPUS && key.k < ORDERS
  }

  type Stacks = map<Key, seq<nat>>

  type Cells = map<Key, seq<Block>>

  /** The first `n` elements of one stack; the others are whole. */
  function Shorter<T>(m: map<Key, seq<T>>, key: Key, n: nat): map<Key, seq<T>>
    requires key in m && n <= |m[key]|
  {
    m[key := m[key][..n]]
  }

  /** Every slot in use holds a block of its order, and `place` finds it there: a cached block is in
      exactly one slot of one CPU. */
  ghost predicate Located(cells: Cells, place: map<Block, Slot>) {
    && (forall key :: IsKey(key) <==> key in cells)
    && (forall key {:trigger |cells[key]|} :: key in cells ==> |cells[key]| <= CACHE)
    && (forall key, j: nat {:trigger cells[key][j]} :: key in cells && j < |cells[key]| ==>
          cells[key][j].o == MIN + key.k && cells[key][j] in place && place[cells[key][j]] == Slot(key, j))
    && (forall b {:trigger place[b]} :: b in place ==>
          place[b].key in cells && place[b].j < |cells[place[b].key]| && cells[place[b].key][place[b].j] == b)
  }

  lemma PushLocated(cells: Cells, place: map<Block, Slot>, key: Key, b: Block)
    requires Located(cells, place) && key in cells && |cells[key]| < CACHE && b.o == MIN + key.k && b !in place
    ensures Located(cells[key := cells[key] + [b]], place[b := Slot(key, |cells[key]|)])
  {
  }

  lemma PopLocated(cells: Cells, place: map<Block, Slot>, key: Key)
    requires Located(cells, place) && key in cells && cells[key] != []
    ensures var n := |cells[key]| - 1; var b := cells[key][n];
      b in place && Located(cells[key := cells[key][..n]], place - {b})
  {
    var n := |cells[key]| - 1;
    var b := cells[key][n];
    assert place[b] == Slot(key, n);
    var after := cells[key := cells[key][..n]];
    forall other, j: nat | other in after && j < |after[other]| ensures after[other][j] in place - {b} {
      assert place[cells[other][j]] == Slot(other, j);
    }
  }

  /** The stacks hold the addresses of the cells' blocks. */
  ghost predicate Addressed(start: nat, stacks: Stacks, cells: Cells) {
    && stacks.Keys == cells.Keys
    && (forall key {:trigger |stacks[key]|} {:trigger |cells[key]|} :: key in cells ==> |stacks[key]| == |cells[key]|)
    && (forall key, j: nat {:trigger stacks[key][j]} {:trigger cells[key][j]} :: key in cells && j < |cells[key]| ==>
          stacks[key][j] == start + Times(Size(cells[key][j].o), cells[key][j].i))
  }

  lemma PushAddressed(start: nat, stacks: Stacks, cells: Cells, key: Key, ptr: nat, b: Block)
    requires Addressed(start, stacks, cells) && key in cells && ptr == start + Times(Size(b.o), b.i)
    ensures Addressed(start, stacks[key := stacks[key] + [ptr]], cells[key := cells[key] + [b]])
  {
  }

  lemma PopAddressed(start: nat, stacks: Stacks, cells: Cells, key: Key)
    requires Addressed(start, stacks, cells) && key in cells && cells[key] != []
    ensures var n := |cells[key]| - 1;
      && Addressed(start, stacks[key := stacks[key][..n]], cells[key := cells[key][..n]])
      && stacks[key][n] == start + Times(Size(cells[key][n].o), cells[key][n].i)
  {
    var n := |cells[key]| - 1;
    assert n < |cells[key]|;
  }

  ghost predicate Cached(start: nat, stacks: Stacks, cells: Cells, place: map<Block, Slot>) {
    Located(cells, place) && Addressed(start, stacks, cells)
  }

  lemma PushCached(start: nat, stacks: Stacks, cells: Cells, place: map<Block, Slot>, key: Key, ptr: nat, b: Block)
    requires Whole(Cached(start, stacks, cells, place)) && key in stacks && |stacks[key]| < CACHE
    requires b.o == MIN + key.k && b !in place && ptr == start + Times(Size(b.o), b.i)
    ensures key in cells && |cells[key]| == |stacks[key]|
    ensures Whole(Cached(start, stacks[key := stacks[key] + [ptr]], cells[key := cells[key] + [b]],
      place[b := Slot(key, |cells[key]|)]))
  {
    PushLocated(cells, place, key, b);
    PushAddressed(start, stacks, cells, key, ptr, b);
  }

  lemma PopCached(start: nat, stacks: Stacks, cells: Cells, place: map<Block, Slot>, key: Key)
    requires Whole(Cached(start, stacks, cells, place)) && key in stacks && stacks[key] != []
    ensures key in cells && |cells[key]| == |stacks[key]|
    ensures var n := |stacks[key]| - 1; var b := cells[key][n];
      && b in place && b.o == MIN + key.k && stacks[key][n] == start + Times(Size(b.o), b.i)
      && Whole(Cached(start, Shorter(stacks, key, n), Shorter(cells, key, n), place - {b}))
  {
    PopLocated(cells, place, key);
    PopAddressed(start, stacks, cells, key);
  }

  /** What is out of the buddy allocator is with a client or in one slot, never both. */
  ghost predicate Kept(start: nat, out: set<Block>, stacks: Stacks, initialized: seq<bool>, cells: Cells,
                       place: map<Block, Slot>, client: set<Block>)
  {
    && Whole(Cached(start, stacks, cells, place)) && |initialized| == CPUS
    && client !! place.Keys && out == client + place.Keys
    && forall key {:trigger stacks[key]} :: key in stacks ==>
      key.cpu < CPUS && (!initialized[key.cpu] ==> stacks[key] == [])
  }

  lemma KeptPush(start: nat, out: set<Block>, stacks: Stacks, initialized: seq<bool>, cells: Cells,
                 place: map<Block, Slot>, client: set<Block>, key: Key, ptr: nat, b: Block)
    requires Kept(start, out, stacks, initialized, cells, place, client)
    requires key in stacks && |stacks[key]| < CACHE && initialized[key.cpu]
    requires b in client && b.o == MIN + key.k && ptr == start + Times(Size(b.o), b.i)
    ensures key in cells &&
      Whole(Kept(start, out, stacks[key := stacks[key] + [ptr]], initialized, cells[key := cells[key] + [b]],
                                       place[b := Slot(key, |cells[key]|)], client - {b}))
  {
    PushCached(start, stacks, cells, place, key, ptr, b);
    assert place[b := Slot(key, |cells[key]|)].Keys == place.Keys + {b};
  }

  lemma KeptPop(start: nat, out: set<Block>, stacks: Stacks, initialized: seq<bool>, cells: Cells,
                place: map<Block, Slot>, client: set<Block>, key: Key, n: nat) returns (b: Block)
    requires Whole(Kept(start, out, stacks, initialized, cells, place, client)) && key in stacks &&
      n + 1 == |stacks[key]|
    ensures key in cells && n < |cells[key]| && b == cells[key][n]
    ensures b !in client && b.o == MIN + key.k && stacks[key][n] == start + Times(Size(b.o), b.i)
    ensures Whole(Kept(start, out, Shorter(stacks, key, n), initialized, Shorter(cells, key, n), place - {b},
      client + {b}))
  {
    PopCached(start, stacks, cells, place, key);
    b := cells[key][n];
    assert (place - {b}).Keys == place.Keys - {b};
  }

  lemma KeptTake(start: nat, out: set<Block>, stacks: Stacks, initialized: seq<bool>, cells: Cells,
                 place: map<Block, Slot>, client: set<Block>, b: Block)
    requires Whole(Kept(start, out, stacks, initialized, cells, place, client)) && b !in out
    ensures Whole(Kept(start, out + {b}, stacks, initialized, cells, place, client + {b}))
  {
  }

  lemma KeptGive(start: nat, out: set<Block>, stacks: Stacks, initialized: seq<bool>, cells: Cells,
                 place: map<Block, Slot>, client: set<Block>, b: Block)
    requires Whole(Kept(start, out, stacks, initialized, cells, place, client)) && b in client
    ensures b in out && Whole(Kept(start, out - {b}, stacks, initialized, cells, place, client - {b}))
  {
  }

  lemma SizeIncreases(o: nat, p: nat)
    requires o < p
    ensures Size(o) < Size(p)
  {
    SizeOrder(o, p - 1);
  }

  /** One stack became `s`, the others are as they were. */
  ghost predicate OnlyAt(was: Stacks, now: Stacks, key: Key, s: seq<nat>) {
    && now.Keys == was.Keys && key in was && now[key] == s
    && forall other :: other in was && other != key ==> now[other] == was[other]
  }

  lemma OneMore(was: Stacks, now: Stacks, key: Key, ptr: nat)
    requires key in was && now == was[key := was[key] + [ptr]]
    ensures |now[key]| == |was[key]| + 1 && Whole(OnlyAt(was, now, key, now[key]))
  {
  }

  lemma OnlyTwice(was: Stacks, mid: Stacks, now: Stacks, key: Key)
    requires key in mid && key in now && Whole(OnlyAt(was, mid, key, mid[key])) &&
      Whole(OnlyAt(mid, now, key, now[key]))
    ensures Whole(OnlyAt(was, now, key, now[key]))
  {
  }

  /** The buddy allocator has no block of this order to give. */
  ghost predicate Exhausted(h: Heap, poolSize: nat, order: nat) {
    Size(order) > poolSize || AllTaken(h, Fit(order))
  }

  /** The order `buddy_alloc` serves for a request of `1 << order` bytes. */
  function Fit(order: nat): nat {
    if order < MIN then MIN else if order > MAX then MAX else order
  }

  lemma FitIs(order: nat, o: nat)
    requires MIN <= o <= MAX && (Size(order) <= Size(o) <==> Size(order) <= Size(MAX)) && (o < MAX ==>
      Size(order) <= Size(o))
    requires forall k :: MIN <= k < o ==> Size(k) < Size(order)
    ensures o == Fit(order)
  {
    if order <= MIN { SizeOrder(order, MIN); }
    if MAX < order { SizeIncreases(MAX, order); SizeOrder(o, MAX); }
    if MIN <= order <= MAX {
      SizeOrder(order, MAX);
      if o < order { SizeIncreases(o, order); }
    }
  }

  /** The blocks of a stack from place `n` on. */
  ghost function From(s: seq<Block>, n: nat): (r: set<Block>)
    requires n <= |s|
    ensures forall j :: n <= j < |s| ==> s[j] in r
  {
    set j | n <= j < |s| :: s[j]
  }

  lemma FromMore(s: seq<Block>, n: nat)
    requires 0 < n <= |s|
    ensures From(s, n - 1) == From(s, n) + {s[n - 1]}
  {
  }

  /** Of the stack at `key` the blocks from place `n` on have gone back. */
  ghost predicate Flushed(stacks0: Stacks, cells0: Cells, out0: set<Block>, stacks: Stacks, cells: Cells,
    out: set<Block>, key: Key, n: nat)
  {
    && key in stacks0 && key in cells0 && n <= |stacks0[key]| == |cells0[key]|
    && stacks == Shorter(stacks0, key, n) && cells == Shorter(cells0, key, n) && out == out0 - From(cells0[key], n)
  }

  lemma FlushedNone(start: nat, stacks: Stacks, cells: Cells, place: map<Block, Slot>, out: set<Block>, key: Key,
    n: nat)
    requires Whole(Cached(start, stacks, cells, place)) && key in stacks && |stacks[key]| == n
    ensures Whole(Flushed(stacks, cells, out, stacks, cells, out, key, n))
  {
    assert stacks[key][..n] == stacks[key] && cells[key][..n] == cells[key];
    assert stacks[key := stacks[key]] == stacks && cells[key := cells[key]] == cells;
    assert From(cells[key], n) == {};
  }

  lemma FlushedTop(stacks0: Stacks, cells0: Cells, out0: set<Block>, stacks: Stacks, cells: Cells, out: set<Block>,
    key: Key, n: nat)
    requires Whole(Flushed(stacks0, cells0, out0, stacks, cells, out, key, n))
    ensures key in stacks && key in cells && |stacks[key]| == |cells[key]| == n <= |cells0[key]|
    ensures n > 0 ==> cells[key][n - 1] == cells0[key][n - 1]
  {
  }

  lemma FlushedOne(stacks0: Stacks, cells0: Cells, out0: set<Block>, s: Stacks, c: Cells, o: set<Block>,
    stacks: Stacks, cells: Cells, out: set<Block>, key: Key, n: nat, m: nat)
    requires n == m + 1 && Whole(Flushed(stacks0, cells0, out0, s, c, o, key, n))
    requires key in s && |s[key]| == n && stacks == Shorter(s, key, m)
    requires key in c && |c[key]| == n && cells == Shorter(c, key, m) && out == o - {c[key][m]}
    ensures Whole(Flushed(stacks0, cells0, out0, stacks, cells, out, key, m))
  {
    FromMore(cells0[key], n);
    assert stacks0[key][..n][..m] == stacks0[key][..m] && cells0[key][..n][..m] == cells0[key][..m];
    assert stacks0[key := stacks0[key][..n]][key := stacks0[key][..m]] == stacks0[key := stacks0[key][..m]];
    assert cells0[key := cells0[key][..n]][key := cells0[key][..m]] == cells0[key := cells0[key][..m]];
  }

  /** A full stack has sent its upper half back and taken one more block. */
  lemma FlushedThen(stacks0: Stacks, cells0: Cells, out0: set<Block>, s: Stacks, c: Cells, o: set<Block>, key: Key,
    n: nat, ptr: nat)
    requires Whole(Flushed(stacks0, cells0, out0, s, c, o, key, n))
    ensures key in s && key in stacks0 && key in cells0 && n <= |stacks0[key]| == |cells0[key]|
    ensures s[key := s[key] + [ptr]] == stacks0[key := stacks0[key][..n] + [ptr]] && |s[key]| == n
    ensures o == out0 - From(cells0[key], n)
  {
  }

  /** The blocks on the stack at `key`, lowest first. */
  function On(stacks: Stacks, key: Key): (s: seq<nat>) {
    if key in stacks then stacks[key] else []
  }

  /** What `Release` leaves of a stack before it puts the block on top: all of it while it is not full,
      its lower half when it is. */
  function Remaining(s: seq<nat>): (r: seq<nat>) {
    if |s| < 16 then s else s[..8]
  }

  /** The top of the stack at `key` is taken off, and nothing else changes. */
  ghost predicate Popped(was: Stacks, stacks: Stacks, key: Key, ptr: nat) {
    && key in was && was[key] != [] && ptr == was[key][|was[key]| - 1]
    && stacks == Shorter(was, key, |was[key]| - 1)
  }

  /** After a refill and one block to the client, seven blocks are left on the stack, or the buddy
      allocator has no more; the other stacks are as they were. */
  ghost predicate Refilled(was: Stacks, stacks: Stacks, key: Key, exhausted: bool) {
    key in stacks && OnlyAt(was, stacks, key, stacks[key]) && |stacks[key]| < 8 && (|stacks[key]| == 7 || exhausted)
  }

  lemma PopRefilled(was: Stacks, mid: Stacks, key: Key, n: nat, exhausted: bool)
    requires key in mid && Whole(OnlyAt(was, mid, key, mid[key])) && n + 1 == |mid[key]| <= 8
    requires |mid[key]| == 8 || exhausted
    ensures Whole(Refilled(was, Shorter(mid, key, n), key, exhausted))
  {
  }

  /** A stack with one more block on top, then one fewer. */
  lemma PushPop(was: Stacks, key: Key, s: seq<nat>, ptr: nat, full: Stacks, stacks: Stacks, again: nat)
    requires full == was[key := s + [ptr]] && Whole(Popped(full, stacks, key, again))
    ensures again == ptr && stacks == was[key := s]
  {
    assert (s + [ptr])[..|s|] == s;
  }

  /** The block of a given order at a given address, given back and handed out again. */
  lemma SameBlock(start: nat, o: nat, i: nat, j: nat, was: set<Block>)
    requires start + Times(Size(o), i) == start + Times(Size(o), j) && Block(o, j) in was
    ensures i == j && was - {Block(o, j)} + {Block(o, i)} == was
  {
    if i < j { TimesOrder(Size(o), i, j); } else if j < i { TimesOrder(Size(o), j, i); }
    SizeOrder(0, o);
  }

  /** All stacks of one CPU emptied. */
  function Emptied(stacks: Stacks, cpu: nat): Stacks {
    map key | key in stacks :: if key.cpu == cpu then [] else stacks[key]
  }

  lemma EmptiedKept(start: nat, out: set<Block>, stacks: Stacks, initialized: seq<bool>, cells: Cells,
                    place: map<Block, Slot>, client: set<Block>, cpu: nat)
    requires Whole(Kept(start, out, stacks, initialized, cells, place, client)) && cpu < CPUS
    ensures Kept(start, out, Emptied(stacks, cpu), initialized[cpu := true], cells, place, client) <==>
      Emptied(stacks, cpu) == stacks
    ensures !initialized[cpu] ==> Emptied(stacks, cpu) == stacks
  {
    var now := Emptied(stacks, cpu);
    if Cached(start, now, cells, place) {
      forall key | key in stacks ensures now[key] == stacks[key] {
        assert |now[key]| == |cells[key]| == |stacks[key]|;
      }
    }
  }

  class CpuPools {
    const buddy: Allocator
    var stacks: Stacks
    var initialized: seq<bool>
    ghost var cells: Cells
    ghost var place: map<Block, Slot>
    ghost var client: set<Block>

    ghost predicate Valid()
      reads this, buddy
    {
      Whole(buddy.Valid()) && Whole(Kept(buddy.poolStart, buddy.out, stacks, initialized, cells, place, client))
    }

    constructor (buddy: Allocator)
      requires Whole(buddy.Valid())
      ensures Valid() && this.buddy == buddy && client == buddy.out && forall c :: 0 <= c < CPUS ==> !initialized[c]
    {
      this.buddy := buddy;
      initialized := seq(CPUS, _ => false);
      stacks := map c: nat, k: nat | c < CPUS && k < ORDERS :: Key(c, k) := [];
      cells := map c: nat, k: nat | c < CPUS && k < ORDERS :: Key(c, k) := [];
      place := map[];
      client := buddy.out;
    }

    /** `cpu_pool_init`. The stacks of the CPU are emptied without giving anything back: the partition
        of what is out of the buddy allocator survives exactly when they were empty, as they are for a
        CPU that is initialised for the first time. */
    method Init(cpu: nat)
      requires Valid()
      modifies this`initialized, this`stacks
      ensures cpu >= CPUS ==> Valid() && initialized == old(initialized) && stacks == old(stacks)
      ensures cpu < CPUS ==> initialized == old(initialized)[cpu := true] && stacks == Emptied(old(stacks), cpu)
      ensures Valid() <==> cpu >= CPUS || Emptied(old(stacks), cpu) == old(stacks)
      ensures cpu < CPUS && !old(initialized)[cpu] ==> Valid()
    {
      if cpu >= CPUS { return; }
      EmptiedKept(buddy.poolStart, buddy.out, stacks, initialized, cells, place, client, cpu);
      initialized := initialized[cpu := true];
      stacks := Emptied(stacks, cpu);
    }

    /** `buddy_alloc` for one block of a given order, as `cpu_pool_alloc` calls it. */
    method FromBuddy(order: nat) returns (ptr: nat, ghost b: Block)
      requires Whole(Valid())
      modifies buddy`bits, buddy`freeSize, buddy`out, buddy`owner
      ensures Whole(buddy.Valid())
      ensures ptr == 0 ==> buddy.H() == old(buddy.H())
      ensures ptr == 0 <==> Whole(Exhausted(old(buddy.H()), buddy.poolSize, order))
      ensures ptr != 0 ==>
        b.o == Fit(order) && ptr == buddy.Address(b.o, b.i) && b !in old(buddy.out) &&
        buddy.out == old(buddy.out) + {b}
    {
      ptr, b := buddy.Alloc(Size(order));
      if Size(order) <= buddy.poolSize { FitIs(order, b.o); }
    }

    method Drop(key: Key, n: nat, ghost b: Block)
      requires key in stacks && n <= |stacks[key]| && key in cells && n <= |cells[key]|
      modifies this`stacks, this`cells, this`place, this`client
      ensures stacks == Shorter(old(stacks), key, n) && cells == Shorter(old(cells), key, n)
      ensures place == old(place) - {b} && client == old(client) + {b}
    {
      stacks, cells := Shorter(stacks, key, n), Shorter(cells, key, n);
      place, client := place - {b}, client + {b};
    }

    /** The top of a stack. */
    method Pop(key: Key) returns (ptr: nat, ghost b: Block)
      requires Whole(Valid()) && key in stacks && stacks[key] != []
      modifies this`stacks, this`cells, this`place, this`client
      ensures Whole(Valid()) && b.o == MIN + key.k && b !in old(client) && client == old(client) + {b} &&
        ptr == buddy.Address(b.o, b.i)
      ensures stacks == Shorter(old(stacks), key, |old(stacks)[key]| - 1)
      ensures Whole(Popped(old(stacks), stacks, key, ptr))
      ensures key in old(cells) && |old(cells)[key]| == |old(stacks)[key]|
      ensures b == old(cells)[key][|old(stacks)[key]| - 1]
      ensures cells == Shorter(old(cells), key, |old(stacks)[key]| - 1)
    {
      var n := |stacks[key]| - 1;
      b := KeptPop(buddy.poolStart, buddy.out, stacks, initialized, cells, place, client, key, n);
      ptr := stacks[key][n];
      Drop(key, n, b);
    }

    /** A client's block goes on top of a stack. */
    method Push(key: Key, ptr: nat, ghost b: Block)
      requires Whole(Valid()) && key in stacks && |stacks[key]| < CACHE && initialized[key.cpu]
      requires b in client && b.o == MIN + key.k && ptr == buddy.Address(b.o, b.i)
      modifies this`stacks, this`cells, this`place, this`client
      ensures Whole(Valid()) && client == old(client) - {b} && stacks == old(stacks)[key := old(stacks)[key] + [ptr]]
    {
      KeptPush(buddy.poolStart, buddy.out, stacks, initialized, cells, place, client, key, ptr, b);
      place := place[b := Slot(key, |cells[key]|)];
      stacks := stacks[key := stacks[key] + [ptr]];
      cells := cells[key := cells[key] + [b]];
      client := client - {b};
    }

    /** One round of the refill loop of `cpu_pool_alloc`. */
    method RefillOne(key: Key) returns (ptr: nat)
      requires Whole(Valid()) && key in stacks && |stacks[key]| < CACHE && initialized[key.cpu]
      modifies this`stacks, this`cells, this`place, this`client, buddy`bits, buddy`freeSize, buddy`out, buddy`owner
      ensures Whole(Valid()) && client == old(client)
      ensures ptr == 0 <==> Whole(Exhausted(old(buddy.H()), buddy.poolSize, MIN + key.k))
      ensures ptr == 0 ==> stacks == old(stacks) && buddy.H() == old(buddy.H())
      ensures ptr != 0 ==> stacks == old(stacks)[key := old(stacks)[key] + [ptr]]
    {
      ghost var b;
      ptr, b := Direct(MIN + key.k);
      if ptr == 0 { return; }
      BackAgain(old(client), b);
      Push(key, ptr, b);
    }

    /** The refill loop: up to eight blocks, fewer when the buddy allocator runs out. */
    method Refill(key: Key)
      requires Whole(Valid()) && key in stacks && stacks[key] == [] && initialized[key.cpu]
      modifies this`stacks, this`cells, this`place, this`client, buddy`bits, buddy`freeSize, buddy`out, buddy`owner
      ensures Whole(Valid()) && client == old(client) && stacks.Keys == old(stacks).Keys
      ensures |stacks[key]| <= CACHE / 2 && Whole(OnlyAt(old(stacks), stacks, key, stacks[key]))
      ensures stacks[key] == [] ==> stacks == old(stacks) && buddy.H() == old(buddy.H())
      ensures stacks[key] == [] <==> Whole(Exhausted(old(buddy.H()), buddy.poolSize, MIN + key.k))
      ensures |stacks[key]| == CACHE / 2 || Whole(Exhausted(buddy.H(), buddy.poolSize, MIN + key.k))
    {
      var i := 0;
      while i < CACHE / 2 && |stacks[key]| < CACHE
        invariant Whole(Valid()) && client == old(client) && stacks.Keys == old(stacks).Keys &&
          0 <= i == |stacks[key]| <= CACHE / 2
        invariant Whole(OnlyAt(old(stacks), stacks, key, stacks[key]))
        invariant i == 0 ==> stacks == old(stacks) && buddy.H() == old(buddy.H())
        invariant i > 0 ==> !Whole(Exhausted(old(buddy.H()), buddy.poolSize, MIN + key.k))
      {
        ghost var mid := stacks;
        var ptr := RefillOne(key);
        if ptr == 0 { return; }
        OneMore(mid, stacks, key, ptr);
        OnlyTwice(old(stacks), mid, stacks, key);
        i := i + 1;
      }
    }

    /** Straight from the buddy allocator to the client. */
    method Direct(order: nat) returns (ptr: nat, ghost b: Block)
      requires Whole(Valid())
      modifies this`client, buddy`bits, buddy`freeSize, buddy`out, buddy`owner
      ensures Whole(Valid()) && stacks == old(stacks)
      ensures ptr == 0 <==> Whole(Exhausted(old(buddy.H()), buddy.poolSize, order))
      ensures ptr == 0 ==> client == old(client) && buddy.H() == old(buddy.H())
      ensures ptr != 0 ==>
        b.o == Fit(order) && ptr == buddy.Address(b.o, b.i) && b !in old(client) && client == old(client) + {b}
    {
      ptr, b := FromBuddy(order);
      if ptr != 0 {
        KeptTake(buddy.poolStart, old(buddy.out), stacks, initialized, cells, place, client, b);
        client := client + {b};
      }
    }

    /** `order_idx`, for a CPU that has stacks. */
    function Stack(cpu: nat, order: nat): (key: Key)
      requires MIN <= order
    {
      Key(cpu, order - MIN)
    }

    predicate HasStack(cpu: nat, order: nat)
      requires |initialized| == CPUS
      reads this
    {
      cpu < CPUS && initialized[cpu] && MIN <= order < MIN + ORDERS
    }

    /** Which CPUs have stacks, and for which orders. */
    lemma StackOrders(cpu: nat, order: nat)
      requires |initialized| == CPUS
      ensures HasStack(cpu, order) <==> cpu < 64 && initialized[cpu] && order in {12, 13, 14}
      ensures HasStack(cpu, order) ==> Stack(cpu, order) == Key(cpu, order - 12)
    {
    }

    /** `cpu_pool_alloc` when the stack is empty. */
    method AllocRefilled(key: Key, order: nat) returns (ptr: nat, ghost b: Block)
      requires Whole(Valid()) && order == MIN + key.k && key in stacks && stacks[key] == [] && initialized[key.cpu]
      modifies this`stacks, this`cells, this`place, this`client, buddy`bits, buddy`freeSize, buddy`out, buddy`owner
      ensures Whole(Valid())
      ensures ptr == 0 <==> Whole(Exhausted(old(buddy.H()), buddy.poolSize, order))
      ensures ptr == 0 ==> client == old(client) && stacks == old(stacks) && buddy.H() == old(buddy.H())
      ensures ptr != 0 ==>
        b.o == order && ptr == buddy.Address(b.o, b.i) && b !in old(client) && client == old(client) + {b}
      ensures ptr != 0 ==>
        Whole(Refilled(old(stacks), stacks, key, Whole(Exhausted(buddy.H(), buddy.poolSize, order))))
    {
      Refill(key);
      if stacks[key] == [] {
        ptr, b := Direct(order);
        return;
      }
      PopRefilled(old(stacks), stacks, key, |stacks[key]| - 1,
        Whole(Exhausted(buddy.H(), buddy.poolSize, order)));
      ptr, b := Pop(key);
    }

    /** `cpu_pool_alloc` for a CPU and order with a stack. */
    method AllocCached(key: Key, order: nat) returns (ptr: nat, ghost b: Block)
      requires Whole(Valid()) && order == MIN + key.k && key in stacks && initialized[key.cpu]
      modifies this`stacks, this`cells, this`place, this`client, buddy`bits, buddy`freeSize, buddy`out, buddy`owner
      ensures Whole(Valid())
      ensures ptr == 0 <==> On(old(stacks), key) == [] && Whole(Exhausted(old(buddy.H()), buddy.poolSize, order))
      ensures ptr == 0 ==> client == old(client) && stacks == old(stacks) && buddy.H() == old(buddy.H())
      ensures ptr != 0 ==>
        b.o == order && ptr == buddy.Address(b.o, b.i) && b !in old(client) && client == old(client) + {b}
      ensures On(old(stacks), key) != [] ==>
        Whole(Popped(old(stacks), stacks, key, ptr)) && buddy.H() == old(buddy.H())
      ensures On(old(stacks), key) == [] && ptr != 0 ==>
        Whole(Refilled(old(stacks), stacks, key, Whole(Exhausted(buddy.H(), buddy.poolSize, order))))
    {
      if stacks[key] == [] {
        ptr, b := AllocRefilled(key, order);
      } else {
        ptr, b := Pop(key);
      }
    }

    /** `cpu_pool_alloc`. NULL exactly when this CPU has no such block and the buddy allocator has none;
        then nothing changes. */
    method Alloc(cpu: nat, order: nat) returns (ptr: nat, ghost b: Block)
      requires Whole(Valid())
      modifies this`stacks, this`cells, this`place, this`client, buddy`bits, buddy`freeSize, buddy`out, buddy`owner
      ensures Whole(Valid())
      ensures ptr == 0 <==>
        (HasStack(cpu, order) ==> On(old(stacks), Stack(cpu, order)) == []) &&
        Whole(Exhausted(old(buddy.H()), buddy.poolSize, order))
      ensures ptr == 0 ==> client == old(client) && stacks == old(stacks) && buddy.H() == old(buddy.H())
      ensures ptr != 0 ==>
        b.o == Fit(order) && ptr == buddy.Address(b.o, b.i) && b !in old(client) && client == old(client) + {b}
      ensures !HasStack(cpu, order) ==> stacks == old(stacks)
      ensures HasStack(cpu, order) && On(old(stacks), Stack(cpu, order)) != [] ==>
        Whole(Popped(old(stacks), stacks, Stack(cpu, order), ptr)) && buddy.H() == old(buddy.H())
      ensures HasStack(cpu, order) && On(old(stacks), Stack(cpu, order)) == [] && ptr != 0 ==>
        Whole(Refilled(old(stacks), stacks, Stack(cpu, order), Whole(Exhausted(buddy.H(), buddy.poolSize, order))))
    {
      if HasStack(cpu, order) {
        ptr, b := AllocCached(Stack(cpu, order), order);
      } else {
        ptr, b := Direct(order);
      }
    }

    /** `buddy_free` for a client's block. */
    method ToBuddy(ptr: nat, order: nat, ghost i: nat)
      requires Whole(Valid()) && Block(order, i) in client && ptr == buddy.Address(order, i)
      modifies this`client, buddy`bits, buddy`freeSize, buddy`out, buddy`owner
      ensures Whole(Valid()) && client == old(client) - {Block(order, i)} && stacks == old(stacks)
      ensures Block(order, i) in old(buddy.out) && buddy.out == old(buddy.out) - {Block(order, i)}
    {
      assert Block(order, i) in buddy.H().out && Inside(buddy.H(), order, i);
      buddy.AddressIndex(order, i);
      KeptGive(buddy.poolStart, buddy.out, stacks, initialized, cells, place, client, Block(order, i));
      buddy.Release(ptr, order);
      client := client - {Block(order, i)};
    }

    /** One round of the flush loop of `cpu_pool_free`. */
    method FlushOne(key: Key)
      requires Whole(Valid()) && key in stacks && stacks[key] != []
      modifies this`stacks, this`cells, this`place, this`client, buddy`bits, buddy`freeSize, buddy`out, buddy`owner
      ensures Whole(Valid()) && client == old(client)
      ensures stacks == Shorter(old(stacks), key, |old(stacks)[key]| - 1)
      ensures key in old(cells) && |old(cells)[key]| == |old(stacks)[key]|
      ensures cells == Shorter(old(cells), key, |old(stacks)[key]| - 1)
      ensures buddy.out == old(buddy.out) - {old(cells)[key][|old(stacks)[key]| - 1]}
    {
      var ptr; ghost var b;
      ptr, b := Pop(key);
      ToBuddy(ptr, MIN + key.k, b.i);
      BackAgain(old(client), b);
    }

    method FlushRound(key: Key, ghost stacks0: Stacks, ghost cells0: Cells, ghost out: set<Block>, ghost n: nat,
      ghost m: nat)
      requires Whole(Valid()) && n == m + 1 && Whole(Flushed(stacks0, cells0, out, stacks, cells, buddy.out, key, n))
      modifies this`stacks, this`cells, this`place, this`client, buddy`bits, buddy`freeSize, buddy`out, buddy`owner
      ensures Whole(Valid()) && client == old(client)
      ensures Whole(Flushed(stacks0, cells0, out, stacks, cells, buddy.out, key, m))
    {
      FlushedTop(stacks0, cells0, out, stacks, cells, buddy.out, key, n);
      ghost var s, c, o := stacks, cells, buddy.out;
      FlushOne(key);
      FlushedOne(stacks0, cells0, out, s, c, o, stacks, cells, buddy.out, key, n, m);
    }

    /** The flush loop: the upper half of a full stack goes back. */
    method Flush(key: Key)
      requires Whole(Valid()) && key in stacks && |stacks[key]| == CACHE
      modifies this`stacks, this`cells, this`place, this`client, buddy`bits, buddy`freeSize, buddy`out, buddy`owner
      ensures Whole(Valid()) && client == old(client)
      ensures Whole(Flushed(old(stacks), old(cells), old(buddy.out), stacks, cells, buddy.out, key, CACHE / 2))
    {
      FlushedNone(buddy.poolStart, stacks, cells, place, buddy.out, key, CACHE);
      for i := 0 to CACHE / 2
        invariant Whole(Valid()) && client == old(client)
        invariant Whole(Flushed(old(stacks), old(cells), old(buddy.out), stacks, cells, buddy.out, key, CACHE - i))
      {
        FlushRound(key, old(stacks), old(cells), old(buddy.out), CACHE - i, CACHE - i - 1);
      }
    }

    /** `cpu_pool_free` for a CPU and order with a stack. */
    method ReleaseCached(key: Key, ptr: nat, order: nat, ghost i: nat)
      requires Whole(Valid()) && key in stacks && initialized[key.cpu] && order == MIN + key.k
      requires Block(order, i) in client && ptr == buddy.Address(order, i)
      modifies this`stacks, this`cells, this`place, this`client, buddy`bits, buddy`freeSize, buddy`out, buddy`owner
      ensures Whole(Valid()) && client == old(client) - {Block(order, i)}
      ensures stacks == old(stacks)[key := Remaining(On(old(stacks), key)) + [ptr]]
      ensures |On(old(stacks), key)| < 16 ==> buddy.H() == old(buddy.H())
      ensures |On(old(stacks), key)| >= 16 ==>
        key in old(cells) && |old(cells)[key]| == 16 && buddy.out == old(buddy.out) - From(old(cells)[key], 8)
    {
      if |stacks[key]| < CACHE {
        Push(key, ptr, Block(order, i));
        return;
      }
      Flush(key);
      FlushedThen(old(stacks), old(cells), old(buddy.out), stacks, cells, buddy.out, key, CACHE / 2, ptr);
      Push(key, ptr, Block(order, i));
    }

    /** `cpu_pool_free`: a full stack sends half of its blocks back before it takes one more. */
    method Release(cpu: nat, ptr: nat, order: nat, ghost i: nat)
      requires Whole(Valid())
      requires ptr != 0 ==> Block(order, i) in client && ptr == buddy.Address(order, i)
      modifies this`stacks, this`cells, this`place, this`client, buddy`bits, buddy`freeSize, buddy`out, buddy`owner
      ensures Whole(Valid()) && initialized == old(initialized)
      ensures client == if ptr == 0 then old(client) else old(client) - {Block(order, i)}
      ensures ptr == 0 ==> stacks == old(stacks) && buddy.H() == old(buddy.H())
      ensures ptr != 0 && !HasStack(cpu, order) ==>
        stacks == old(stacks) && buddy.out == old(buddy.out) - {Block(order, i)}
      ensures ptr != 0 && HasStack(cpu, order) ==>
        stacks == old(stacks)[Stack(cpu, order) := Remaining(On(old(stacks), Stack(cpu, order))) + [ptr]]
      ensures ptr != 0 && HasStack(cpu, order) && |On(old(stacks), Stack(cpu, order))| < 16 ==>
        buddy.H() == old(buddy.H())
      ensures ptr != 0 && HasStack(cpu, order) && |On(old(stacks), Stack(cpu, order))| >= 16 ==>
        Stack(cpu, order) in old(cells) && |old(cells)[Stack(cpu, order)]| == 16 &&
        buddy.out == old(buddy.out) - From(old(cells)[Stack(cpu, order)], 8)
    {
      if ptr == 0 { return; }
      if HasStack(cpu, order) {
        ReleaseCached(Stack(cpu, order), ptr, order, i);
      } else {
        ToBuddy(ptr, order, i);
      }
    }
  }

  /** Initialising a CPU again after a refill: the cached blocks are with nobody. */
  method InitAgain(pools: CpuPools, key: Key)
    requires Whole(pools.Valid()) && key in pools.stacks && pools.stacks[key] == [] && key.cpu < CPUS
    requires pools.initialized[key.cpu] && !Whole(Exhausted(pools.buddy.H(), pools.buddy.poolSize, MIN + key.k))
    modifies pools`initialized, pools`stacks, pools`cells, pools`place, pools`client
    modifies pools.buddy`bits, pools.buddy`freeSize, pools.buddy`out, pools.buddy`owner
    ensures !Whole(pools.Valid()) && pools.client == old(pools.client)
  {
    pools.Refill(key);
    assert Emptied(pools.stacks, key.cpu) != pools.stacks;
    pools.Init(key.cpu);
  }

  /** `Alloc` where there is a block on the stack. */
  method AllocTop(pools: CpuPools, cpu: nat, order: nat, ghost key: Key) returns (ptr: nat, ghost i: nat)
    requires Whole(pools.Valid()) && |pools.initialized| == CPUS && pools.HasStack(cpu, order)
    requires key == pools.Stack(cpu, order) && On(pools.stacks, key) != []
    modifies pools`stacks, pools`cells, pools`place, pools`client
    modifies pools.buddy`bits, pools.buddy`freeSize, pools.buddy`out, pools.buddy`owner
    ensures Whole(pools.Valid()) && Whole(Popped(old(pools.stacks), pools.stacks, key, ptr))
    ensures ptr == pools.buddy.Address(order, i) && pools.client == old(pools.client) + {Block(order, i)}
  {
    ghost var b;
    ptr, b := pools.Alloc(cpu, order);
    i := b.i;
  }

  /** A block given back is the next one handed out on that CPU. */
  method ReleaseThenAlloc(pools: CpuPools, cpu: nat, ptr: nat, order: nat, ghost i: nat, ghost key: Key)
    returns (again: nat)
    requires Whole(pools.Valid()) && ptr != 0 && Block(order, i) in pools.client
    requires |pools.initialized| == CPUS && pools.HasStack(cpu, order) && ptr == pools.buddy.Address(order, i)
    requires key == pools.Stack(cpu, order)
    modifies pools`stacks, pools`cells, pools`place, pools`client
    modifies pools.buddy`bits, pools.buddy`freeSize, pools.buddy`out, pools.buddy`owner
    ensures Whole(pools.Valid()) && again == ptr && pools.client == old(pools.client)
    ensures pools.stacks == old(pools.stacks)[key := Remaining(On(old(pools.stacks), key))]
  {
    ghost var was, client := pools.stacks, pools.client;
    pools.Release(cpu, ptr, order, i);
    ghost var full, s := pools.stacks, Remaining(On(was, key));
    ghost var j;
    again, j := AllocTop(pools, cpu, order, key);
    PushPop(was, key, s, ptr, full, pools.stacks, again);
    SameBlock(pools.buddy.poolStart, order, j, i, client);
  }
}
