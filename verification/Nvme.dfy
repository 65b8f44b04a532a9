/** The NVMe completion queue: a ring the controller fills and the driver empties, told apart by
    a phase bit that changes meaning on every trip around the ring. */
module Nvme {
  import opened Sequences
  import opened Invariants

  const TRIES: nat := 10000

  /** A completion: the number of the command it answers, counted from the first one submitted to
      the queue, and its status. */
  datatype Done = Done(id: nat, status: nat)

  datatype Entry = Entry(phase: bool, done: Done)

  /** The ring and the driver's place in it; then what the controller knows (its place and trip),
      the driver's trip, and the completions posted and consumed so far. */
  datatype Link = Link(cq: seq<Entry>, head: nat, phase: bool,
                       tail: nat, trip: nat, lap: nat, posted: seq<Done>, consumed: seq<Done>)

  function Init(size: nat): Link {
    Link(seq(size, _ => Entry(false, Done(0, 0))), 0, true, 0, 0, 0, [], [])
  }

  /** The phase bit the controller writes on its first, third, ... trip. */
  predicate Bit(trip: nat) {
    trip % 2 == 0
  }

  /** The controller posts one completion. */
  function Post(l: Link, d: Done): Link
    requires l.tail < |l.cq|
  {
    var cq := l.cq[l.tail := Entry(Bit(l.trip), d)];
    var wraps := l.tail + 1 == |l.cq|;
    l.(cq := cq, tail := if wraps then 0 else l.tail + 1, trip := if wraps then l.trip + 1 else l.trip,
       posted := l.posted + [d])
  }

  /** The driver's test. */
  predicate Ready(l: Link)
    requires l.head < |l.cq|
  {
    l.cq[l.head].phase == l.phase
  }

  /** One pass of the driver's polling loop. */
  function Poll(l: Link): Link
    requires l.head < |l.cq|
  {
    if !Ready(l) then l
    else
      var wraps := l.head + 1 == |l.cq|;
      l.(head := if wraps then 0 else l.head + 1, phase := if wraps then !l.phase else l.phase,
         lap := if wraps then l.lap + 1 else l.lap, consumed := l.consumed + [l.cq[l.head].done])
  }

  /** The controller is at most one ring ahead. */
  ghost predicate Window(l: Link) {
    && l.head < |l.cq| && l.tail < |l.cq|
    && ((l.trip == l.lap && l.head <= l.tail && |l.posted| - |l.consumed| == l.tail - l.head)
        || (l.trip == l.lap + 1 && l.tail <= l.head && |l.posted| - |l.consumed| == |l.cq| + l.tail - l.head))
  }

  /** The ring holds the completions of the current trip up to the tail, and from there on those of
      the trip before. */
  ghost predicate Contents(l: Link) {
    && l.tail <= |l.cq| && l.tail <= |l.posted| && (l.trip > 0 ==> l.tail + |l.cq| <= |l.posted|)
    && (forall i :: 0 <= i < l.tail ==> l.cq[i] == Entry(Bit(l.trip), l.posted[|l.posted| - l.tail + i]))
    && (l.trip == 0 ==> forall i :: l.tail <= i < |l.cq| ==> !l.cq[i].phase)
    && (l.trip > 0 ==> forall i :: l.tail <= i < |l.cq| ==>
          l.cq[i] == Entry(Bit(l.trip - 1), l.posted[|l.posted| - l.tail - |l.cq| + i]))
  }

  ghost predicate Inv(l: Link) {
    Window(l) && Contents(l) && l.phase == Bit(l.lap) && l.consumed <= l.posted
  }

  /** The controller has room for one more: it must not overwrite what the driver has not consumed. */
  predicate Room(l: Link) {
    |l.posted| < |l.consumed| + |l.cq|
  }

  /** The phase test tells exactly whether an unconsumed completion sits at the head. */
  lemma PhaseTest(l: Link)
    requires Inv(l)
    ensures Ready(l) <==> |l.consumed| < |l.posted|
    ensures Ready(l) ==> l.cq[l.head].done == l.posted[|l.consumed|]
    ensures |l.posted| <= |l.consumed| + |l.cq|
  {
  }

  lemma InitInv(size: nat)
    requires 0 < size
    ensures Whole(Inv(Init(size)))
  {
  }

  lemma PostKeeps(l: Link, d: Done)
    requires Inv(l) && Room(l)
    ensures Whole(Inv(Post(l, d)))
  {
  }

  lemma PollKeeps(l: Link)
    requires Inv(l)
    ensures Whole(Inv(Poll(l)))
    ensures Poll(l).consumed == if |l.consumed| < |l.posted| then l.consumed + [l.posted[|l.consumed|]] else l.consumed
  {
    PhaseTest(l);
  }

  datatype Event = Posted(d: Done) | Polled

  ghost predicate Allowed(l: Link, es: seq<Event>)
    requires Whole(Inv(l))
    decreases |es|
  {
    es == [] || ((es[0].Posted? ==> Room(l)) && (StepKeeps(l, es[0]); Allowed(Step(l, es[0]), es[1..])))
  }

  function Step(l: Link, e: Event): Link
    requires l.head < |l.cq| && l.tail < |l.cq|
  {
    match e
    case Posted(d) => Post(l, d)
    case Polled => Poll(l)
  }

  lemma StepKeeps(l: Link, e: Event)
    requires Whole(Inv(l)) && (e.Posted? ==> Room(l))
    ensures Whole(Inv(Step(l, e)))
  {
    match e
    case Posted(d) => PostKeeps(l, d);
    case Polled => PollKeeps(l);
  }

  /** The link after any interleaving of posts and polls. */
  ghost function Run(l: Link, es: seq<Event>): (r: Link)
    requires Whole(Inv(l)) && Allowed(l, es)
    ensures Whole(Inv(r))
    decreases |es|
  {
    if es == [] then l else (StepKeeps(l, es[0]); Run(Step(l, es[0]), es[1..]))
  }

  function Fresh(e: Event): seq<Done> {
    match e
    case Posted(d) => [d]
    case Polled => []
  }

  ghost function Completions(es: seq<Event>): seq<Done> {
    if es == [] then [] else Fresh(es[0]) + Completions(es[1..])
  }

  lemma PostsFresh(l: Link, e: Event)
    requires l.head < |l.cq| && l.tail < |l.cq|
    ensures Step(l, e).posted == l.posted + Fresh(e)
  {
  }

  /** Over every interleaving and any number of trips around the ring: what was posted is what the
      controller posted, what was consumed is a prefix of it, and the test at the head is exact. */
  lemma {:induction false} Exact(l: Link, es: seq<Event>)
    requires Whole(Inv(l)) && Allowed(l, es)
    ensures Run(l, es).posted == l.posted + Completions(es)
    ensures Run(l, es).consumed <= l.posted + Completions(es)
    ensures Ready(Run(l, es)) <==> |Run(l, es).consumed| < |l.posted + Completions(es)|
    decreases |es|
  {
    PhaseTest(Run(l, es));
    if es == [] {
      assert l.posted + [] == l.posted;
    } else {
      StepKeeps(l, es[0]);
      Exact(Step(l, es[0]), es[1..]);
      PostsFresh(l, es[0]);
      Regroup(l.posted, Fresh(es[0]), Completions(es[1..]));
    }
  }

  /** The queue apart from the ring: commands submitted, completions posted, completions taken. */
  datatype Ledger = Ledger(size: nat, count: nat, posted: seq<Done>, taken: nat)

  predicate Posted(b: Ledger, id: nat) {
    exists i :: 0 <= i < |b.posted| && b.posted[i].id == id
  }

  /** The controller answers only commands it got, each at most once, in any order, and no more than
      the ring holds. */
  ghost predicate Fair(b: Ledger) {
    && 0 < b.size && b.taken <= |b.posted| <= b.taken + b.size
    && (forall i :: 0 <= i < |b.posted| ==> b.posted[i].id < b.count)
    && (forall i, j :: 0 <= i < j < |b.posted| ==> b.posted[i].id != b.posted[j].id)
  }

  predicate May(b: Ledger, d: Done) {
    d.id < b.count && !Posted(b, d.id) && |b.posted| < b.taken + b.size
  }

  function Admit(b: Ledger, d: Done): Ledger {
    if May(b, d) then b.(posted := b.posted + [d]) else b
  }

  function AdmitAll(b: Ledger, ds: seq<Done>): Ledger
    decreases |ds|
  {
    if ds == [] then b else AdmitAll(Admit(b, ds[0]), ds[1..])
  }

  /** The polling loop: `arrivals[t]` is what the controller has ready before try `t`. */
  function Wait(b: Ledger, arrivals: seq<seq<Done>>): Ledger
    decreases |arrivals|
  {
    if arrivals == [] then b
    else
      var c := AdmitAll(b, arrivals[0]);
      if c.taken < |c.posted| then c.(taken := c.taken + 1) else Wait(c, arrivals[1..])
  }

  /** One call: the command number `b.count` is submitted, and the driver waits for a completion. */
  function Call(b: Ledger, arrivals: seq<seq<Done>>): Ledger {
    Wait(b.(count := b.count + 1), arrivals)
  }

  datatype Answer = None | Some(done: Done)

  /** The completion that a call from `b` to `c` took, if it took one. */
  function Took(b: Ledger, c: Ledger): Answer {
    if b.taken < c.taken && b.taken < |c.posted| then Some(c.posted[b.taken]) else None
  }

  lemma {:induction false} AdmitKeeps(b: Ledger, ds: seq<Done>)
    requires Fair(b)
    ensures var c := AdmitAll(b, ds); Fair(c) && b.posted <= c.posted && c == b.(posted := c.posted)
    decreases |ds|
  {
    if ds != [] { AdmitKeeps(Admit(b, ds[0]), ds[1..]); }
  }

  /** What a waiting driver leaves: it takes the oldest completion it has not taken, or nothing. */
  ghost predicate Waited(b: Ledger, c: Ledger) {
    && Fair(c) && b.posted <= c.posted && c == b.(posted := c.posted, taken := c.taken)
    && (c.taken == b.taken + 1 || (c.taken == b.taken && |c.posted| == c.taken))
  }

  lemma {:induction false} WaitKeeps(b: Ledger, arrivals: seq<seq<Done>>)
    requires Fair(b) && arrivals != []
    ensures Whole(Waited(b, Wait(b, arrivals)))
    decreases |arrivals|
  {
    AdmitKeeps(b, arrivals[0]);
    var c := AdmitAll(b, arrivals[0]);
    if c.taken == |c.posted| && |arrivals| > 1 { WaitKeeps(c, arrivals[1..]); }
  }

  ghost function Ids(s: seq<Done>): set<nat> {
    set i | 0 <= i < |s| :: s[i].id
  }

  ghost predicate Distinct(s: seq<Done>) {
    forall i, j :: 0 <= i < j < |s| ==> s[i].id != s[j].id
  }

  ghost predicate AllBelow(s: seq<Done>, n: nat) {
    forall i :: 0 <= i < |s| ==> s[i].id < n
  }

  ghost function Numbers(n: nat): (r: set<nat>)
    ensures |r| == n && forall i :: i in r <==> 0 <= i < n
  {
    if n == 0 then {} else Numbers(n - 1) + {n - 1}
  }

  lemma {:induction false} IdsSize(s: seq<Done>)
    requires Distinct(s)
    ensures |Ids(s)| == |s|
  {
    if s != [] {
      var r := s[..|s| - 1];
      IdsSize(r);
      assert Ids(s) == Ids(r) + {s[|s| - 1].id};
      assert s[|s| - 1].id !in Ids(r);
    }
  }

  /** There are at most `n` different completions of `n` commands. */
  lemma AtMost(s: seq<Done>, n: nat)
    requires Distinct(s) && AllBelow(s, n)
    ensures |s| <= n && (|s| < n ==> exists id: nat :: id < n && id !in Ids(s))
  {
    IdsSize(s);
    var rest := Numbers(n) - Ids(s);
    assert Ids(s) <= Numbers(n);
    assert |rest| == n - |s|;
    if |s| < n {
      var id :| id in rest;
    }
  }

  /** A call takes the completion of its own command exactly when none was waiting and the first one
      posted during the call is its own. */
  lemma OwnWhen(b: Ledger, arrivals: seq<seq<Done>>)
    requires Fair(b) && arrivals != []
    ensures var c := Call(b, arrivals);
      Took(b, c).Some? ==> (Took(b, c).done.id == b.count <==>
        b.taken == |b.posted| && c.posted[|b.posted|].id == b.count)
  {
    WaitKeeps(b.(count := b.count + 1), arrivals);
  }

  /** If every earlier command has been answered, an answered call takes its own completion, whatever
      the controller does. */
  lemma OwnIfSettled(b: Ledger, arrivals: seq<seq<Done>>)
    requires Fair(b) && arrivals != [] && b.taken == b.count
    ensures var c := Call(b, arrivals); Took(b, c).Some? ==> Took(b, c).done.id == b.count
  {
    var c := Call(b, arrivals);
    WaitKeeps(b.(count := b.count + 1), arrivals);
    if Took(b, c).Some? && c.posted[b.taken].id != b.count {
      var s := c.posted[..b.taken + 1];
      forall i | 0 <= i < |s| ensures s[i].id < b.count {
        if i < b.taken { assert s[i] == b.posted[i]; }
      }
      AtMost(s, b.count);
    }
  }

  function Silence(n: nat): seq<seq<Done>> {
    seq(n, _ => [])
  }

  lemma {:induction false} SilentWait(b: Ledger, n: nat)
    requires Fair(b) && b.taken == |b.posted|
    ensures Wait(b, Silence(n)) == b
    decreases n
  {
    if n > 0 {
      assert Silence(n)[1..] == Silence(n - 1);
      SilentWait(b, n - 1);
    }
  }

  /** If some earlier command is unanswered, the controller can make an answered call take the
      completion of another command: one that waits already, or a late one that comes first. */
  lemma OtherIfUnsettled(b: Ledger) returns (arrivals: seq<seq<Done>>)
    requires Fair(b) && b.taken < b.count
    ensures |arrivals| == TRIES
    ensures var c := Call(b, arrivals); Took(b, c).Some? && Took(b, c).done.id < b.count
  {
    arrivals := Silence(TRIES);
    var a := b.(count := b.count + 1);
    if b.taken < |b.posted| {
      assert AdmitAll(a, []) == a;
    } else {
      AtMost(b.posted, b.count);
      var id: nat :| id < b.count && id !in Ids(b.posted);
      assert !Posted(b, id);
      var d := Done(id, 0);
      arrivals := arrivals[0 := [d]];
      assert May(a, d);
      assert AdmitAll(a, [d]) == a.(posted := a.posted + [d]);
    }
  }

  /** Own completions are guaranteed, against every controller, exactly when all earlier commands have
      been answered. */
  lemma OwnCompletion(b: Ledger)
    requires Fair(b)
    ensures (forall arrivals: seq<seq<Done>> {:trigger Call(b, arrivals)} :: |arrivals| == TRIES ==>
      Took(b, Call(b, arrivals)).Some? ==> Took(b, Call(b, arrivals)).done.id == b.count) <==> b.taken == b.count
  {
    AtMost(b.posted, b.count);
    if b.taken == b.count {
      forall arrivals: seq<seq<Done>> | |arrivals| == TRIES
        ensures Took(b, Call(b, arrivals)).Some? ==> Took(b, Call(b, arrivals)).done.id == b.count
      {
        OwnIfSettled(b, arrivals);
      }
    } else {
      var arrivals := OtherIfUnsettled(b);
      assert Took(b, Call(b, arrivals)).done.id != b.count;
    }
  }

  /** The ledger after some calls, and whether each was answered. */
  function After(b: Ledger, calls: seq<seq<seq<Done>>>): Ledger
    decreases |calls|
  {
    if calls == [] then b else After(Call(b, calls[0]), calls[1..])
  }

  function Answered(b: Ledger, calls: seq<seq<seq<Done>>>): seq<bool>
    decreases |calls|
  {
    if calls == [] then [] else [Took(b, Call(b, calls[0])).Some?] + Answered(Call(b, calls[0]), calls[1..])
  }

  ghost predicate AllTrue(s: seq<bool>) {
    forall i :: 0 <= i < |s| ==> s[i]
  }

  lemma TrueFirst(x: bool, s: seq<bool>)
    ensures AllTrue([x] + s) <==> x && AllTrue(s)
  {
    var t := [x] + s;
    assert t[0] == x && forall i :: 0 <= i < |s| ==> t[i + 1] == s[i];
  }

  /** Over any calls: all commands are answered exactly when no call timed out. So a queue on which a
      call timed out never again guarantees a call its own completion. */
  lemma {:induction false} SettledIffAnswered(b: Ledger, calls: seq<seq<seq<Done>>>)
    requires Fair(b) && forall i :: 0 <= i < |calls| ==> |calls[i]| == TRIES
    ensures Fair(After(b, calls)) && After(b, calls).count == b.count + |calls|
    ensures After(b, calls).count - After(b, calls).taken >= b.count - b.taken
    ensures |Answered(b, calls)| == |calls|
    ensures After(b, calls).count - After(b, calls).taken == b.count - b.taken <==> AllTrue(Answered(b, calls))
    decreases |calls|
  {
    if calls != [] {
      var c := Call(b, calls[0]);
      WaitKeeps(b.(count := b.count + 1), calls[0]);
      SettledIffAnswered(c, calls[1..]);
      var rest := Answered(c, calls[1..]);
      assert Answered(b, calls) == [Took(b, c).Some?] + rest;
      assert AllTrue(Answered(b, calls)) <==>
        Took(b, c).Some? && AllTrue(rest) by { TrueFirst(Took(b, c).Some?, rest); }
    }
  }

  /** Command 0 times out, and its completion comes during the next call: call 1 takes it for its own,
      whose status was 0. */
  lemma LateAnswer()
    ensures var b := Call(Ledger(256, 0, [], 0), Silence(TRIES));
      var c := Call(b, Silence(TRIES)[0 := [Done(0, 5), Done(1, 0)]]);
      Took(Ledger(256, 0, [], 0), b) == None && Took(b, c) == Some(Done(0, 5)) && c.posted == [Done(0, 5), Done(1, 0)]
  {
    var a := Ledger(256, 0, [], 0);
    SilentWait(a.(count := 1), TRIES);
    var b := a.(count := 1);
    var ds := [Done(0, 5), Done(1, 0)];
    var x := b.(count := 2);
    var y := x.(posted := [Done(0, 5)]);
    assert Admit(x, ds[0]) == y;
    assert ds[1..] == [ds[1]] && ds[1..][1..] == [];
    assert Admit(y, ds[1]) == y.(posted := ds);
    assert AdmitAll(x, ds) == x.(posted := ds);
  }

  /** After the same timeout a controller that answers command 1 first gives call 1 its own completion. */
  lemma LuckyAnswer()
    ensures var b := Call(Ledger(256, 0, [], 0), Silence(TRIES));
      Took(b, Call(b, Silence(TRIES)[0 := [Done(1, 0)]])) == Some(Done(1, 0))
  {
    var a := Ledger(256, 0, [], 0);
    SilentWait(a.(count := 1), TRIES);
    var x := a.(count := 2);
    assert Admit(x, Done(1, 0)) == x.(posted := [Done(1, 0)]);
    assert AdmitAll(x, [Done(1, 0)]) == x.(posted := [Done(1, 0)]);
  }

  lemma NextTry(arrivals: seq<seq<Done>>, t: nat)
    requires t < |arrivals|
    ensures arrivals[t..][0] == arrivals[t] && arrivals[t..][1..] == arrivals[t + 1..]
  {
  }

  /** One queue pair: 64 entries for admin commands, 256 for I/O. `count` commands were submitted. */
  class QueuePair {
    const size: nat
    var sq: seq<nat>
    var sqTail: nat
    var cq: seq<Entry>
    var head: nat
    var phase: bool
    var tail: nat
    var trip: nat
    ghost var lap: nat
    var posted: seq<Done>
    var consumed: seq<Done>
    var count: nat
    /** What the driver last wrote to the doorbells: the controller learns from them of new commands and of
        consumed completions. */
    var sqBell: nat
    var cqBell: nat

    ghost function L(): Link
      reads this
    {
      Link(cq, head, phase, tail, trip, lap, posted, consumed)
    }

    function Book(): Ledger
      reads this
    {
      Ledger(size, count, posted, |consumed|)
    }

    ghost predicate Valid()
      reads this
    {
      && Whole(Inv(L())) && Whole(Fair(Book())) && |cq| == |sq| == size && sqTail < size
      && sqBell == sqTail && cqBell == head
    }

    constructor (size: nat)
      requires 0 < size
      ensures Valid() && this.size == size && Book() == Ledger(size, 0, [], 0)
      ensures phase && head == tail == sqTail == 0 && forall i :: 0 <= i < size ==> !cq[i].phase && sq[i] == 0
    {
      this.size := size;
      sq, sqTail, count := seq(size, _ => 0), 0, 0;
      cq, head, phase := seq(size, _ => Entry(false, Done(0, 0))), 0, true;
      tail, trip, lap, posted, consumed := 0, 0, 0, [], [];
      sqBell, cqBell := 0, 0;
      new;
      assert L() == Init(size);
      InitInv(size);
    }

    method Produce(d: Done)
      requires tail < size == |cq|
      modifies this`cq, this`tail, this`trip, this`posted
      ensures L() == Post(old(L()), d)
    {
      cq := cq[tail := Entry(Bit(trip), d)];
      posted := posted + [d];
      tail := tail + 1;
      if tail == size { tail, trip := 0, trip + 1; }
    }

    /** The controller writes a completion into the ring, if it may. */
    method Device(d: Done)
      requires Whole(Valid())
      modifies this`cq, this`tail, this`trip, this`posted
      ensures Whole(Valid()) && Book() == Admit(old(Book()), d)
    {
      if May(Book(), d) {
        PostKeeps(L(), d);
        AdmitKeeps(Book(), [d]);
        Produce(d);
      }
    }

    /** The completions the controller has ready, as far as it may post them. */
    method Arrive(ds: seq<Done>)
      requires Whole(Valid())
      modifies this`cq, this`tail, this`trip, this`posted
      ensures Whole(Valid()) && Book() == AdmitAll(old(Book()), ds)
    {
      for j := 0 to |ds|
        invariant Whole(Valid()) && AdmitAll(Book(), ds[j..]) == AdmitAll(old(Book()), ds)
      {
        Device(ds[j]);
        assert ds[j..][1..] == ds[j + 1..];
      }
    }

    method Consume() returns (d: Done)
      requires head < size == |cq| && Ready(L())
      modifies this`head, this`phase, this`lap, this`consumed, this`cqBell
      ensures d == old(cq[head].done) && L() == Poll(old(L())) && cqBell == head
    {
      d := cq[head].done;
      consumed := consumed + [d];
      head := head + 1;
      if head == size { head, phase, lap := 0, !phase, lap + 1; }
      cqBell := head;
    }

    /** One pass of the polling loop: the completion at the head, if there is one. */
    method PollOnce() returns (found: bool, d: Done)
      requires Whole(Valid())
      modifies this`head, this`phase, this`lap, this`consumed, this`cqBell
      ensures Whole(Valid()) && L() == Poll(old(L()))
      ensures found <==> |old(consumed)| < |posted|
      ensures found ==> d == posted[|old(consumed)|] && consumed == old(consumed) + [d]
      ensures !found ==> L() == old(L())
    {
      PhaseTest(L());
      PollKeeps(L());
      if cq[head].phase != phase { return false, Done(0, 0); }
      d := Consume();
      found := true;
    }

    method Submit(cmd: nat)
      requires Whole(Valid())
      modifies this`sq, this`sqTail, this`count, this`sqBell
      ensures Whole(Valid()) && count == old(count) + 1
      ensures sq == old(sq)[old(sqTail) := cmd] && sqTail == (old(sqTail) + 1) % size
    {
      sq := sq[sqTail := cmd];
      sqTail := (sqTail + 1) % size;
      sqBell := sqTail;
      count := count + 1;
    }

    /** One try: what the controller has ready arrives, and the driver looks. */
    method TryOnce(ds: seq<Done>) returns (found: bool, d: Done)
      requires Whole(Valid())
      modifies this`cq, this`tail, this`trip, this`posted, this`head, this`phase, this`lap, this`consumed, this`cqBell
      ensures Whole(Valid()) && found == (|old(consumed)| < |posted|)
      ensures var c := AdmitAll(old(Book()), ds);
        c.taken == |old(consumed)| && c.posted == posted && Book() == c.(taken := |consumed|)
      ensures found ==> d == posted[|old(consumed)|] && consumed == old(consumed) + [d]
      ensures !found ==> consumed == old(consumed)
    {
      AdmitKeeps(Book(), ds);
      Arrive(ds);
      found, d := PollOnce();
    }

    /** The polling loop: the first completion that turns up, if any does. */
    method Await(arrivals: seq<seq<Done>>) returns (found: bool, d: Done)
      requires Whole(Valid()) && |arrivals| == TRIES
      modifies this`cq, this`tail, this`trip, this`posted, this`head, this`phase, this`lap, this`consumed, this`cqBell
      ensures Whole(Valid()) && Book() == Wait(old(Book()), arrivals)
      ensures found ==> |old(consumed)| < |posted| && d == posted[|old(consumed)|] && consumed == old(consumed) + [d]
      ensures !found ==> consumed == old(consumed)
    {
      for t := 0 to TRIES
        invariant Whole(Valid()) && consumed == old(consumed)
        invariant Wait(Book(), arrivals[t..]) == Wait(old(Book()), arrivals)
      {
        NextTry(arrivals, t);
        found, d := TryOnce(arrivals[t]);
        if found { return; }
      }
      found, d := false, Done(0, 0);
    }

    /** `nvme_submit_and_wait` and `nvme_submit_admin_command`. `arrivals[t]` is what the controller
        has ready before try `t`. An answered call returns the status of the oldest completion not
        consumed before, whosever it is; it is its own if every earlier command was answered. */
    method SubmitAndWait(cmd: nat, arrivals: seq<seq<Done>>) returns (rc: int)
      requires Whole(Valid()) && |arrivals| == TRIES
      modifies this`sq, this`sqTail, this`cq, this`tail, this`trip, this`posted, this`head, this`phase, this`lap,
        this`consumed, this`count, this`sqBell, this`cqBell
      ensures Whole(Valid()) && Book() == Call(old(Book()), arrivals)
      ensures sq == old(sq)[old(sqTail) := cmd] && sqTail == (old(sqTail) + 1) % size
      ensures match Took(old(Book()), Book())
        case Some(d) =>
          && consumed == old(consumed) + [d] && rc == (if d.status == 0 then 0 else -1)
          && (|old(consumed)| == old(count) ==> d.id == old(count))
        case None => consumed == old(consumed) && rc == -1
    {
      ghost var b := Book();
      if |consumed| == count { OwnIfSettled(b, arrivals); }
      Submit(cmd);
      WaitKeeps(Book(), arrivals);
      var found, d := Await(arrivals);
      rc := if found && d.status == 0 then 0 else -1;
    }
  }

  /** The same on a queue pair: call 1 returns -1 with the failure of command 0, while its own command
      succeeded. */
  method LateAnswerRun(first: nat, second: nat) returns (q: QueuePair, rc: int)
    ensures fresh(q) && q.posted == [Done(0, 5), Done(1, 0)] && q.consumed == [Done(0, 5)] && rc == -1
  {
    q := new QueuePair(256);
    LateAnswer();
    rc := q.SubmitAndWait(first, Silence(TRIES));
    rc := q.SubmitAndWait(second, Silence(TRIES)[0 := [Done(0, 5), Done(1, 0)]]);
  }
}
