/** The round-robin scheduler: which process gets the next slice. */
module NvmScheduler {
  import opened Nvm

  const TIME_SLICE: nat := 10

  type Flags = s: seq<bool> | |s| == PROCESSES witness seq(PROCESSES, _ => false)

  /** The slot `k` places after `cur`, around the table. */
  function After(cur: nat, k: nat): (n: nat)
    requires cur < PROCESSES && k <= PROCESSES
    ensures n < PROCESSES
  {
    if cur + k < PROCESSES then cur + k else cur + k - PROCESSES
  }

  /** The first runnable slot from `k` places after `cur` on, or `cur` itself if there is none. */
  function From(cur: nat, runnable: Flags, k: nat): nat
    requires cur < PROCESSES
    decreases if k <= PROCESSES then PROCESSES + 1 - k else 0
  {
    if k > PROCESSES then cur else if runnable[After(cur, k)] then After(cur, k) else From(cur, runnable, k + 1)
  }

  function Pick(cur: nat, runnable: Flags): nat
    requires cur < PROCESSES
  {
    From(cur, runnable, 1)
  }

  /** How many slots the scheduler looks at before slot `q`, coming from `cur`. */
  function Distance(cur: nat, q: nat): nat
    requires cur < PROCESSES && q < PROCESSES
  {
    if cur < q then q - cur - 1 else q + PROCESSES - cur - 1
  }

  lemma AfterDistance(cur: nat, q: nat)
    requires cur < PROCESSES && q < PROCESSES
    ensures Distance(cur, q) < PROCESSES && After(cur, Distance(cur, q) + 1) == q
  {
  }

  /** Slot `k` places on is nearer to `q` by `k`, if it is not past `q`. */
  lemma Nearer(cur: nat, k: nat, q: nat)
    requires cur < PROCESSES && q < PROCESSES && 1 <= k <= Distance(cur, q)
    ensures Distance(After(cur, k), q) == Distance(cur, q) - k
  {
  }

  /** A runnable slot is picked, or the scheduler stops at one before it. */
  lemma {:induction false} FromReaches(cur: nat, runnable: Flags, k: nat, q: nat)
    requires cur < PROCESSES && q < PROCESSES && runnable[q] && 1 <= k <= Distance(cur, q) + 1
    ensures var n := From(cur, runnable, k);
      n < PROCESSES && runnable[n] && (n == q || Distance(n, q) < Distance(cur, q))
    decreases PROCESSES + 1 - k
  {
    AfterDistance(cur, q);
    if !runnable[After(cur, k)] {
      FromReaches(cur, runnable, k + 1, q);
    } else if k <= Distance(cur, q) {
      Nearer(cur, k, q);
    }
  }

  /** `curs[i]` is the current process after `i` rounds; `flags[i]` says who is runnable in round `i`. */
  ghost predicate Rounds(curs: seq<nat>, flags: seq<Flags>) {
    && |curs| == |flags| + 1 && curs[0] < PROCESSES
    && forall i :: 0 <= i < |flags| ==> curs[i] < PROCESSES && curs[i + 1] == Pick(curs[i], flags[i])
  }

  /** A process that stays runnable is picked after as many rounds as there are slots before it,
      whatever happens to the others in the meantime. */
  lemma {:induction false} PickedWithin(curs: seq<nat>, flags: seq<Flags>, q: nat)
    requires Rounds(curs, flags) && q < PROCESSES && Distance(curs[0], q) < |flags|
    requires forall i :: 0 <= i < |flags| ==> flags[i][q]
    ensures exists i :: 0 < i <= Distance(curs[0], q) + 1 && curs[i] == q
    decreases |flags|
  {
    FromReaches(curs[0], flags[0], 1, q);
    assert curs[1] == Pick(curs[0], flags[0]);
    if curs[1] != q {
      var rest, next := curs[1..], flags[1..];
      assert Rounds(rest, next);
      PickedWithin(rest, next, q);
      var i :| 0 < i <= Distance(rest[0], q) + 1 && rest[i] == q;
      assert curs[i + 1] == q;
    }
  }

  /** Bounded waiting: at most 32 rounds. */
  lemma BoundedWaiting(curs: seq<nat>, flags: seq<Flags>, q: nat)
    requires Rounds(curs, flags) && q < PROCESSES && |flags| == PROCESSES
    requires forall i :: 0 <= i < |flags| ==> flags[i][q]
    ensures q in curs[1..]
  {
    AfterDistance(curs[0], q);
    PickedWithin(curs, flags, q);
    var i :| 0 < i <= Distance(curs[0], q) + 1 && curs[i] == q;
    assert curs[1..][i - 1] == q;
  }

  function Runnable(active: Flags, blocked: Flags): (r: Flags)
    ensures forall i :: 0 <= i < PROCESSES ==> r[i] == (active[i] && !blocked[i])
  {
    seq(PROCESSES, i requires 0 <= i < PROCESSES => active[i] && !blocked[i])
  }

  lemma Step(cur: nat, k: nat)
    requires cur < PROCESSES && k < PROCESSES
    ensures After(cur, k + 1) == (After(cur, k) + 1) % PROCESSES
  {
  }

  /** The search loop of `nvm_scheduler_tick`. */
  method Next(original: nat, active: Flags, blocked: Flags, ghost r: Flags) returns (current: nat, run: bool)
    requires original < PROCESSES && r == Runnable(active, blocked)
    ensures current == Pick(original, r) < PROCESSES && run == r[current]
  {
    Step(original, 0);
    current := (original + 1) % PROCESSES;
    ghost var k := 1;
    while !(active[current] && !blocked[current]) && current != original
      invariant 1 <= k <= PROCESSES && current == After(original, k) && (current == original <==> k == PROCESSES)
      invariant From(original, r, k) == Pick(original, r)
      decreases PROCESSES - k
    {
      Step(original, k);
      current := (current + 1) % PROCESSES;
      k := k + 1;
    }
    run := active[current] && !blocked[current];
    if !run { current := original; }
  }

  /** The next process: the nearest runnable one around the table, and with nobody runnable the same. */
  ghost predicate Chosen(cur: nat, runnable: Flags, next: nat) {
    && next < PROCESSES
    && ((forall i :: 0 <= i < PROCESSES ==> !runnable[i]) ==> next == cur)
    && (forall i :: 0 <= i < PROCESSES && runnable[i] ==>
          runnable[next] && (next - cur - 1) % 32 <= (i - cur - 1) % 32)
  }

  lemma {:induction false} FromNone(cur: nat, runnable: Flags, k: nat)
    requires cur < PROCESSES && forall i :: 0 <= i < PROCESSES ==> !runnable[i]
    ensures From(cur, runnable, k) == cur
    decreases if k <= PROCESSES then PROCESSES + 1 - k else 0
  {
    if k <= PROCESSES { FromNone(cur, runnable, k + 1); }
  }

  lemma DistanceIs(cur: nat, q: nat)
    requires cur < PROCESSES && q < PROCESSES
    ensures Distance(cur, q) == (q - cur - 1) % 32
  {
  }

  /** No runnable slot is nearer than the one the search stops at. */
  lemma {:induction false} FromNearest(cur: nat, runnable: Flags, k: nat, q: nat)
    requires cur < PROCESSES && q < PROCESSES && runnable[q] && 1 <= k <= Distance(cur, q) + 1
    ensures var n := From(cur, runnable, k);
      n < PROCESSES && runnable[n] && k - 1 <= Distance(cur, n) <= Distance(cur, q)
    decreases PROCESSES + 1 - k
  {
    AfterDistance(cur, q);
    if !runnable[After(cur, k)] { FromNearest(cur, runnable, k + 1, q); }
  }

  lemma PickChosen(cur: nat, runnable: Flags)
    requires cur < PROCESSES
    ensures Chosen(cur, runnable, Pick(cur, runnable))
  {
    var next := Pick(cur, runnable);
    if i :| 0 <= i < PROCESSES && runnable[i] {
      FromNearest(cur, runnable, 1, i);
    } else {
      FromNone(cur, runnable, 1);
    }
    forall i | 0 <= i < PROCESSES && runnable[i]
      ensures runnable[next] && (next - cur - 1) % 32 <= (i - cur - 1) % 32
    {
      FromNearest(cur, runnable, 1, i);
      DistanceIs(cur, i);
      DistanceIs(cur, next);
    }
  }

  /** The scheduler's part of the kernel state. */
  class Scheduler {
    var current: nat
    var ticks: nat
    var active: Flags
    var blocked: Flags

    ghost predicate Valid()
      reads this
    {
      current < PROCESSES && ticks < 0x1_0000_0000
    }

    constructor ()
      ensures Valid() && current == ticks == 0
      ensures forall i :: 0 <= i < PROCESSES ==> !active[i] && !blocked[i]
    {
      current, ticks := 0, 0;
      active, blocked := seq(PROCESSES, _ => false), seq(PROCESSES, _ => false);
    }

    /** `nvm_scheduler_tick` up to the slice: every tenth tick picks a process. */
    method Tick() returns (run: bool)
      requires Valid()
      modifies this`current, this`ticks
      ensures Valid() && ticks == (old(ticks) + 1) % 0x1_0000_0000
      ensures ticks % TIME_SLICE != 0 ==> current == old(current) && !run
      ensures ticks % 10 == 0 ==> Chosen(old(current), Runnable(active, blocked), current)
      ensures ticks % TIME_SLICE == 0 ==>
        current == Pick(old(current), Runnable(active, blocked)) && run == (active[current] && !blocked[current])
    {
      ticks := (ticks + 1) % 0x1_0000_0000;
      if ticks % TIME_SLICE != 0 { return false; }
      PickChosen(current, Runnable(active, blocked));
      current, run := Next(current, active, blocked, Runnable(active, blocked));
    }
  }
}
