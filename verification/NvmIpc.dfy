/** Messages between processes: one queue of 32 messages for all, and a flag for who waits. */
module NvmIpc {
  import opened Sequences
  import opened Nvm

  const MESSAGES: nat := 32

  datatype Message = Message(recipient: nat, sender: nat, content: nat)

  /** The messages for one recipient, in order. */
  function For(r: nat, ms: seq<Message>): seq<Message> {
    if ms == [] then [] else (if ms[0].recipient == r then [ms[0]] else []) + For(r, ms[1..])
  }

  lemma {:induction false} ForAppend(r: nat, a: seq<Message>, b: seq<Message>)
    ensures For(r, a + b) == For(r, a) + For(r, b)
  {
    if a == [] {
      assert a + b == b;
    } else {
      var first := if a[0].recipient == r then [a[0]] else [];
      ForAppend(r, a[1..], b);
      assert (a + b)[1..] == a[1..] + b;
      Regroup(first, For(r, a[1..]), For(r, b));
    }
  }

  lemma {:induction false} ForNone(r: nat, ms: seq<Message>)
    ensures For(r, ms) == [] <==> forall i :: 0 <= i < |ms| ==> ms[i].recipient != r
  {
    if ms != [] {
      ForNone(r, ms[1..]);
      if forall i :: 0 <= i < |ms| ==> ms[i].recipient != r {
        forall i | 0 <= i < |ms[1..]| ensures ms[1..][i].recipient != r {
          assert ms[1..][i] == ms[i + 1];
        }
      } else if ms[0].recipient != r {
        var i :| 0 <= i < |ms| && ms[i].recipient == r;
        assert ms[1..][i - 1].recipient == r;
      }
    }
  }

  /** Taking out the first message for its recipient takes it off the front of their messages, and
      leaves all others' messages as they are. */
  lemma ForRemove(r: nat, ms: seq<Message>, k: nat)
    requires k < |ms| && forall i :: 0 <= i < k ==> ms[i].recipient != ms[k].recipient
    ensures ms[k].recipient == r ==> For(r, ms) == [ms[k]] + For(r, ms[..k] + ms[k + 1..])
    ensures ms[k].recipient != r ==> For(r, ms) == For(r, ms[..k] + ms[k + 1..])
  {
    var m, front, back := ms[k], ms[..k], ms[k + 1..];
    assert ms == front + ([m] + back);
    ForMiddle(r, front, m, back);
    ForAppend(r, front, back);
    if m.recipient == r {
      ForNone(r, front);
      NothingBefore([m], For(r, back));
    }
  }

  lemma NothingBefore(x: seq<Message>, z: seq<Message>)
    ensures [] + (x + z) == x + ([] + z)
  {
  }

  lemma ForMiddle(r: nat, front: seq<Message>, m: Message, back: seq<Message>)
    ensures For(r, front + ([m] + back)) ==
      For(r, front) + if m.recipient == r then [m] + For(r, back) else For(r, back)
  {
    ForAppend(r, front, [m] + back);
    ForAppend(r, [m], back);
    ForOne(r, m);
    assert [] + For(r, back) == For(r, back);
  }

  lemma ForOne(r: nat, m: Message)
    ensures For(r, [m]) == if m.recipient == r then [m] else []
  {
    assert [m][1..] == [];
  }

  /** For every recipient, what was accepted is what they got, followed by what is pending: no loss,
      no duplicate, no reordering. */
  ghost predicate Delivered(sent: seq<Message>, got: seq<Message>, queue: seq<Message>) {
    forall r: nat :: For(r, sent) == For(r, got) + For(r, queue)
  }

  /** Nobody waits while there is something for them. */
  ghost predicate Awake(active: seq<bool>, blocked: seq<bool>, queue: seq<Message>) {
    && |active| == |blocked| == PROCESSES
    && forall p: nat :: p < PROCESSES && active[p] && blocked[p] ==> For(p, queue) == []
  }

  lemma SendKeeps(sent: seq<Message>, got: seq<Message>, queue: seq<Message>, m: Message)
    requires Delivered(sent, got, queue)
    ensures Delivered(sent + [m], got, queue + [m])
  {
    forall r: nat ensures For(r, sent + [m]) == For(r, got) + For(r, queue + [m]) {
      ForAppend(r, sent, [m]);
      ForAppend(r, queue, [m]);
    }
  }

  lemma SendAwake(active: seq<bool>, blocked: seq<bool>, queue: seq<Message>, m: Message, woken: seq<bool>)
    requires Awake(active, blocked, queue) && |woken| == PROCESSES
    requires forall p: nat :: p < PROCESSES && p != m.recipient ==> woken[p] == blocked[p]
    requires m.recipient < PROCESSES && active[m.recipient] ==> !woken[m.recipient]
    ensures Awake(active, woken, queue + [m])
  {
    forall p: nat | p < PROCESSES && active[p] && woken[p] ensures For(p, queue + [m]) == [] {
      ForAppend(p, queue, [m]);
      ForOne(p, m);
    }
  }

  lemma ReceiveKeeps(sent: seq<Message>, got: seq<Message>, queue: seq<Message>, k: nat)
    requires Delivered(sent, got, queue) && k < |queue| && forall i :: 0 <= i < k ==>
      queue[i].recipient != queue[k].recipient
    ensures Delivered(sent, got + [queue[k]], queue[..k] + queue[k + 1..])
  {
    var m := queue[k];
    forall r: nat ensures For(r, sent) == For(r, got + [m]) + For(r, queue[..k] + queue[k + 1..]) {
      ForAppend(r, got, [m]);
      ForOne(r, m);
      ForRemove(r, queue, k);
    }
  }

  lemma ReceiveAwake(active: seq<bool>, blocked: seq<bool>, queue: seq<Message>, k: nat)
    requires Awake(active, blocked, queue) && k < |queue| && forall i :: 0 <= i < k ==>
      queue[i].recipient != queue[k].recipient
    ensures Awake(active, blocked, queue[..k] + queue[k + 1..])
  {
    forall p: nat | p < PROCESSES && active[p] && blocked[p] ensures For(p, queue[..k] + queue[k + 1..]) == [] {
      ForRemove(p, queue, k);
    }
  }

  /** The message queue and the flags of the processes. `sent` and `got` are the messages ever
      accepted and ever received, in order. */
  class Mailbox {
    const queue: array<Message>
    var count: nat
    var active: seq<bool>
    var blocked: seq<bool>
    ghost var sent: seq<Message>
    ghost var got: seq<Message>

    ghost function Pending(): seq<Message>
      requires count <= queue.Length
      reads this, queue
    {
      queue[..count]
    }

    ghost predicate Valid()
      reads this, queue
    {
      && queue.Length == MESSAGES && count <= MESSAGES
      && Delivered(sent, got, Pending()) && Awake(active, blocked, Pending())
    }

    constructor ()
      ensures Valid() && fresh(queue) && sent == got == [] && Pending() == []
      ensures forall p: nat :: p < PROCESSES ==> !active[p] && !blocked[p]
    {
      queue, count := new Message[MESSAGES](_ => Message(0, 0, 0)), 0;
      active, blocked := seq(PROCESSES, _ => false), seq(PROCESSES, _ => false);
      sent, got := [], [];
      new;
      assert queue[..count] == [];
    }

    /** A slot gets a new process: it is active and does not wait. */
    method Create(p: nat)
      requires Valid() && p < PROCESSES && !active[p]
      modifies this`active, this`blocked
      ensures Valid() && active == old(active)[p := true] && blocked == old(blocked)[p := false]
    {
      active, blocked := active[p := true], blocked[p := false];
    }

    method Exit(p: nat)
      requires Valid() && p < PROCESSES
      modifies this`active
      ensures Valid() && active == old(active)[p := false]
    {
      active := active[p := false];
    }

    /** The loop that wakes the recipient; process numbers are slot numbers. */
    method Wake(recipient: nat)
      requires |active| == |blocked| == PROCESSES
      modifies this`blocked
      ensures |blocked| == PROCESSES && forall p: nat :: p < PROCESSES && p != recipient ==>
        blocked[p] == old(blocked)[p]
      ensures recipient < PROCESSES ==> blocked[recipient] == (old(blocked)[recipient] && !active[recipient])
    {
      for i := 0 to PROCESSES
        invariant blocked == old(blocked)
        invariant recipient < i ==> !(active[recipient] && blocked[recipient])
      {
        if active[i] && i == recipient && blocked[i] {
          blocked := blocked[i := false];
          return;
        }
      }
    }

    /** `SYS_MSG_SEND` by process `p` with the cells `stack`: the recipient is 16 bits of the second
        cell, the content 8 bits of the top one. Refused exactly when there are fewer cells or the queue
        is full; otherwise the cells are popped, the message is last in the queue and its recipient, if
        waiting, is woken. */
    method Send(p: nat, stack: seq<int>) returns (rc: int, cells: seq<int>)
      requires Valid() && p < PROCESSES
      modifies this, queue
      ensures Valid() && active == old(active) && got == old(got)
      ensures rc == (if |stack| >= 2 && old(count) < MESSAGES then 0 else -1)
      ensures rc == 0 ==> cells == stack[..|stack| - 2]
      ensures rc == 0 ==> var m := Message(stack[|stack| - 2] % 0x1_0000, p, stack[|stack| - 1] % 0x100);
        sent == old(sent) + [m] && Pending() == old(Pending()) + [m]
      ensures rc == 0 ==> var r := stack[|stack| - 2] % 0x1_0000;
        && (r < PROCESSES ==> blocked[r] == (old(blocked)[r] && !active[r]))
        && forall q: nat :: q < PROCESSES && q != r ==> blocked[q] == old(blocked)[q]
      ensures rc != 0 ==> cells == stack && sent == old(sent) && Pending() == old(Pending()) && blocked == old(blocked)
    {
      if |stack| < 2 { return -1, stack; }
      var recipient, content := stack[|stack| - 2] % 0x1_0000, stack[|stack| - 1] % 0x100;
      if count >= MESSAGES { return -1, stack; }
      var m := Message(recipient, p, content);
      ghost var before := Pending();
      queue[count] := m;
      count := count + 1;
      assert Pending() == before + [m];
      Wake(recipient);
      SendKeeps(sent, got, before, m);
      SendAwake(active, old(blocked), before, m, blocked);
      sent := sent + [m];
      rc, cells := 0, stack[..|stack| - 2];
    }

    /** The search of `SYS_MSG_RECEIVE`. */
    method Find(p: nat) returns (k: int)
      requires Valid()
      ensures k == -1 <==> For(p, Pending()) == []
      ensures k != -1 ==> 0 <= k < count && queue[k].recipient == p && forall i :: 0 <= i < k ==>
        queue[i].recipient != p
    {
      ForNone(p, Pending());
      for i := 0 to count
        invariant forall j :: 0 <= j < i ==> queue[j].recipient != p
      {
        if queue[i].recipient == p { return i; }
      }
      k := -1;
    }

    /** The shift that closes the gap at `k`. */
    method Close(k: nat)
      requires k < count <= queue.Length
      modifies queue, this`count
      ensures count == old(count) - 1 && Pending() == old(Pending())[..k] + old(Pending())[k + 1..]
    {
      for i := k to count - 1
        invariant count == old(count) && forall j :: 0 <= j < k || i <= j < count ==> queue[j] == old(queue[j])
        invariant forall j :: k <= j < i ==> queue[j] == old(queue[j + 1])
      {
        queue[i] := queue[i + 1];
      }
      count := count - 1;
    }

    /** `SYS_MSG_RECEIVE` by process `p` with the cells `stack`: the oldest message for it is taken, and
        its sender and its content are pushed; without one the process blocks; without room on the stack
        nothing happens. */
    method Receive(p: nat, stack: seq<int>) returns (rc: int, cells: seq<int>, ghost m: Message)
      requires Valid() && p < PROCESSES && active[p] && !blocked[p]
      modifies this, queue
      ensures Valid() && active == old(active) && sent == old(sent)
      ensures rc == (if For(p, old(Pending())) != [] && |stack| + 1 < STACK then 0 else -1)
      ensures rc == 0 ==> [m] + For(p, Pending()) == For(p, old(Pending())) && cells == stack + [m.sender, m.content]
      ensures rc == 0 ==> got == old(got) + [m] && blocked == old(blocked)
      ensures rc == 0 ==> forall r: nat :: r != p ==> For(r, Pending()) == For(r, old(Pending()))
      ensures rc != 0 ==> cells == stack && got == old(got) && Pending() == old(Pending())
      ensures rc != 0 ==> blocked == if For(p, old(Pending())) == [] then old(blocked)[p := true] else old(blocked)
    {
      m := Message(0, 0, 0);
      var k := Find(p);
      if k == -1 {
        blocked := blocked[p := true];
        return -1, stack, m;
      }
      if |stack| + 1 >= STACK { return -1, stack, m; }
      ghost var before := Pending();
      var taken := queue[k];
      m := taken;
      ReceiveKeeps(sent, got, before, k);
      ReceiveAwake(active, blocked, before, k);
      forall r: nat ensures r != p ==> For(r, before[..k] + before[k + 1..]) == For(r, before)
        ensures r == p ==> [m] + For(p, before[..k] + before[k + 1..]) == For(p, before) {
        ForRemove(r, before, k);
      }
      Close(k);
      got := got + [m];
      rc, cells := 0, stack + [taken.sender, taken.content];
    }
  }

  lemma LastFor(r: nat, pending: seq<Message>, m: Message)
    requires For(r, pending) == [] && m.recipient == r
    ensures For(r, pending + [m]) == [m]
  {
    ForAppend(r, pending, [m]);
    ForOne(r, m);
  }

  /** Process `p` sends `b` to a process `r` that has nothing pending and may be waiting: it wakes up, and
      its next receive gives it `p` and the low 8 bits of `b`. */
  method SendThenReceive(box: Mailbox, p: nat, below: seq<int>, r: nat, b: int, stack: seq<int>)
    returns (rc: int, cells: seq<int>)
    requires box.Valid() && p < PROCESSES && r < PROCESSES && box.active[r] && box.count < MESSAGES
    requires For(r, box.Pending()) == [] && |stack| + 1 < STACK
    modifies box, box.queue
    ensures box.Valid() && rc == 0 && cells == stack + [p, b % 0x100] && !box.blocked[r]
    ensures For(r, box.Pending()) == [] && box.got == old(box.got) + [Message(r, p, b % 0x100)]
    ensures forall q: nat :: q != r ==> For(q, box.Pending()) == For(q, old(box.Pending()))
  {
    ghost var pending, m := box.Pending(), Message(r, p, b % 0x100);
    rc, cells := box.Send(p, below + [r, b]);
    LastFor(r, pending, m);
    forall q: nat | q != r ensures For(q, pending + [m]) == For(q, pending) {
      ForAppend(q, pending, [m]);
      ForOne(q, m);
    }
    ghost var taken;
    rc, cells, taken := box.Receive(r, stack);
    assert ([taken] + For(r, box.Pending()))[0] == [m][0];
  }
}
