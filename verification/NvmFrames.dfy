/** Call frames: whatever a called function does inside its frame, the caller gets its place, its
    frame and its stack back. */
module NvmFrames {
  import opened Invariants
  import opened Bytes
  import opened Nvm

  datatype Status = Called | Entered | Left

  /** A call in progress: the caller's stack height, how many of its top cells are arguments, where
      it goes on and its frame; its cells at the call (`orig`) and now (`now`). */
  datatype Frame = Frame(s: nat, nargs: nat, ret: nat, fp: int, orig: seq<int>, now: seq<int>, status: Status)

  /** How far below the top an instruction reaches. */
  function Depth(op: Byte): nat {
    if op == 0x06 || IsBinary(op) then 2
    else if op == 0x04 || op == 0x05 || op == 0x63 || op == 0x31 || op == 0x32 then 1
    else if op == 0x38 || op == 0x41 || op == 0x43 then 1
    else 0
  }

  function Top(fs: seq<Frame>): Frame
    requires fs != []
  {
    fs[|fs| - 1]
  }

  /** The lowest cell the running function may touch: above its return address and saved frame. */
  function Base(fs: seq<Frame>): nat {
    if fs == [] then 0 else Top(fs).s + 2
  }

  predicate Framing(op: Byte) {
    0x33 <= op <= 0x36
  }

  /** Instructions that leave the stack alone. */
  predicate Still(op: Byte) {
    op == 0x00 || op == 0x01 || op == 0x30 || op == 0x51
  }

  /** What is asked of the code: a called function enters first and returns right after it left, it
      does not reach into its own frame base, and it stores only to its own arguments. `nargs` is
      the number of arguments a CALL passes. */
  predicate Disciplined(p: Proc, fs: seq<Frame>, nargs: nat) {
    && p.ip < |p.code| && !External(p.code[p.ip])
    && var op := p.code[p.ip];
    if op == 0x33 then (fs != [] ==> Top(fs).status.Entered?) && Base(fs) + nargs <= p.sp
    else if op == 0x35 then fs != [] && Top(fs).status.Called?
    else if op == 0x36 then fs != [] && Top(fs).status.Entered?
    else if op == 0x34 then fs != [] && Top(fs).status.Left?
    else if Still(op) then true
    else
      && (fs != [] ==> Top(fs).status.Entered?) && Base(fs) + Depth(op) <= p.sp
      && (op == 0x38 ==> fs != [] && p.ip + 1 < |p.code| && p.code[p.ip + 1] < Top(fs).nargs)
  }

  /** The calls in progress after the instruction. */
  function Track(p: Proc, fs: seq<Frame>, nargs: nat): seq<Frame>
    requires Safe(p) && Disciplined(p, fs, nargs)
  {
    var op := p.code[p.ip];
    if op == 0x33 then fs + [Frame(p.sp, nargs, p.ip + 5, p.fp, p.stack[..p.sp], p.stack[..p.sp], Called)]
    else if op == 0x35 then fs[|fs| - 1 := Top(fs).(status := Entered)]
    else if op == 0x36 then fs[|fs| - 1 := Top(fs).(status := Left)]
    else if op == 0x34 then fs[..|fs| - 1]
    else if op == 0x38 then
      var t := Top(fs);
      var k := t.s - 1 - p.code[p.ip + 1];
      if 0 <= k < |t.now| then fs[|fs| - 1 := t.(now := t.now[k := p.stack[p.sp - 1]])] else fs
    else fs
  }

  ghost predicate FrameOk(p: Proc, f: Frame) {
    && |p.stack| == STACK && f.s < STACK && f.nargs <= f.s && |f.orig| == |f.now| == f.s &&
      f.orig[..f.s - f.nargs] == f.now[..f.s - f.nargs]
    && p.stack[..f.s] == f.now && p.stack[f.s] == f.ret
    && (f.status.Entered? ==> f.s + 1 < STACK && p.stack[f.s + 1] == f.fp)
  }

  /** The callee's cells lie above the caller's base, and it knows the caller's frame. */
  ghost predicate Above(f: Frame, g: Frame) {
    f.status.Entered? && f.s + 2 + g.nargs <= g.s
  }

  ghost predicate Nested(fs: seq<Frame>) {
    && (forall k, j :: 0 <= k < j < |fs| ==> Above(fs[k], fs[j]))
    && (forall k :: 0 < k < |fs| ==> fs[k].fp == fs[k - 1].s + 1)
  }

  ghost predicate Current(p: Proc, f: Frame) {
    if f.status.Entered? then p.fp == f.s + 1 && p.sp >= f.s + 2 else p.sp == f.s + 1 && p.fp == f.fp
  }

  ghost predicate Inv(p: Proc, fs: seq<Frame>) {
    && Safe(p) && Nested(fs)
    && (forall k :: 0 <= k < |fs| ==> FrameOk(p, fs[k]))
    && (fs != [] ==> Current(p, Top(fs)))
  }

  /** Cells below `b` are the same. */
  ghost predicate SameBelow(p: Proc, q: Proc, b: nat) {
    |p.stack| == |q.stack| && forall i :: 0 <= i < b <= |p.stack| ==> q.stack[i] == p.stack[i]
  }

  lemma FrameKept(p: Proc, q: Proc, f: Frame)
    requires FrameOk(p, f) && SameBelow(p, q, f.s + 2) && f.s + 2 <= STACK
    ensures FrameOk(q, f)
  {
    assert q.stack[..f.s] == p.stack[..f.s];
  }

  /** What lies below `b`, and the frame base, are the same. */
  ghost predicate Spared(p: Proc, q: Proc, b: nat) {
    SameBelow(p, q, b) && q.fp == p.fp && b <= q.sp
  }

  lemma Fetched(p: Proc, q: Proc, b: nat)
    requires Whole(Spared(p.(ip := p.ip + 1), q, b))
    ensures Whole(Spared(p, q, b))
  {
  }

  lemma StackBody(p: Proc, op: Byte, alu: Alu, b: nat)
    requires Safe(p) && !External(op) && OnStack(op) && b + Depth(op) <= p.sp
    ensures Whole(Spared(p, Dispatch(p, op, alu), b))
  {
  }

  lemma AccessBody(p: Proc, op: Byte, alu: Alu, b: nat)
    requires Safe(p) && !External(op) && !OnStack(op) && !Framing(op) && op != 0x38
    requires b + Depth(op) <= p.sp && (b > 0 ==> b <= p.fp + 1)
    ensures Whole(Spared(p, Dispatch(p, op, alu), b))
  {
  }

  /** Instructions in a body: nothing below the base changes, and the frame stays. */
  lemma BodyStep(p: Proc, alu: Alu, b: nat)
    requires Safe(p) && p.ip < |p.code| && !External(p.code[p.ip])
    requires !Framing(p.code[p.ip]) && p.code[p.ip] != 0x38 && b + Depth(p.code[p.ip]) <= p.sp && (b > 0 ==>
      b <= p.fp + 1)
    ensures Whole(Spared(p, Exec(p, alu), b))
  {
    var q, op := p.(ip := p.ip + 1), p.code[p.ip];
    if OnStack(op) {
      StackBody(q, op, alu, b);
    } else {
      AccessBody(q, op, alu, b);
    }
    Fetched(p, Dispatch(q, op, alu), b);
  }

  /** Frames below `b` are not disturbed by a change above it. */
  lemma FramesKept(p: Proc, q: Proc, fs: seq<Frame>, b: nat)
    requires Safe(p) && SameBelow(p, q, b) && b <= STACK
    requires forall k :: 0 <= k < |fs| ==> FrameOk(p, fs[k]) && fs[k].s + 2 <= b
    ensures forall k :: 0 <= k < |fs| ==> FrameOk(q, fs[k])
  {
    forall k | 0 <= k < |fs| ensures FrameOk(q, fs[k]) {
      FrameKept(p, q, fs[k]);
    }
  }

  /** In a body (or with no call in progress) the frames all lie below the base. */
  lemma BelowBase(p: Proc, fs: seq<Frame>)
    requires Inv(p, fs) && (fs != [] ==> Top(fs).status.Entered?)
    ensures forall k :: 0 <= k < |fs| ==> fs[k].s + 2 <= Base(fs)
    ensures Base(fs) <= p.sp && (fs != [] ==> Base(fs) == p.fp + 1)
  {
    forall k | 0 <= k < |fs| ensures fs[k].s + 2 <= Base(fs) {
      if k < |fs| - 1 { assert Above(fs[k], fs[|fs| - 1]); }
    }
  }

  lemma BodyInv(p: Proc, fs: seq<Frame>, nargs: nat, alu: Alu)
    requires Inv(p, fs) && Disciplined(p, fs, nargs) && (fs != [] ==> Top(fs).status.Entered?)
    requires !Framing(p.code[p.ip]) && p.code[p.ip] != 0x38
    ensures Inv(Exec(p, alu), fs)
  {
    BelowBase(p, fs);
    ExecSafe(p, alu);
    BodyStep(p, alu, Base(fs));
    FramesKept(p, Exec(p, alu), fs, Base(fs));
  }

  /** Between CALL and ENTER, and between LEAVE and RET, only instructions that leave the stack alone. */
  lemma StillInv(p: Proc, fs: seq<Frame>, nargs: nat, alu: Alu)
    requires Inv(p, fs) && Disciplined(p, fs, nargs) && fs != [] && !Top(fs).status.Entered? && Still(p.code[p.ip])
    ensures Inv(Exec(p, alu), fs)
  {
    var q := Exec(p, alu);
    ExecSafe(p, alu);
    assert q.stack == p.stack && q.sp == p.sp && q.fp == p.fp;
    forall k | 0 <= k < |fs| ensures FrameOk(q, fs[k]) {
    }
  }

  ghost predicate Pushed(p: Proc, q: Proc) {
    Safe(q) && p.sp < STACK == |p.stack| && q.stack == p.stack[p.sp := p.ip + 5] && q.sp == p.sp + 1 && q.fp == p.fp
  }

  lemma CallDoes(p: Proc, alu: Alu)
    requires Safe(p) && p.ip < |p.code| && p.code[p.ip] == 0x33 && Exec(p, alu).active
    ensures Whole(Pushed(p, Exec(p, alu)))
  {
    ExecSafe(p, alu);
  }

  lemma CallKeeps(p: Proc, q: Proc, fs: seq<Frame>, nargs: nat)
    requires Inv(p, fs) && Whole(Pushed(p, q)) && (fs != [] ==> Top(fs).status.Entered?) && Base(fs) + nargs <= p.sp
    ensures Whole(Inv(q, fs + [Frame(p.sp, nargs, p.ip + 5, p.fp, p.stack[..p.sp], p.stack[..p.sp], Called)]))
  {
    var f := Frame(p.sp, nargs, p.ip + 5, p.fp, p.stack[..p.sp], p.stack[..p.sp], Called);
    BelowBase(p, fs);
    FramesKept(p, q, fs, p.sp);
    assert q.stack[..p.sp] == p.stack[..p.sp];
    assert FrameOk(q, f);
    NestedMore(p, fs, f);
  }

  lemma NestedMore(p: Proc, fs: seq<Frame>, f: Frame)
    requires Inv(p, fs) && f.s == p.sp && f.fp == p.fp && (fs != [] ==> Top(fs).status.Entered?)
    requires Base(fs) + f.nargs <= p.sp
    ensures Nested(fs + [f])
  {
    BelowBase(p, fs);
    forall k | 0 <= k < |fs| ensures Above(fs[k], f) {
      if k < |fs| - 1 { assert Above(fs[k], fs[|fs| - 1]); }
    }
  }

  lemma CallInv(p: Proc, fs: seq<Frame>, nargs: nat, alu: Alu)
    requires Inv(p, fs) && Disciplined(p, fs, nargs) && p.code[p.ip] == 0x33 && Exec(p, alu).active
    ensures Whole(Inv(Exec(p, alu), Track(p, fs, nargs)))
  {
    CallDoes(p, alu);
    CallKeeps(p, Exec(p, alu), fs, nargs);
  }

  lemma EnterInv(p: Proc, fs: seq<Frame>, nargs: nat, alu: Alu)
    requires Inv(p, fs) && Disciplined(p, fs, nargs) && p.code[p.ip] == 0x35 && Exec(p, alu).active
    ensures Whole(Inv(Exec(p, alu), Track(p, fs, nargs)))
  {
    EnterDoes(p, alu);
    EnterKeeps(p, Exec(p, alu), fs);
  }

  ghost predicate Based(p: Proc, q: Proc) {
    Safe(q) && SameBelow(p, q, p.sp) && p.sp < STACK == |p.stack| && q.stack[p.sp] == p.fp && q.fp == p.sp < q.sp
  }

  lemma EnterDoes(p: Proc, alu: Alu)
    requires Safe(p) && p.ip < |p.code| && p.code[p.ip] == 0x35 && Exec(p, alu).active
    ensures Whole(Based(p, Exec(p, alu)))
  {
    ExecSafe(p, alu);
  }

  lemma EnterKeeps(p: Proc, q: Proc, fs: seq<Frame>)
    requires Inv(p, fs) && Whole(Based(p, q)) && fs != [] && Top(fs).status.Called?
    ensures Whole(Inv(q, fs[|fs| - 1 := Top(fs).(status := Entered)]))
  {
    var gs, t := fs[|fs| - 1 := Top(fs).(status := Entered)], Top(fs);
    forall k | 0 <= k < |fs| - 1 ensures FrameOk(q, fs[k]) && Above(gs[k], gs[|fs| - 1]) {
      assert Above(fs[k], t);
      FrameKept(p, q, fs[k]);
    }
    assert q.stack[..t.s] == p.stack[..t.s];
  }

  lemma LeaveInv(p: Proc, fs: seq<Frame>, nargs: nat, alu: Alu)
    requires Inv(p, fs) && Disciplined(p, fs, nargs) && p.code[p.ip] == 0x36 && Exec(p, alu).active
    ensures Whole(Inv(Exec(p, alu), Track(p, fs, nargs)))
  {
    var q, gs, t := Exec(p, alu), Track(p, fs, nargs), Top(fs);
    ExecSafe(p, alu);
    assert FrameOk(p, t) && q.stack == p.stack;
    forall k | 0 <= k < |fs| - 1 ensures FrameOk(q, fs[k]) && Above(gs[k], gs[|fs| - 1]) {
      assert Above(fs[k], t);
    }
  }

  lemma RetInv(p: Proc, fs: seq<Frame>, nargs: nat, alu: Alu)
    requires Inv(p, fs) && Disciplined(p, fs, nargs) && p.code[p.ip] == 0x34 && Exec(p, alu).active
    ensures Whole(Inv(Exec(p, alu), Track(p, fs, nargs)))
    ensures var t, q := Top(fs), Exec(p, alu);
      q.ip == t.ret && q.sp == t.s && q.fp == t.fp && q.stack[..t.s] == t.now
  {
    var q, t := Exec(p, alu), Top(fs);
    ExecSafe(p, alu);
    assert FrameOk(p, t) && q.stack == p.stack;
    forall k | 0 <= k < |fs| - 1 ensures FrameOk(q, fs[k]) {
      assert FrameOk(p, fs[k]);
    }
    if |fs| > 1 { assert Above(fs[|fs| - 2], t); }
  }

  lemma StoreArgInv(p: Proc, fs: seq<Frame>, nargs: nat, alu: Alu)
    requires Inv(p, fs) && Disciplined(p, fs, nargs) && p.code[p.ip] == 0x38 && Exec(p, alu).active
    ensures Whole(Inv(Exec(p, alu), Track(p, fs, nargs)))
  {
    var q, gs, t := Exec(p, alu), Track(p, fs, nargs), Top(fs);
    var last := |fs| - 1;
    assert FrameOk(p, t) && Current(p, t);
    ExecSafe(p, alu);
    var k := t.s - 1 - p.code[p.ip + 1];
    assert q.stack == p.stack[k := p.stack[p.sp - 1]] && gs == fs[last := t.(now := t.now[k := p.stack[p.sp - 1]])];
    assert q.stack[..t.s] == p.stack[..t.s][k := p.stack[p.sp - 1]];
    assert FrameOk(q, gs[last]);
    forall m | 0 <= m < last ensures FrameOk(q, fs[m]) && Above(gs[m], gs[last]) {
      assert Above(fs[m], t);
      FrameKept(p, q, fs[m]);
    }
  }

  /** Every disciplined instruction keeps the frames. */
  lemma StepInv(p: Proc, fs: seq<Frame>, nargs: nat, alu: Alu)
    requires Inv(p, fs) && Disciplined(p, fs, nargs) && Exec(p, alu).active
    ensures Whole(Inv(Exec(p, alu), Track(p, fs, nargs)))
  {
    var op := p.code[p.ip];
    if op == 0x33 {
      CallInv(p, fs, nargs, alu);
    } else if op == 0x35 {
      EnterInv(p, fs, nargs, alu);
    } else if op == 0x36 {
      LeaveInv(p, fs, nargs, alu);
    } else if op == 0x34 {
      RetInv(p, fs, nargs, alu);
    } else if op == 0x38 {
      StoreArgInv(p, fs, nargs, alu);
    } else if fs != [] && !Top(fs).status.Entered? {
      StillInv(p, fs, nargs, alu);
    } else {
      BodyInv(p, fs, nargs, alu);
    }
  }

  datatype State = State(p: Proc, fs: seq<Frame>)

  /** A heap or absolute-memory instruction or a system call in a body: any change above the base. */
  ghost predicate Outside(p: Proc, q: Proc, fs: seq<Frame>) {
    && p.ip < |p.code| && External(p.code[p.ip]) && (fs != [] ==> Top(fs).status.Entered?)
    && Safe(q) && q.code == p.code && Spared(p, q, Base(fs))
  }

  lemma OutsideInv(p: Proc, q: Proc, fs: seq<Frame>)
    requires Inv(p, fs) && Outside(p, q, fs)
    ensures Whole(Inv(q, fs))
  {
    BelowBase(p, fs);
    FramesKept(p, q, fs, Base(fs));
  }

  ghost predicate Step(a: State, b: State, nargs: nat, alu: Alu) {
    && Safe(a.p) && b.p.active
    && if AtExternal(a.p) then Outside(a.p, b.p, a.fs) && b.fs == a.fs
    else Disciplined(a.p, a.fs, nargs) && b.p == Exec(a.p, alu) && b.fs == Track(a.p, a.fs, nargs)
  }

  /** A run of disciplined instructions, none of which stops the process. */
  ghost predicate Run(ss: seq<State>, ns: seq<nat>, alu: Alu) {
    |ss| == |ns| + 1 && forall i :: 0 <= i < |ns| ==> Step(ss[i], ss[i + 1], ns[i], alu)
  }

  lemma StepKeeps(a: State, b: State, nargs: nat, alu: Alu)
    requires Whole(Step(a, b, nargs, alu)) && Whole(Inv(a.p, a.fs))
    ensures Whole(Inv(b.p, b.fs))
  {
    if AtExternal(a.p) {
      OutsideInv(a.p, b.p, a.fs);
    } else {
      StepInv(a.p, a.fs, nargs, alu);
    }
  }

  lemma StepAt(ss: seq<State>, ns: seq<nat>, alu: Alu, i: nat)
    requires Run(ss, ns, alu) && i < |ns|
    ensures Whole(Step(ss[i], ss[i + 1], ns[i], alu))
  {
  }

  lemma {:induction false} RunInv(ss: seq<State>, ns: seq<nat>, alu: Alu, i: nat)
    requires Run(ss, ns, alu) && Inv(ss[0].p, ss[0].fs) && i <= |ns|
    ensures Whole(Inv(ss[i].p, ss[i].fs))
  {
    if i > 0 {
      var h := i - 1;
      RunInv(ss, ns, alu, h);
      StepAt(ss, ns, alu, h);
      StepKeeps(ss[h], ss[i], ns[h], alu);
    }
  }

  /** What a frame remembers of the call does not change. */
  predicate Same(f: Frame, g: Frame) {
    f.s == g.s && f.nargs == g.nargs && f.ret == g.ret && f.fp == g.fp && f.orig == g.orig
  }

  lemma {:induction false} SameCall(ss: seq<State>, ns: seq<nat>, alu: Alu, i: nat, j: nat, d: nat)
    requires Run(ss, ns, alu) && i <= j <= |ns| && forall m :: i <= m <= j ==> d < |ss[m].fs|
    ensures Whole(Same(ss[i].fs[d], ss[j].fs[d]))
  {
    if i < j {
      SameCall(ss, ns, alu, i, j - 1, d);
      StepAt(ss, ns, alu, j - 1);
      SameStep(ss[j - 1], ss[j], ns[j - 1], alu, d);
    }
  }

  lemma SameStep(a: State, b: State, nargs: nat, alu: Alu, d: nat)
    requires Whole(Step(a, b, nargs, alu)) && d < |a.fs| && d < |b.fs|
    ensures Whole(Same(a.fs[d], b.fs[d]))
  {
  }

  predicate AtCall(p: Proc) {
    p.ip < |p.code| && p.code[p.ip] == 0x33
  }

  /** What the caller finds again, `n` of its top cells being arguments. */
  ghost predicate Restored(a: Proc, b: Proc, n: nat) {
    && b.ip == a.ip + 5 && b.sp == a.sp && b.fp == a.fp
    && n <= a.sp <= |a.stack| == |b.stack| && b.stack[..a.sp - n] == a.stack[..a.sp - n]
  }

  /** A frame remembers the caller. */
  ghost predicate Remembers(f: Frame, a: Proc, n: nat) {
    && a.sp <= |a.stack| == STACK
    && Same(f, Frame(a.sp, n, a.ip + 5, a.fp, a.stack[..a.sp], [], Called))
  }

  /** A return goes by its frame. */
  ghost predicate Follows(b: Proc, t: Frame) {
    && t.nargs <= t.s == |t.orig| <= |b.stack| == STACK && b.ip == t.ret && b.sp == t.s && b.fp == t.fp
    && b.stack[..t.s - t.nargs] == t.orig[..t.s - t.nargs]
  }

  lemma CallFrame(a: State, b: State, n: nat, alu: Alu)
    requires Whole(Step(a, b, n, alu)) && AtCall(a.p)
    ensures |b.fs| == |a.fs| + 1 && Whole(Remembers(b.fs[|a.fs|], a.p, n))
  {
  }

  lemma RetFrame(a: State, b: State, n: nat, alu: Alu)
    requires Whole(Step(a, b, n, alu)) && Whole(Inv(a.p, a.fs)) && |b.fs| < |a.fs|
    ensures |a.fs| == |b.fs| + 1 && Whole(Follows(b.p, a.fs[|b.fs|]))
  {
    RetInv(a.p, a.fs, n, alu);
    var t := Top(a.fs);
    assert FrameOk(a.p, t);
    assert b.p.stack[..t.s][..t.s - t.nargs] == b.p.stack[..t.s - t.nargs];
  }

  lemma RunCalls(ss: seq<State>, ns: seq<nat>, alu: Alu, i: nat)
    requires Run(ss, ns, alu) && i < |ns| && AtCall(ss[i].p)
    ensures |ss[i + 1].fs| == |ss[i].fs| + 1 && Whole(Remembers(ss[i + 1].fs[|ss[i].fs|], ss[i].p, ns[i]))
  {
    StepAt(ss, ns, alu, i);
    CallFrame(ss[i], ss[i + 1], ns[i], alu);
  }

  lemma RunReturns(ss: seq<State>, ns: seq<nat>, alu: Alu, j: nat)
    requires Run(ss, ns, alu) && Inv(ss[0].p, ss[0].fs) && 0 < j <= |ns| && |ss[j].fs| < |ss[j - 1].fs|
    ensures |ss[j - 1].fs| == |ss[j].fs| + 1 && Whole(Follows(ss[j].p, ss[j - 1].fs[|ss[j].fs|]))
  {
    RunInv(ss, ns, alu, j - 1);
    StepAt(ss, ns, alu, j - 1);
    RetFrame(ss[j - 1], ss[j], ns[j - 1], alu);
  }

  lemma Regained(a: Proc, b: Proc, f: Frame, t: Frame, n: nat)
    requires Whole(Remembers(f, a, n)) && Whole(Same(f, t)) && Whole(Follows(b, t))
    ensures Whole(Restored(a, b, n))
  {
    assert a.stack[..a.sp][..a.sp - n] == a.stack[..a.sp - n];
  }

  /** A run from a CALL until its call is over: the caller goes on behind the CALL with its stack
      height and its frame, and all its cells but the arguments are as they were. */
  lemma CallerRestored(ss: seq<State>, ns: seq<nat>, alu: Alu, i: nat, j: nat)
    requires Run(ss, ns, alu) && Inv(ss[0].p, ss[0].fs) && i < j <= |ns|
    requires AtCall(ss[i].p) && |ss[j].fs| == |ss[i].fs| && forall m :: i < m < j ==> |ss[i].fs| < |ss[m].fs|
    ensures Whole(Restored(ss[i].p, ss[j].p, ns[i]))
  {
    var d := |ss[i].fs|;
    RunCalls(ss, ns, alu, i);
    SameCall(ss, ns, alu, i + 1, j - 1, d);
    RunReturns(ss, ns, alu, j);
    Regained(ss[i].p, ss[j].p, ss[i + 1].fs[d], ss[j - 1].fs[d], ns[i]);
  }

  /** Argument `k` of a frame: its cell of the caller's stack. */
  function Arg(f: Frame, k: nat): int {
    if k < f.s <= |f.now| then f.now[f.s - 1 - k] else 0
  }

  predicate At(p: Proc, op: Byte, k: nat) {
    p.ip + 1 < |p.code| && p.code[p.ip] == op && p.code[p.ip + 1] == k
  }

  /** STORE_ARG `k` by the function of frame `d`. */
  predicate Stores(s: State, d: nat, k: nat) {
    |s.fs| == d + 1 && At(s.p, 0x38, k)
  }

  lemma ArgStep(a: State, b: State, nargs: nat, alu: Alu, d: nat, k: nat)
    requires Whole(Step(a, b, nargs, alu)) && d < |a.fs| && d < |b.fs| && !Stores(a, d, k)
    ensures Arg(b.fs[d], k) == Arg(a.fs[d], k)
  {
  }

  /** An argument keeps its value as long as its function does not store to it, whatever the functions
      it calls do. */
  lemma {:induction false} ArgKept(ss: seq<State>, ns: seq<nat>, alu: Alu, i: nat, j: nat, d: nat, k: nat)
    requires Run(ss, ns, alu) && i <= j <= |ns| && forall m :: i <= m <= j ==> d < |ss[m].fs|
    requires forall m :: i <= m < j ==> !Stores(ss[m], d, k)
    ensures Arg(ss[j].fs[d], k) == Arg(ss[i].fs[d], k)
  {
    if i < j {
      ArgKept(ss, ns, alu, i, j - 1, d, k);
      StepAt(ss, ns, alu, j - 1);
      ArgStep(ss[j - 1], ss[j], ns[j - 1], alu, d, k);
    }
  }

  /** LOAD_ARG `k` pushes the current value of argument `k`. */
  lemma LoadArgStep(a: State, b: State, nargs: nat, alu: Alu, k: nat)
    requires Whole(Step(a, b, nargs, alu)) && Whole(Inv(a.p, a.fs)) && a.fs != [] && Top(a.fs).status.Entered?
    requires At(a.p, 0x37, k) && k < Top(a.fs).nargs && a.p.sp < STACK
    ensures b.p.sp == a.p.sp + 1 && a.p.sp < |b.p.stack| && b.p.stack[a.p.sp] == Arg(Top(a.fs), k)
  {
    assert FrameOk(a.p, Top(a.fs)) && Current(a.p, Top(a.fs));
  }

  lemma CallArgs(a: State, b: State, n: nat, alu: Alu, k: nat)
    requires Whole(Step(a, b, n, alu)) && AtCall(a.p) && k < n
    ensures |b.fs| == |a.fs| + 1 && b.fs[|a.fs|].nargs == n <= a.p.sp <= |a.p.stack|
    ensures Arg(b.fs[|a.fs|], k) == a.p.stack[a.p.sp - 1 - k]
  {
  }

  lemma StoreArgs(a: State, b: State, n: nat, alu: Alu, d: nat, k: nat)
    requires Whole(Step(a, b, n, alu)) && Whole(Inv(a.p, a.fs)) && Stores(a, d, k)
    ensures |b.fs| == d + 1 && 0 < a.p.sp <= |a.p.stack| && Arg(b.fs[d], k) == a.p.stack[a.p.sp - 1]
  {
    assert FrameOk(a.p, Top(a.fs));
  }

  /** What holds when the function called at `i` runs LOAD_ARG `k` at `j`: its frame has been there
      all the time and is on top, it has entered, and there is room on the stack. */
  ghost predicate Loading(ss: seq<State>, i: nat, j: nat, d: nat, k: nat) {
    && i <= j < |ss| && (forall m :: i <= m <= j ==> d < |ss[m].fs|)
    && |ss[j].fs| == d + 1 && Top(ss[j].fs).status.Entered? && k < Top(ss[j].fs).nargs
    && At(ss[j].p, 0x37, k) && ss[j].p.sp < STACK
  }

  ghost predicate Pushes(ss: seq<State>, j: nat, v: int) {
    && j + 1 < |ss| && ss[j + 1].p.sp == ss[j].p.sp + 1 && ss[j].p.sp < |ss[j + 1].p.stack|
    && ss[j + 1].p.stack[ss[j].p.sp] == v
  }

  lemma LoadsArg(ss: seq<State>, ns: seq<nat>, alu: Alu, i: nat, j: nat, d: nat, k: nat)
    requires Run(ss, ns, alu) && Inv(ss[0].p, ss[0].fs) && j < |ns| && Loading(ss, i, j, d, k)
    requires forall m :: i <= m < j ==> !Stores(ss[m], d, k)
    ensures Pushes(ss, j, Arg(ss[i].fs[d], k))
  {
    ArgKept(ss, ns, alu, i, j, d, k);
    RunInv(ss, ns, alu, j);
    StepAt(ss, ns, alu, j);
    LoadArgStep(ss[j], ss[j + 1], ns[j], alu, k);
  }

  /** LOAD_ARG `k` at `j` pushes the `k`-th cell from the top of the stack at the CALL at `i`, unless
      the function stored to that argument in between. */
  lemma LoadArgReads(ss: seq<State>, ns: seq<nat>, alu: Alu, i: nat, j: nat, k: nat)
    requires Run(ss, ns, alu) && Inv(ss[0].p, ss[0].fs) && i < j < |ns| && AtCall(ss[i].p) && k < ns[i]
    requires Loading(ss, i + 1, j, |ss[i].fs|, k) && forall m :: i < m < j ==> !Stores(ss[m], |ss[i].fs|, k)
    ensures 0 <= ss[i].p.sp - 1 - k < |ss[i].p.stack| && Pushes(ss, j, ss[i].p.stack[ss[i].p.sp - 1 - k])
  {
    StepAt(ss, ns, alu, i);
    CallArgs(ss[i], ss[i + 1], ns[i], alu, k);
    LoadsArg(ss, ns, alu, i + 1, j, |ss[i].fs|, k);
  }

  /** If it stored to the argument, last at `i`, LOAD_ARG pushes what it stored. */
  lemma LoadArgStored(ss: seq<State>, ns: seq<nat>, alu: Alu, i: nat, j: nat, d: nat, k: nat)
    requires Run(ss, ns, alu) && Inv(ss[0].p, ss[0].fs) && i < j < |ns| && Stores(ss[i], d, k)
    requires Loading(ss, i + 1, j, d, k) && forall m :: i < m < j ==> !Stores(ss[m], d, k)
    ensures 0 < ss[i].p.sp <= |ss[i].p.stack| && Pushes(ss, j, ss[i].p.stack[ss[i].p.sp - 1])
  {
    RunInv(ss, ns, alu, i);
    StepAt(ss, ns, alu, i);
    StoreArgs(ss[i], ss[i + 1], ns[i], alu, d, k);
    LoadsArg(ss, ns, alu, i + 1, j, d, k);
  }
}
