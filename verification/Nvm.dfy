/** One process of the Novaria virtual machine: its stack machine and the instructions. */
module Nvm {
  import opened Bytes

  const PROCESSES: nat := 32
  const STACK: nat := 1024
  const LOCALS: nat := 256

  /** A process; `alu` below stands for the arithmetic, about which nothing is assumed. */
  datatype Proc = Proc(code: seq<Byte>, ip: nat, stack: seq<int>, sp: nat, fp: int, locals: seq<int>, active: bool,
    exit: int)

  /** Code is shorter than 2^31 bytes, so addresses fit stack cells. */
  predicate Safe(p: Proc) {
    && |p.stack| == STACK && |p.locals| == LOCALS && p.sp <= STACK
    && |p.code| < 0x8000_0000 && p.ip <= |p.code|
  }

  type Alu = (Byte, int, int) -> int

  function Fail(p: Proc): Proc {
    p.(active := false, exit := -1)
  }

  function Put(p: Proc, v: int): Proc
    requires p.sp < |p.stack|
  {
    p.(stack := p.stack[p.sp := v], sp := p.sp + 1)
  }

  /** Four operand bytes are there. */
  predicate Wide(p: Proc) {
    p.ip + 3 < |p.code|
  }

  function Operand(p: Proc): nat
    requires Wide(p)
  {
    var a: nat, b: nat, c: nat, d: nat := p.code[p.ip], p.code[p.ip + 1], p.code[p.ip + 2], p.code[p.ip + 3];
    a * 0x100_0000 + b * 0x1_0000 + c * 0x100 + d
  }

  function Signed(n: nat): int {
    if n < 0x8000_0000 then n else n - 0x1_0000_0000
  }

  predicate Target(p: Proc, addr: int) {
    4 <= addr < |p.code|
  }

  function Push(p: Proc): Proc
    requires Safe(p)
  {
    if !Wide(p) then Fail(p)
    else if p.sp == STACK then Fail(p.(ip := p.ip + 4))
    else Put(p.(ip := p.ip + 4), Signed(Operand(p)))
  }

  function Pop(p: Proc): Proc {
    if p.sp > 0 then p.(sp := p.sp - 1) else Fail(p)
  }

  function Dup(p: Proc): Proc
    requires Safe(p)
  {
    if p.sp == 0 || p.sp == STACK then Fail(p) else Put(p, p.stack[p.sp - 1])
  }

  function Swap(p: Proc): Proc
    requires Safe(p)
  {
    if p.sp < 2 then Fail(p)
    else p.(stack := p.stack[p.sp - 2 := p.stack[p.sp - 1]][p.sp - 1 := p.stack[p.sp - 2]])
  }

  /** The two-operand instructions; DIV and MOD (0x13, 0x14) stop the process on a zero divisor. */
  function Binary(p: Proc, op: Byte, alu: Alu): Proc
    requires Safe(p)
  {
    if p.sp < 2 then Fail(p)
    else if (op == 0x13 || op == 0x14) && p.stack[p.sp - 1] == 0 then Fail(p)
    else p.(stack := p.stack[p.sp - 2 := alu(op, p.stack[p.sp - 2], p.stack[p.sp - 1])], sp := p.sp - 1)
  }

  function Not(p: Proc): Proc
    requires Safe(p)
  {
    if p.sp < 1 then Fail(p) else p.(stack := p.stack[p.sp - 1 := -1 - p.stack[p.sp - 1]])
  }

  function Jmp(p: Proc): Proc {
    if !Wide(p) then p
    else if Target(p, Operand(p)) then p.(ip := Operand(p))
    else Fail(p.(ip := p.ip + 4))
  }

  /** JZ (`zero`) and JNZ */
  function JumpIf(p: Proc, zero: bool): Proc
    requires Safe(p)
  {
    if p.sp == 0 then Fail(p)
    else
      var q := p.(sp := p.sp - 1);
      if !Wide(q) then Fail(q)
      else if (p.stack[q.sp] == 0) != zero then q.(ip := q.ip + 4)
      else if Target(q, Operand(q)) then q.(ip := Operand(q))
      else Fail(q.(ip := q.ip + 4))
  }

  function Call(p: Proc): Proc
    requires Safe(p)
  {
    if !Wide(p) then Fail(p)
    else if p.sp >= STACK - 1 then Fail(p.(ip := p.ip + 4))
    else
      var q := Put(p.(ip := p.ip + 4), p.ip + 4);
      if Target(p, Operand(p)) then q.(ip := Operand(p)) else Fail(q)
  }

  function Ret(p: Proc): Proc
    requires Safe(p)
  {
    if p.sp == 0 then Fail(p)
    else
      var q := p.(sp := p.sp - 1);
      if Target(p, p.stack[q.sp]) then q.(ip := p.stack[q.sp]) else Fail(q)
  }

  /** The stack with `n` zeros from `at` on. */
  function Zeroed(stack: seq<int>, at: nat, n: nat): (r: seq<int>)
    requires at + n <= |stack|
    ensures |r| == |stack|
    ensures forall i :: 0 <= i < |stack| ==> r[i] == if at <= i < at + n then 0 else stack[i]
    decreases n
  {
    if n == 0 then stack else Zeroed(stack[at := 0], at + 1, n - 1)
  }

  function Enter(p: Proc): Proc
    requires Safe(p)
  {
    if p.ip >= |p.code| then Fail(p)
    else
      var n := p.code[p.ip];
      if p.sp + 1 + n > STACK then Fail(p.(ip := p.ip + 1))
      else p.(ip := p.ip + 1, stack := Zeroed(p.stack[p.sp := p.fp], p.sp + 1, n), sp := p.sp + 1 + n, fp := p.sp)
  }

  function Leave(p: Proc): Proc
    requires Safe(p)
  {
    if p.fp < 0 || p.fp >= STACK || p.sp < p.fp + 1 then Fail(p)
    else p.(sp := p.fp, fp := p.stack[p.fp])
  }

  function LoadArg(p: Proc): Proc
    requires Safe(p)
  {
    if p.ip >= |p.code| then p
    else
      var q := p.(ip := p.ip + 1);
      var idx := p.fp - 2 - p.code[p.ip];
      if p.fp <= 0 then Fail(q)
      else if 0 <= idx < p.sp && p.sp < STACK then Put(q, p.stack[idx])
      else q
  }

  function StoreArg(p: Proc): Proc
    requires Safe(p)
  {
    if p.ip >= |p.code| then p
    else
      var q := p.(ip := p.ip + 1);
      var idx := p.fp - 2 - p.code[p.ip];
      if p.fp <= 0 then Fail(q)
      else if 0 <= idx < STACK && p.sp > 0 then q.(sp := p.sp - 1, stack := p.stack[idx := p.stack[p.sp - 1]])
      else q
  }

  function Load(p: Proc): Proc
    requires Safe(p)
  {
    if p.ip >= |p.code| then p
    else if p.sp < STACK then Put(p.(ip := p.ip + 1), p.locals[p.code[p.ip]])
    else p.(ip := p.ip + 1)
  }

  function Store(p: Proc): Proc
    requires Safe(p)
  {
    if p.ip >= |p.code| then p
    else if p.sp > 0 then p.(ip := p.ip + 1, sp := p.sp - 1, locals := p.locals[p.code[p.ip] := p.stack[p.sp - 1]])
    else p.(ip := p.ip + 1)
  }

  function LoadRel(p: Proc): Proc
    requires Safe(p)
  {
    if p.ip >= |p.code| then p
    else
      var q := p.(ip := p.ip + 1);
      var idx := p.fp + 1 + p.code[p.ip];
      if p.fp < 0 then Fail(q)
      else if idx < p.sp && p.sp < STACK then Put(q, p.stack[idx])
      else Fail(q)
  }

  function StoreRel(p: Proc): Proc
    requires Safe(p)
  {
    if p.ip >= |p.code| then p
    else
      var q := p.(ip := p.ip + 1);
      var idx := p.fp + 1 + p.code[p.ip];
      if p.fp < 0 then Fail(q)
      else if idx < STACK && p.sp > 0 then q.(sp := p.sp - 1, stack := p.stack[idx := p.stack[p.sp - 1]])
      else q
  }

  predicate IsBinary(op: Byte) {
    0x10 <= op <= 0x14 || 0x20 <= op <= 0x24 || 0x60 <= op <= 0x62 || 0x64 <= op <= 0x66
  }

  /** Instructions with effects outside the process: absolute memory, heap and system calls. */
  predicate External(op: Byte) {
    0x44 <= op <= 0x47 || op == 0x50
  }

  predicate AtExternal(p: Proc) {
    p.ip < |p.code| && External(p.code[p.ip])
  }

  /** An instruction after its opcode was fetched. */
  function Dispatch(p: Proc, op: Byte, alu: Alu): Proc
    requires Safe(p) && !External(op)
  {
    if op == 0x00 then p.(active := false, exit := 0)
    else if op == 0x02 then Push(p)
    else if op == 0x04 then Pop(p)
    else if op == 0x05 then Dup(p)
    else if op == 0x06 then Swap(p)
    else if IsBinary(op) then Binary(p, op, alu)
    else if op == 0x63 then Not(p)
    else if op == 0x30 then Jmp(p)
    else if op == 0x31 then JumpIf(p, true)
    else if op == 0x32 then JumpIf(p, false)
    else if op == 0x33 then Call(p)
    else if op == 0x34 then Ret(p)
    else if op == 0x35 then Enter(p)
    else if op == 0x36 then Leave(p)
    else if op == 0x37 then LoadArg(p)
    else if op == 0x38 then StoreArg(p)
    else if op == 0x40 then Load(p)
    else if op == 0x41 then Store(p)
    else if op == 0x42 then LoadRel(p)
    else if op == 0x43 then StoreRel(p)
    else p
  }

  /** `nvm_execute_instruction` */
  function Exec(p: Proc, alu: Alu): Proc
    requires Safe(p) && (p.ip < |p.code| ==> !External(p.code[p.ip]))
  {
    if p.ip >= |p.code| then Fail(p) else Dispatch(p.(ip := p.ip + 1), p.code[p.ip], alu)
  }

  predicate OnStack(op: Byte) {
    op < 0x30 || IsBinary(op) || op == 0x63
  }

  lemma StackSafe(p: Proc, op: Byte, alu: Alu)
    requires Safe(p) && !External(op) && OnStack(op)
    ensures Safe(Dispatch(p, op, alu)) && Dispatch(p, op, alu).code == p.code
  {
  }

  lemma ControlSafe(p: Proc, op: Byte, alu: Alu)
    requires Safe(p) && !OnStack(op) && 0x30 <= op <= 0x36
    ensures Safe(Dispatch(p, op, alu)) && Dispatch(p, op, alu).code == p.code
  {
  }

  lemma AccessSafe(p: Proc, op: Byte, alu: Alu)
    requires Safe(p) && !External(op) && !OnStack(op) && 0x36 < op
    ensures Safe(Dispatch(p, op, alu)) && Dispatch(p, op, alu).code == p.code
  {
  }

  /** No instruction leaves the code or the stack. */
  lemma ExecSafe(p: Proc, alu: Alu)
    requires Safe(p) && (p.ip < |p.code| ==> !External(p.code[p.ip]))
    ensures Safe(Exec(p, alu)) && Exec(p, alu).code == p.code
  {
    if p.ip < |p.code| {
      var q, op := p.(ip := p.ip + 1), p.code[p.ip];
      if OnStack(op) {
        StackSafe(q, op, alu);
      } else if op <= 0x36 {
        ControlSafe(q, op, alu);
      } else {
        AccessSafe(q, op, alu);
      }
    }
  }
}
