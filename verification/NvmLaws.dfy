/** What each instruction does to the cells of a process, and what programs can count on: a jump is taken
    exactly on its condition, and what was stored is what is loaded. */
module NvmLaws {
  import opened Invariants
  import opened Bytes
  import opened Nvm

  /** An active process whose next instruction is `op`. */
  predicate Next(p: Proc, op: Byte) {
    Safe(p) && p.active && p.ip < |p.code| && p.code[p.ip] == op
  }

  /** The cells in use, the top one last. */
  function Cells(p: Proc): seq<int>
    requires p.sp <= |p.stack|
  {
    p.stack[..p.sp]
  }

  /** The four operand bytes of the next instruction are there. */
  predicate HasWord(p: Proc) {
    p.ip + 4 < |p.code|
  }

  /** They are a number, the most significant byte first. */
  function Word(p: Proc): nat
    requires HasWord(p)
  {
    var a: nat, b: nat, c: nat, d: nat := p.code[p.ip + 1], p.code[p.ip + 2], p.code[p.ip + 3], p.code[p.ip + 4];
    ((a * 256 + b) * 256 + c) * 256 + d
  }

  /** Where code may be: behind the four bytes of the magic number. */
  predicate IsCode(p: Proc, a: int) {
    4 <= a < |p.code|
  }

  /** The process goes on at `ip` with these cells in use; frame, locals and code are the same. */
  ghost predicate Goes(p: Proc, q: Proc, ip: int, cells: seq<int>) {
    && q.active && q.exit == p.exit && q.code == p.code && q.fp == p.fp && q.locals == p.locals
    && q.ip == ip && q.sp <= |q.stack| == STACK && Cells(q) == cells
  }

  ghost predicate Stopped(q: Proc) {
    !q.active && q.exit == -1
  }

  lemma HaltLaw(p: Proc, alu: Alu)
    requires Next(p, 0x00)
    ensures var q := Exec(p, alu); !q.active && q.exit == 0 && Cells(q) == Cells(p)
  {
  }

  /** NOP, BREAK and the opcodes without a handler. */
  lemma NopLaw(p: Proc, op: Byte, alu: Alu)
    requires Next(p, op)
    requires op in {0x01, 0x03, 0x51} || 0x06 < op < 0x10 || 0x14 < op < 0x20 || 0x24 < op < 0x30 ||
      0x38 < op < 0x40 || 0x47 < op < 0x50 || 0x51 < op < 0x60 || 0x66 < op
    ensures Goes(p, Exec(p, alu), p.ip + 1, Cells(p))
  {
  }

  lemma PushLaw(p: Proc, alu: Alu)
    requires Next(p, 0x02)
    ensures var q := Exec(p, alu);
      if HasWord(p) && p.sp < 1024
      then Goes(p, q, p.ip + 5, Cells(p) + [if Word(p) < 0x8000_0000 then Word(p) else Word(p) - 0x1_0000_0000])
      else Stopped(q)
  {
  }

  lemma PopLaw(p: Proc, alu: Alu)
    requires Next(p, 0x04)
    ensures var q := Exec(p, alu); if p.sp > 0 then Goes(p, q, p.ip + 1, Cells(p)[..p.sp - 1]) else Stopped(q)
  {
  }

  lemma DupLaw(p: Proc, alu: Alu)
    requires Next(p, 0x05)
    ensures var q := Exec(p, alu);
      if 0 < p.sp < 1024 then Goes(p, q, p.ip + 1, Cells(p) + [Cells(p)[p.sp - 1]]) else Stopped(q)
  {
  }

  lemma SwapLaw(p: Proc, alu: Alu)
    requires Next(p, 0x06)
    ensures var q, s := Exec(p, alu), Cells(p);
      if p.sp >= 2 then Goes(p, q, p.ip + 1, s[..p.sp - 2] + [s[p.sp - 1], s[p.sp - 2]]) else Stopped(q)
  {
  }

  /** Arithmetic, comparison and bitwise instructions; DIV (0x13) and MOD (0x14) stop at a zero divisor. */
  lemma BinaryLaw(p: Proc, op: Byte, alu: Alu)
    requires Next(p, op) && op in {0x10, 0x11, 0x12, 0x13, 0x14, 0x20, 0x21, 0x22, 0x23, 0x24, 0x60, 0x61, 0x62, 0x64,
      0x65, 0x66}
    ensures var q, s := Exec(p, alu), Cells(p);
      if p.sp >= 2 && !(op in {0x13, 0x14} && s[p.sp - 1] == 0)
      then Goes(p, q, p.ip + 1, s[..p.sp - 2] + [alu(op, s[p.sp - 2], s[p.sp - 1])])
      else Stopped(q)
  {
  }

  lemma NotLaw(p: Proc, alu: Alu)
    requires Next(p, 0x63)
    ensures var q, s := Exec(p, alu), Cells(p);
      if p.sp >= 1 then Goes(p, q, p.ip + 1, s[..p.sp - 1] + [-1 - s[p.sp - 1]]) else Stopped(q)
  {
  }

  /** JMP goes to a valid target and stops at an invalid one; cut off by the end of the code it is
      skipped. */
  lemma JmpLaw(p: Proc, alu: Alu)
    requires Next(p, 0x30)
    ensures var q := Exec(p, alu);
      if !HasWord(p) then Goes(p, q, p.ip + 1, Cells(p))
      else if IsCode(p, Word(p)) then Goes(p, q, Word(p), Cells(p))
      else Stopped(q)
  {
  }

  /** JZ (0x31) pops a cell and goes to its target exactly when the cell is 0, JNZ (0x32) exactly when it
      is not; otherwise they go on behind the operand. */
  lemma JumpLaw(p: Proc, op: Byte, alu: Alu)
    requires Next(p, op) && op in {0x31, 0x32}
    ensures var q, s := Exec(p, alu), Cells(p);
      if p.sp == 0 || !HasWord(p) then Stopped(q)
      else if (op == 0x31 && s[p.sp - 1] != 0) || (op == 0x32 && s[p.sp - 1] == 0)
      then Goes(p, q, p.ip + 5, s[..p.sp - 1])
      else if IsCode(p, Word(p)) then Goes(p, q, Word(p), s[..p.sp - 1])
      else Stopped(q)
  {
  }

  lemma CallLaw(p: Proc, alu: Alu)
    requires Next(p, 0x33)
    ensures var q := Exec(p, alu);
      if HasWord(p) && p.sp < 1023 && IsCode(p, Word(p)) then Goes(p, q, Word(p), Cells(p) + [p.ip + 5])
      else Stopped(q)
  {
  }

  lemma RetLaw(p: Proc, alu: Alu)
    requires Next(p, 0x34)
    ensures var q, s := Exec(p, alu), Cells(p);
      if p.sp > 0 && IsCode(p, s[p.sp - 1]) then Goes(p, q, s[p.sp - 1], s[..p.sp - 1]) else Stopped(q)
  {
  }

  /** ENTER `n` pushes the frame base, makes its cell the new base, and pushes `n` zeros. */
  lemma EnterLaw(p: Proc, alu: Alu)
    requires Next(p, 0x35)
    ensures var q := Exec(p, alu);
      if p.ip + 1 < |p.code| && p.sp + 1 + p.code[p.ip + 1] <= 1024
      then q.fp == p.sp && Goes(p.(fp := p.sp), q, p.ip + 2, Cells(p) + [p.fp] + seq(p.code[p.ip + 1], _ => 0))
      else Stopped(q)
  {
  }

  lemma LeaveLaw(p: Proc, alu: Alu)
    requires Next(p, 0x36)
    ensures var q, s := Exec(p, alu), Cells(p);
      if 0 <= p.fp < p.sp then q.fp == s[p.fp] && Goes(p.(fp := s[p.fp]), q, p.ip + 1, s[..p.fp]) else Stopped(q)
  {
  }

  /** LOAD `k` pushes local `k` while there is room. */
  lemma LoadLaw(p: Proc, alu: Alu)
    requires Next(p, 0x40)
    ensures var q := Exec(p, alu);
      if p.ip + 1 >= |p.code| then Goes(p, q, p.ip + 1, Cells(p))
      else Goes(p, q, p.ip + 2, Cells(p) + if p.sp < 1024 then [p.locals[p.code[p.ip + 1]]] else [])
  {
  }

  /** STORE `k` pops a cell, if there is one, into local `k`. */
  lemma StoreLaw(p: Proc, alu: Alu)
    requires Next(p, 0x41)
    ensures var q := Exec(p, alu);
      if p.ip + 1 >= |p.code| then Goes(p, q, p.ip + 1, Cells(p))
      else if p.sp == 0 then Goes(p, q, p.ip + 2, Cells(p))
      else var s := Cells(p);
      Goes(p.(locals := p.locals[p.code[p.ip + 1] := s[p.sp - 1]]), q, p.ip + 2, s[..p.sp - 1])
  {
  }

  /** LOAD_ARG `k` (0x37) and LOAD_REL `k` (0x42): the cell they read, counted from the frame base. */
  function Cell(p: Proc, op: Byte): int
    requires p.ip + 1 < |p.code|
  {
    if op == 0x37 || op == 0x38 then p.fp - 2 - p.code[p.ip + 1] else p.fp + 1 + p.code[p.ip + 1]
  }

  /** Outside the cells in use LOAD_ARG pushes nothing and LOAD_REL stops. */
  lemma LoadCellLaw(p: Proc, op: Byte, alu: Alu)
    requires Next(p, op) && op in {0x37, 0x42}
    ensures var q := Exec(p, alu);
      if p.ip + 1 >= |p.code| then Goes(p, q, p.ip + 1, Cells(p))
      else if p.fp < 0 || (p.fp == 0 && op == 0x37) then Stopped(q)
      else if 0 <= Cell(p, op) < p.sp < 1024 then Goes(p, q, p.ip + 2, Cells(p) + [Cells(p)[Cell(p, op)]])
      else if op == 0x37 then Goes(p, q, p.ip + 2, Cells(p))
      else Stopped(q)
  {
  }

  /** STORE_ARG (0x38) and STORE_REL (0x43) pop a cell and store it; outside the stack, or without a cell,
      they do nothing. */
  lemma StoreCellLaw(p: Proc, op: Byte, alu: Alu)
    requires Next(p, op) && op in {0x38, 0x43}
    ensures var q := Exec(p, alu);
      if p.ip + 1 >= |p.code| then Goes(p, q, p.ip + 1, Cells(p))
      else if p.fp < 0 || (p.fp == 0 && op == 0x38) then Stopped(q)
      else if !(0 <= Cell(p, op) < 1024) || p.sp == 0 then Goes(p, q, p.ip + 2, Cells(p))
      else
        && Goes(p, q, p.ip + 2, p.stack[Cell(p, op) := p.stack[p.sp - 1]][..p.sp - 1])
        && q.stack[Cell(p, op)] == p.stack[p.sp - 1]
  {
  }

  /** DUP then POP, and SWAP twice, leave the cells as they were. */
  lemma DupPop(p: Proc, alu: Alu)
    requires Next(p, 0x05) && 0 < p.sp < 1024 && Next(Exec(p, alu), 0x04)
    ensures Goes(p, Exec(Exec(p, alu), alu), p.ip + 2, Cells(p))
  {
    DupLaw(p, alu);
    PopLaw(Exec(p, alu), alu);
  }

  lemma SwapTwice(p: Proc, alu: Alu)
    requires Next(p, 0x06) && p.sp >= 2 && Next(Exec(p, alu), 0x06)
    ensures Goes(p, Exec(Exec(p, alu), alu), p.ip + 2, Cells(p))
  {
    SwapLaw(p, alu);
    SwapLaw(Exec(p, alu), alu);
  }

  /** One instruction of a run. Those with effects outside the process leave its code and its locals alone;
      about its cells nothing is known then. */
  ghost predicate Step(p: Proc, q: Proc, alu: Alu) {
    && Safe(p) && p.active
    && if AtExternal(p) then Safe(q) && q.code == p.code && q.locals == p.locals else q == Exec(p, alu)
  }

  ghost predicate Steps(ps: seq<Proc>, alu: Alu) {
    forall i :: 0 <= i < |ps| - 1 ==> Step(ps[i], ps[i + 1], alu)
  }

  predicate With(p: Proc, op: Byte, k: nat) {
    p.ip + 1 < |p.code| && p.code[p.ip] == op && p.code[p.ip + 1] == k
  }

  /** Only STORE `k` changes local `k`. */
  lemma LocalStep(p: Proc, q: Proc, alu: Alu, k: nat)
    requires Whole(Step(p, q, alu)) && k < 256 && !With(p, 0x41, k)
    ensures |q.locals| == 256 == |p.locals| && q.locals[k] == p.locals[k]
  {
    if p.ip < |p.code| && !AtExternal(p) {
      var op := p.code[p.ip];
      if op <= 0x30 || op >= 0x48 {
        LocalsLow(p, alu);
      } else if op <= 0x36 {
        LocalsControl(p, alu);
      }
    }
  }

  lemma LocalsLow(p: Proc, alu: Alu)
    requires Safe(p) && p.ip < |p.code| && !AtExternal(p) && (p.code[p.ip] <= 0x30 || p.code[p.ip] >= 0x48)
    ensures Exec(p, alu).locals == p.locals
  {
  }

  lemma LocalsControl(p: Proc, alu: Alu)
    requires Safe(p) && p.ip < |p.code| && 0x30 < p.code[p.ip] <= 0x36
    ensures Exec(p, alu).locals == p.locals
  {
  }

  lemma {:induction false} LocalKept(ps: seq<Proc>, alu: Alu, i: nat, j: nat, k: nat)
    requires Steps(ps, alu) && i <= j < |ps| && k < 256 && |ps[i].locals| == 256
    requires forall m :: i <= m < j ==> !With(ps[m], 0x41, k)
    ensures |ps[j].locals| == 256 && ps[j].locals[k] == ps[i].locals[k]
  {
    if i < j {
      var h := j - 1;
      LocalKept(ps, alu, i, h, k);
      LocalStep(ps[h], ps[h + 1], alu, k);
    }
  }

  /** In every run LOAD `k` pushes what the last STORE `k` popped. */
  lemma StoredIsLoaded(ps: seq<Proc>, alu: Alu, i: nat, j: nat, k: nat)
    requires Steps(ps, alu) && i < j < |ps| - 1 && k < 256
    requires With(ps[i], 0x41, k) && ps[i].sp > 0 && With(ps[j], 0x40, k) && ps[j].sp < 1024
    requires forall m :: i < m < j ==> !With(ps[m], 0x41, k)
    ensures Safe(ps[i]) && Safe(ps[j])
    ensures Goes(ps[j], ps[j + 1], ps[j].ip + 2, Cells(ps[j]) + [Cells(ps[i])[ps[i].sp - 1]])
  {
    assert Step(ps[i], ps[i + 1], alu) && Step(ps[j], ps[j + 1], alu);
    StoreLaw(ps[i], alu);
    LocalKept(ps, alu, i + 1, j, k);
    LoadLaw(ps[j], alu);
  }

  /** The instruction may change cell `c` of the stack. */
  predicate Writes(p: Proc, c: nat)
    requires p.ip < |p.code|
  {
    var op, k := p.code[p.ip], if p.ip + 1 < |p.code| then p.code[p.ip + 1] else 0;
    if op in {0x02, 0x05, 0x33, 0x37, 0x40, 0x42} then c == p.sp
    else if op == 0x06 then p.sp - 2 <= c < p.sp
    else if op == 0x63 then c == p.sp - 1
    else if op == 0x35 then p.sp <= c <= p.sp + k
    else if op == 0x38 then c == p.fp - 2 - k
    else if op == 0x43 then c == p.fp + 1 + k
    else IsBinary(op) && c == p.sp - 2
  }

  /** No other cell changes. */
  lemma WritesOnly(p: Proc, alu: Alu, c: nat)
    requires Safe(p) && p.ip < |p.code| && !AtExternal(p) && c < STACK && !Writes(p, c)
    ensures |Exec(p, alu).stack| == STACK && Exec(p, alu).stack[c] == p.stack[c]
  {
    var op := p.code[p.ip];
    if OnStack(op) {
      WritesOnStack(p, alu, c);
    } else if op <= 0x36 {
      WritesControl(p, alu, c);
    }
  }

  lemma WritesOnStack(p: Proc, alu: Alu, c: nat)
    requires Safe(p) && p.ip < |p.code| && OnStack(p.code[p.ip]) && !AtExternal(p) && c < STACK && !Writes(p, c)
    ensures |Exec(p, alu).stack| == STACK && Exec(p, alu).stack[c] == p.stack[c]
  {
  }

  lemma WritesControl(p: Proc, alu: Alu, c: nat)
    requires Safe(p) && p.ip < |p.code| && 0x30 <= p.code[p.ip] <= 0x36 && c < STACK && !Writes(p, c)
    ensures |Exec(p, alu).stack| == STACK && Exec(p, alu).stack[c] == p.stack[c]
  {
  }

  /** A step leaves cell `c` alone. */
  ghost predicate Spares(p: Proc, q: Proc, c: nat) {
    if p.ip >= |p.code| || AtExternal(p) then |p.stack| == |q.stack| && c < |p.stack| && q.stack[c] == p.stack[c]
    else !Writes(p, c)
  }

  lemma {:induction false} CellKept(ps: seq<Proc>, alu: Alu, i: nat, j: nat, c: nat)
    requires Steps(ps, alu) && i <= j < |ps| && |ps[i].stack| == STACK && c < STACK
    requires forall m :: i <= m < j ==> Spares(ps[m], ps[m + 1], c)
    ensures |ps[j].stack| == STACK && ps[j].stack[c] == ps[i].stack[c]
  {
    if i < j {
      var h := j - 1;
      CellKept(ps, alu, i, h, c);
      assert Step(ps[h], ps[h + 1], alu) && Spares(ps[h], ps[h + 1], c);
      if ps[h].ip < |ps[h].code| && !AtExternal(ps[h]) { WritesOnly(ps[h], alu, c); }
    }
  }

  /** In every run LOAD_REL pushes what the last STORE_REL to the same cell popped, as long as nothing else
      was put there. */
  lemma StoredRelIsLoaded(ps: seq<Proc>, alu: Alu, i: nat, j: nat, k: nat, l: nat)
    requires Steps(ps, alu) && i < j < |ps| - 1
    requires With(ps[i], 0x43, k) && ps[i].sp > 0 && 0 <= ps[i].fp && ps[i].fp + 1 + k < 1024
    requires With(ps[j], 0x42, l) && ps[j].fp + l == ps[i].fp + k && ps[j].fp + 1 + l < ps[j].sp < 1024 && 0 <= ps[j].fp
    requires forall m :: i < m < j ==> Spares(ps[m], ps[m + 1], ps[i].fp + 1 + k)
    ensures Safe(ps[i]) && Safe(ps[j])
    ensures Goes(ps[j], ps[j + 1], ps[j].ip + 2, Cells(ps[j]) + [Cells(ps[i])[ps[i].sp - 1]])
  {
    assert Step(ps[i], ps[i + 1], alu) && Step(ps[j], ps[j + 1], alu);
    StoreCellLaw(ps[i], 0x43, alu);
    CellKept(ps, alu, i + 1, j, ps[i].fp + 1 + k);
    LoadCellLaw(ps[j], 0x42, alu);
  }
}
