/** The process object and its instruction handlers. */
module NvmProcess {
  import opened Invariants
  import opened Bytes
  import opened Nvm
  import NvmFrames

  lemma {:induction false} ZeroMore(stack: seq<int>, at: nat, n: nat)
    requires at + n < |stack|
    ensures Zeroed(stack, at, n + 1) == Zeroed(stack, at, n)[at + n := 0]
  {
  }

  class Process {
    var code: seq<Byte>
    var ip: nat
    var stack: seq<int>
    var sp: nat
    var fp: int
    var locals: seq<int>
    var active: bool
    var exit: int

    function P(): Proc
      reads this
    {
      Proc(code, ip, stack, sp, fp, locals, active, exit)
    }

    /** `nvm_create_process`, for one slot. */
    constructor (code: seq<Byte>)
      requires 4 <= |code| < 0x8000_0000
      ensures Safe(P()) && active && ip == 4 && sp == 0 && fp == -1 && this.code == code && exit == 0
      ensures forall k :: 0 <= k < LOCALS ==> locals[k] == 0
    {
      this.code, ip, sp, fp, active, exit := code, 4, 0, -1, true, 0;
      stack, locals := seq(STACK, _ => 0), seq(LOCALS, _ => 0);
    }

    /** The error exit of a handler. */
    method Stop() returns (ok: bool)
      modifies this`active, this`exit
      ensures P() == Fail(old(P())) && !ok
    {
      active, exit := false, -1;
      ok := false;
    }

    /** `handle_push` */
    method Push() returns (ok: bool)
      requires active && Safe(P())
      modifies this
      ensures P() == Nvm.Push(old(P())) && ok == active
    {
      if ip + 3 >= |code| { ok := Stop(); return; }
      var v := Signed(Operand(P()));
      ip := ip + 4;
      if sp >= STACK { ok := Stop(); return; }
      stack, sp := stack[sp := v], sp + 1;
      ok := true;
    }

    /** `handle_pop` */
    method Pop() returns (ok: bool)
      requires active && Safe(P())
      modifies this
      ensures P() == Nvm.Pop(old(P())) && ok == active
    {
      if sp == 0 { ok := Stop(); return; }
      sp := sp - 1;
      ok := true;
    }

    /** `handle_dup` */
    method Dup() returns (ok: bool)
      requires active && Safe(P())
      modifies this
      ensures P() == Nvm.Dup(old(P())) && ok == active
    {
      if sp == 0 || sp >= STACK { ok := Stop(); return; }
      stack, sp := stack[sp := stack[sp - 1]], sp + 1;
      ok := true;
    }

    /** `handle_swap` */
    method Swap() returns (ok: bool)
      requires active && Safe(P())
      modifies this
      ensures P() == Nvm.Swap(old(P())) && ok == active
    {
      if sp < 2 { ok := Stop(); return; }
      var top, second := stack[sp - 1], stack[sp - 2];
      stack := stack[sp - 2 := top];
      stack := stack[sp - 1 := second];
      ok := true;
    }

    /** `handle_jmp` */
    method Jmp() returns (ok: bool)
      requires active && Safe(P())
      modifies this
      ensures P() == Nvm.Jmp(old(P())) && ok == active
    {
      if ip + 3 >= |code| { return true; }
      var addr := Operand(P());
      ip := ip + 4;
      if addr < 4 || addr >= |code| { ok := Stop(); return; }
      ip := addr;
      ok := true;
    }

    /** `handle_call` */
    method Call() returns (ok: bool)
      requires active && Safe(P())
      modifies this
      ensures P() == Nvm.Call(old(P())) && ok == active
    {
      if ip + 3 >= |code| { ok := Stop(); return; }
      var addr := Operand(P());
      ip := ip + 4;
      if sp >= STACK - 1 { ok := Stop(); return; }
      stack, sp := stack[sp := ip], sp + 1;
      if addr < 4 || addr >= |code| { ok := Stop(); return; }
      ip := addr;
      ok := true;
    }

    /** `handle_ret` */
    method Ret() returns (ok: bool)
      requires active && Safe(P())
      modifies this
      ensures P() == Nvm.Ret(old(P())) && ok == active
    {
      if sp == 0 { ok := Stop(); return; }
      sp := sp - 1;
      var addr := stack[sp];
      if addr < 4 || addr >= |code| { ok := Stop(); return; }
      ip := addr;
      ok := true;
    }

    /** `handle_enter`: save the frame, start a new one, and clear its locals one by one. */
    method Enter() returns (ok: bool)
      requires active && Safe(P())
      modifies this
      ensures P() == Nvm.Enter(old(P())) && ok == active
    {
      if ip >= |code| { ok := Stop(); return; }
      var n: nat := code[ip];
      ip := ip + 1;
      if sp + 1 + n > STACK { ok := Stop(); return; }
      stack, sp := stack[sp := fp], sp + 1;
      fp := sp - 1;
      ghost var before := stack;
      for i := 0 to n
        invariant |stack| == STACK && sp == old(sp) + 1 + i && stack == Zeroed(before, old(sp) + 1, i)
        invariant code == old(code) && ip == old(ip) + 1 && fp == old(sp) && locals == old(locals) && active &&
          exit == old(exit)
      {
        ZeroMore(before, old(sp) + 1, i);
        stack, sp := stack[sp := 0], sp + 1;
      }
      ok := true;
    }

    /** `handle_leave` */
    method Leave() returns (ok: bool)
      requires active && Safe(P())
      modifies this
      ensures P() == Nvm.Leave(old(P())) && ok == active
    {
      if fp < 0 || fp >= STACK || sp < fp + 1 { ok := Stop(); return; }
      sp := fp + 1;
      var saved := stack[fp];
      sp := fp;
      fp := saved;
      ok := true;
    }

    /** `handle_load_arg` */
    method LoadArg() returns (ok: bool)
      requires active && Safe(P())
      modifies this
      ensures P() == Nvm.LoadArg(old(P())) && ok == active
    {
      if ip >= |code| { return true; }
      var off := code[ip];
      ip := ip + 1;
      if fp <= 0 { ok := Stop(); return; }
      var idx := fp - 2 - off;
      if 0 <= idx < sp && sp < STACK { stack, sp := stack[sp := stack[idx]], sp + 1; }
      ok := true;
    }

    /** `handle_store_arg` */
    method StoreArg() returns (ok: bool)
      requires active && Safe(P())
      modifies this
      ensures P() == Nvm.StoreArg(old(P())) && ok == active
    {
      if ip >= |code| { return true; }
      var off := code[ip];
      ip := ip + 1;
      if fp <= 0 { ok := Stop(); return; }
      var idx := fp - 2 - off;
      if 0 <= idx < STACK && sp > 0 {
        sp := sp - 1;
        stack := stack[idx := stack[sp]];
      }
      ok := true;
    }

    /** `handle_load` */
    method Load() returns (ok: bool)
      requires active && Safe(P())
      modifies this
      ensures P() == Nvm.Load(old(P())) && ok == active
    {
      if ip >= |code| { return true; }
      var index := code[ip];
      ip := ip + 1;
      if sp < STACK { stack, sp := stack[sp := locals[index]], sp + 1; }
      ok := true;
    }

    /** `handle_store` */
    method Store() returns (ok: bool)
      requires active && Safe(P())
      modifies this
      ensures P() == Nvm.Store(old(P())) && ok == active
    {
      if ip >= |code| { return true; }
      var index := code[ip];
      ip := ip + 1;
      if sp > 0 {
        sp := sp - 1;
        locals := locals[index := stack[sp]];
      }
      ok := true;
    }

    /** `handle_load_rel` */
    method LoadRel() returns (ok: bool)
      requires active && Safe(P())
      modifies this
      ensures P() == Nvm.LoadRel(old(P())) && ok == active
    {
      if ip >= |code| { return true; }
      var off := code[ip];
      ip := ip + 1;
      if fp < 0 { ok := Stop(); return; }
      var idx := fp + 1 + off;
      if idx < 0 || idx >= sp || sp >= STACK { ok := Stop(); return; }
      stack, sp := stack[sp := stack[idx]], sp + 1;
      ok := true;
    }

    /** `handle_store_rel` */
    method StoreRel() returns (ok: bool)
      requires active && Safe(P())
      modifies this
      ensures P() == Nvm.StoreRel(old(P())) && ok == active
    {
      if ip >= |code| { return true; }
      var off := code[ip];
      ip := ip + 1;
      if fp < 0 { ok := Stop(); return; }
      var idx := fp + 1 + off;
      if 0 <= idx < STACK && sp > 0 {
        sp := sp - 1;
        stack := stack[idx := stack[sp]];
      }
      ok := true;
    }

    /** `handle_jz` (`zero`) and `handle_jnz` */
    method JumpIf(zero: bool) returns (ok: bool)
      requires active && Safe(P())
      modifies this
      ensures P() == Nvm.JumpIf(old(P()), zero) && ok == active
    {
      if sp == 0 { ok := Stop(); return; }
      sp := sp - 1;
      var value := stack[sp];
      if ip + 3 >= |code| { ok := Stop(); return; }
      var addr := Operand(P());
      ip := ip + 4;
      if (value == 0) == zero {
        if addr < 4 || addr >= |code| { ok := Stop(); return; }
        ip := addr;
      }
      ok := true;
    }

    /** The two-operand handlers of arithmetic.c and bitwise.c. */
    method Binary(op: Byte, alu: Alu) returns (ok: bool)
      requires active && Safe(P())
      modifies this
      ensures P() == Nvm.Binary(old(P()), op, alu) && ok == active
    {
      if sp < 2 { ok := Stop(); return; }
      var top, second := stack[sp - 1], stack[sp - 2];
      if (op == 0x13 || op == 0x14) && top == 0 { ok := Stop(); return; }
      stack := stack[sp - 2 := alu(op, second, top)];
      sp := sp - 1;
      ok := true;
    }

    /** `handle_not` */
    method Not() returns (ok: bool)
      requires active && Safe(P())
      modifies this
      ensures P() == Nvm.Not(old(P())) && ok == active
    {
      if sp < 1 { ok := Stop(); return; }
      stack := stack[sp - 1 := -1 - stack[sp - 1]];
      ok := true;
    }

    /** `nvm_execute_instruction` */
    method Execute(alu: Alu) returns (ok: bool)
      requires active && Safe(P()) && (ip < |code| ==> !External(code[ip]))
      modifies this
      ensures P() == Exec(old(P()), alu) && Safe(P()) && ok == active
    {
      ExecSafe(P(), alu);
      if ip >= |code| { ok := Stop(); return; }
      var op := code[ip];
      ip := ip + 1;
      if op == 0x00 {
        active, exit := false, 0;
        return false;
      } else if op == 0x02 { ok := Push();
      } else if op == 0x04 { ok := Pop();
      } else if op == 0x05 { ok := Dup();
      } else if op == 0x06 { ok := Swap();
      } else if IsBinary(op) { ok := Binary(op, alu);
      } else if op == 0x63 { ok := Not();
      } else if op == 0x30 { ok := Jmp();
      } else if op == 0x31 { ok := JumpIf(true);
      } else if op == 0x32 { ok := JumpIf(false);
      } else if op == 0x33 { ok := Call();
      } else if op == 0x34 { ok := Ret();
      } else if op == 0x35 { ok := Enter();
      } else if op == 0x36 { ok := Leave();
      } else if op == 0x37 { ok := LoadArg();
      } else if op == 0x38 { ok := StoreArg();
      } else if op == 0x40 { ok := Load();
      } else if op == 0x41 { ok := Store();
      } else if op == 0x42 { ok := LoadRel();
      } else if op == 0x43 { ok := StoreRel();
      } else { ok := true; }
    }

    /** Executes the instructions of a run. */
    method Follow(steps: nat, alu: Alu, ghost ss: seq<NvmFrames.State>, ghost ns: seq<nat>)
      requires active && Safe(P()) && NvmFrames.Run(ss, ns, alu) && |ns| == steps && ss[0].p == P()
      requires forall i :: 0 <= i < steps ==> !AtExternal(ss[i].p)
      modifies this
      ensures P() == ss[steps].p
    {
      for i := 0 to steps
        invariant P() == ss[i].p && active && Safe(P())
      {
        NvmFrames.StepAt(ss, ns, alu, i);
        var ok := Execute(alu);
      }
    }

    /** From a CALL until its call is over, whatever the called function and the functions it calls do
        inside their frames: the caller goes on behind the CALL and finds its stack again. */
    method RunCall(steps: nat, alu: Alu, ghost ss: seq<NvmFrames.State>, ghost ns: seq<nat>)
      requires active && Safe(P()) && NvmFrames.Run(ss, ns, alu) && |ns| == steps > 0 && ss[0].p == P()
      requires forall i :: 0 <= i < steps ==> !AtExternal(ss[i].p)
      requires NvmFrames.Inv(ss[0].p, ss[0].fs) && NvmFrames.AtCall(P())
      requires |ss[steps].fs| == |ss[0].fs| && forall m :: 0 < m < steps ==> |ss[0].fs| < |ss[m].fs|
      modifies this
      ensures P() == ss[steps].p && Whole(NvmFrames.Restored(old(P()), P(), ns[0]))
    {
      NvmFrames.CallerRestored(ss, ns, alu, 0, steps);
      Follow(steps, alu, ss, ns);
    }
  }
}
