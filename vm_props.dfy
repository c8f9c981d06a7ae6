/** Properties of the semantics in `Execution`: what each instruction does
    and leaves alone, how input and output behave, and how runs compose. */
module VmProperties {
  import opened Words
  import opened Instructions
  import opened Execution

  // ---------------------------------------------------------------------
  // Halting

  /** `exec` halts gracefully exactly on `halt`, on `ret` with an empty stack,
      and on `in` with an empty queue when reading the terminal is off; a
      graceful halt changes nothing. */
  lemma HaltIff(m: Machine, op: Op, nextip: nat)
    requires WellFormed(m)
    ensures Step(m, op, nextip).out.Stop? <==>
      op.Halt? || (op.Ret? && m.stack == []) || (op.In? && m.inbuf == [] && !m.readin)
    ensures Step(m, op, nextip).out.Stop? ==> Step(m, op, nextip).m == m
  {
  }

  // ---------------------------------------------------------------------
  // Instructions that write one register

  /** An instruction that stores to a register changes that register and
      nothing else, and goes on to the next instruction; when it faults
      instead, the machine is untouched. A destination that is no register
      always faults. */
  lemma StoreFrame(m: Machine, op: Op, nextip: nat)
    requires WellFormed(m) && StoresTo(op)
    ensures Step(m, op, nextip).out.Continue? ==>
      IsRegister(op.r) && Step(m, op, nextip).out.ip == nextip
      && Step(m, op, nextip).m ==
        m.(regs := m.regs[op.r - REG_BASE := Step(m, op, nextip).m.regs[op.r - REG_BASE]])
    ensures !Step(m, op, nextip).out.Continue? ==>
      Step(m, op, nextip).out.Abort? && Step(m, op, nextip).m == m
    ensures !IsRegister(op.r) ==> Step(m, op, nextip).out.Abort?
  {
  }

  /** `add` stores the sum modulo 32768 when the u16 sum does not overflow,
      and panics when it does. */
  lemma AddStoresSum(m: Machine, r: Word, v1: Word, v2: Word, nextip: nat)
    requires WellFormed(m) && IsRegister(r) && v1 < REG_END && v2 < REG_END
    ensures var a, b := Val(m.regs, v1).value, Val(m.regs, v2).value;
      Step(m, Add(r, v1, v2), nextip) ==
        if a + b <= 0xFFFF then Stepped(m.(regs := m.regs[r - REG_BASE := (a + b) % MODULUS]), Continue(nextip))
        else Stepped(m, Abort(AddOverflow))
  {
  }

  /** `mul` stores the true product modulo 32768: the u16 wrap-around
      cannot be seen in the result. */
  lemma MulStoresProduct(m: Machine, r: Word, v1: Word, v2: Word, nextip: nat)
    requires WellFormed(m) && IsRegister(r) && v1 < REG_END && v2 < REG_END
    ensures var a, b := Val(m.regs, v1).value, Val(m.regs, v2).value;
      Step(m, Mul(r, v1, v2), nextip) ==
        Stepped(m.(regs := m.regs[r - REG_BASE := (a * b) % MODULUS]), Continue(nextip))
  {
    MulIsProductMod(Val(m.regs, v1).value, Val(m.regs, v2).value);
  }

  /** `mod` stores the remainder, and panics on a zero divisor. */
  lemma ModStoresRemainder(m: Machine, r: Word, v1: Word, v2: Word, nextip: nat)
    requires WellFormed(m) && IsRegister(r) && v1 < REG_END && v2 < REG_END
    ensures var a, b := Val(m.regs, v1).value, Val(m.regs, v2).value;
      Step(m, Mod(r, v1, v2), nextip) ==
        if b == 0 then Stepped(m, Abort(DivisionByZero))
        else Stepped(m.(regs := m.regs[r - REG_BASE := a % b]), Continue(nextip))
  {
  }

  /** `not` of a 15-bit value stores its 15-bit complement. */
  lemma NotStoresComplement(m: Machine, r: Word, v: Word, nextip: nat)
    requires WellFormed(m) && IsRegister(r) && v < REG_END
    requires Val(m.regs, v).value < MODULUS
    ensures Step(m, Not(r, v), nextip) ==
      Stepped(m.(regs := m.regs[r - REG_BASE := MODULUS - 1 - Val(m.regs, v).value]), Continue(nextip))
  {
    NotMaskIsComplement(Val(m.regs, v).value);
  }

  /** `not` of any value stores `(!v) & 0x7FFF`, a 15-bit value, also when
      the register holds 32768 or more. */
  lemma NotStores(m: Machine, r: Word, v: Word, nextip: nat)
    requires WellFormed(m) && IsRegister(r) && v < REG_END
    ensures Step(m, Not(r, v), nextip) ==
      Stepped(m.(regs := m.regs[r - REG_BASE := NotMask(Val(m.regs, v).value)]), Continue(nextip))
    ensures NotMask(Val(m.regs, v).value) < MODULUS
  {
    NotMaskIsComplement(Val(m.regs, v).value);
  }

  /** `eq` and `gt` store 1 exactly when the comparison holds, and 0 otherwise. */
  lemma CompareStoresBit(m: Machine, r: Word, v1: Word, v2: Word, nextip: nat)
    requires WellFormed(m) && IsRegister(r) && v1 < REG_END && v2 < REG_END
    ensures var s := Step(m, Eq(r, v1, v2), nextip);
      s.out == Continue(nextip) && s.m.regs[r - REG_BASE] <= 1
      && (s.m.regs[r - REG_BASE] == 1 <==> Val(m.regs, v1) == Val(m.regs, v2))
    ensures var s := Step(m, Gt(r, v1, v2), nextip);
      s.out == Continue(nextip) && s.m.regs[r - REG_BASE] <= 1
      && (s.m.regs[r - REG_BASE] == 1 <==> Val(m.regs, v1).value > Val(m.regs, v2).value)
  {
  }

  /** `and` and `or` keep register values within 15 bits. */
  lemma BitwiseStores15Bits(m: Machine, r: Word, v1: Word, v2: Word, nextip: nat)
    requires WellFormed(m) && IsRegister(r) && v1 < REG_END && v2 < REG_END
    requires Val(m.regs, v1).value < MODULUS && Val(m.regs, v2).value < MODULUS
    ensures Step(m, And(r, v1, v2), nextip).m.regs[r - REG_BASE] < MODULUS
    ensures Step(m, Or(r, v1, v2), nextip).m.regs[r - REG_BASE] < MODULUS
  {
    BitwiseStaysInRange(Val(m.regs, v1).value, Val(m.regs, v2).value);
  }

  /** `set` stores the resolved value; an invalid value operand faults before
      the destination is checked, and a destination that is no register
      faults, both with the machine unchanged. */
  lemma SetStores(m: Machine, r: Word, v: Word, nextip: nat)
    requires WellFormed(m)
    ensures v >= REG_END ==> Step(m, Set(r, v), nextip) == Stepped(m, Abort(InvalidArgument(v)))
    ensures v < REG_END && !IsRegister(r) ==>
      Step(m, Set(r, v), nextip) == Stepped(m, Abort(InvalidRegister(r)))
    ensures v < REG_END && IsRegister(r) ==>
      Step(m, Set(r, v), nextip) ==
        Stepped(m.(regs := m.regs[r - REG_BASE := Val(m.regs, v).value]), Continue(nextip))
  {
  }

  /** `and` and `or` store the bitwise conjunction, respectively disjunction,
      of the resolved operands. */
  lemma BitwiseStores(m: Machine, r: Word, v1: Word, v2: Word, nextip: nat)
    requires WellFormed(m) && IsRegister(r) && v1 < REG_END && v2 < REG_END
    ensures var a, b := Val(m.regs, v1).value, Val(m.regs, v2).value;
      Step(m, And(r, v1, v2), nextip) ==
        Stepped(m.(regs := m.regs[r - REG_BASE := AndBits(a, b)]), Continue(nextip))
    ensures var a, b := Val(m.regs, v1).value, Val(m.regs, v2).value;
      Step(m, Or(r, v1, v2), nextip) ==
        Stepped(m.(regs := m.regs[r - REG_BASE := OrBits(a, b)]), Continue(nextip))
  {
  }

  /** `rmem` stores the memory cell at the resolved address, whether the
      address is a literal or read from a register; an address at or past the
      end of memory panics with the machine unchanged. */
  lemma RmemReads(m: Machine, r: Word, a: Word, nextip: nat)
    requires WellFormed(m) && IsRegister(r) && a < REG_END
    ensures var x := Val(m.regs, a).value;
      Step(m, Rmem(r, a), nextip) ==
        if x < MEM_SIZE then Stepped(m.(regs := m.regs[r - REG_BASE := m.mem[x]]), Continue(nextip))
        else Stepped(m, Abort(AddressOutOfRange(x)))
  {
  }

  // ---------------------------------------------------------------------
  // Invalid value operands

  /** A value operand of 32776 or more panics with `InvalidArgument` when the
      instruction resolves it, with the machine unchanged, for the
      instructions with one value operand and for `wmem`, whose value is
      resolved before its address. */
  lemma OperandFaults(m: Machine, op: Op, nextip: nat)
    requires WellFormed(m)
    ensures (op.Set? || op.Push? || op.Not? || op.Out?) && op.v >= REG_END ==>
      Step(m, op, nextip) == Stepped(m, Abort(InvalidArgument(op.v)))
    ensures op.Rmem? && op.a >= REG_END ==>
      Step(m, op, nextip) == Stepped(m, Abort(InvalidArgument(op.a)))
    ensures op.Jmp? && op.t >= REG_END ==>
      Step(m, op, nextip) == Stepped(m, Abort(InvalidArgument(op.t)))
    ensures (op.Jt? || op.Jf?) && op.v >= REG_END ==>
      Step(m, op, nextip) == Stepped(m, Abort(InvalidArgument(op.v)))
    ensures op.Wmem? && op.v >= REG_END ==>
      Step(m, op, nextip) == Stepped(m, Abort(InvalidArgument(op.v)))
    ensures op.Wmem? && op.v < REG_END && op.a >= REG_END ==>
      Step(m, op, nextip) == Stepped(m, Abort(InvalidArgument(op.a)))
  {
  }

  /** The instructions with two value operands resolve the first, then the
      second: the first one of 32776 or more panics with `InvalidArgument`,
      with the machine unchanged. */
  lemma BinaryOperandFaults(m: Machine, op: Op, nextip: nat)
    requires WellFormed(m)
    requires op.Eq? || op.Gt? || op.Add? || op.Mul? || op.Mod? || op.And? || op.Or?
    ensures op.v1 >= REG_END ==>
      Step(m, op, nextip) == Stepped(m, Abort(InvalidArgument(op.v1)))
    ensures op.v1 < REG_END && op.v2 >= REG_END ==>
      Step(m, op, nextip) == Stepped(m, Abort(InvalidArgument(op.v2)))
  {
  }

  /** An instruction that goes on has resolved every value operand it reads,
      so each of them is below 32776; the target of `jt` and `jf` is read only
      when the jump is taken. */
  lemma ContinuingOperandsValid(m: Machine, op: Op, nextip: nat)
    requires WellFormed(m) && Step(m, op, nextip).out.Continue?
    ensures (op.Set? || op.Push? || op.Not? || op.Out? || op.Wmem?) ==> op.v < REG_END
    ensures (op.Eq? || op.Gt? || op.Add? || op.Mul? || op.Mod? || op.And? || op.Or?) ==>
      op.v1 < REG_END && op.v2 < REG_END
    ensures (op.Rmem? || op.Wmem?) ==> op.a < REG_END
    ensures (op.Jmp? || op.Call?) ==> op.t < REG_END
    ensures op.Jt? ==> op.v < REG_END && (Val(m.regs, op.v).value != 0 ==> op.t < REG_END)
    ensures op.Jf? ==> op.v < REG_END && (Val(m.regs, op.v).value == 0 ==> op.t < REG_END)
  {
  }

  // ---------------------------------------------------------------------
  // What an instruction leaves alone

  /** An instruction that goes on changes only what it is about: memory only
      by `wmem` (and `in`'s patch), the stack only by `push`, `pop`, `call`
      and `ret`, the output only by `out`, the input and the terminal only by
      `in`, and registers only by the instructions that store to one. */
  lemma StepFrame(m: Machine, op: Op, nextip: nat)
    requires WellFormed(m) && Step(m, op, nextip).out.Continue?
    ensures var m' := Step(m, op, nextip).m;
      m'.readin == m.readin
      && (!op.Wmem? && !op.In? ==> m'.mem == m.mem)
      && (!op.Push? && !op.Pop? && !op.Call? && !op.Ret? ==> m'.stack == m.stack)
      && (!op.Out? ==> m'.outbuf == m.outbuf)
      && (!op.In? ==> m'.inbuf == m.inbuf && m'.console == m.console)
      && (!StoresTo(op) && !op.Pop? && !op.In? ==> m'.regs == m.regs)
  {
  }

  /** Jumps and `noop` change nothing but the instruction pointer: `jmp` goes
      to its target, `jt` and `jf` go there exactly when the condition is
      non-zero, respectively zero, and fall through otherwise. */
  lemma JumpsOnlyMoveIp(m: Machine, v: Word, t: Word, nextip: nat)
    requires WellFormed(m) && v < REG_END && t < REG_END
    ensures Step(m, Jmp(t), nextip) == Stepped(m, Continue(Val(m.regs, t).value))
    ensures Step(m, Jt(v, t), nextip) ==
      Stepped(m, Continue(if Val(m.regs, v).value != 0 then Val(m.regs, t).value else nextip))
    ensures Step(m, Jf(v, t), nextip) ==
      Stepped(m, Continue(if Val(m.regs, v).value == 0 then Val(m.regs, t).value else nextip))
    ensures Step(m, Noop, nextip) == Stepped(m, Continue(nextip))
  {
  }

  /** A jump not taken does not resolve its target: an invalid target faults
      only when the jump is taken. */
  lemma UntakenTargetIgnored(m: Machine, v: Word, t: Word, nextip: nat)
    requires WellFormed(m) && v < REG_END && t >= REG_END
    ensures Step(m, Jt(v, t), nextip).out ==
      if Val(m.regs, v).value != 0 then Abort(InvalidArgument(t)) else Continue(nextip)
    ensures Step(m, Jf(v, t), nextip).out ==
      if Val(m.regs, v).value == 0 then Abort(InvalidArgument(t)) else Continue(nextip)
  {
  }

  // ---------------------------------------------------------------------
  // Memory

  /** `wmem` writes the value to the address and changes nothing else; an
      address at or past the end of memory panics. */
  lemma WmemWrites(m: Machine, a: Word, v: Word, nextip: nat)
    requires WellFormed(m) && a < REG_END && v < REG_END
    ensures var x, y := Val(m.regs, a).value, Val(m.regs, v).value;
      Step(m, Wmem(a, v), nextip) ==
        if x < MEM_SIZE then Stepped(m.(mem := m.mem[x := y]), Continue(nextip))
        else Stepped(m, Abort(AddressOutOfRange(x)))
  {
  }

  /** `rmem` after `wmem` to the same address reads the value written. */
  lemma WmemThenRmem(m: Machine, a: Word, v: Word, r: Word, nextip: nat, nextip': nat)
    requires WellFormed(m) && a < REG_BASE && v < REG_END && IsRegister(r) && a < MEM_SIZE
    ensures var s := Step(m, Wmem(a, v), nextip);
      s.out == Continue(nextip)
      && Step(s.m, Rmem(r, a), nextip').m.regs[r - REG_BASE] == Val(m.regs, v).value
  {
  }

  /** The program can rewrite itself: after `wmem`, an instruction whose four
      words do not include the written address decodes as before, and a word
      that is no opcode written at an address makes decoding there fault. */
  lemma WmemThenDecode(m: Machine, a: Word, v: Word, nextip: nat, ip: nat)
    requires WellFormed(m) && a < REG_END && v < REG_END
    requires Step(m, Wmem(a, v), nextip).out.Continue?
    ensures var x := Val(m.regs, a).value;
      !(ip <= x < ip + 4) ==> Decode(Step(m, Wmem(a, v), nextip).m.mem, ip) == Decode(m.mem, ip)
    ensures var x, y := Val(m.regs, a).value, Val(m.regs, v).value;
      y >= NUM_OPCODES ==> Decode(Step(m, Wmem(a, v), nextip).m.mem, x) == Err(UnknownOpcode(y))
  {
    var x := Val(m.regs, a).value;
    var mem' := Step(m, Wmem(a, v), nextip).m.mem;
    if !(ip <= x < ip + 4) {
      DecodeReadsWindow(m.mem, mem', ip);
    }
  }

  // ---------------------------------------------------------------------
  // The stack

  /** `push` then `pop` leaves the stack as it was and puts the pushed value
      in the register. */
  lemma PushThenPop(m: Machine, v: Word, r: Word, nextip: nat, nextip': nat)
    requires WellFormed(m) && v < REG_END && IsRegister(r)
    ensures var s := Step(m, Push(v), nextip);
      s.out == Continue(nextip) && s.m.stack == m.stack + [Val(m.regs, v).value]
      && Step(s.m, Pop(r), nextip') ==
        Stepped(m.(regs := m.regs[r - REG_BASE := Val(m.regs, v).value]), Continue(nextip'))
  {
    var s := Step(m, Push(v), nextip);
    assert s.m.stack[..|s.m.stack| - 1] == m.stack;
  }

  /** `pop` on a non-empty stack removes the top and stores it in the
      destination; a destination that is no register panics after the pop. */
  lemma PopStoresTop(m: Machine, r: Word, nextip: nat)
    requires WellFormed(m) && m.stack != []
    ensures var top, rest := m.stack[|m.stack| - 1], m.stack[..|m.stack| - 1];
      Step(m, Pop(r), nextip) ==
        if IsRegister(r) then
          Stepped(m.(stack := rest, regs := m.regs[r - REG_BASE := top]), Continue(nextip))
        else Stepped(m.(stack := rest), Abort(InvalidRegister(r)))
  {
  }

  /** `ret` on a non-empty stack removes the top and continues at it. */
  lemma RetPopsTop(m: Machine, nextip: nat)
    requires WellFormed(m) && m.stack != []
    ensures Step(m, Ret, nextip) ==
      Stepped(m.(stack := m.stack[..|m.stack| - 1]), Continue(m.stack[|m.stack| - 1]))
  {
  }

  /** `pop` on an empty stack panics and changes nothing. */
  lemma PopEmptyFaults(m: Machine, r: Word, nextip: nat)
    requires WellFormed(m) && m.stack == []
    ensures Step(m, Pop(r), nextip) == Stepped(m, Abort(PopEmpty))
  {
  }

  /** `call` pushes the return address and jumps; a later `ret` pops it and
      returns just after the call, with the stack as before the call. */
  lemma CallThenRet(m: Machine, t: Word, nextip: nat, nextip': nat)
    requires WellFormed(m) && t < REG_END && nextip < 0x1_0000
    ensures var s := Step(m, Call(t), nextip);
      s == Stepped(m.(stack := m.stack + [nextip]), Continue(Val(m.regs, t).value))
      && Step(s.m, Ret, nextip') == Stepped(m, Continue(nextip))
  {
    var s := Step(m, Call(t), nextip);
    assert s.m.stack[..|s.m.stack| - 1] == m.stack;
  }

  /** `call` to an invalid target has already pushed its return address. */
  lemma CallInvalidTargetPushes(m: Machine, t: Word, nextip: nat)
    requires WellFormed(m) && t >= REG_END
    ensures Step(m, Call(t), nextip) ==
      Stepped(m.(stack := m.stack + [nextip % 0x1_0000]), Abort(InvalidArgument(t)))
  {
  }

  // ---------------------------------------------------------------------
  // Input

  /** After the queue's first byte, the stream still to be read is the rest of
      the queue followed by the terminal's lines. */
  lemma PendingTail(inbuf: seq<Byte>, console: seq<string>)
    requires inbuf != []
    ensures Pending(inbuf, console) != []
    ensures Pending(inbuf, console)[0] == inbuf[0]
    ensures Pending(inbuf, console)[1..] == Pending(inbuf[1..], console)
  {
    if !AtEof(console) {
      var rest := Pending(LineBytes(console[0]), console[1..]);
      assert (inbuf + rest)[1..] == inbuf[1..] + rest;
    }
  }

  /** `getc` delivers the first byte of the input stream that is not `#`,
      skipping every `#` before it, and leaves the rest of the stream to be
      read; when the stream holds no such byte, it is exhausted. */
  lemma {:induction false} ReadByteIsFirstNonHash(m: Machine)
    requires WellFormed(m)
    ensures var f, r := ReadByte(m), FirstNonHash(Pending(m.inbuf, m.console));
      (f.byte.Ok? <==> r.Some?)
      && (r.Some? ==> f.byte.value == r.value.0 && Pending(f.m.inbuf, f.m.console) == r.value.1)
      && (r.None? ==> f.byte == Err(InputExhausted))
    decreases |m.console|, |m.inbuf|
  {
    if m.inbuf == [] {
      if !AtEof(m.console) {
        var m' := m.(inbuf := LineBytes(m.console[0]), console := m.console[1..]);
        assert Pending(m.inbuf, m.console) == Pending(m'.inbuf, m'.console);
        ReadByteIsFirstNonHash(m');
      }
    } else {
      PendingTail(m.inbuf, m.console);
      if m.inbuf[0] == HASH {
        var m' := Patch(m.(inbuf := m.inbuf[1..]));
        ReadByteIsFirstNonHash(m');
      }
    }
  }

  /** `getc` changes memory only by writing `noop`s into the patched cells, and
      registers only by setting register 7. */
  lemma {:induction false} ReadByteOnlyPatches(m: Machine)
    requires WellFormed(m)
    ensures var m' := ReadByte(m).m;
      (forall a :: 0 <= a < MEM_SIZE && !(PATCH_START <= a < PATCH_END) ==> m'.mem[a] == m.mem[a])
      && (forall a :: PATCH_START <= a < PATCH_END ==> m'.mem[a] in {m.mem[a], PATCH_WORD})
      && (forall i :: 0 <= i < NUM_REGS && i != PATCH_REG ==> m'.regs[i] == m.regs[i])
      && m'.regs[PATCH_REG] in {m.regs[PATCH_REG], PATCH_VALUE}
    decreases |m.console|, |m.inbuf|
  {
    if m.inbuf == [] {
      if !AtEof(m.console) {
        ReadByteOnlyPatches(m.(inbuf := LineBytes(m.console[0]), console := m.console[1..]));
      }
    } else if m.inbuf[0] == HASH {
      ReadByteOnlyPatches(Patch(m.(inbuf := m.inbuf[1..])));
    }
  }

  /** A queued `#` applies the patch: whatever `getc` reads after it, the
      patched cells hold `noop` and register 7 holds 25734 afterwards. */
  lemma ReadByteAppliesPatch(m: Machine)
    requires WellFormed(m) && m.inbuf != [] && m.inbuf[0] == HASH
    ensures var m' := ReadByte(m).m;
      (forall a :: PATCH_START <= a < PATCH_END ==> m'.mem[a] == PATCH_WORD)
      && m'.regs[PATCH_REG] == PATCH_VALUE
  {
    var p := Patch(m.(inbuf := m.inbuf[1..]));
    assert ReadByte(m) == ReadByte(p);
    ReadByteOnlyPatches(p);
  }

  /** `in` that does not halt reads a byte with `getc` and stores it in the
      destination, in the state `getc` leaves; when input is exhausted, or the
      destination is no register, it panics in that state. */
  lemma InStoresByte(m: Machine, r: Word, nextip: nat)
    requires WellFormed(m) && !(m.inbuf == [] && !m.readin)
    ensures var f := ReadByte(m);
      Step(m, In(r), nextip) ==
        if f.byte.Err? then Stepped(f.m, Abort(f.byte.fault))
        else if !IsRegister(r) then Stepped(f.m, Abort(InvalidRegister(r)))
        else Stepped(f.m.(regs := f.m.regs[r - REG_BASE := f.byte.value]), Continue(nextip))
  {
  }

  /** A first queued byte that is not `#` is popped as it is, with no patch. */
  lemma ReadByteNoHash(m: Machine)
    requires WellFormed(m) && m.inbuf != [] && m.inbuf[0] != HASH
    ensures ReadByte(m) == Fetched(m.(inbuf := m.inbuf[1..]), Ok(m.inbuf[0]))
  {
  }

  // ---------------------------------------------------------------------
  // Output

  /** `out` appends the UTF-8 bytes of the resolved character code to the
      output, and panics on a surrogate code with the machine unchanged. */
  lemma OutAppends(m: Machine, v: Word, nextip: nat)
    requires WellFormed(m) && v < REG_END
    ensures var c := Val(m.regs, v).value;
      Step(m, Out(v), nextip) ==
        if 0xD800 <= c < 0xE000 then Stepped(m, Abort(InvalidChar(c)))
        else Stepped(m.(outbuf := m.outbuf + Utf8(c).value), Continue(nextip))
  {
  }

  /** `putc`'s bytes decode back to the character, and a 7-bit character is
      one byte of itself. */
  lemma Utf8RoundTrip(c: Word)
    requires !(0xD800 <= c < 0xE000)
    ensures Utf8(c).Ok? && Utf8Decode(Utf8(c).value) == c
    ensures c < 0x80 ==> Utf8(c) == Ok([c])
    ensures c >= 0x80 ==> |Utf8(c).value| > 1
  {
    if 0x800 <= c {
      var hi, mid, lo := c / 0x1000, (c / 0x40) % 0x40, c % 0x40;
      assert c / 0x40 == hi * 0x40 + mid;
      assert c == (c / 0x40) * 0x40 + lo;
    } else if 0x80 <= c {
      assert c == (c / 0x40) * 0x40 + c % 0x40;
    }
  }

  // ---------------------------------------------------------------------
  // Runs

  /** A run that halted stopped at an instruction that halts, in the state it
      halted in. */
  lemma {:induction false} HaltedAtHalting(m: Machine, ip: nat, fuel: nat)
    requires WellFormed(m) && Execute(m, ip, fuel).status.Halted?
    ensures var r := Execute(m, ip, fuel);
      Cycle(r.m, r.lastip) == Stepped(r.m, Stop)
    decreases fuel
  {
    var s := Cycle(m, ip);
    if Decode(m.mem, ip).Ok? {
      HaltIff(m, Decode(m.mem, ip).value.0, Decode(m.mem, ip).value.1);
    }
    if s.out.Continue? {
      HaltedAtHalting(s.m, s.out.ip, fuel - 1);
    }
  }

  /** Running again after a halt halts again at once, changing nothing
      (`lastip` still names the halting instruction). */
  lemma HaltRepeats(m: Machine, ip: nat, fuel: nat, fuel': nat)
    requires WellFormed(m) && Execute(m, ip, fuel).status.Halted? && fuel' > 0
    ensures var r := Execute(m, ip, fuel);
      Execute(r.m, r.lastip, fuel') == r
  {
    HaltedAtHalting(m, ip, fuel);
  }

  /** When the instruction at `ip` is `in`, which halts while the queue is
      empty, queueing a line whose first byte is not `#` and running one
      instruction stores that byte in the register and moves on, as the
      interactive loop relies on. */
  lemma ResumeAfterInput(m: Machine, ip: nat, dest: Word, next: nat, line: seq<Byte>)
    requires WellFormed(m) && Decode(m.mem, ip) == Ok((In(dest), next)) && IsRegister(dest)
    requires line != [] && line[0] != HASH
    ensures m.inbuf == [] && !m.readin ==> Cycle(m, ip) == Stepped(m, Stop)
    ensures Execute(m.(inbuf := line), ip, 1) ==
      Final(m.(inbuf := line[1..], regs := m.regs[dest - REG_BASE := line[0]]), next, OutOfFuel)
  {
  }

  // ---------------------------------------------------------------------
  // The program image

  /** Loading the image of a word sequence gives back the words. */
  lemma {:induction false} ImageLoads(words: seq<Word>, k: nat)
    requires k < |words|
    ensures LittleEndian(Image(words), k) == words[k]
    decreases |words|
  {
    var init := words[..|words| - 1];
    var w := words[|words| - 1];
    assert Image(words) == Image(init) + [w % 0x100, w / 0x100];
    if k < |init| {
      ImageLoads(init, k);
      assert Image(words)[2 * k] == Image(init)[2 * k];
      assert Image(words)[2 * k + 1] == Image(init)[2 * k + 1];
    }
  }

  /** A trailing odd byte of the program is never read. */
  lemma TrailingByteIgnored(program: seq<Byte>, extra: Byte, k: nat)
    requires |program| % 2 == 0 && 2 * k + 1 < |program|
    ensures |program + [extra]| / 2 == |program| / 2
    ensures LittleEndian(program + [extra], k) == LittleEndian(program, k)
  {
  }
}
