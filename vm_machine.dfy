/** The virtual machine as an object whose registers, memory, stack and
    buffers change in place, proved against the semantics in `Execution`. */
module VirtualMachine {
  import opened Words
  import opened Instructions
  import opened Execution

  class VM {
    const regs: array<Word>
    const mem: array<Word>
    var stack: seq<Word>
    /** Address of the instruction `run` decoded last; `run` starts there. */
    var lastip: nat
    var inbuf: seq<Byte>
    var outbuf: seq<Byte>
    /** The lines the terminal has yet to deliver. */
    var console: seq<string>
    const readin: bool

    ghost predicate Valid()
      reads this
    {
      regs.Length == NUM_REGS && mem.Length == MEM_SIZE && regs != mem
    }

    /** The machine's state as a value. */
    ghost function State(): Machine
      reads this, regs, mem
      requires Valid()
    {
      Machine(regs[..], stack, mem[..], inbuf, outbuf, console, readin)
    }

    /** `VM::new` */
    constructor (readin: bool, console: seq<string>)
      ensures Valid() && fresh(regs) && fresh(mem)
      ensures State() == Initial(readin, console) && lastip == 0
    {
      regs := new Word[NUM_REGS](_ => 0);
      mem := new Word[MEM_SIZE](_ => 0);
      stack := [];
      lastip := 0;
      inbuf := [];
      outbuf := [];
      this.console := console;
      this.readin := readin;
    }

    /** `load`: writes the little-endian words of `program` from address 0 on
        while two bytes remain; a trailing odd byte is ignored. An image of more
        than 32768 words fills all of memory and then faults on the index. */
    method Load(program: seq<Byte>) returns (ok: bool)
      requires Valid()
      modifies mem
      ensures ok <==> |program| / 2 <= MEM_SIZE
      ensures forall a :: 0 <= a < MEM_SIZE ==>
        mem[a] == if a < |program| / 2 then LittleEndian(program, a) else old(mem[a])
    {
      var i := 0;
      while 2 * i + 1 < |program|
        invariant i <= |program| / 2 && i <= MEM_SIZE
        invariant forall a :: 0 <= a < MEM_SIZE ==>
          mem[a] == if a < i then LittleEndian(program, a) else old(mem[a])
      {
        if i >= MEM_SIZE {
          return false;
        }
        mem[i] := program[2 * i] as int + 0x100 * program[2 * i + 1] as int;
        i := i + 1;
      }
      ok := true;
    }

    /** `putc`: appends the UTF-8 bytes of the character (the console echo is
        not modelled); a code that is no character faults. */
    method PutC(c: Word) returns (ok: bool)
      modifies this
      ensures ok <==> Utf8(c).Ok?
      ensures outbuf == if ok then old(outbuf) + Utf8(c).value else old(outbuf)
      ensures stack == old(stack) && inbuf == old(inbuf) && console == old(console)
      ensures lastip == old(lastip)
    {
      var bs := Utf8(c);
      ok := bs.Ok?;
      if ok {
        outbuf := outbuf + bs.value;
      }
    }

    /** `getc`: pops the input queue, refilling it from the console when empty
        and applying the patch when it pops a `#`. */
    method GetC() returns (b: Result<Byte>)
      requires Valid()
      modifies this, regs, mem
      ensures Valid() && lastip == old(lastip)
      ensures Fetched(State(), b) == ReadByte(old(State()))
      decreases |console|, |inbuf|
    {
      if inbuf == [] {
        if AtEof(console) {
          return Err(InputExhausted);
        }
        var line := console[0];
        var bytes: seq<Byte> := [];
        for k := 0 to |line|
          invariant |bytes| == k
          invariant forall j :: 0 <= j < k ==> bytes[j] == (line[j] as int) % 0x100
        {
          bytes := bytes + [(line[k] as int) % 0x100];
        }
        assert bytes == LineBytes(line);
        inbuf := bytes;
        console := console[1..];
        b := GetC();
      } else if inbuf[0] == HASH {
        inbuf := inbuf[1..];
        mem[PATCH_START] := PATCH_WORD;
        mem[PATCH_START + 1] := PATCH_WORD;
        mem[PATCH_START + 2] := PATCH_WORD;
        mem[PATCH_START + 3] := PATCH_WORD;
        mem[PATCH_START + 4] := PATCH_WORD;
        mem[PATCH_START + 5] := PATCH_WORD;
        regs[PATCH_REG] := PATCH_VALUE;
        b := GetC();
      } else {
        b := Ok(inbuf[0]);
        inbuf := inbuf[1..];
      }
    }

    /** `*self.reg(r) = x` */
    method StoreReg(r: Word, x: Result<Word>, nextip: nat) returns (out: Outcome)
      requires Valid()
      modifies regs
      ensures Valid()
      ensures Stepped(State(), out) == Store(old(State()), r, x, nextip)
    {
      if x.Err? {
        return Abort(x.fault);
      }
      var i := Reg(r);
      if i.Err? {
        return Abort(i.fault);
      }
      regs[i.value] := x.value;
      out := Continue(nextip);
    }

    /** `exec`: performs one instruction and says where to go next. */
    method Exec(op: Op, nextip: nat) returns (out: Outcome)
      requires Valid()
      modifies this, regs, mem
      ensures Valid() && lastip == old(lastip)
      ensures Stepped(State(), out) == Step(old(State()), op, nextip)
    {
      if StoresTo(op) {
        out := ExecStore(op, nextip);
      } else if op.Push? || op.Pop? || op.Wmem? || op.Out? || op.In? {
        out := ExecData(op, nextip);
      } else {
        out := ExecControl(op, nextip);
      }
    }

    /** The `exec` arms that compute a value into a register. */
    method ExecStore(op: Op, nextip: nat) returns (out: Outcome)
      requires Valid() && StoresTo(op)
      modifies regs
      ensures Valid()
      ensures Stepped(State(), out) == Step(old(State()), op, nextip)
    {
      match op
      case Set(r, v) =>
        out := StoreReg(r, Val(regs[..], v), nextip);
      case Eq(r, v1, v2) =>
        out := StoreReg(r, Binary(regs[..], EqOp, v1, v2), nextip);
      case Gt(r, v1, v2) =>
        out := StoreReg(r, Binary(regs[..], GtOp, v1, v2), nextip);
      case Add(r, v1, v2) =>
        out := StoreReg(r, Binary(regs[..], AddOp, v1, v2), nextip);
      case Mul(r, v1, v2) =>
        out := StoreReg(r, Binary(regs[..], MulOp, v1, v2), nextip);
      case Mod(r, v1, v2) =>
        out := StoreReg(r, Binary(regs[..], ModOp, v1, v2), nextip);
      case And(r, v1, v2) =>
        out := StoreReg(r, Binary(regs[..], AndOp, v1, v2), nextip);
      case Or(r, v1, v2) =>
        out := StoreReg(r, Binary(regs[..], OrOp, v1, v2), nextip);
      case Not(r, v) =>
        out := StoreReg(r, Complement(regs[..], v), nextip);
      case Rmem(r, a) =>
        var x := Val(regs[..], a);
        if x.Err? {
          return Abort(x.fault);
        }
        if x.value >= mem.Length {
          return Abort(AddressOutOfRange(x.value));
        }
        out := StoreReg(r, Ok(mem[x.value]), nextip);
    }

    /** The `exec` arms that move data through the stack, memory and the
        input and output buffers. */
    method ExecData(op: Op, nextip: nat) returns (out: Outcome)
      requires Valid() && (op.Push? || op.Pop? || op.Wmem? || op.Out? || op.In?)
      modifies this, regs, mem
      ensures Valid() && lastip == old(lastip)
      ensures Stepped(State(), out) == Step(old(State()), op, nextip)
    {
      match op
      case Push(v) =>
        var x := Val(regs[..], v);
        if x.Err? {
          return Abort(x.fault);
        }
        stack := stack + [x.value];
        out := Continue(nextip);
      case Pop(r) =>
        if stack == [] {
          return Abort(PopEmpty);
        }
        var top := stack[|stack| - 1];
        stack := stack[..|stack| - 1];
        out := StoreReg(r, Ok(top), nextip);
      case Wmem(a, v) =>
        var y := Val(regs[..], v);
        var x := Val(regs[..], a);
        if y.Err? {
          return Abort(y.fault);
        }
        if x.Err? {
          return Abort(x.fault);
        }
        if x.value >= mem.Length {
          return Abort(AddressOutOfRange(x.value));
        }
        mem[x.value] := y.value;
        out := Continue(nextip);
      case Out(v) =>
        var c := Val(regs[..], v);
        if c.Err? {
          return Abort(c.fault);
        }
        var ok := PutC(c.value);
        out := if ok then Continue(nextip) else Abort(InvalidChar(c.value));
      case In(r) =>
        if inbuf == [] && !readin {
          return Stop;
        }
        var b := GetC();
        if b.Err? {
          return Abort(b.fault);
        }
        out := StoreReg(r, Ok(b.value), nextip);
    }

    /** The `exec` arms that decide where control goes: halts, jumps, calls
        and returns. */
    method ExecControl(op: Op, nextip: nat) returns (out: Outcome)
      requires Valid() && (op.Halt? || op.Jmp? || op.Jt? || op.Jf? || op.Call? || op.Ret? || op.Noop?)
      modifies this
      ensures Valid() && lastip == old(lastip)
      ensures Stepped(State(), out) == Step(old(State()), op, nextip)
    {
      match op
      case Halt =>
        out := Stop;
      case Jmp(t) =>
        var x := Val(regs[..], t);
        out := if x.Err? then Abort(x.fault) else Continue(x.value);
      case Jt(v, t) =>
        var x := Val(regs[..], v);
        if x.Err? {
          return Abort(x.fault);
        }
        out := Continue(nextip);
        if x.value != 0 {
          var y := Val(regs[..], t);
          out := if y.Err? then Abort(y.fault) else Continue(y.value);
        }
      case Jf(v, t) =>
        var x := Val(regs[..], v);
        if x.Err? {
          return Abort(x.fault);
        }
        out := Continue(nextip);
        if x.value == 0 {
          var y := Val(regs[..], t);
          out := if y.Err? then Abort(y.fault) else Continue(y.value);
        }
      case Call(t) =>
        stack := stack + [nextip % 0x1_0000];
        var x := Val(regs[..], t);
        out := if x.Err? then Abort(x.fault) else Continue(x.value);
      case Ret =>
        if stack == [] {
          return Stop;
        }
        var a := stack[|stack| - 1];
        stack := stack[..|stack| - 1];
        out := Continue(a);
      case Noop =>
        out := Continue(nextip);
    }

    /** `run`, for at most `fuel` instructions: from `lastip`, records each
        instruction's address in `lastip`, decodes it from the current memory
        and executes it, until it halts or faults. */
    method Run(fuel: nat) returns (status: RunStatus)
      requires Valid()
      modifies this, regs, mem
      ensures Valid()
      ensures Final(State(), lastip, status) == Execute(old(State()), old(lastip), fuel)
    {
      var ip := lastip;
      var left := fuel;
      while true
        invariant Valid()
        invariant Execute(State(), ip, left) == Execute(old(State()), old(lastip), fuel)
        decreases left
      {
        lastip := ip;
        if left == 0 {
          return OutOfFuel;
        }
        var d := Decode(mem[..], ip);
        if d.Err? {
          return Faulted(d.fault);
        }
        var out := Exec(d.value.0, d.value.1);
        match out {
          case Stop =>
            return Halted;
          case Abort(f) =>
            return Faulted(f);
          case Continue(next) =>
            ip := next;
            left := left - 1;
        }
      }
    }

    /** `disassemble`: decodes `count` instructions from `start` on without
        executing them, listing each with its address; a word that cannot be
        decoded ends the listing with the decoder's fault. Nothing in the
        machine changes. */
    method Disassemble(start: nat, count: nat) returns (listing: seq<(nat, Op)>, fault: Option<Fault>)
      requires Valid()
      ensures listing == Listing(mem[..], start, count).entries
      ensures fault == Listing(mem[..], start, count).fault
    {
      var image := mem[..];
      var ip := start;
      listing := [];
      for n := 0 to count
        invariant Listing(image, start, n) == Disassembly(listing, ip, None)
      {
        var d := Decode(image, ip);
        if d.Err? {
          fault := Some(d.fault);
          ListingCut(image, start, n + 1, count);
          return;
        }
        listing := listing + [(ip, d.value.0)];
        ip := d.value.1;
      }
      fault := None;
    }
  }

  /** A listing: the decoded instructions with their addresses, the address
      after the last one, and the fault that cut the listing short, if any. */
  datatype Disassembly = Disassembly(entries: seq<(nat, Op)>, next: nat, fault: Option<Fault>)

  /** The first `count` instructions decoded one after another from `start`,
      stopping at the first fault. */
  function Listing(mem: seq<Word>, start: nat, count: nat): (d: Disassembly)
    ensures |d.entries| <= count
    ensures d.fault.None? <==> |d.entries| == count
    decreases count
  {
    if count == 0 then Disassembly([], start, None)
    else
      var p := Listing(mem, start, count - 1);
      if p.fault.Some? then p
      else
        match Decode(mem, p.next)
        case Err(f) => p.(fault := Some(f))
        case Ok((op, next)) => Disassembly(p.entries + [(p.next, op)], next, None)
  }

  /** Where the listing goes on: `start` for an empty one, else the address
      the decoder returned for the last entry. */
  lemma {:induction false} ListingNext(mem: seq<Word>, start: nat, count: nat)
    ensures var d := Listing(mem, start, count);
      (d.entries == [] ==> d.next == start)
      && (d.entries != [] ==>
        Decode(mem, d.entries[|d.entries| - 1].0).Ok?
        && d.next == Decode(mem, d.entries[|d.entries| - 1].0).value.1)
    decreases count
  {
    if count > 0 {
      ListingNext(mem, start, count - 1);
    }
  }

  /** Once cut short, a listing asked for more instructions stays as it is. */
  lemma {:induction false} ListingCut(mem: seq<Word>, start: nat, n: nat, count: nat)
    requires n <= count && Listing(mem, start, n).fault.Some?
    ensures Listing(mem, start, count) == Listing(mem, start, n)
    decreases count
  {
    if count > n {
      ListingCut(mem, start, n, count - 1);
    }
  }

  /** Entry `k` of a listing is the instruction the decoder reads at its
      address; the first address is `start`, and each next one is where the
      decoder left off after the entry before. */
  lemma {:induction false} ListingEntry(mem: seq<Word>, start: nat, count: nat, k: nat)
    requires k < |Listing(mem, start, count).entries|
    ensures var l := Listing(mem, start, count).entries;
      Decode(mem, l[k].0).Ok? && Decode(mem, l[k].0).value.0 == l[k].1
      && (k == 0 ==> l[k].0 == start)
      && (k > 0 ==> Decode(mem, l[k - 1].0).Ok? && l[k].0 == Decode(mem, l[k - 1].0).value.1)
    decreases count
  {
    var p := Listing(mem, start, count - 1);
    var l := Listing(mem, start, count).entries;
    if k < |p.entries| {
      ListingEntry(mem, start, count - 1, k);
      assert l[k] == p.entries[k];
      if k > 0 {
        assert l[k - 1] == p.entries[k - 1];
      }
    } else {
      ListingNext(mem, start, count - 1);
      if k > 0 {
        assert l[k - 1] == p.entries[k - 1];
      }
    }
  }

  /** A listing cut short ends at the word the decoder faults on. */
  lemma {:induction false} ListingFault(mem: seq<Word>, start: nat, count: nat)
    requires Listing(mem, start, count).fault.Some?
    ensures Decode(mem, Listing(mem, start, count).next) == Err(Listing(mem, start, count).fault.value)
    decreases count
  {
    var p := Listing(mem, start, count - 1);
    if p.fault.Some? {
      ListingFault(mem, start, count - 1);
    }
  }
}
