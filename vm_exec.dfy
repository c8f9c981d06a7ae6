/** What one instruction, and a run of instructions, does to the machine:
    the reference semantics that the `VM` class is proved against. */
module Execution {
  import opened Words
  import opened Instructions

  /** The whole state of a machine. `console` stands for the lines the
      terminal will deliver to `read_line`, in order; `readin` says whether
      `in` may wait for the terminal when the input queue is empty. */
  datatype Machine = Machine(
    regs: seq<Word>,
    stack: seq<Word>,
    mem: seq<Word>,
    inbuf: seq<Byte>,
    outbuf: seq<Byte>,
    console: seq<string>,
    readin: bool)

  predicate WellFormed(m: Machine) {
    |m.regs| == NUM_REGS && |m.mem| == MEM_SIZE
  }

  /** `VM::new`: zeroed registers and memory, empty stack and buffers. */
  function Initial(readin: bool, console: seq<string>): (m: Machine)
    ensures WellFormed(m)
    ensures forall i :: 0 <= i < |m.regs| ==> m.regs[i] == 0
    ensures forall a :: 0 <= a < |m.mem| ==> m.mem[a] == 0
    ensures m.stack == [] && m.inbuf == [] && m.outbuf == []
  {
    Machine(seq(NUM_REGS, _ => 0), [], seq(MEM_SIZE, _ => 0), [], [], console, readin)
  }

  /** What executing one instruction leads to: the next instruction pointer,
      a graceful halt (`Stop`, `exec`'s `None`), or a panic. */
  datatype Outcome = Continue(ip: nat) | Stop | Abort(fault: Fault)

  datatype Stepped = Stepped(m: Machine, out: Outcome)

  // ---------------------------------------------------------------------
  // Input: `getc`

  /** The input byte that makes `getc` patch the program. */
  const HASH: Byte := 0x23
  /** `getc`'s patch: these memory cells become `noop`s ... */
  const PATCH_START: nat := 0x1571
  const PATCH_END: nat := 0x1577
  const PATCH_WORD: Word := 21
  /** ... and register 7 gets this value. */
  const PATCH_REG: nat := 7
  const PATCH_VALUE: Word := 25734

  /** The patch `getc` applies when it pops a `#`. */
  function Patch(m: Machine): (m': Machine)
    requires WellFormed(m)
    ensures WellFormed(m')
    ensures forall a :: 0 <= a < MEM_SIZE ==>
      m'.mem[a] == if PATCH_START <= a < PATCH_END then PATCH_WORD else m.mem[a]
    ensures m'.regs == m.regs[PATCH_REG := PATCH_VALUE]
    ensures m'.stack == m.stack && m'.inbuf == m.inbuf && m'.outbuf == m.outbuf
    ensures m'.console == m.console && m'.readin == m.readin
  {
    var mem := m.mem[PATCH_START := PATCH_WORD][PATCH_START + 1 := PATCH_WORD]
      [PATCH_START + 2 := PATCH_WORD][PATCH_START + 3 := PATCH_WORD]
      [PATCH_START + 4 := PATCH_WORD][PATCH_START + 5 := PATCH_WORD];
    m.(mem := mem, regs := m.regs[PATCH_REG := PATCH_VALUE])
  }

  /** The bytes `getc` enqueues for a line: each character cast to `u8`. */
  function LineBytes(line: string): (bs: seq<Byte>)
    ensures |bs| == |line|
  {
    seq(|line|, k requires 0 <= k < |line| => (line[k] as int) % 0x100)
  }

  /** A line of the console marks its end when it is empty, as `read_line`
      returns an empty string only at end of input. */
  predicate AtEof(console: seq<string>) {
    console == [] || console[0] == []
  }

  datatype Fetched = Fetched(m: Machine, byte: Result<Byte>)

  /** `getc`: pops the input queue. When the queue is empty it enqueues the
      next console line and retries; at end of input the retrying never ends
      (`getc` recurses until the stack overflows), which is `InputExhausted`.
      A popped `#` applies the patch and retries. */
  function ReadByte(m: Machine): (f: Fetched)
    requires WellFormed(m)
    ensures WellFormed(f.m)
    ensures f.byte.Ok? ==> f.byte.value != HASH
    ensures f.m.stack == m.stack && f.m.outbuf == m.outbuf && f.m.readin == m.readin
    decreases |m.console|, |m.inbuf|
  {
    if m.inbuf == [] then
      if AtEof(m.console) then Fetched(m, Err(InputExhausted))
      else ReadByte(m.(inbuf := LineBytes(m.console[0]), console := m.console[1..]))
    else if m.inbuf[0] == HASH then
      ReadByte(Patch(m.(inbuf := m.inbuf[1..])))
    else
      Fetched(m.(inbuf := m.inbuf[1..]), Ok(m.inbuf[0]))
  }

  /** All bytes `getc` can still deliver: the queue, then the console's lines
      up to the end of input. */
  function Pending(inbuf: seq<Byte>, console: seq<string>): seq<Byte>
    decreases |console|
  {
    if AtEof(console) then inbuf
    else inbuf + Pending(LineBytes(console[0]), console[1..])
  }

  /** The first byte of a stream that is not `#`, with the stream after it. */
  function FirstNonHash(s: seq<Byte>): (r: Option<(Byte, seq<Byte>)>)
    ensures r.Some? ==> r.value.0 != HASH
  {
    if s == [] then None
    else if s[0] == HASH then FirstNonHash(s[1..])
    else Some((s[0], s[1..]))
  }

  datatype Option<T> = None | Some(value: T)

  // ---------------------------------------------------------------------
  // Output: `putc`

  /** `putc`'s bytes: the UTF-8 encoding of the character with code `c`, or
      the panic of `char::from_u32` on a surrogate code. */
  function Utf8(c: Word): (r: Result<seq<Byte>>)
    ensures r.Err? <==> 0xD800 <= c < 0xE000
    ensures r.Ok? ==> 1 <= |r.value| <= 3
  {
    if 0xD800 <= c < 0xE000 then Err(InvalidChar(c))
    else if c < 0x80 then Ok([c])
    else if c < 0x800 then Ok([0xC0 + c / 0x40, 0x80 + c % 0x40])
    else Ok([0xE0 + c / 0x1000, 0x80 + (c / 0x40) % 0x40, 0x80 + c % 0x40])
  }

  /** Reads back the character code from its UTF-8 bytes. */
  function Utf8Decode(bs: seq<Byte>): int
  {
    if |bs| == 1 then bs[0] as int
    else if |bs| == 2 then (bs[0] as int - 0xC0) * 0x40 + (bs[1] as int - 0x80)
    else if |bs| == 3 then
      (bs[0] as int - 0xE0) * 0x1000 + (bs[1] as int - 0x80) * 0x40 + (bs[2] as int - 0x80)
    else -1
  }

  // ---------------------------------------------------------------------
  // One instruction: `exec`

  /** `*self.reg(r) = x`: the value is computed first (its fault wins), then
      the destination is checked and written. */
  function Store(m: Machine, r: Word, x: Result<Word>, nextip: nat): (s: Stepped)
    requires WellFormed(m)
    ensures WellFormed(s.m)
  {
    if x.Err? then Stepped(m, Abort(x.fault))
    else
      match Reg(r)
      case Err(f) => Stepped(m, Abort(f))
      case Ok(i) => Stepped(m.(regs := m.regs[i := x.value]), Continue(nextip))
  }

  /** `self.mem[val(a)]`. */
  function ReadMem(mem: seq<Word>, x: Result<Word>): (r: Result<Word>)
  {
    if x.Err? then x
    else if x.value < |mem| then Ok(mem[x.value])
    else Err(AddressOutOfRange(x.value))
  }

  /** A jump to the resolved target. */
  function JumpTo(m: Machine, x: Result<Word>): Stepped {
    if x.Err? then Stepped(m, Abort(x.fault)) else Stepped(m, Continue(x.value))
  }

  /** The instructions whose result goes to the register their first operand
      names. */
  predicate StoresTo(op: Op) {
    op.Set? || op.Eq? || op.Gt? || op.Add? || op.Mul? || op.Mod? || op.And? || op.Or?
    || op.Not? || op.Rmem?
  }

  /** `exec`: the effect of instruction `op`, decoded just before `nextip`. */
  function Step(m: Machine, op: Op, nextip: nat): (s: Stepped)
    requires WellFormed(m)
    ensures WellFormed(s.m)
  {
    match op
    case Halt => Stepped(m, Stop)
    case Set(r, v) => Store(m, r, Val(m.regs, v), nextip)
    case Push(v) =>
      var x := Val(m.regs, v);
      if x.Err? then Stepped(m, Abort(x.fault))
      else Stepped(m.(stack := m.stack + [x.value]), Continue(nextip))
    case Pop(r) =>
      if m.stack == [] then Stepped(m, Abort(PopEmpty))
      else
        var top := m.stack[|m.stack| - 1];
        Store(m.(stack := m.stack[..|m.stack| - 1]), r, Ok(top), nextip)
    case Eq(r, v1, v2) => Store(m, r, Binary(m.regs, EqOp, v1, v2), nextip)
    case Gt(r, v1, v2) => Store(m, r, Binary(m.regs, GtOp, v1, v2), nextip)
    case Jmp(t) => JumpTo(m, Val(m.regs, t))
    case Jt(v, t) =>
      var x := Val(m.regs, v);
      if x.Err? then Stepped(m, Abort(x.fault))
      else if x.value != 0 then JumpTo(m, Val(m.regs, t))
      else Stepped(m, Continue(nextip))
    case Jf(v, t) =>
      var x := Val(m.regs, v);
      if x.Err? then Stepped(m, Abort(x.fault))
      else if x.value == 0 then JumpTo(m, Val(m.regs, t))
      else Stepped(m, Continue(nextip))
    case Add(r, v1, v2) => Store(m, r, Binary(m.regs, AddOp, v1, v2), nextip)
    case Mul(r, v1, v2) => Store(m, r, Binary(m.regs, MulOp, v1, v2), nextip)
    case Mod(r, v1, v2) => Store(m, r, Binary(m.regs, ModOp, v1, v2), nextip)
    case And(r, v1, v2) => Store(m, r, Binary(m.regs, AndOp, v1, v2), nextip)
    case Or(r, v1, v2) => Store(m, r, Binary(m.regs, OrOp, v1, v2), nextip)
    case Not(r, v) => Store(m, r, Complement(m.regs, v), nextip)
    case Rmem(r, a) => Store(m, r, ReadMem(m.mem, Val(m.regs, a)), nextip)
    case Wmem(a, v) =>
      var y := Val(m.regs, v);
      var x := Val(m.regs, a);
      if y.Err? then Stepped(m, Abort(y.fault))
      else if x.Err? then Stepped(m, Abort(x.fault))
      else if x.value >= |m.mem| then Stepped(m, Abort(AddressOutOfRange(x.value)))
      else Stepped(m.(mem := m.mem[x.value := y.value]), Continue(nextip))
    case Call(t) =>
      var m1 := m.(stack := m.stack + [nextip % 0x1_0000]);
      JumpTo(m1, Val(m.regs, t))
    case Ret =>
      if m.stack == [] then Stepped(m, Stop)
      else Stepped(m.(stack := m.stack[..|m.stack| - 1]), Continue(m.stack[|m.stack| - 1]))
    case Out(v) =>
      var x := Val(m.regs, v);
      if x.Err? then Stepped(m, Abort(x.fault))
      else
        var bs := Utf8(x.value);
        if bs.Err? then Stepped(m, Abort(bs.fault))
        else Stepped(m.(outbuf := m.outbuf + bs.value), Continue(nextip))
    case In(r) =>
      if m.inbuf == [] && !m.readin then Stepped(m, Stop)
      else
        var g := ReadByte(m);
        if g.byte.Err? then Stepped(g.m, Abort(g.byte.fault))
        else Store(g.m, r, Ok(g.byte.value), nextip)
    case Noop => Stepped(m, Continue(nextip))
  }

  // ---------------------------------------------------------------------
  // A run: `run`, for at most `fuel` instructions

  datatype RunStatus = Halted | Faulted(fault: Fault) | OutOfFuel

  /** Where a run stopped: the machine, the recorded `lastip`, and why. */
  datatype Final = Final(m: Machine, lastip: nat, status: RunStatus)

  /** One turn of `run`'s loop at `ip`: decode the instruction there from the
      current memory, then execute it. A decoding panic changes nothing. */
  function Cycle(m: Machine, ip: nat): (s: Stepped)
    requires WellFormed(m)
    ensures WellFormed(s.m)
  {
    match Decode(m.mem, ip)
    case Err(e) => Stepped(m, Abort(e))
    case Ok((op, next)) => Step(m, op, next)
  }

  /** `run` from `ip`: before each instruction `lastip` is set to its address,
      then it is decoded and executed, until it halts or faults. With the fuel
      spent, `lastip` is the next instruction, so a later run resumes there. */
  function Execute(m: Machine, ip: nat, fuel: nat): (f: Final)
    requires WellFormed(m)
    ensures WellFormed(f.m)
    decreases fuel
  {
    if fuel == 0 then Final(m, ip, OutOfFuel)
    else
      var s := Cycle(m, ip);
      match s.out
      case Continue(ip') => Execute(s.m, ip', fuel - 1)
      case Stop => Final(s.m, ip, Halted)
      case Abort(e) => Final(s.m, ip, Faulted(e))
  }

  // ---------------------------------------------------------------------
  // The program image: `load`

  /** The little-endian word made of bytes `2k` and `2k + 1`. */
  function LittleEndian(program: seq<Byte>, k: nat): Word
    requires 2 * k + 1 < |program|
  {
    program[2 * k] as int + 0x100 * program[2 * k + 1] as int
  }

  /** The image of a memory prefix: each word as two little-endian bytes. */
  function Image(words: seq<Word>): (bs: seq<Byte>)
    ensures |bs| == 2 * |words|
  {
    if words == [] then []
    else Image(words[..|words| - 1]) + [words[|words| - 1] % 0x100, words[|words| - 1] / 0x100]
  }
}
