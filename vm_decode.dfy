/** The instruction set and the decoder that reads instructions out of memory. */
module Instructions {
  import opened Words

  /** One decoded instruction; operands are raw words, resolved only when the
      instruction executes. `r` marks a destination, `t` a jump target, `a` an
      address. */
  datatype Op =
    | Halt
    | Set(r: Word, v: Word)
    | Push(v: Word)
    | Pop(r: Word)
    | Eq(r: Word, v1: Word, v2: Word)
    | Gt(r: Word, v1: Word, v2: Word)
    | Jmp(t: Word)
    | Jt(v: Word, t: Word)
    | Jf(v: Word, t: Word)
    | Add(r: Word, v1: Word, v2: Word)
    | Mul(r: Word, v1: Word, v2: Word)
    | Mod(r: Word, v1: Word, v2: Word)
    | And(r: Word, v1: Word, v2: Word)
    | Or(r: Word, v1: Word, v2: Word)
    | Not(r: Word, v: Word)
    | Rmem(r: Word, a: Word)
    | Wmem(a: Word, v: Word)
    | Call(t: Word)
    | Ret
    | Out(v: Word)
    | In(r: Word)
    | Noop

  /** Number of opcodes; opcode words at or above it are unknown. */
  const NUM_OPCODES: nat := 22

  /** The opcode word of an instruction. */
  function Opcode(op: Op): (code: nat)
    ensures code < NUM_OPCODES
  {
    match op
    case Halt => 0
    case Set(_, _) => 1
    case Push(_) => 2
    case Pop(_) => 3
    case Eq(_, _, _) => 4
    case Gt(_, _, _) => 5
    case Jmp(_) => 6
    case Jt(_, _) => 7
    case Jf(_, _) => 8
    case Add(_, _, _) => 9
    case Mul(_, _, _) => 10
    case Mod(_, _, _) => 11
    case And(_, _, _) => 12
    case Or(_, _, _) => 13
    case Not(_, _) => 14
    case Rmem(_, _) => 15
    case Wmem(_, _) => 16
    case Call(_) => 17
    case Ret => 18
    case Out(_) => 19
    case In(_) => 20
    case Noop => 21
  }

  /** The operand words of an instruction, in the order they follow the opcode. */
  function Args(op: Op): seq<Word> {
    match op
    case Halt => []
    case Set(r, v) => [r, v]
    case Push(v) => [v]
    case Pop(r) => [r]
    case Eq(r, v1, v2) => [r, v1, v2]
    case Gt(r, v1, v2) => [r, v1, v2]
    case Jmp(t) => [t]
    case Jt(v, t) => [v, t]
    case Jf(v, t) => [v, t]
    case Add(r, v1, v2) => [r, v1, v2]
    case Mul(r, v1, v2) => [r, v1, v2]
    case Mod(r, v1, v2) => [r, v1, v2]
    case And(r, v1, v2) => [r, v1, v2]
    case Or(r, v1, v2) => [r, v1, v2]
    case Not(r, v) => [r, v]
    case Rmem(r, a) => [r, a]
    case Wmem(a, v) => [a, v]
    case Call(t) => [t]
    case Ret => []
    case Out(v) => [v]
    case In(r) => [r]
    case Noop => []
  }

  /** The words an instruction occupies in memory. */
  function Encode(op: Op): (ws: seq<Word>)
    ensures 1 <= |ws| <= 4
  {
    [Opcode(op)] + Args(op)
  }

  /** How many operand words follow each opcode. */
  function Arity(code: nat): (n: nat)
    requires code < NUM_OPCODES
    ensures n <= 3
  {
    if code in {0, 18, 21} then 0
    else if code in {2, 3, 6, 17, 19, 20} then 1
    else if code in {1, 7, 8, 14, 15, 16} then 2
    else 3
  }

  /** The instruction an opcode and its operand words stand for. */
  function Build(code: nat, args: seq<Word>): (op: Op)
    requires code < NUM_OPCODES && |args| == Arity(code)
    ensures Opcode(op) == code && Args(op) == args
  {
    match code
    case 0 => Halt
    case 1 => Set(args[0], args[1])
    case 2 => Push(args[0])
    case 3 => Pop(args[0])
    case 4 => Eq(args[0], args[1], args[2])
    case 5 => Gt(args[0], args[1], args[2])
    case 6 => Jmp(args[0])
    case 7 => Jt(args[0], args[1])
    case 8 => Jf(args[0], args[1])
    case 9 => Add(args[0], args[1], args[2])
    case 10 => Mul(args[0], args[1], args[2])
    case 11 => Mod(args[0], args[1], args[2])
    case 12 => And(args[0], args[1], args[2])
    case 13 => Or(args[0], args[1], args[2])
    case 14 => Not(args[0], args[1])
    case 15 => Rmem(args[0], args[1])
    case 16 => Wmem(args[0], args[1])
    case 17 => Call(args[0])
    case 18 => Ret
    case 19 => Out(args[0])
    case 20 => In(args[0])
    case _ => Noop
  }

  /** `next`: the word at `ip`, or the fault of indexing past the end of memory. */
  function Fetch(mem: seq<Word>, ip: nat): (r: Result<Word>)
  {
    if ip < |mem| then Ok(mem[ip]) else Err(AddressOutOfRange(ip))
  }

  /** `decode`: reads the opcode at `ip` with `next`, then its operands one
      `next` after another, and returns the instruction with the address just
      after it. An operand read past the end of memory panics at index `|mem|`,
      the first address the reads reach beyond it. Memory is read afresh on
      every call; nothing is cached. */
  function Decode(mem: seq<Word>, ip: nat): (r: Result<(Op, nat)>)
  {
    match Fetch(mem, ip)
    case Err(f) => Err(f)
    case Ok(code) =>
      if code >= NUM_OPCODES then Err(UnknownOpcode(code))
      else
        var next := ip + 1 + Arity(code);
        if next > |mem| then Err(AddressOutOfRange(|mem|))
        else Ok((Build(code, mem[ip + 1..next]), next))
  }

  // ---------------------------------------------------------------------
  // Properties of the decoder

  /** The decoder's faults: reading the opcode past the end of memory, an
      opcode of 22 or more, and operands that run past the end of memory;
      otherwise the next address lies beyond `ip` and within memory. */
  lemma DecodeFaults(mem: seq<Word>, ip: nat)
    ensures ip >= |mem| ==> Decode(mem, ip) == Err(AddressOutOfRange(ip))
    ensures ip < |mem| && mem[ip] >= NUM_OPCODES ==> Decode(mem, ip) == Err(UnknownOpcode(mem[ip]))
    ensures ip < |mem| && mem[ip] < NUM_OPCODES ==>
      (Decode(mem, ip).Err? <==> ip + 1 + Arity(mem[ip]) > |mem|)
    ensures Decode(mem, ip).Err? && ip < |mem| && mem[ip] < NUM_OPCODES ==>
      Decode(mem, ip) == Err(AddressOutOfRange(|mem|))
    ensures Decode(mem, ip).Ok? ==> ip < Decode(mem, ip).value.1 <= |mem|
  {
  }

  /** What the decoder returns is what the words it read encode, and the
      address it returns is just past them. */
  lemma DecodeReadsEncoding(mem: seq<Word>, ip: nat)
    requires Decode(mem, ip).Ok?
    ensures ip + |Encode(Decode(mem, ip).value.0)| == Decode(mem, ip).value.1
    ensures mem[ip..Decode(mem, ip).value.1] == Encode(Decode(mem, ip).value.0)
  {
    var code := mem[ip];
    var args := mem[ip + 1..ip + 1 + Arity(code)];
    assert mem[ip..ip + 1 + |args|] == [code] + args;
  }

  /** Opcode and operands determine the instruction. */
  lemma BuildFromEncoding(op: Op)
    ensures Arity(Opcode(op)) == |Args(op)|
    ensures Build(Opcode(op), Args(op)) == op
  {
  }

  /** Decoding is the inverse of encoding: an instruction whose words lie at
      `ip` is decoded back, and the decoder moves past exactly those words. */
  lemma {:induction false} DecodeEncode(mem: seq<Word>, ip: nat, op: Op)
    requires ip + |Encode(op)| <= |mem|
    requires mem[ip..ip + |Encode(op)|] == Encode(op)
    ensures Decode(mem, ip) == Ok((op, ip + |Encode(op)|))
  {
    var enc := Encode(op);
    assert mem[ip] == enc[0] == Opcode(op);
    BuildFromEncoding(op);
    assert mem[ip + 1..ip + |enc|] == enc[1..] == Args(op);
  }

  /** The decoder advances `ip` by one plus the opcode's arity. */
  lemma DecodeAdvancesByArity(mem: seq<Word>, ip: nat)
    requires Decode(mem, ip).Ok?
    ensures mem[ip] < NUM_OPCODES
    ensures Decode(mem, ip).value.1 == ip + 1 + Arity(mem[ip])
    ensures Opcode(Decode(mem, ip).value.0) == mem[ip]
  {
    var op := Decode(mem, ip).value.0;
    assert mem[ip] == Encode(op)[0];
    BuildFromEncoding(op);
  }

  /** The decoder depends on nothing but the words it reads: memories that
      agree on the four words at `ip` decode alike there. */
  lemma DecodeReadsWindow(mem: seq<Word>, mem': seq<Word>, ip: nat)
    requires |mem| == |mem'|
    requires forall k :: ip <= k < ip + 4 && k < |mem| ==> mem[k] == mem'[k]
    ensures Decode(mem, ip) == Decode(mem', ip)
  {
    if ip < |mem| && mem[ip] < NUM_OPCODES {
      var n := Arity(mem[ip]);
      if ip + 1 + n <= |mem| {
        assert mem[ip + 1..ip + 1 + n] == mem'[ip + 1..ip + 1 + n];
      }
    }
  }
}
