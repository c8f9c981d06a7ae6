/** The machine's 16-bit words, its faults, operand resolution and the
    arithmetic each instruction applies to resolved operands. */
module Words {

  /** Results of arithmetic are reduced modulo this value; it is also the
      number of memory cells and the first register reference. */
  const MODULUS: nat := 32768
  const MEM_SIZE: nat := 32768
  const NUM_REGS: nat := 8
  /** Register references are REG_BASE .. REG_END - 1. */
  const REG_BASE: nat := 32768
  const REG_END: nat := 32776

  /** A `u16`: memory cells, registers, stack entries and raw operands. */
  type Word = x: int | 0 <= x < 0x1_0000
  /** A `u8`: bytes of the program image and of the input and output buffers. */
  type Byte = x: int | 0 <= x < 0x100

  /** Every way the machine can panic. */
  datatype Fault =
    | InvalidRegister(arg: Word)     // a destination operand outside 32768..32775
    | InvalidArgument(arg: Word)     // a value operand of 32776 or more
    | AddressOutOfRange(addr: int)   // indexing memory at or past its end
    | UnknownOpcode(code: Word)      // an opcode word of 22 or more
    | PopEmpty                       // `pop` on an empty stack
    | DivisionByZero                 // `mod` with a zero divisor
    | AddOverflow                    // `add` whose u16 sum exceeds 65535
    | InvalidChar(code: Word)        // `out` of a value that is no character
    | InputExhausted                 // `in` once the console has nothing more to give

  datatype Result<T> = Ok(value: T) | Err(fault: Fault)

  predicate IsRegister(arg: Word) {
    REG_BASE <= arg < REG_END
  }

  /** `reg`: the register a destination operand names. */
  function Reg(arg: Word): (r: Result<nat>)
    ensures r.Ok? ==> r.value < NUM_REGS
  {
    if IsRegister(arg) then Ok(arg - REG_BASE) else Err(InvalidRegister(arg))
  }

  /** `val`: the value a value operand denotes. */
  function Val(regs: seq<Word>, arg: Word): (r: Result<Word>)
    requires |regs| == NUM_REGS
    ensures r.Ok? <==> arg < REG_END
  {
    if arg < REG_BASE then Ok(arg)
    else if arg < REG_END then Ok(regs[arg - REG_BASE])
    else Err(InvalidArgument(arg))
  }

  /** The binary operations whose result goes to a register. */
  datatype BinOp = EqOp | GtOp | AddOp | MulOp | ModOp | AndOp | OrOp

  function Pow2(k: nat): (p: nat)
    ensures p >= 1
  {
    if k == 0 then 1 else 2 * Pow2(k - 1)
  }

  /** `a & b` on naturals, computed bit by bit from the bottom. */
  function AndBits(a: nat, b: nat): nat
    decreases a
  {
    if a == 0 || b == 0 then 0
    else (if a % 2 == 1 && b % 2 == 1 then 1 else 0) + 2 * AndBits(a / 2, b / 2)
  }

  /** `a | b` on naturals, computed bit by bit from the bottom. */
  function OrBits(a: nat, b: nat): nat
    decreases a + b
  {
    if a == 0 then b
    else if b == 0 then a
    else (if a % 2 == 1 || b % 2 == 1 then 1 else 0) + 2 * OrBits(a / 2, b / 2)
  }

  /** `a & b` on u16 values. */
  function BitAnd(a: Word, b: Word): (r: Word)
  {
    AndBitsBelow(a, b);
    AndBits(a, b)
  }

  /** `a | b` on u16 values. */
  function BitOr(a: Word, b: Word): (r: Word)
  {
    Pow2Widths();
    OrBitsBelow(a, b, 16);
    OrBits(a, b)
  }

  /** `(!a) & 0x7FFF` on a u16 value: `!a` is `0xFFFF - a`, and masking with
      0x7FFF keeps the remainder modulo 0x8000. */
  function NotMask(a: Word): Word {
    (0xFFFF - a) % 0x8000
  }

  /** `a.wrapping_mul(b)` on u16 values. */
  function WrappingMul(a: Word, b: Word): Word {
    (a * b) % 0x1_0000
  }

  /** The value a binary instruction computes from its two resolved operands. */
  function Apply(op: BinOp, a: Word, b: Word): (r: Result<Word>)
  {
    match op
    case EqOp => Ok(if a == b then 1 else 0)
    case GtOp => Ok(if a > b then 1 else 0)
    case AddOp => if a + b < 0x1_0000 then Ok((a + b) % MODULUS) else Err(AddOverflow)
    case MulOp => Ok(WrappingMul(a, b) % MODULUS)
    case ModOp => if b == 0 then Err(DivisionByZero) else Ok(a % b)
    case AndOp => Ok(BitAnd(a, b))
    case OrOp => Ok(BitOr(a, b))
  }

  /** Resolves both operands, left to right, then applies the operation. */
  function Binary(regs: seq<Word>, op: BinOp, v1: Word, v2: Word): (r: Result<Word>)
    requires |regs| == NUM_REGS
  {
    match Val(regs, v1)
    case Err(f) => Err(f)
    case Ok(a) =>
      match Val(regs, v2)
      case Err(f) => Err(f)
      case Ok(b) => Apply(op, a, b)
  }

  /** `!` of the resolved operand of `not`. */
  function Complement(regs: seq<Word>, v: Word): (r: Result<Word>)
    requires |regs| == NUM_REGS
  {
    match Val(regs, v)
    case Err(f) => Err(f)
    case Ok(a) => Ok(NotMask(a))
  }

  // ---------------------------------------------------------------------
  // Properties of operand resolution and of the arithmetic

  /** A literal denotes itself, a register reference the register's current
      value, and anything larger is a fault. */
  lemma ValResolves(regs: seq<Word>, arg: Word)
    requires |regs| == NUM_REGS
    ensures arg < REG_BASE ==> Val(regs, arg) == Ok(arg)
    ensures IsRegister(arg) ==> Reg(arg).Ok? && Val(regs, arg) == Ok(regs[Reg(arg).value])
    ensures arg >= REG_END ==> Val(regs, arg) == Err(InvalidArgument(arg))
  {
  }

  /** Only register references are destinations: a literal destination faults,
      and the reference 32768 + i names register i. */
  lemma RegNamesRegisters(arg: Word)
    ensures Reg(arg).Ok? <==> IsRegister(arg)
    ensures Reg(arg).Ok? ==> arg == REG_BASE + Reg(arg).value
    ensures Reg(arg).Err? ==> Reg(arg) == Err(InvalidRegister(arg))
  {
  }

  /** Resolving an operand reads at most the register it names: machines
      that agree on that register resolve it alike. */
  lemma ValReadsOnlyNamedRegister(regs: seq<Word>, regs': seq<Word>, arg: Word)
    requires |regs| == NUM_REGS && |regs'| == NUM_REGS
    requires IsRegister(arg) ==> regs[arg - REG_BASE] == regs'[arg - REG_BASE]
    ensures Val(regs, arg) == Val(regs', arg)
  {
  }

  /** Reducing the wrapped u16 product modulo 32768 gives the true product
      modulo 32768, because 32768 divides 65536. */
  lemma {:induction false} MulIsProductMod(a: Word, b: Word)
    ensures WrappingMul(a, b) % MODULUS == (a * b) % MODULUS
    ensures WrappingMul(a, b) % MODULUS < MODULUS
  {
    NestedMod(a * b);
  }

  /** Reducing modulo 65536 and then modulo 32768 is reducing modulo 32768. */
  lemma NestedMod(p: nat)
    ensures (p % 0x1_0000) % MODULUS == p % MODULUS
  {
    var q := p / 0x1_0000;
    var w := p % 0x1_0000;
    assert p == 0x1_0000 * q + w;
    assert p == MODULUS * (2 * q + w / MODULUS) + w % MODULUS;
    assert 0 <= w % MODULUS < MODULUS;
  }

  /** `not` always yields a 15-bit value, and on a 15-bit operand it is the
      complement within 15 bits. */
  lemma NotMaskIsComplement(a: Word)
    ensures NotMask(a) < MODULUS
    ensures a < MODULUS ==> NotMask(a) == MODULUS - 1 - a
  {
  }

  /** The bits of `a & b` are among the bits of `a`, so it is at most `a`. */
  lemma {:induction false} AndBitsBelow(a: nat, b: nat)
    ensures AndBits(a, b) <= a && AndBits(a, b) <= b
    decreases a
  {
    if a != 0 && b != 0 {
      AndBitsBelow(a / 2, b / 2);
    }
  }

  /** `a | b` of two values below 2^k is below 2^k. */
  lemma {:induction false} OrBitsBelow(a: nat, b: nat, k: nat)
    requires a < Pow2(k) && b < Pow2(k)
    ensures OrBits(a, b) < Pow2(k)
    decreases a + b
  {
    if a != 0 && b != 0 {
      assert k > 0;
      OrBitsBelow(a / 2, b / 2, k - 1);
    }
  }

  lemma Pow2Widths()
    ensures Pow2(15) == MODULUS && Pow2(16) == 0x1_0000
  {
    assert Pow2(4) == 16;
    assert Pow2(8) == 256;
    assert Pow2(12) == 4096;
  }

  /** `and` and `or` of 15-bit operands are 15-bit values. */
  lemma BitwiseStaysInRange(a: Word, b: Word)
    requires a < MODULUS && b < MODULUS
    ensures BitAnd(a, b) < MODULUS && BitOr(a, b) < MODULUS
  {
    AndBitsBelow(a, b);
    Pow2Widths();
    OrBitsBelow(a, b, 15);
  }
}
