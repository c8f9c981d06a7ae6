# synacor-rs in Dafny

This project models three small Rust programs that solve the Synacor
Challenge, and proves properties of them.

- **The virtual machine** (`vm/src/main.rs`) is a fetch, decode and execute
  interpreter. The machine has 22 opcodes and 16-bit words. It has eight
  registers, an unbounded stack, 32768 memory cells, an input byte queue and
  an output byte buffer.
  - The model splits it into four parts:
    - words, faults and operand resolution (`Words`, `vm_words.dfy`);
    - the instruction set and the decoder (`Instructions`, `vm_decode.dfy`);
    - the reference semantics of one instruction, of one turn of the run loop
      and of a run (`Execution`, `vm_exec.dfy`);
    - the machine as an object (`VirtualMachine.VM`, `vm_machine.dfy`).
  - The object keeps the registers and memory in arrays and the stack and
    buffers in sequences, and its methods update them in place.
  - `GetC`, `Exec` and `Run` (with the three parts of `Exec`) are proved
    against the reference semantics through the ghost view `State()`.
  - `Load`, `PutC` and `Disassemble` are specified directly on the memory
    array and the fields.
  - The properties of the semantics are lemmas in `VmProperties`
    (`vm_props.dfy`). They cover halting, frames, arithmetic bounds, the stack
    discipline, self-modifying code, input and output, and how runs resume.
- **The teleporter search** (`ack/src/main.rs`) evaluates a modified
  Ackermann function modulo 32768 for every candidate value of the eighth
  register. It memoises the function in two flat tables.
  - `Ackermann.Ack` is the function.
  - `Ackermann.AckMemo` is the memoised evaluation over `done`/`tab` arrays,
    proved equal to it.
  - `Ackermann.Trial`, `Ackermann.Worker` and `Ackermann.FindMagic` are the
    per-candidate body, one worker's range and the whole search.
- **The vault maze** (`path/src/main.rs`) is a depth-first search with an
  explicit stack over a 4x4 grid of operators and numbers. It looks for a walk
  that reaches the vault door with weight 30.
  - `Maze.Walk` gives the meaning of a list of moves.
  - `Maze.Visit` is one turn of the loop; `Maze.Search` is the loop.
  - Both are proved to report only walks that open the door.
  - `Maze.Search` is also proved to terminate.

External input is a parameter:
- the terminal's lines are the `console` field, a list of strings;
- the program image is the argument of `Load`.

Where the code is easy to misread, the model follows it:
- `out` writes the UTF-8 encoding of the character code. A surrogate code
  faults, as `char::from_u32(..).unwrap()` does. The bytes are not restricted
  to 8-bit ASCII.
- `add` faults when the u16 sum of its operands exceeds 65535. That is the
  overflow check of a debug build. Operands below 32768 never trigger it.
  A release build would instead wrap the sum and store
  `(a + b) % 65536 % 32768`; the model does not capture that build.
- `getc` applies the `#` patch as written:
  - cells 0x1571..0x1576 become `noop` (21);
  - register 7 becomes 25734.
- Effects happen in the order the code performs them:
  - an assignment evaluates its value before its destination, so `pop` with a
    literal destination has already popped the stack when it faults;
  - `call` pushes its return address in a statement before it resolves the
    target, so `call` to an invalid target has already pushed it.

## Model

| member | source | states |
|---|---|---|
| Words.Reg | vm/src/main.rs:159-165 | a destination that resolves names a register below 8 |
| Words.Val | vm/src/main.rs:167-175 | operand resolution succeeds exactly for words below 32776 |
| Words.ValResolves | vm/src/main.rs:159-175 | a literal below 32768 denotes itself; a reference 32768+i denotes register i's current value; 32776 and above fault with `InvalidArgument` |
| Words.RegNamesRegisters | vm/src/main.rs:159-165 | a destination resolves exactly when it is a register reference, to register `arg - 32768`; otherwise it faults with `InvalidRegister`, so a literal destination faults |
| Words.ValReadsOnlyNamedRegister | vm/src/main.rs:167-175 | resolving an operand is unaffected by the values of the other registers |
| Words.MulIsProductMod | vm/src/main.rs:192 | `wrapping_mul` reduced modulo 32768 equals the true product modulo 32768, and is below 32768 |
| Words.NotMaskIsComplement | vm/src/main.rs:196 | `(!v) & 0x7FFF` is below 32768, and for a 15-bit `v` it is `32767 - v` |
| Words.AndBitsBelow | vm/src/main.rs:194 | `a & b` is at most `a` and at most `b` |
| Words.OrBitsBelow | vm/src/main.rs:195 | `a \| b` of two values below 2^k is below 2^k |
| Words.BitwiseStaysInRange | vm/src/main.rs:194-195 | `and` and `or` of 15-bit operands are 15-bit values |
| Instructions.Opcode | vm/src/main.rs:131-156 | every instruction's opcode is below 22 |
| Instructions.Encode | vm/src/main.rs:131-156 | an instruction occupies one to four words |
| Instructions.Arity | vm/src/main.rs:131-154 | every opcode takes at most three operand words |
| Instructions.Build | vm/src/main.rs:131-154 | the instruction built from an opcode and its operands has that opcode and those operands |
| Instructions.DecodeFaults | vm/src/main.rs:125-157 | decoding faults exactly when the opcode address is outside memory, the opcode is 22 or more (`UnknownOpcode`), or the operands run past the end of memory; otherwise the next address lies after `ip` and inside memory |
| Instructions.DecodeReadsEncoding | vm/src/main.rs:125-157 | the words from `ip` up to the returned address are exactly the decoded instruction's encoding |
| Instructions.BuildFromEncoding | vm/src/main.rs:131-154 | opcode and operands determine the instruction, and the operand count is the opcode's arity |
| Instructions.DecodeEncode | vm/src/main.rs:125-157 | an instruction's encoding at `ip` decodes back to that instruction, with the address after its words |
| Instructions.DecodeAdvancesByArity | vm/src/main.rs:125-157 | a successful decode reads an opcode below 22 and advances `ip` by one plus its arity |
| Instructions.DecodeReadsWindow | vm/src/main.rs:125-157 | decoding depends only on the four words at `ip`, so it re-reads current memory |
| Execution.Initial | vm/src/main.rs:91-102 | a new machine has zero registers and memory, and an empty stack, queue and output |
| Execution.Patch | vm/src/main.rs:226-234 | the `#` patch sets cells 0x1571..0x1576 to 21 and register 7 to 25734, and changes nothing else |
| Execution.LineBytes | vm/src/main.rs:218-224 | a line is enqueued as one byte per character |
| Execution.ReadByte | vm/src/main.rs:216-238 | `getc` never delivers `#`, and leaves the stack, the output and the reading mode unchanged |
| Execution.FirstNonHash | vm/src/main.rs:226-236 | the byte found is not `#` |
| Execution.Utf8 | vm/src/main.rs:210-214 | `putc` faults exactly on surrogate codes, and writes one to three bytes otherwise |
| Execution.Store | vm/src/main.rs:183 | a register store keeps the machine well formed |
| Execution.Step | vm/src/main.rs:177-208 | `exec` keeps the machine well formed; the new state for each instruction, with valid operands, is stated by the `VmProperties` lemmas `HaltIff`, `SetStores`, `PushThenPop`, `PopStoresTop`, `PopEmptyFaults`, `CompareStoresBit`, `JumpsOnlyMoveIp`, `AddStoresSum`, `MulStoresProduct`, `ModStoresRemainder`, `BitwiseStores`, `NotStoresComplement`, `RmemReads`, `WmemWrites`, `CallThenRet`, `CallInvalidTargetPushes`, `RetPopsTop`, `OutAppends`, `InStoresByte` and `NotStores`; the panic on an invalid value operand by `OperandFaults`, `BinaryOperandFaults`, `UntakenTargetIgnored` and `CallInvalidTargetPushes` |
| Execution.Cycle | vm/src/main.rs:116-120 | one turn of `run` keeps the machine well formed |
| Execution.Execute | vm/src/main.rs:113-123 | a run keeps the machine well formed |
| Execution.Image | vm/src/main.rs:104-111 | a word sequence's image is two bytes per word |
| VirtualMachine.VM.constructor | vm/src/main.rs:91-102 | the new machine's state is `Initial`, with `lastip` 0 |
| VirtualMachine.VM.Load | vm/src/main.rs:104-111 | cell `i` gets the little-endian word of bytes `2i` and `2i+1` for every complete pair; cells past the image keep their value; it fails exactly when the image has more than 32768 words |
| VirtualMachine.VM.PutC | vm/src/main.rs:210-214 | the character's UTF-8 bytes are appended to the output, a surrogate code fails, and nothing else changes |
| VirtualMachine.VM.GetC | vm/src/main.rs:216-238 | the byte delivered and the new state are those of `ReadByte` |
| VirtualMachine.VM.StoreReg | vm/src/main.rs:183 | the outcome and new state are those of `Store` |
| VirtualMachine.VM.Exec | vm/src/main.rs:177-208 | the outcome and new state are those of `Step` |
| VirtualMachine.VM.ExecStore | vm/src/main.rs:183-197 | for the register-writing instructions, the outcome and new state are those of `Step` |
| VirtualMachine.VM.ExecData | vm/src/main.rs:184-205 | for `push`, `pop`, `wmem`, `out` and `in`, the outcome and new state are those of `Step` |
| VirtualMachine.VM.ExecControl | vm/src/main.rs:182-205 | for `halt`, jumps, `call`, `ret` and `noop`, the outcome and new state are those of `Step` |
| VirtualMachine.VM.Run | vm/src/main.rs:113-123 | the final state, `lastip` and status are those of `Execute` from the old state and old `lastip` |
| VirtualMachine.VM.Disassemble | vm/src/main.rs:263-270 | the listing and the fault that ends it are those of `Listing` on the current memory; nothing changes |
| VirtualMachine.Listing | vm/src/main.rs:263-270 | a listing has at most `count` entries, and exactly `count` when no fault cut it short |
| VirtualMachine.ListingNext | vm/src/main.rs:263-270 | the listing continues at `start`, or where the decoder left off after the last entry |
| VirtualMachine.ListingCut | vm/src/main.rs:263-270 | a listing cut short by a fault stays the same when more instructions are asked for |
| VirtualMachine.ListingEntry | vm/src/main.rs:263-270 | entry k is what the decoder reads at its address; the first address is `start`; each next address is where the decoder left off |
| VirtualMachine.ListingFault | vm/src/main.rs:263-270 | a listing cut short ends with the decoder's fault at the next address |
| VmProperties.HaltIff | vm/src/main.rs:182-204 | `exec` halts exactly on `halt`, on `ret` with an empty stack, and on `in` with an empty queue in scripted mode; a halt changes nothing |
| VmProperties.StoreFrame | vm/src/main.rs:183-197 | a register-writing instruction that goes on changes only its destination register and goes to the next instruction; when it fails it faults and changes nothing; a literal destination always faults |
| VmProperties.AddStoresSum | vm/src/main.rs:191 | `add` stores the sum modulo 32768, and faults on a u16 overflow |
| VmProperties.MulStoresProduct | vm/src/main.rs:192 | `mul` stores the true product modulo 32768 |
| VmProperties.ModStoresRemainder | vm/src/main.rs:193 | `mod` stores the remainder, and faults with a zero divisor |
| VmProperties.NotStoresComplement | vm/src/main.rs:196 | `not` of a 15-bit value stores its 15-bit complement |
| VmProperties.NotStores | vm/src/main.rs:196 | `not` of any resolved value, including one of 32768 or more, stores `(!v) & 0x7FFF`, which is below 32768 |
| VmProperties.CompareStoresBit | vm/src/main.rs:186-187 | `eq` and `gt` store 0 or 1, and 1 exactly when the comparison holds |
| VmProperties.BitwiseStores15Bits | vm/src/main.rs:194-195 | `and` and `or` of 15-bit values store 15-bit values |
| VmProperties.SetStores | vm/src/main.rs:183 | `set` stores the resolved value in its register; an invalid value faults first, then an invalid destination, both with the machine unchanged |
| VmProperties.BitwiseStores | vm/src/main.rs:194-195 | `and` and `or` store the bitwise `&`, resp. `\|`, of the resolved operands |
| VmProperties.RmemReads | vm/src/main.rs:197 | `rmem` stores the cell at the resolved address, literal or register; an address past memory faults with the machine unchanged |
| VmProperties.OperandFaults | vm/src/main.rs:167-175 | `set`, `push`, `not`, `out`, `rmem`, `jmp`, `jt`, `jf` and `wmem` with a value operand of 32776 or more panic with `InvalidArgument` and change nothing; `wmem` resolves its value before its address |
| VmProperties.BinaryOperandFaults | vm/src/main.rs:167-175 | `eq`, `gt`, `add`, `mul`, `mod`, `and` and `or` panic with `InvalidArgument` on the first of their two value operands that is 32776 or more, changing nothing |
| VmProperties.ContinuingOperandsValid | vm/src/main.rs:183-202 | an instruction that goes on had every value operand it resolved below 32776; `jt`/`jf` resolve the target only when the jump is taken |
| VmProperties.StepFrame | vm/src/main.rs:182-205 | for an instruction that goes on (neither halts nor faults): memory changes only by `wmem` and `in`; the stack only by `push`, `pop`, `call` and `ret`; the output only by `out`; the queue only by `in`; registers only by register-writing instructions, `pop` and `in` |
| VmProperties.JumpsOnlyMoveIp | vm/src/main.rs:188-190 | `jmp` goes to its absolute target; `jt`/`jf` go there exactly when the condition is non-zero, resp. zero, and otherwise fall through; `noop` falls through; none changes the machine |
| VmProperties.UntakenTargetIgnored | vm/src/main.rs:189-190 | an invalid target of `jt`/`jf` faults only when the jump is taken |
| VmProperties.WmemWrites | vm/src/main.rs:198 | `wmem` writes the value at the address and changes nothing else; an address past memory faults |
| VmProperties.WmemThenRmem | vm/src/main.rs:197-198 | for a literal address inside memory, `rmem` after `wmem` at that address reads the written value |
| VmProperties.WmemThenDecode | vm/src/main.rs:125-157 | after `wmem`, instructions that do not cover the written cell decode as before, and a non-opcode written at an address makes decoding there fault |
| VmProperties.PushThenPop | vm/src/main.rs:184-185 | `push` appends the value, and a following `pop` restores the stack and stores the value |
| VmProperties.PopStoresTop | vm/src/main.rs:185 | `pop` on a non-empty stack removes the top and stores it; a non-register destination faults after the pop |
| VmProperties.RetPopsTop | vm/src/main.rs:200-201 | `ret` on a non-empty stack removes the top and continues at it |
| VmProperties.PopEmptyFaults | vm/src/main.rs:185 | `pop` on an empty stack faults and changes nothing |
| VmProperties.CallThenRet | vm/src/main.rs:199-201 | `call` pushes the address after it and jumps; a following `ret` returns there with the stack as before |
| VmProperties.CallInvalidTargetPushes | vm/src/main.rs:199 | `call` to an invalid target faults after pushing its return address |
| VmProperties.PendingTail | vm/src/main.rs:216-225 | after the queue's first byte, the input still to come is the rest of the queue followed by the terminal's lines |
| VmProperties.ReadByteIsFirstNonHash | vm/src/main.rs:216-238 | `getc` delivers the first non-`#` byte of the queue followed by the terminal's lines, and leaves the rest to be read; when there is none, input is exhausted |
| VmProperties.ReadByteOnlyPatches | vm/src/main.rs:226-234 | `getc` changes memory only in the patched cells, and only to 21; it changes registers only in register 7, and only to 25734 |
| VmProperties.ReadByteAppliesPatch | vm/src/main.rs:226-234 | after a queued `#`, the patched cells hold 21 and register 7 holds 25734 once `getc` returns |
| VmProperties.InStoresByte | vm/src/main.rs:203-204 | `in` that does not halt stores the byte `getc` delivers, in the state `getc` leaves; exhausted input or a non-register destination faults in that state |
| VmProperties.ReadByteNoHash | vm/src/main.rs:236 | a queued byte that is not `#` is popped as it is |
| VmProperties.OutAppends | vm/src/main.rs:202 | `out` appends the UTF-8 bytes of the resolved code to the output, and faults on a surrogate with the machine unchanged |
| VmProperties.Utf8RoundTrip | vm/src/main.rs:210-214 | `putc`'s bytes decode back to the character, and a 7-bit character is its own single byte |
| VmProperties.HaltedAtHalting | vm/src/main.rs:113-123 | a run that halted has `lastip` at an instruction that halts in the final state |
| VmProperties.HaltRepeats | vm/src/main.rs:113-123 | running again after a halt halts at once and changes nothing |
| VmProperties.ResumeAfterInput | vm/src/main.rs:113-123 | `in` halts on an empty queue in scripted mode; for a register destination and a queued line whose first byte is not `#`, running from the same address then stores that byte and moves on |
| VmProperties.ImageLoads | vm/src/main.rs:104-111 | the little-endian words of a word sequence's image are those words |
| VmProperties.TrailingByteIgnored | vm/src/main.rs:104-111 | a trailing odd byte of the image changes neither the word count nor any word |
| Ackermann.Ack | ack/src/main.rs:21-41 | the modified Ackermann function, with results below 32768 |
| Ackermann.SlotParts | ack/src/main.rs:22 | slot `N*m + n` determines `m` and `n`, and lies inside the tables for `m < 6` |
| Ackermann.AckOne | ack/src/main.rs:25-31 | `ack(1, n, r) = (n + r + 1) mod 32768` |
| Ackermann.AckTwo | ack/src/main.rs:25-39 | `ack(2, n, r) = ((n + 2)(r + 1) - 1) mod 32768` |
| Ackermann.AckTwoStep | ack/src/main.rs:32-35 | the closed form at `n` follows from the one at `n - 1` |
| Ackermann.AckMemo | ack/src/main.rs:21-41 | the memoised `ack` returns the unmemoised value; it keeps every done slot holding its true value; it never unmarks a slot; it changes `tab` only in slots it marks; it marks the slot it computes in the general case |
| Ackermann.Trial | ack/src/main.rs:55-59 | clearing `done` and evaluating gives `ack(4, 1, r)` |
| Ackermann.RangesPartition | ack/src/main.rs:46-53 | the four worker ranges are consecutive and disjoint, and cover exactly 0..32767 |
| Ackermann.Worker | ack/src/main.rs:53-62 | a worker reports exactly the candidates of its range with `ack(4, 1, r) = 6`, in increasing order |
| Ackermann.FindMagic | ack/src/main.rs:45-76 | all reports together are exactly the candidates below 32768 with `ack(4, 1, r) = 6` |
| Maze.DirName | path/src/main.rs:14-21 | every direction has a name of at least four letters |
| Maze.DirNamesDistinct | path/src/main.rs:14-21 | different directions have different names |
| Maze.Checkerboard | path/src/main.rs:23-33 | number rooms are exactly those with odd `y + x`, and no room has more than four exits |
| Maze.MoveStaysInGrid | path/src/main.rs:29-47 | an allowed move stays in the grid, and goes from a number room to an operator room or back |
| Maze.Combine | path/src/main.rs:50-55 | entering a number room applies the last operator, and only an operator, not a number, can be applied |
| Maze.Advance | path/src/main.rs:42-56 | a move that can be taken ends inside the grid |
| Maze.Walk | path/src/main.rs:36-56 | a walk that is allowed ends inside the grid |
| Maze.WalkSnoc | path/src/main.rs:42-56 | extending a walk by one move advances its end pose by that move |
| Maze.AllGoodPop | path/src/main.rs:41 | popping a stack of good states leaves good states and yields one |
| Maze.Popped | path/src/main.rs:42-56 | the move of a good state stays in the grid; a number room is entered only from an operator room, so `unreachable!()` is unreachable; the extended walk ends at the new room with the operator's weight |
| Maze.StartGood | path/src/main.rs:36-38 | the two starting states are good |
| Maze.Cost | path/src/main.rs:61-67 | every state has a positive cost |
| Maze.StackCostSnoc | path/src/main.rs:65-67 | the cost of a stack adds the cost of a pushed state |
| Maze.StackCostAppend | path/src/main.rs:65-67 | the cost of a stack adds the costs of pushed states |
| Maze.AllGoodAppend | path/src/main.rs:65-67 | pushing good states onto good states gives good states |
| Maze.ChildGood | path/src/main.rs:61-67 | a pushed state is good when its room is reached by its walk and the pruning test passed |
| Maze.ExpansionCost | path/src/main.rs:61-67 | the states pushed for a room cost less than the state popped |
| Maze.PushesGood | path/src/main.rs:65-67 | all states pushed for a room are good |
| Maze.UniformCost | path/src/main.rs:65-67 | states with equally many moves behind them cost the same each |
| Maze.VaultMove | path/src/main.rs:23-33 | each move of a fixed twelve-move way is allowed and gives the next weight |
| Maze.VaultPrefix | path/src/main.rs:42-56 | the first k+1 moves of that way lead to its k-th pose |
| Maze.VaultReachable | path/src/main.rs:57-60 | a walk of twelve moves from the antechamber reaches the vault door with weight 30, so the goal of the search exists within its depth bound |
| Maze.Expand | path/src/main.rs:65-67 | one state per exit of the room, in the room's order, carrying the room's instruction, the weight and the moves |
| Maze.Visit | path/src/main.rs:42-67 | the walk is reported exactly when the new room is the vault door (0, 3) and the weight is 30; otherwise a number room with weight at most 0 or 12 moves behind it pushes nothing, and every other room pushes one state per exit of `DIRS`, in order, carrying the room's instruction, the weight and the extended walk; a reported walk reaches the vault door with weight 30 in at most 13 moves; pushed states are good and cost less than the popped state |
| Maze.Search | path/src/main.rs:35-68 | the search terminates, and a walk it returns reaches the vault door from the antechamber with weight 30 in at most 13 moves |

## Left out

- Console output is not modelled: `print!` in `putc`, the `disasm` trace in `exec`, the `println!` in `disassemble`, the progress lines of the teleporter search and the printing of the maze's path. Output exists only as the `outbuf` bytes.
- The `Display` implementation and `fmt_arg` are not modelled. They are Rust formatting; `Disassemble` returns the decoded instructions instead.
- The VM's `main` is not modelled. It opens `../challenge.bin` and feeds a fixed walkthrough script, which is I/O and puzzle data.
- `maze_step` is not modelled. It depends on `rand::random` and on substring searches in the game's output.
- The `disasm` flag is not modelled, since it only turns on tracing.
- VirtualMachine.VM.Run: it takes a fuel bound, and reports `OutOfFuel` when the bound is spent; the source loops until a halt or panic.
- Execution.ReadByte: it reports `InputExhausted` at end of input. There `read_line` returns an empty line, and the source's `getc` recurses until the stack overflows.
- Execution.ReadByte: an error from `read_line` is not modelled. The terminal is a list of lines supplied in advance.
- Ackermann.FindMagic: the four threads, the `mpsc` channel, the thread stack size and the boxed tables are not modelled. The workers run one after another, so the hits come out in increasing order where the channel delivers them in any order.
- Ackermann.AckMemo: the u16 and usize arithmetic is unbounded here. Arguments stay below 32768 and slots below `6 * 32768`, so no overflow is possible.
- Maze.Search: it is not proved to find a way whenever one exists. `Maze.VaultReachable` shows that one exists.
- Maze.Search: the weights are unbounded integers where the source uses `isize`. No overflow is modelled; walks of at most 13 moves keep the weights small.
- Maze.Visit: it returns the states to push, and `Maze.Search` pushes them onto the stack in the same order as the source's `for` loop.
