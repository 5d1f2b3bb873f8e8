# jit-bf core, modelled in Dafny

jit-bf compiles programs of the eight-character tape language (`><+-.,[]`) through four
passes of `src/main.rs`, and also has a reference interpreter:

- **Lexer** (`get_op_string`). Each operator character becomes a unit `Op`. Counts are 1 and
  loop targets are 0. Every other character is dropped.
- **Folder** (`collapse_multiple`, `get_count`). A maximal run of adjacent pointer moves,
  or of cell adds or subtracts of one kind, becomes one op. Its count is the run's length.
- **Resolver** (`set_jump_targets`). A scan with a stack of pending `[` indices. It writes
  into each matched `[` the index of its `]`, and into the `]` the index of its `[`.
  It panics on a `]` whose stack is empty.
- **Interpreter** (`interpret`). A loop over `pc` with a data pointer `dp` into a tape of
  30000 zeroed bytes.
- **Emitter** (`emit_x86`). Each op gets an x86-64 byte buffer of fixed length by kind.
  The inclusive prefix sum of these lengths is taken as `lengths`. Then the 32-bit
  displacement at the end of each loop buffer is patched. The result is a prologue
  `mov r13, addr`, the buffers in order, and `ret`.

Modules, one file each:

| Module | File | Contents |
|---|---|---|
| `Ops` | `ops.dfy` | The `Op` enum and its discriminant `Kind` |
| `Lexer` | `lexer.dfy` | Pure functions |
| `Folder` | `folder.dfy` | The two loops as methods, proved against the function `Fold`. Also run-length expansion (`Expand`), the fold's inverse |
| `Resolver` | `resolver.dfy` | The in-place scan over an `array<Op>`, proved against a pairing defined by bracket depth (`Resolution`) |
| `Interpreter` | `interp.dfy` | The loop with the tape as an array, proved against a step function `Step` and a fuel-bounded run `Run` |
| `Emitter` | `emitter.dfy` | The `temp` array of buffers, the `lengths` array and the patching loop, proved against the byte image `Image` |
| `Layout` | `layout.dfy` | Where each buffer sits in the image and what its bytes say. Each loop's displacement lands at the start of the op that the interpreter's `pc = target; pc += 1` rule runs next |
| `Scenarios` | `scenarios.dfy` | Small programs worked through every stage |

Two behaviours follow the code as written, though one might expect the opposite (folding
to be idempotent, an unclosed `[` to be rejected):

- **Folding is not idempotent.** The folded count is the run length, whatever counts the
  run's ops carried. So folding `[IncrPointer(3)]` gives `[IncrPointer(1)]`. `Refold` proves
  that folding twice equals folding once exactly when the first fold has only unit counts.
- **An unclosed `[` is not an error.** `set_jump_targets` panics only on a `]` met with an
  empty stack. A `[` still pending at the end keeps its target.

## Model

| member | source | states |
|---|---|---|
| Ops.WithCount | src/main.rs:142-158 | rebuilding an op of a foldable kind with a new count keeps the kind and carries exactly that count |
| Lexer.LexChar | src/main.rs:120-133 | a character yields an op iff it is one of the eight operator characters, and that op is a unit op (count 1, target 0) |
| Lexer.LexIsOnePerOpChar | src/main.rs:117-135 | the lexer yields exactly one op per operator character of the text, in source order, each being that character's op |
| Lexer.LexIsUnit | src/main.rs:122-129 | every lexed pointer move and cell update has count 1, and every lexed loop op has target 0 (`.` and `,` carry neither) |
| Lexer.LexDropsOthers | src/main.rs:130 | a text with no operator character lexes to the empty program |
| Lexer.LexAppend | src/main.rs:117-135 | lexing a concatenation of two texts is the concatenation of their lexes |
| Lexer.UnlexLex | src/main.rs:117-135 | writing the lexed ops back as characters gives exactly the operator characters of the text |
| Lexer.LexUnlex | src/main.rs:117-135 | lexing the written form of a unit program gives the program back |
| Folder.RunEndMaximal | src/main.rs:167-172 | the run found from an index is all of one kind and is followed by the end of the input or by another kind |
| Folder.GetCount | src/main.rs:167-173 | `get_count` consumes exactly the following ops with the discriminant of `op`, stops at the end or at another kind, and returns one more than the number consumed |
| Folder.CollapseMultiple | src/main.rs:137-165 | `collapse_multiple` returns `Fold(input)` |
| Folder.FoldRoundTrip | src/main.rs:137-173 | on unit-count input, expanding every folded op into `count` unit copies gives the input back |
| Folder.FoldExpand | src/main.rs:137-173 | the other round trip: a program with maximal runs and positive counts is the fold of its expansion |
| Folder.FoldShape | src/main.rs:137-173 | the folded program is no longer than the input, every count is at least 1, and no two adjacent ops share a foldable kind |
| Folder.FoldKeepsOthers | src/main.rs:159 | `Output`, `Input`, `LoopStart` and `LoopEnd` pass through unchanged and in order, and are never merged |
| Folder.FoldFromShift | src/main.rs:140-162 | folding from a position does not depend on anything before it |
| Folder.FoldRepeat | src/main.rs:143-158 | `n` copies of a foldable op followed by another kind fold to that op with count `n`, then the fold of the rest |
| Folder.FoldCons | src/main.rs:159-161 | a non-foldable op heads the fold unchanged |
| Folder.FoldOfMaximal | src/main.rs:144-145 | on a program whose runs are already maximal, folding resets every count to 1 and changes nothing else |
| Folder.Refold | src/main.rs:144-145 | folding twice resets the counts of the first fold to 1, and equals folding once iff the first fold has unit counts |
| Folder.FoldIsNotIdempotent | src/main.rs:143-145 | `>>>` folds to `IncrPointer(3)`, which folds again to `IncrPointer(1)` |
| Resolver.SetJumpTargets | src/main.rs:175-196 | the scan succeeds iff no prefix closes more loops than it opens (otherwise the source panics), and on success the array is the unique resolution: same length, non-brackets unchanged, every matched `[`/`]` pair pointing at each other, every unclosed `[` untouched |
| Resolver.PushStack | src/main.rs:181-183 | pushing a `[` keeps the stack exactly the pending loop starts, bottom to top |
| Resolver.PopStack | src/main.rs:184-187 | the top of a nonempty stack is the `[` that matches the `]` being scanned, and popping it keeps the stack invariant |
| Resolver.PopEmpty | src/main.rs:185-190 | a `]` met with an empty stack is a prefix that closes more loops than it opens |
| Resolver.MatchReturns | src/main.rs:184-187 | right after a matched `]` the nesting depth is back to its level before the `[` |
| Resolver.MatchUnique | src/main.rs:181-190 | a `[` matches at most one `]`, a `]` at most one `[`, and an unclosed `[` matches none |
| Resolver.MatchesNest | src/main.rs:181-190 | pairs nest: a loop opened inside another closes inside it |
| Resolver.ResolutionUnique | src/main.rs:175-196 | a program has one resolution |
| Resolver.BalancedPairing | src/main.rs:184-187 | with balanced brackets, each `[` at `i` targets some `t > i` holding `LoopEnd(i)`, and each `]` at `t` targets some `i < t` holding `LoopStart(t)` |
| Resolver.ResolvedTargetsInRange | src/main.rs:186-187 | when the input's targets index it (the lexer's are 0), every resolved target indexes the program |
| Interpreter.AddByte | src/main.rs:211-213 | `+` adds the count modulo 256 |
| Interpreter.SubByte | src/main.rs:214-216 | `-` subtracts the count modulo 256 |
| Interpreter.Interpret | src/main.rs:198-241 | the loop over `pc`, `dp` and the tape array ends in exactly the outcome of `Run` on the zeroed initial state |
| Interpreter.StepFaults | src/main.rs:208-226 | of the panics this model keeps, a turn stops with each exactly when it arises: `dp -= i` below zero, a cell accessed past the tape, and `,` with no input left, which wins over a `,` off the tape because the byte is read before the cell is indexed |
| Interpreter.StepFrame | src/main.rs:203-240 | a turn changes at most the current cell; only `,` consumes input, taking its first byte into the cell; only `.` writes output, appending the cell's character; `pc` moves to the next op except for a loop op, which follows the jump rule |
| Interpreter.RunSplit | src/main.rs:203-240 | running for `a + b` turns is running `a` turns and then, if fuel ran out, `b` more |
| Interpreter.MoreFuel | src/main.rs:203-240 | a run that halts or panics within its fuel ends the same way with more fuel |
| Interpreter.RunIO | src/main.rs:217-227 | output is only appended to, and input only consumed from the front |
| Emitter.LittleEndianRoundTrip | src/main.rs:250 | `to_le_bytes` of a value in range reads back as that value |
| Emitter.I32RoundTrip | src/main.rs:303-309 | the four displacement bytes read back as a signed 32-bit number give the displacement |
| Emitter.Template | src/main.rs:245-290 | each kind of op has a buffer of fixed length: pointer moves 7, cell updates 5, output and input 26, loops 11 |
| Emitter.OffsetMonotone | src/main.rs:292-299 | the running total of buffer lengths never decreases |
| Emitter.Displacement | src/main.rs:302-306 | every displacement fits a signed 32-bit number |
| Emitter.Templates | src/main.rs:244-290 | the first loop gives each op its template buffer |
| Emitter.EndOffsets | src/main.rs:292-299 | `lengths[k]` is the total length of the buffers of ops `0..k`, the inclusive prefix sum |
| Emitter.PatchOne | src/main.rs:301-310 | one turn of the patching loop gives op `i` its patched buffer and changes no other buffer |
| Emitter.PatchAll | src/main.rs:301-310 | after the patching loop every buffer is its patched form |
| Emitter.EmitX86 | src/main.rs:243-316 | `emit_x86` returns exactly `Image`: the prologue with the address, the patched buffers in order, and `ret` |
| Layout.PatchedShape | src/main.rs:301-310 | patching changes no buffer's length, and only the last four bytes of a loop buffer |
| Layout.FlattenLength | src/main.rs:292-299 | the buffers of the first `k` ops take exactly `Offset(prog, k)` bytes |
| Layout.ImageLength | src/main.rs:312-315 | the code is 11 bytes longer than the sum of the buffer lengths |
| Layout.EmptyImage | src/main.rs:312-315 | the empty program compiles to `49 BD`, the 8-byte address, `C3` |
| Layout.PrologueAndRet | src/main.rs:312-315 | the code starts with `49 BD` and the little-endian address, and ends with `C3` |
| Layout.BufferPlacement | src/main.rs:312-315 | op `k`'s buffer occupies exactly the bytes from `Start(prog, k)` to `Start(prog, k + 1)` of the code |
| Layout.PointerImmediate | src/main.rs:247-256 | a pointer move is `add`/`sub r13` with its count `as u32` as a little-endian immediate |
| Layout.DataImmediate | src/main.rs:257-264 | a cell update is the 8-bit `add`/`sub` on the cell at r13, and its `as u8` immediate changes any cell value exactly as the interpreter's `+=`/`-=` of the count does (`AddByte`/`SubByte`) |
| Layout.LoopJumpAgrees | src/main.rs:279-310 | a loop buffer compares the cell with 0, uses `0F 84` for `[` and `0F 85` for `]`, stores `lengths[target] - lengths[i]`, and branches to the first byte of the op the interpreter runs next |
| Layout.LoopJumpInImage | src/main.rs:279-315 | the same holds for the 11 bytes read off the code at the op's start |
| Layout.HaltIsRet | src/main.rs:314 | the `ret` sits where the op after the last one would start, so running off the program returns |
| Scenarios.LexAddThree | src/main.rs:117-135 | `+++.` lexes to three unit adds and an output |
| Scenarios.FoldAddThree | src/main.rs:137-173 | those fold to `IncrData(3), Output` |
| Scenarios.RunAddThree | src/main.rs:198-241 | that program prints the character with code 3 and halts |
| Scenarios.LexClearCell | src/main.rs:117-135 | `+[-]` lexes to four unit ops |
| Scenarios.FoldClearCell | src/main.rs:137-173 | folding leaves them unchanged |
| Scenarios.ResolveClearCell | src/main.rs:175-196 | its brackets are resolved as `LoopStart(3)` and `LoopEnd(1)` |
| Scenarios.RunClearCell | src/main.rs:198-241 | it halts with cell 0 at 0 and no output |
| Scenarios.Echo | src/main.rs:217-227 | `,.` prints back the one input byte and consumes it |
| Scenarios.Panics | src/main.rs:208-226 | `,` with no input and `<` at cell 0 panic; `,` off the tape with no input left panics for the missing input |
| Scenarios.Unpaired | src/main.rs:181-190 | `][` is rejected; a lone `[` is accepted and keeps target 0 |
| Scenarios.EmptyProgram | src/main.rs:203 | the empty program halts at once |
| Scenarios.MinusSixteen | src/main.rs:307 | -16 is written as `F0 FF FF FF` |
| Scenarios.ClearCellDisplacements | src/main.rs:279-310 | in `+[-]` the `[` jumps 16 bytes forward and the `]` 16 bytes back |

## Left out

- `main` (src/main.rs:8-95) is not part of this model. It holds the hard-coded program, `mmap`/`mprotect`, the `transmute` and the call through a function pointer, which are operating-system and unsafe-memory plumbing.
- src/crl.rs (the Cranelift back end, `emit_clif`) is not part of this model. It drives a library whose code is not visible here.
- What a processor does with the emitted bytes is not modelled. This covers instruction decoding and the `write`/`read` system calls of `.` and `,`. The link to the interpreter is stated on the bytes: the opcode, the displacement and where the branch lands (`Layout.LoopJumpAgrees`).
- Interpreter.Interpret: real standard input and output become the `input` byte sequence and the `output` character sequence.
- Interpreter.Interpret: printing `data[dp] as char` writes one character. The source encodes bytes of 128 and above as two UTF-8 bytes on standard output. That encoding is not modelled.
- Interpreter.Interpret: the model mixes the two Rust builds. For `dp -= i` it follows a debug build, which panics below zero; a release build would wrap `dp` instead. For `data[dp] += i as u8` and `-=` it follows a release build, wrapping modulo 256 as the emitted 8-bit `add` does; a debug build would panic on overflow.
- Interpreter.Interpret: the panics this model keeps become a `Faulted` outcome carrying the state before the panicking turn, with nothing written after it:
  - `dp -= i` below zero (the debug-build check);
  - a tape index of 30000 or more;
  - `unwrap` at the end of input.
- Interpreter.Interpret: a `fuel` bound on the number of turns makes the model total. A program that does not stop in the source ends in `OutOfFuel` here.
- Interpreter.Interpret: `dp` is unbounded (the source's `usize` could wrap only after astronomically many moves).
- Emitter.EmitX86: requires `Emittable`, meaning:
  - every loop target indexes the program (otherwise `lengths[*end]` panics);
  - the total code length is below 2^31, so that the `as i32` casts are exact;
  - the address fits in 64 bits.

  Past those bounds the source's casts truncate silently.
- Emitter.EmitX86: the three phases are separate methods (`Templates`, `EndOffsets`, `PatchAll`). The final `insert`/`push`/`flatten` is written as the sequence expression `Prologue(addr) + Flatten(temp[..]) + [0xC3]`, not as updates to a vector of vectors.
- Folder.CollapseMultiple: the source has four match arms that differ only in the constructor. They are one branch here, passing an op of the run's kind to `GetCount` and rebuilding with `WithCount`. Counts are unbounded; the source's `usize` cannot overflow on any input that fits in memory.
- Resolver.SetJumpTargets: on the panic path the method returns `false`, and the array's contents afterwards are not specified, because the source aborts there.
- Lexer: characters are Dafny `char`s. `chars()` on UTF-8 text yields the same operator characters.
