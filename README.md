# pinkdrone, modelled in Dafny

pinkdrone is a tiny x86-64 backend for a six-instruction IR:

- `Begin(n, dests)` opens a frame of `n` bytes and saves the six System V
  integer arguments into up to six destinations.
- `Ret(src)` returns a value.
- `Copy(dest, src, count)` moves values between frame slots, pointers and
  immediates.
- `JIf(src, label)` jumps when an operand is nonzero.
- `Label(label)` marks a jump target.
- `FFICall(dest, args, f)` calls a foreign function with six operands.

An `Object` is a list of these instructions. The code generator turns an object into machine code, patching jump displacements once every label is known. The reference interpreter executes the same instructions over a byte stack. A small text syntax, parsed with nom, writes `Begin`, `Ret` and `Copy`.

The model has one Dafny module per source file:

| file | module | source | form |
|---|---|---|---|
| `wrappers.dfy` | `Wrappers` | — | `Option`, `Result`, and `Outcome` (a success-or-error value with no payload) |
| `bytes.dfy` | `Bytes` | — | Rust's `u8`, `u64` and `i32` as ranges of `int` |
| `instruction.dfy` | `Ir` | `src/instruction.rs` | datatypes and pure functions |
| `codegen.dfy` | `X64Codegen` | `src/codegen/mod.rs` | class `Codegen` |
| `object.dfy` | `ObjectCode` | `src/object.rs` | `Object.Codegen` |
| `interpreter.dfy` | `Interpreter` | `src/interpreter_fn/mod.rs` | class `InterpreterFn` |
| `parser.dfy` | `SurfaceParser` | `src/parser/mod.rs` | parser functions |

More detail on each:

- **`Bytes`**:
  - little-endian encoding and decoding, and 32-bit wrap-around (`as i32`);
  - the round trips between these.
- **`X64Codegen`**:
  - pure functions give the exact bytes each instruction appends;
  - `Emit` gives the effect of one `write` on the generator state;
  - `Finalized` gives the effect of `finalize`;
  - the class's fields are updated in place, and each method is proved to agree with these functions.
- **`ObjectCode`**:
  - `Object.Codegen` is a loop that writes each instruction and then finalizes;
  - the object-level properties are lemmas about `EmitAll` and `Compile`.
- **`Interpreter`**:
  - `Load`, `Store`, `Step` and `Exec` are pure functions over the stack as a sequence;
  - the class runs the loop in place on an `array`, and is proved to agree with them.
- **`SurfaceParser`**:
  - every nom parser is a function from the remaining input to the rest and a value, or `Fail`;
  - a printer is the partner for the round-trip lemmas;
  - the one loop in the source, the padding of `Begin`'s slots, is a method.

Every Rust panic the core can reach is an error value here:

- `assert!` and `expect`;
- a slice out of range;
- arithmetic overflow as a debug build checks it;
- a duplicate label.

The instruction enum in `src/instruction.rs` names its first two variants `FFIBegin` and `FFIRet`. Every user of the enum (the code generator, the interpreter and the parser) matches on `Begin` and `Ret`. The model uses `Begin` and `Ret`.

## Model

| member | source | states |
|---|---|---|
| Ir.Src.NeedsLoad | src/instruction.rs:33-38 | `needs_load` holds exactly for immediates, pointer and frame operands, and never for `Uninitialized` |
| Ir.Dest.NeedsStore | src/instruction.rs:51-56 | `needs_store` holds exactly for pointer and frame destinations, and never for `Nowhere` |
| Ir.Src.Offset | src/instruction.rs:40-47 | `Src::offset` fails, where the source's `i32` addition panics, exactly when the moved offset of a `Ptr` or `Here` leaves `i32` |
| Ir.Dest.Offset | src/instruction.rs:58-64 | the same for `Dest::offset` |
| Ir.SrcOffsetShape | src/instruction.rs:40-47 | `Src::offset` keeps `Uninitialized` and immediates. It moves only the far offset of `Ptr`, never the pointer slot, and the frame offset of `Here`. It keeps the variant, the width and `needs_load`. It fails exactly when the moved offset leaves `i32` |
| Ir.DestOffsetShape | src/instruction.rs:58-64 | the same for `Dest::offset`, with `needs_store` kept |
| Ir.OffsetZero | src/instruction.rs:40-64 | `offset(0)` is the identity on both operand kinds |
| Ir.OffsetCompose | src/instruction.rs:40-64 | `offset(a)` then `offset(b)` equals `offset(a + b)` when no step overflows |
| Ir.SameSize | src/instruction.rs:67-74 | `same_size` holds exactly when the destination is `Nowhere`, or the source is `Uninitialized` or an immediate, or the two widths agree |
| Ir.SameSizeOffset | src/instruction.rs:67-74 | shifting both operands of a copy by the same amount keeps `same_size` |
| X64Codegen.Emit | src/codegen/mod.rs:45-144 | one `write` fails exactly when the instruction's encoding fails, or when the instruction is a label already defined. On success the buffer is the old buffer followed by the instruction's encoding |
| X64Codegen.EmitKeepsWellFormed | src/codegen/mod.rs:110-131 | `write` keeps every recorded placeholder inside the buffer, and the windows in buffer order without overlap |
| X64Codegen.EmitCode | src/codegen/mod.rs:47-109 | `Begin`, `Ret`, `Copy` and `FFICall` only append their bytes: references and labels stay as they were |
| X64Codegen.EmitOnlyAppends | src/codegen/mod.rs:47-109 | any successful `write` other than `Label` and `JIf` leaves the references and label locations unchanged |
| X64Codegen.EmitJIfNever | src/codegen/mod.rs:110 | a `JIf` on the constant zero emits nothing and records nothing |
| X64Codegen.EmitJIfReference | src/codegen/mod.rs:111-131 | any other `JIf` ends in a four-byte zero placeholder. Exactly one new reference to the placeholder is recorded, after the old ones, measured from the end of the jump |
| X64Codegen.JIfCodeShape | src/codegen/mod.rs:110-131 | a jump's bytes end in the zero placeholder; a jump on constant zero has no bytes |
| X64Codegen.EmitLabel | src/codegen/mod.rs:133-137 | a label records the current buffer length. Defining it a second time fails with `DuplicateLabel` |
| X64Codegen.Finalized | src/codegen/mod.rs:29-43 | `finalize` keeps the buffer's length. It fails exactly when some reference names a label with no location |
| X64Codegen.FinalizedOutside | src/codegen/mod.rs:29-43 | `finalize` changes no byte outside the placeholder windows |
| X64Codegen.FinalizedPatches | src/codegen/mod.rs:29-43 | when windows do not overlap, each window ends up holding exactly its label's relocation |
| X64Codegen.FinalizedJumpLands | src/codegen/mod.rs:33-36 | after `finalize`, a relative placeholder's 32-bit displacement, added to the end of the jump, reaches the label modulo 2^32. It reaches the label exactly whenever the distance fits `i32` |
| X64Codegen.JumpDistance | src/codegen/mod.rs:34-35 | the displacement written for `(location - rel) as i32` reads back as that distance, up to 32-bit wrap-around |
| X64Codegen.RelocationBytes | src/codegen/mod.rs:33-40 | the relocation written is exactly as wide as its placeholder: four bytes for a relative reference, eight for an absolute one |
| X64Codegen.Patch | src/codegen/mod.rs:33-40 | patching one window keeps the buffer's length |
| X64Codegen.InstCode | src/codegen/mod.rs:45-144 | only `Copy` can make `write` fail, with `SizeMismatch` or `OffsetOverflow`; a `Label` appends no bytes |
| X64Codegen.LoadRaxImmediate | src/codegen/mod.rs:226-237 | zero loads as `xor eax, eax`. Any other immediate is `movabs rax` whose eight operand bytes read back as the value |
| X64Codegen.LoadStoreEmpty | src/codegen/mod.rs:223-299 | `load_rax` emits nothing exactly for `Uninitialized`, the one operand that does not `needs_load`; `store_rax` emits nothing exactly for `Nowhere` |
| X64Codegen.LoadRaxCode | src/codegen/mod.rs:223-251 | the bytes `load_rax` emits per operand kind. It has no contract of its own: `LoadStoreEmpty` states that it is empty exactly for operands that do not `needs_load`, and `LoadRaxImmediate` gives the `Imm` encodings |
| X64Codegen.StoreRaxCode | src/codegen/mod.rs:280-299 | the bytes `store_rax` emits per destination kind. It has no contract of its own: `LoadStoreEmpty` states that it is empty exactly for destinations that do not `needs_store` |
| X64Codegen.LoadRelativeToRaxCode | src/codegen/mod.rs:253-277 | the bytes of a load through `rax`. It has no contract of its own: `LoadRelativeDisplacement` states that it always ends with the offset as a little-endian 32-bit displacement |
| X64Codegen.StoreRelativeToRcxCode | src/codegen/mod.rs:301-313 | the bytes of a store through `rcx`. It has no contract of its own: `StoreRelativeDisplacement` states that it is one opcode followed by the offset as a 32-bit displacement |
| X64Codegen.LoadRelativeDisplacement | src/codegen/mod.rs:253-277 | the displacement form is always emitted, and its last four bytes read back as the offset. The `[rax]` form comes before it exactly when the offset is zero |
| X64Codegen.StoreRelativeDisplacement | src/codegen/mod.rs:301-313 | a store is one opcode followed by the offset as a 32-bit displacement |
| X64Codegen.BeginCode | src/codegen/mod.rs:47-84 | the bytes of `Begin`. It has no contract of its own: `BeginFrame` states that they start with the prologue `push rbp; mov rbp, rsp`, then the frame allocation, then the argument stores |
| X64Codegen.BeginFrame | src/codegen/mod.rs:47-84 | `Begin` starts with `push rbp; mov rbp, rsp`. Then comes `sub rsp, imm32` with `n as u32` exactly when `n > 0`, then the argument stores |
| X64Codegen.StoreArgsNone | src/codegen/mod.rs:71-83 | the argument stores of slots `0..k` are empty exactly when every one of those slots is `Nowhere` (does not `needs_store`) |
| X64Codegen.RetShape | src/codegen/mod.rs:85-98 | `Ret` is the load of the result into rax followed by the epilogue |
| X64Codegen.FfiCallCode | src/codegen/mod.rs:146-221 | `write_fficall` is never shorter than the twelve bytes of `movabs rax, f; call rax`. Where those bytes sit is stated by `FfiCallShape` |
| X64Codegen.FfiCallShape | src/codegen/mod.rs:165-189 | `movabs rax, f; call rax` (`48 B8`, eight bytes, `FF D0`) comes right after the argument pushes, and its eight operand bytes read back as the function's address. The optional store of rax and the pops follow it |
| X64Codegen.CallBytes | src/codegen/mod.rs:179-184 | the call sequence is twelve bytes: `48 B8`, the address as eight little-endian bytes that read back as the address, then `FF D0` |
| X64Codegen.JIfCode | src/codegen/mod.rs:110-131 | a `JIf` that emits a jump emits at least an opcode and a four-byte displacement |
| X64Codegen.PopsReversePushes | src/codegen/mod.rs:165-220 | `write_fficall` pops exactly the registers it pushed, in reverse order |
| X64Codegen.PopsMirrorPushes | src/codegen/mod.rs:165-220 | the pushed slots are those below `n`, then the popped slots from `n` read backwards |
| X64Codegen.CopyPairsCode | src/codegen/mod.rs:104-107 | the shifted load/store pairs fail only with `OffsetOverflow` |
| X64Codegen.CopyCode | src/codegen/mod.rs:101-109 | `Copy` fails with `SizeMismatch` exactly when the count is not 1 and `same_size` fails. Its only other failure is `OffsetOverflow`. A `Nowhere` destination emits nothing |
| X64Codegen.CopyPairsErrorPersists | src/codegen/mod.rs:104-107 | once one shifted copy overflows, every longer copy fails the same way |
| X64Codegen.Codegen.constructor | src/codegen/mod.rs:25-27 | a new generator has an empty buffer, no references, no labels, and is well formed |
| X64Codegen.Codegen.Finalize | src/codegen/mod.rs:29-43 | the in-place patching loop returns exactly `Finalized` of the buffer and references |
| X64Codegen.Codegen.PatchAt | src/codegen/mod.rs:33-40 | one window is overwritten with its relocation bytes and nothing else changes |
| X64Codegen.Codegen.Write | src/codegen/mod.rs:45-144 | `write` keeps the generator well formed. Its new state is exactly `Emit` of the old state, or it fails with the error `Emit` gives |
| X64Codegen.Codegen.WriteAppending | src/codegen/mod.rs:47-109 | the same for `Begin`, `Ret`, `Copy` and `FFICall` |
| X64Codegen.Codegen.WriteBegin | src/codegen/mod.rs:47-84 | appends exactly `BeginCode`: the frame setup, then one store per non-`Nowhere` slot in slot order |
| X64Codegen.Codegen.WriteFrameSetup | src/codegen/mod.rs:49-61 | appends the prologue and, for a nonempty frame, `sub rsp, n as u32` |
| X64Codegen.Codegen.WriteArgStore | src/codegen/mod.rs:79-82 | appends `mov rax, <argument register>` and the store, unless the slot is `Nowhere` |
| X64Codegen.Codegen.WriteRet | src/codegen/mod.rs:85-98 | appends the load and the epilogue |
| X64Codegen.Codegen.WriteCopy | src/codegen/mod.rs:101-109 | never shrinks the buffer. It fails exactly as `CopyCode` fails: a size mismatch when `count != 1`, or an offset overflow. On success it appends one load/store pair per repetition, each shifted by `i as i32` |
| X64Codegen.Codegen.WriteJIf | src/codegen/mod.rs:110-131 | appends `JIfCode`. It records a reference measured from the end of the jump exactly when a jump is emitted |
| X64Codegen.Codegen.WriteJump | src/codegen/mod.rs:111-118 | for a nonzero constant, appends `jmp rel32` with a zero placeholder and records a reference at the placeholder, measured from the end of the jump |
| X64Codegen.Codegen.WriteTestJump | src/codegen/mod.rs:119-131 | for any other operand, appends the load into `rax`, `test rax, rax` and `jnz rel32` with a zero placeholder, and records a reference at the placeholder, measured from the end of the jump |
| X64Codegen.Codegen.WritePlaceholder | src/codegen/mod.rs:114-117 | appends four zero bytes and records the reference to them |
| X64Codegen.Codegen.WriteFfiCall | src/codegen/mod.rs:146-221 | appends the pushes, the call, the optional store and the pops |
| X64Codegen.Codegen.PushArgs | src/codegen/mod.rs:165-177 | loads and pushes every operand that needs a load, slot 0 first |
| X64Codegen.Codegen.CallAndStore | src/codegen/mod.rs:179-189 | appends `movabs rax, f; call rax` and the store of the result, unless the destination is `Nowhere` |
| X64Codegen.Codegen.PopArgs | src/codegen/mod.rs:191-220 | pops the pushed registers, slot 5 first |
| X64Codegen.Codegen.LoadRax | src/codegen/mod.rs:223-251 | appends exactly `LoadRaxCode` of the operand |
| X64Codegen.Codegen.LoadRelativeToRax | src/codegen/mod.rs:253-277 | appends exactly `LoadRelativeToRaxCode` |
| X64Codegen.Codegen.StoreRax | src/codegen/mod.rs:280-299 | appends exactly `StoreRaxCode` of the destination |
| X64Codegen.Codegen.StoreRelativeToRcx | src/codegen/mod.rs:301-313 | appends exactly `StoreRelativeToRcxCode` |
| ObjectCode.EmitAll | src/object.rs:11-13 | writing a list keeps the generator well formed |
| ObjectCode.Object.Codegen | src/object.rs:9-15 | `codegen` returns exactly `Compile` of the instructions. The base address plays no part |
| ObjectCode.CodegenTwice | src/jit_fn/impl_windows.rs:18-33 | generating one object at two base addresses gives the same bytes, so the loader's length assertion always holds |
| ObjectCode.CompileEmpty | src/object.rs:9-15 | an empty object compiles to no bytes |
| ObjectCode.Compile | src/object.rs:9-15 | a successful `codegen` returns exactly as many bytes as were written: `finalize` only patches |
| ObjectCode.EmitAllAppends | src/object.rs:11-13 | writing a list appends exactly the concatenated encodings of its instructions |
| ObjectCode.CompileLength | src/object.rs:9-15 | the output is exactly as long as all the encodings together |
| ObjectCode.EmitAllLocations | src/object.rs:11-13 | after writing a list, a label is defined exactly when it was defined before or the list defines it |
| ObjectCode.EmitLabelKeys | src/codegen/mod.rs:133-137 | one `write` defines `l` exactly when `l` was defined before or the instruction is `Label(l)` |
| ObjectCode.EmitAllKeepsRefs | src/object.rs:11-13 | writing a list keeps every earlier reference, in place |
| ObjectCode.EmitAllRefersTo | src/object.rs:11-13 | every `JIf` that emits a jump leaves a reference to its target |
| ObjectCode.UndefinedLabelFails | src/codegen/mod.rs:31 | a jump to a label the object never defines makes `codegen` fail |
| ObjectCode.DuplicateLabelFails | src/codegen/mod.rs:134-136 | an object defining one label twice fails |
| ObjectCode.RedefinitionFails | src/codegen/mod.rs:134-136 | once a label is defined, a later `Label` of the same name fails the rest of the list |
| ObjectCode.DefinedAfter | src/codegen/mod.rs:134 | writing `Label(l)` leaves `l` defined |
| ObjectCode.EmitAllSplit | src/object.rs:11-13 | writing two lists in turn is writing their concatenation |
| Interpreter.Location | src/interpreter_fn/mod.rs:52 | `(base as i32 + offset) as usize`. It fails when the `i32` sum overflows or is negative; otherwise it is the wrapped base plus the offset |
| Interpreter.LoadRelative | src/interpreter_fn/mod.rs:51-59 | a successful load zero-extends: the value fits its width |
| Interpreter.StoreRelative | src/interpreter_fn/mod.rs:61-69 | a store keeps the stack's length. It succeeds exactly when the load of the same place does |
| Interpreter.StoreLoadRoundTrip | src/interpreter_fn/mod.rs:51-69 | loading what was just stored gives the value truncated to the width |
| Interpreter.StoreRelativeFrame | src/interpreter_fn/mod.rs:61-69 | a store writes the value's low bytes, little-endian, into its window, and no other byte |
| Interpreter.StoreRelativeTwice | src/interpreter_fn/mod.rs:61-69 | storing the same value twice is storing it once |
| Interpreter.LoadRelativeUnchanged | src/interpreter_fn/mod.rs:51-59 | a load is unaffected by writes outside its window |
| Interpreter.FreshStackReadsZero | src/interpreter_fn/mod.rs:25 | every in-range load from the fresh stack reads zero |
| Interpreter.LoadConstants | src/interpreter_fn/mod.rs:33-34 | `Uninitialized` loads the nonzero sentinel `0x123456789abcdef0`; an immediate loads itself |
| Interpreter.LoadHereFits | src/interpreter_fn/mod.rs:37 | a frame operand's value fits its width |
| Interpreter.PointerAccess | src/interpreter_fn/mod.rs:35-45 | through a pointer, the eight bytes at `bp + p` are the pointer. Both loads and stores then act at `pointer + f` |
| Interpreter.Load | src/interpreter_fn/mod.rs:31-39 | `load` fails only with an out-of-range access or an `i32` overflow |
| Interpreter.Store | src/interpreter_fn/mod.rs:41-49 | `store` fails only in the same two ways, and a successful store keeps the stack's length |
| Interpreter.CopyOnce | src/interpreter_fn/mod.rs:91-94 | one element of a copy fails only in those two ways and keeps the stack's length |
| Interpreter.CopyN | src/interpreter_fn/mod.rs:89-95 | a repeated copy fails only in those two ways and keeps the stack's length |
| Interpreter.BeginStores | src/interpreter_fn/mod.rs:79-84 | the argument stores of `Begin` fail only in those two ways and keep the stack's length |
| Interpreter.LoadOperands | src/interpreter_fn/mod.rs:103-109 | the operand loads of `FFICall` give one value per slot, or fail only in those two ways |
| Interpreter.LabelTableLast | src/interpreter_fn/mod.rs:13-19 | the table holds exactly the defined labels, each mapped to the last `Label` instruction naming it |
| Interpreter.LabelTable | src/interpreter_fn/mod.rs:13-19 | every entry of the label table is the index of a `Label` instruction with that name |
| Interpreter.InterpreterFn.constructor | src/interpreter_fn/mod.rs:13-23 | the construction loop builds exactly `LabelTable` of the program |
| Interpreter.Initial | src/interpreter_fn/mod.rs:25-29 | the run starts on a zeroed stack of `stack_size` bytes with `ip = 0` and `sp = bp = stack_size` |
| Interpreter.Step | src/interpreter_fn/mod.rs:71-112 | a step fails with `IpEscaped` exactly when `ip` is outside the program. A `Copy` step fails with `SizeMismatch` exactly when its count is not 1 and its operands do not have the same size (the assertion at line 90). Only `Ret` returns. Every other step keeps the stack's length and moves to `ip + 1`, or jumps to a recorded label location |
| Interpreter.InterpreterFn.Run | src/interpreter_fn/mod.rs:24-113 | the loop's result is exactly `Exec` from the initial machine with the same budget |
| Interpreter.InterpreterFn.StepInPlace | src/interpreter_fn/mod.rs:76-112 | one iteration done in place on the stack array agrees with `Step` |
| Interpreter.LoadFrom | src/interpreter_fn/mod.rs:31-39 | the array load equals `Load` on the array's contents |
| Interpreter.LoadRelativeFrom | src/interpreter_fn/mod.rs:51-59 | the array load equals `LoadRelative` |
| Interpreter.StoreRelativeInto | src/interpreter_fn/mod.rs:61-69 | the in-place store succeeds exactly when `StoreRelative` does. The array then holds its result; on failure the array is unchanged |
| Interpreter.StoreInto | src/interpreter_fn/mod.rs:41-49 | the in-place store agrees with `Store` |
| Interpreter.BeginInPlace | src/interpreter_fn/mod.rs:79-84 | the six in-place stores agree with `BeginStores` |
| Interpreter.CopyInPlace | src/interpreter_fn/mod.rs:91-94 | the copy loop agrees with `CopyN` |
| Interpreter.CopyToNowhere | src/interpreter_fn/mod.rs:89-95 | copying to `Nowhere` any number of times leaves the stack as it was |
| Interpreter.CopyRepeatIsOnce | src/interpreter_fn/mod.rs:89-95 | repeating a copy equals one copy (zero repetitions copy nothing). This holds when the destination is a frame slot and the source is a constant or a frame slot that does not overlap it |
| Interpreter.BeginStoresNowhere | src/interpreter_fn/mod.rs:79-84 | `Nowhere` slots store nothing |
| Interpreter.BeginFrame | src/interpreter_fn/mod.rs:77-78 | `Begin` sets `sp = bp - n`; a frame larger than `bp` underflows and fails |
| Interpreter.JIfJumps | src/interpreter_fn/mod.rs:96-101 | a zero operand falls through. A nonzero one jumps to the index of a `Label` instruction with that name, or fails exactly when no such instruction exists. `Uninitialized` always jumps |
| Interpreter.ExecMoreFuel | src/interpreter_fn/mod.rs:71-113 | a run that finishes within a budget finishes the same way with any larger budget |
| Interpreter.Exec | src/interpreter_fn/mod.rs:24-113 | a run returns a value only when the program contains a `Ret` |
| SurfaceParser.SkipWs | src/parser/mod.rs:172-180 | `multispace0` leaves input that starts with no whitespace |
| SurfaceParser.SkipWsSpaces | src/parser/mod.rs:172-180 | whitespace in front of the input does not change what `multispace0` leaves |
| SurfaceParser.WsTag | src/parser/mod.rs:172-180 | `ws(tag(t))` never makes the input longer |
| SurfaceParser.LeadingDigits | src/parser/mod.rs:109 | the digit run is as long as the digits go |
| SurfaceParser.U64Num | src/parser/mod.rs:109 | `u64` consumes at least one digit when it succeeds |
| SurfaceParser.I32Num | src/parser/mod.rs:133 | `i32` consumes at least one character when it succeeds |
| SurfaceParser.OptFieldTag | src/parser/mod.rs:91 | `opt(parse_field_tag)` never fails, and gives 0 when nothing is consumed |
| SurfaceParser.ParseSrc | src/parser/mod.rs:104-128 | the source syntax never yields `Uninitialized` |
| SurfaceParser.ParseDest | src/parser/mod.rs:78-102 | `parse_dest` consumes input when it succeeds |
| SurfaceParser.ParseHereExpr | src/parser/mod.rs:130-140 | `parse_here_expr` consumes input when it succeeds |
| SurfaceParser.ParseFieldTag | src/parser/mod.rs:142-146 | `parse_field_tag` consumes input when it succeeds |
| SurfaceParser.ParseSize | src/parser/mod.rs:148-157 | `parse_size` consumes input when it succeeds |
| SurfaceParser.ParseCount | src/parser/mod.rs:67-76 | `parse_count` consumes input when it succeeds |
| SurfaceParser.ParseLineterm | src/parser/mod.rs:159-162 | `parse_lineterm` consumes input when it succeeds |
| SurfaceParser.ParseArgsep | src/parser/mod.rs:164-167 | `parse_argsep` consumes input when it succeeds |
| SurfaceParser.MoreDests | src/parser/mod.rs:28-30 | the tail of `separated_list0` never fails and never makes the input longer |
| SurfaceParser.DestList | src/parser/mod.rs:28-30 | `separated_list0(parse_argsep, parse_dest)` never fails and never makes the input longer |
| SurfaceParser.PadArgs | src/parser/mod.rs:35-37 | padding keeps the parsed slots as a prefix and fills up to six with `Nowhere`; a longer list is left as it is |
| SurfaceParser.PadArgsLoop | src/parser/mod.rs:35-37 | the padding loop computes `PadArgs` |
| SurfaceParser.ParseBegin | src/parser/mod.rs:22-44 | `parse_begin` consumes input when it succeeds, and yields a `Begin` |
| SurfaceParser.ParseRet | src/parser/mod.rs:46-53 | `parse_ret` consumes input when it succeeds, and yields a `Ret` |
| SurfaceParser.ParseCopy | src/parser/mod.rs:55-65 | `parse_copy` consumes input when it succeeds, and yields a `Copy` |
| SurfaceParser.ParseInstruction | src/parser/mod.rs:14-20 | a parsed instruction consumes input and is `Begin`, `Ret` or `Copy` |
| SurfaceParser.ManyInstructions | src/parser/mod.rs:9 | `many0(parse_instruction)` never fails and never makes the input longer |
| SurfaceParser.ParseObject | src/parser/mod.rs:5-12 | `parse_object` succeeds only with nothing left over; the failure direction of `all_consuming` is ParseObjectTrailing |
| SurfaceParser.ParseObjectTrailing | src/parser/mod.rs:5-12 | `all_consuming`: a printed object followed by non-empty text whose first character starts no instruction (not whitespace, `n`, `r`, `_`, `[` or `b`) fails to parse |
| SurfaceParser.ParseInstructionNoStart | src/parser/mod.rs:14-20 | `parse_instruction` fails on empty text and on text whose first character can start none of `nyeh`, `ret` or a destination |
| SurfaceParser.ManyInstructionsStop | src/parser/mod.rs:9 | `many0` reads no instruction from text that starts none and leaves it untouched |
| SurfaceParser.ParseObjectKinds | src/parser/mod.rs:5-20 | a parsed object holds only `Begin`, `Ret` and `Copy` |
| SurfaceParser.TagMatch | src/parser/mod.rs:24 | `tag(t)` on `t + rest` leaves `rest` |
| SurfaceParser.WsTagMismatch | src/parser/mod.rs:172-180 | `ws(tag(t))` fails on input starting with a different non-space character |
| SurfaceParser.DecValueOfDec | src/parser/mod.rs:109 | reading back the printed digits of `n` gives `n` |
| SurfaceParser.U64NumDec | src/parser/mod.rs:109 | `u64` reads back a printed number when no digit follows |
| SurfaceParser.I32NumShow | src/parser/mod.rs:133 | `i32` reads back a printed number, sign included, when no digit follows |
| SurfaceParser.ParseSizeLetters | src/parser/mod.rs:148-157 | `parse_size` accepts exactly `B`, `H`, `D` and `Q` after whitespace, each to its own width |
| SurfaceParser.ParseHereExprShow | src/parser/mod.rs:130-140 | `bp+x` reads back as the offset `x` |
| SurfaceParser.ParseHereExprMinus | src/parser/mod.rs:130-140 | `bp-n` reads as the offset `-n` |
| SurfaceParser.ParsePtrPartsShow | src/parser/mod.rs:87-95 | `[bp+p]->f S` reads back as pointer slot `p`, field offset `f` and width `S` |
| SurfaceParser.ParsePtrPartsNoField | src/parser/mod.rs:91-94 | without `-> n` the field offset is 0 |
| SurfaceParser.ParseDestShow | src/parser/mod.rs:78-102 | every destination reads back as itself |
| SurfaceParser.ParseSrcShow | src/parser/mod.rs:104-128 | every source except `Uninitialized` reads back as itself |
| SurfaceParser.ParseCountShow | src/parser/mod.rs:67-76 | `(nx)` reads back as the count `n` |
| SurfaceParser.MoreDestsShow | src/parser/mod.rs:28-30 | a separated tail of destinations reads back up to anything that is not a separator |
| SurfaceParser.DestListShow | src/parser/mod.rs:28-30 | a nonempty separated list of destinations reads back as itself |
| SurfaceParser.ParseDestFirst | src/parser/mod.rs:78-102 | no destination starts with anything but `_`, `[` or `b` |
| SurfaceParser.ParseBeginShow | src/parser/mod.rs:22-44 | `nyeh n (d1, ..., dk).` reads as `Begin` with the slots padded to six. More than six slots fail |
| SurfaceParser.ParseRetShow | src/parser/mod.rs:46-53 | `ret src.` reads back as `Ret(src)` |
| SurfaceParser.ParseCopyShow | src/parser/mod.rs:55-65 | `dest = src (nx).` reads back as `Copy(dest, src, n)` |
| SurfaceParser.ParseCopyNoCount | src/parser/mod.rs:61-64 | without `(nx)` the count is 1 |
| SurfaceParser.ParseInstructionShow | src/parser/mod.rs:14-20 | every printable instruction reads back as itself |
| SurfaceParser.ParseInstructionEmpty | src/parser/mod.rs:14-20 | nothing parses from empty input |
| SurfaceParser.ManyInstructionsShowThen | src/parser/mod.rs:9 | `many0` reads a printed instruction list back whole and stops in front of following text that starts no instruction, leaving that text |
| SurfaceParser.ParseObjectShow | src/parser/mod.rs:5-12 | an object printed one instruction per line parses back to the same instructions |
| SurfaceParser.ParseObjectLeadingSpace | src/parser/mod.rs:9 | leading whitespace never changes how an object parses |

## Left out

- The JIT loader (`src/jit_fn`) and the driver (`src/main.rs`) map memory and run the generated code; they are not part of this model. Only the loader's same-length requirement is stated (`CodegenTwice`).
- What the emitted x86-64 bytes do when executed is not modelled: the model states the bytes, not their meaning.
- The code generator and the interpreter are not proved to agree. The two backends differ, and each is modelled as written:
  - `Copy` with a count shifts both operands per repetition in the code generator, but repeats the same load and store in the interpreter;
  - `JIf(Uninitialized)` tests whatever rax holds in generated code, but always jumps in the interpreter.
- X64Codegen.LoadRelativeToRaxCode: for a zero offset, the source emits the `[rax]` form and then also the displacement form, because its `if` has no `else`. The model emits both, as written. `LoadRelativeDisplacement` states this.
- X64Codegen.Codegen.Write: the source's `write` returns nothing and panics. The model returns `Fail` with the reason instead. After a failed `Copy`, the bytes already appended stay in the buffer, as after a panic that unwinds.
- X64Codegen.Codegen.Write: on a duplicate label, the source overwrites the location before it panics. The model does the same, then reports `DuplicateLabel`.
- X64Codegen.Finalized: absolute (64-bit) references are modelled but never created, because no instruction emits one. The base address is stored and never read, as in the source.
- Panics are modelled as errors, using the checks of a debug build. These are:
  - `i32` overflow in `offset`, in `base as i32 + offset`, and in negating `i32::MIN` in `parse_here_expr`;
  - `usize` underflow of `bp - n_bytes`;
  - out-of-range slices.
  A release build would wrap instead.
- SurfaceParser.ParseHereExpr: `bp - -2147483648` panics in the source, because `i32` reads `-2147483648` and negating `i32::MIN` overflows. The model reports a parse failure there instead, so `parse_object` fails either way. (`bp-2147483648` is an ordinary parse failure in both, because `i32` rejects `2147483648`.)
- Interpreter.Location: a negative location becomes a huge `usize` in the source. No stack slice can reach it, so the model reports `OutOfRange` without the cast.
- Interpreter.InterpreterFn.Run: the source's loop may run forever. `Run` and `Exec` take a step budget and fail with `OutOfFuel` once it is spent; `ExecMoreFuel` shows that the budget never changes a finished result.
- Interpreter.CopyRepeatIsOnce: repeating a copy is proved to equal one copy only when the destination is a frame slot that does not overlap a frame or constant source. With pointers or overlapping windows, repetition can differ from one copy.
- Foreign calls: the function pointer is an opaque 64-bit address. The code generator embeds it; the interpreter applies a caller-supplied function to it and the six loaded operands. What the foreign code does is not modelled.
- `HashMap` is modelled as `map`. Nothing depends on iteration order.
- `parse_copy`'s `println!` is I/O and is left out.
- SurfaceParser.ShowObject: the printer, the partner for the round trip, covers only instructions with a surface form: `Begin`, and `Ret` and `Copy` without `Uninitialized`. It always writes frame offsets as `bp+x`; `ParseHereExprMinus` covers the `bp-n` form.
- Errors are reported as nom's recoverable `Error`, as `Fail`, without the input position or the error kind.
