# jitcalc in Dafny

jitcalc is a tiny JIT compiler for a one-accumulator calculator. Program text
such as `+ + * - /` is tokenised into abstract instructions (`Incr`, `Decr`,
`Double`, `Halve`). The code generator wraps them in a `Reset` prologue and a
`Return` epilogue and turns every instruction into native machine code through
one of two backends, x86-64 or AArch64. The result is a byte buffer that
jitcalc maps into executable memory and calls. A reference
interpreter computes the expected result over an unsigned 64-bit accumulator.

This project models the byte and bit arithmetic of that pipeline and proves
properties of it:

- `insns.dfy`, module `Insns`: the `Insn` enum and the byte type (`bv8`).
- `x86_64.dfy`, module `X86_64`: the REX prefix and ModR/M packers. They
  follow sections 2.2.1 and 2.1.3 of the Intel 64 and IA-32 Architectures
  Software Developer's Manual, Volume 2A. The module also has the six
  emitters and the `native_insns` dispatch. `rex` and `modrm` loop and OR into
  a mutable byte, so they are methods (`EncodeRex`, `EncodeModRM`). Each
  method is proved equal to a reference definition by fields (`RexByte`,
  `ModRMByte`). The emitters use these reference functions.
- `aarch64.dfy`, module `AArch64`: the little-endian word serialiser and its
  inverse, and the A64 instruction fields (Arm Architecture Reference Manual
  for A-profile, DDI 0487, chapter C6). It also has the six emitters and the
  dispatch. Each emitter is pinned to its exact bytes, its exact instruction
  words and the register and immediate fields of those words.
- `calculator.dfy`, module `Calculator`: `parse` as a per-character filter-map,
  and `interpret` as a loop (method `Interpret`). The loop is proved equal to
  the fold `Run`. `Run` is then related to unbounded integer arithmetic, to
  concatenation, to `Return` and `Reset`, and to the values the test suite
  expects.
- `jit.dfy`, module `Jit`: `jit` as a loop (method `Jit`) over an abstract
  backend `native: Insn -> seq<u8>`, proved equal to prologue ++ code of each
  instruction ++ epilogue. It also has length and position lemmas, and the
  concrete shape of the output for each backend.

The data model follows the source's enums. `Insns.Insn` is the `Insn` enum
(src/main.rs:42-52). `X86_64.Rex` is the `Rex` flag enum (src/x86_64.rs:13-19).
`X86_64.ModRM` is the `ModRM` part enum with its `u8` payloads
(src/x86_64.rs:35-39). `Calculator.Outcome` is the interpreter's result: a
`u64` value, or the overflow panic.

The source uses several integer types. `u8` is `bv8` and `u32` is `bv32`, so
masks, shifts and truncations are exact bit-vector operations. `u64` is the
integer subset `[0, 2^64)`, and every overflow is made explicit.

Rust checks `u64` arithmetic in debug builds, which is how the test suite runs.
So `interpret` panics when `Decr` runs at 0, `Incr` at 2^64 - 1, or `Double`
from 2^63 up. The model returns this panic as the `Overflow` outcome rather
than excluding it by a precondition.

## Model

| member | source | states |
|---|---|---|
| X86_64.RexByte | src/x86_64.rs:21-33 | the prefix's high nibble is always 0100; bit 3/2/1/0 is set iff W/R/X/B occurs in the list (the empty list included) |
| X86_64.EncodeRex | src/x86_64.rs:21-33 | the loop that starts at 0x40 and ORs `1 << shift` per option computes exactly `RexByte` |
| X86_64.RexIgnoresOrderAndRepeats | src/x86_64.rs:22-31 | two option lists with the same members give the same prefix: order and duplicates do not matter |
| X86_64.ModRMByte | src/x86_64.rs:41-59 | bits 7-6 hold the OR of all Mod values & 3, bits 5-3 the OR of all Reg values & 7, bits 2-0 the OR of all RM values & 7 |
| X86_64.EncodeModRM | src/x86_64.rs:41-59 | the loop that starts at 0 and ORs each part's masked, shifted value computes exactly `ModRMByte` |
| X86_64.FieldOrAppend | src/x86_64.rs:46-58 | the fields of a split part list are the ORs of the fields of its halves |
| X86_64.AbsentFieldIsZero | src/x86_64.rs:44-59 | a field set by no part reads as 0 |
| X86_64.ModRMIgnoresOrder | src/x86_64.rs:46-58 | swapping two halves of a part list does not change the byte |
| X86_64.ModRMRoundTrip | src/x86_64.rs:47-56 | decoding `(x >> 6, (x >> 3) & 7, x & 7)` of the byte built from Mod(m), Reg(r), RM(b) gives `(m & 3, r & 7, b & 7)` |
| X86_64.ResetAccum | src/x86_64.rs:80-91 | exactly `[0x48, 0x31, 0xC0]`, its ModR/M byte decoding to mod 3, reg 0, r/m 0 (XOR rax, rax) |
| X86_64.FuncReturn | src/x86_64.rs:93-96 | exactly `[0xC3]` |
| X86_64.Incr | src/x86_64.rs:98-107 | exactly `[0x48, 0x83, 0xC0, 0x01]` (ADD /0 on rax, imm8 1) |
| X86_64.Decr | src/x86_64.rs:109-121 | exactly `[0x48, 0x81, 0xE8, 1, 0, 0, 0]` (SUB /5 on rax, imm32 1 little-endian) |
| X86_64.Double | src/x86_64.rs:123-146 | exactly the 10 bytes MOV rcx, 2 (`48 C7 C1 02 00 00 00`) then `48 F7 E9`, the last ModR/M being /5 on rcx (IMUL) |
| X86_64.Halve | src/x86_64.rs:148-172 | exactly 10 bytes, equal to `Double`'s in the first 9 and different in the last, `0xF9` = /7 on rcx (IDIV) |
| X86_64.NativeInsns | src/x86_64.rs:174-183 | total over `Insn`; every output is non-empty; it starts with 0x48 iff the instruction is not `Return` |
| AArch64.WordToBytes | src/aarch64.rs:4-11 | exactly 4 bytes, least significant first: they reassemble to the word, and `b0 + b1*2^8 + b2*2^16 + b3*2^24` equals the word as an integer |
| AArch64.BytesToWordValue | src/aarch64.rs:4-11 | the word reassembled from four bytes has their base-256 value |
| AArch64.BytesRoundTrip | src/aarch64.rs:4-11 | serialising the word that four bytes spell gives back those bytes (the other direction of the round trip) |
| AArch64.WordsCons | src/aarch64.rs:4-11 | a serialised word followed by whole words reads back as that word first |
| AArch64.ResetAccum | src/aarch64.rs:13-18 | exactly the bytes of word 0x52800000: MOVZ, 32-bit form, shift 0, imm16 0, Rd 0 |
| AArch64.FuncReturn | src/aarch64.rs:20-23 | exactly the bytes of word 0xD65F03C0, whose Rn field (bits 9-5) is 30 |
| AArch64.Incr | src/aarch64.rs:25-29 | exactly the bytes of word 0xB1000400: 64-bit, imm12 (bits 21-10) 1, Rn = Rd = 0 |
| AArch64.Decr | src/aarch64.rs:31-35 | exactly the bytes of word 0xF1000400: 64-bit, imm12 1, Rn = Rd = 0; it differs from `Incr`'s word only in bit 30 |
| AArch64.Double | src/aarch64.rs:37-53 | exactly 12 bytes, words 0x52800041, 0x52800002, 0x9B010800; the MOVZs load 2 into x1 and 0 into x2; the MADD has Rm 1, Ra 2, Rn = Rd = 0 |
| AArch64.Halve | src/aarch64.rs:55-65 | exactly 8 bytes, words 0x52800041, 0x9AC10C00; the first word is `Double`'s; the SDIV is 64-bit with Rm 1, Rn = Rd = 0 |
| AArch64.NativeInsns | src/aarch64.rs:67-76 | total over `Insn`; every output is non-empty and a multiple of 4 bytes long |
| Calculator.ParseChar | src/main.rs:57-63 | a character yields an instruction iff it is one of `+-*/`, and the instruction is never `Reset` or `Return` |
| Calculator.Parse | src/main.rs:54-66 | the output holds only `Incr`, `Decr`, `Double` and `Halve` |
| Calculator.ParseLength | src/main.rs:54-66 | the output's length is the number of `+`, `-`, `*` and `/` characters in the program |
| Calculator.ParseAppend | src/main.rs:56-65 | parsing works per character: `Parse(a + b) == Parse(a) + Parse(b)` |
| Calculator.UnparseParse | src/main.rs:54-66 | the output spells exactly the kept characters in their order (contents and order, not just length) |
| Calculator.ParseUnparse | src/main.rs:54-66 | parsing the text of any user program gives that program back |
| Calculator.ParseCanonical | src/main.rs:136-144 | `Parse("+ + * - /") == [Incr, Incr, Double, Decr, Halve]` |
| Calculator.Step | src/main.rs:97-116 | one loop iteration agrees with integer arithmetic when the result is a u64 and overflows otherwise; `Decr` overflows iff the accumulator is 0, `Double` iff it is at least 2^63; `Halve` rounds down |
| Calculator.Interpret | src/main.rs:94-119 | the loop starting at 0, breaking at `Return` and panicking on overflow computes `Run(insns, 0)` |
| Calculator.RunIsIntegerArithmetic | src/main.rs:94-118 | the u64 run succeeds iff every intermediate value stays in u64, and then it equals the unbounded integer result |
| Calculator.RunAppend | src/main.rs:96-117 | running `a + b` is running `a` and then `b` from where `a` left off, unless `a` returned or overflowed |
| Calculator.ReturnStops | src/main.rs:101-103 | instructions after the first `Return` have no effect |
| Calculator.ResetClears | src/main.rs:98-100 | after a `Reset` reached without overflow or `Return`, the run continues from 0 whatever came before |
| Calculator.InterpretCanonical | src/main.rs:146-147 | the canonical program interprets to 1 |
| Calculator.InterpretExamples | src/main.rs:150-196 | the test programs give 0, 1, 4 and 3; `[Decr]` and `[Decr, Double, Double]` overflow u64 |
| Jit.JitCode | src/main.rs:121-129 | the output is the `Reset` code, then exactly the emitted code of the instructions, then the `Return` code, and its length is the sum of the three |
| Jit.Jit | src/main.rs:121-129 | the loop that extends the buffer with prologue, each instruction's code and epilogue computes exactly `JitCode` |
| Jit.EmittedAppend | src/main.rs:124-126 | the code of a concatenated program is the concatenation of the codes |
| Jit.EmittedAt | src/main.rs:124-126 | the code of instruction k follows the code of the instructions before it and precedes the code of those after it |
| Jit.EmittedLength | src/main.rs:124-126 | the emitted code is as long as the sum of the per-instruction code sizes |
| Jit.EmittedAligned | src/main.rs:124-126 | if every instruction's code is whole 4-byte words, so is all emitted code |
| Jit.X86JitShape | src/main.rs:121-129 | with the x86-64 backend the output starts `48 31 C0`, ends `C3`, has length 4 plus the code sizes, and `jit([])` is exactly `48 31 C0 C3` |
| Jit.AArch64JitShape | src/main.rs:121-129 | with the AArch64 backend the output starts with the MOVZ word and ends with the RET word |
| Jit.AArch64JitLength | src/main.rs:121-129 | with the AArch64 backend the output has length 8 plus the code sizes and is a whole number of 4-byte words |
| Jit.AArch64JitEmpty | src/main.rs:121-129 | with the AArch64 backend `jit([])` is exactly the MOVZ and RET words, 8 bytes |

## Left out

- `exec` (src/main.rs:68-92) is not modelled. It maps memory through the `mmap_rs` crate, copies the buffer in and makes the region read-only and then executable. It then casts the region to a function pointer and calls it. All of this is foreign calls and native execution, so the region lifecycle and its permission discipline are not modelled either.
- `main` (src/main.rs:20-40) is not modelled: it handles argv and printing.
- The `cfg(target_arch)` backend selection (src/main.rs:8-18) is a build-time choice. `Jit.Jit` takes the backend as a function parameter instead, and each backend's output shape is proved separately.
- The CPU semantics of the emitted bytes are not modelled, so nothing here claims that running `jit(seq)` equals `interpret(seq)`. In general it does not. The x86-64 `Halve` runs IDIV on RDX:RAX without first sign-extending RAX into RDX, so its result depends on what RDX holds. The native code is also signed, while the interpreter is unsigned: the tests that expect -1 and -4 are outside the interpreter's domain, and the model shows that it overflows on them.
- Rust's release-mode wrap-around of `u64` is not modelled. The model follows the checked arithmetic of debug builds, which is what the test suite runs, and a panic becomes the `Overflow` outcome.
- In the AArch64 `double` and `halve`, the source builds a local vector and `extend`s it in place. Nothing else refers to that vector, so the model uses sequence concatenation of the same words in the same order. The dispatch `native_insns` and `jit`'s abstract backend need these emitters as functions.
- The x86-64 emitters call `rex` and `modrm`, which are loops. The model's emitters call `RexByte` and `ModRMByte` instead. `EncodeRex` and `EncodeModRM`, the loops themselves, are proved to compute exactly those functions.
- `parse` iterates over Unicode scalar values (`chars()`). Dafny's `string` is a sequence of `char`, and no encoding is modelled.
- The x86-64 emitters' own comments speak of EAX. The bytes actually use REX.W, so they operate on RAX. The AArch64 comments speak of `movz x0`. The template `0x52800000` is actually the 32-bit form (`movz w0`), which also clears the upper half of x0. The model follows the bytes.
