/** The code generator: the machine code of a program is the backend's code
    for `Reset`, then the code of each instruction in order, then the code for
    `Return`. It is written against an abstract backend, a function from
    instructions to their code, and then applied to both backends. */
module Jit {
  import opened Insns
  import X86_64
  import AArch64

  /** The code of every instruction of `insns`, in order. */
  function Emitted(native: Insn -> seq<u8>, insns: seq<Insn>): seq<u8> {
    if insns == [] then []
    else Emitted(native, insns[..|insns| - 1]) + native(insns[|insns| - 1])
  }

  /** The total code size of `insns`: the sum of the sizes of their codes. */
  function CodeSize(native: Insn -> seq<u8>, insns: seq<Insn>): nat {
    if insns == [] then 0 else |native(insns[0])| + CodeSize(native, insns[1..])
  }

  /** The output of `jit`: the `Reset` code as prologue, the `Return` code as
      epilogue, and nothing but the instructions' code in between. */
  function JitCode(native: Insn -> seq<u8>, insns: seq<Insn>): (code: seq<u8>)
    ensures |code| == |native(Reset)| + |Emitted(native, insns)| + |native(Return)|
    ensures code[..|native(Reset)|] == native(Reset)
    ensures code[|code| - |native(Return)|..] == native(Return)
    ensures code[|native(Reset)|..|code| - |native(Return)|] == Emitted(native, insns)
  {
    native(Reset) + Emitted(native, insns) + native(Return)
  }

  /** `jit`: grows the output by the prologue, by each instruction's code and
      by the epilogue. */
  method Jit(native: Insn -> seq<u8>, insns: seq<Insn>) returns (code: seq<u8>)
    ensures code == JitCode(native, insns)
  {
    code := native(Reset);
    for i := 0 to |insns|
      invariant code == native(Reset) + Emitted(native, insns[..i])
    {
      assert insns[..i + 1][..i] == insns[..i];
      code := code + native(insns[i]);
    }
    assert insns[..|insns|] == insns;
    code := code + native(Return);
  }

  /** Emitting a concatenation is concatenating the emitted code. */
  lemma {:induction false} EmittedAppend(native: Insn -> seq<u8>, a: seq<Insn>, b: seq<Insn>)
    ensures Emitted(native, a + b) == Emitted(native, a) + Emitted(native, b)
    decreases |b|
  {
    if b == [] {
      assert a + b == a;
    } else {
      var b' := b[..|b| - 1];
      assert (a + b)[..|a + b| - 1] == a + b';
      assert (a + b)[|a + b| - 1] == b[|b| - 1];
      EmittedAppend(native, a, b');
    }
  }

  /** The code of the instruction at position `k` sits right after the code of
      the instructions before it. */
  lemma EmittedAt(native: Insn -> seq<u8>, insns: seq<Insn>, k: nat)
    requires k < |insns|
    ensures Emitted(native, insns)
            == Emitted(native, insns[..k]) + native(insns[k]) + Emitted(native, insns[k + 1..])
  {
    var before, after := insns[..k + 1], insns[k + 1..];
    assert insns == before + after;
    EmittedAppend(native, before, after);
    assert before[..|before| - 1] == insns[..k];
    assert Emitted(native, before) == Emitted(native, insns[..k]) + native(insns[k]);
  }

  /** The emitted code is as long as the sum of the instructions' code sizes. */
  lemma {:induction false} EmittedLength(native: Insn -> seq<u8>, insns: seq<Insn>)
    ensures |Emitted(native, insns)| == CodeSize(native, insns)
  {
    if insns != [] {
      EmittedAppend(native, [insns[0]], insns[1..]);
      assert [insns[0]] + insns[1..] == insns;
      assert [insns[0]][..0] == [];
      EmittedLength(native, insns[1..]);
    }
  }

  /** When every instruction's code is a whole number of 4-byte words, so is
      all emitted code. */
  lemma {:induction false} EmittedAligned(native: Insn -> seq<u8>, insns: seq<Insn>)
    requires forall insn :: |native(insn)| % 4 == 0
    ensures |Emitted(native, insns)| % 4 == 0
  {
    if insns != [] {
      EmittedAligned(native, insns[..|insns| - 1]);
    }
  }

  /** The x86-64 output: XOR rax, rax first, RET last, and for the empty
      program nothing else. */
  lemma X86JitShape(insns: seq<Insn>)
    ensures var code := JitCode(X86_64.NativeInsns, insns);
            |code| == 4 + CodeSize(X86_64.NativeInsns, insns)
            && code[..3] == [0x48, 0x31, 0xC0] && code[|code| - 1] == 0xC3
    ensures JitCode(X86_64.NativeInsns, []) == [0x48, 0x31, 0xC0, 0xC3]
  {
    EmittedLength(X86_64.NativeInsns, insns);
    var code := JitCode(X86_64.NativeInsns, insns);
    assert code[|code| - 1] == code[|code| - 1..][0];
  }

  /** The AArch64 output: MOVZ first, RET last. */
  lemma AArch64JitShape(insns: seq<Insn>)
    ensures var code := JitCode(AArch64.NativeInsns, insns);
            code[..4] == [0x00, 0x00, 0x80, 0x52] && code[|code| - 4..] == [0xC0, 0x03, 0x5F, 0xD6]
  {
  }

  /** The AArch64 output is the two words of prologue and epilogue plus the
      instructions' code, a whole number of 4-byte words. */
  lemma AArch64JitLength(insns: seq<Insn>)
    ensures |JitCode(AArch64.NativeInsns, insns)| == 8 + CodeSize(AArch64.NativeInsns, insns)
    ensures |JitCode(AArch64.NativeInsns, insns)| % 4 == 0
  {
    assert |JitCode(AArch64.NativeInsns, insns)| % 4 == 0 by {
      EmittedAligned(AArch64.NativeInsns, insns);
    }
    EmittedLength(AArch64.NativeInsns, insns);
  }

  /** For the empty program the AArch64 output is the prologue and the
      epilogue and nothing else. */
  lemma AArch64JitEmpty()
    ensures JitCode(AArch64.NativeInsns, []) == [0x00, 0x00, 0x80, 0x52, 0xC0, 0x03, 0x5F, 0xD6]
  {
  }
}
