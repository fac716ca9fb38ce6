/** The x86-64 backend: the REX prefix and ModR/M byte packers (sections 2.2.1
    and 2.1.3 of the Intel 64 and IA-32 Architectures Software Developer's
    Manual, Volume 2A) and one emitter per abstract instruction. The
    accumulator lives in RAX; RCX is the scratch register. */
module X86_64 {
  import opened Insns

  /** The four flag bits a REX prefix can carry. */
  datatype Rex = W | R | X | B

  /** Bit position of a REX flag in the prefix byte. */
  function RexShift(opt: Rex): (s: nat)
    ensures s < 4
  {
    match opt
    case W => 3
    case R => 2
    case X => 1
    case B => 0
  }

  /** The REX prefix carrying exactly the flags that occur in `opts`: the fixed
      pattern 0100 in the high nibble, then W, R, X, B from bit 3 down to bit 0. */
  function RexByte(opts: seq<Rex>): (r: u8)
    ensures r & 0xF0 == 0x40
    ensures (r & 0x08 != 0) <==> W in opts
    ensures (r & 0x04 != 0) <==> R in opts
    ensures (r & 0x02 != 0) <==> X in opts
    ensures (r & 0x01 != 0) <==> B in opts
  {
    0x40
    | (if W in opts then 0x08 else 0)
    | (if R in opts then 0x04 else 0)
    | (if X in opts then 0x02 else 0)
    | (if B in opts then 0x01 else 0)
  }

  /** `rex`: starts from 0100_0000 and ORs in one bit per option, in list order. */
  method EncodeRex(opts: seq<Rex>) returns (rex: u8)
    ensures rex == RexByte(opts)
  {
    rex := 0x40;
    for i := 0 to |opts|
      invariant rex == RexByte(opts[..i])
    {
      assert opts[..i + 1] == opts[..i] + [opts[i]];
      rex := rex | (1 << RexShift(opts[i]));
    }
    assert opts[..|opts|] == opts;
  }

  /** Only which flags occur matters: the order of the list and repeated
      entries do not change the prefix. */
  lemma RexIgnoresOrderAndRepeats(a: seq<Rex>, b: seq<Rex>)
    requires forall o :: o in a <==> o in b
    ensures RexByte(a) == RexByte(b)
  {
  }

  /** The three fields a ModR/M part list can set. */
  datatype ModRM = Mod(m: u8) | Reg(r: u8) | RM(b: u8)

  function ModPayload(part: ModRM): u8 {
    if part.Mod? then part.m else 0
  }

  function RegPayload(part: ModRM): u8 {
    if part.Reg? then part.r else 0
  }

  function RMPayload(part: ModRM): u8 {
    if part.RM? then part.b else 0
  }

  /** The OR of `field` over all parts, the last part taken last; 0 for no parts. */
  function FieldOr(parts: seq<ModRM>, field: ModRM -> u8): u8 {
    if parts == [] then 0 else FieldOr(parts[..|parts| - 1], field) | field(parts[|parts| - 1])
  }

  /** The ModR/M byte of a part list: the `Mod` values truncated to two bits in
      bits 7-6, the `Reg` values truncated to three bits in bits 5-3 and the
      `RM` values truncated to three bits in bits 2-0. */
  function ModRMByte(parts: seq<ModRM>): (x: u8)
    ensures x >> 6 == FieldOr(parts, ModPayload) & 3
    ensures (x >> 3) & 7 == FieldOr(parts, RegPayload) & 7
    ensures x & 7 == FieldOr(parts, RMPayload) & 7
  {
    ((FieldOr(parts, ModPayload) & 3) << 6)
    | ((FieldOr(parts, RegPayload) & 7) << 3)
    | (FieldOr(parts, RMPayload) & 7)
  }

  /** `modrm`: starts from 0 and ORs in each part's truncated, shifted value. */
  method EncodeModRM(parts: seq<ModRM>) returns (modrm: u8)
    ensures modrm == ModRMByte(parts)
  {
    modrm := 0;
    for i := 0 to |parts|
      invariant modrm == ModRMByte(parts[..i])
    {
      assert parts[..i + 1][..i] == parts[..i];
      match parts[i]
      case Mod(m) =>
        modrm := modrm | ((m & 3) << 6);
      case Reg(r) =>
        modrm := modrm | ((r & 7) << 3);
      case RM(b) =>
        modrm := modrm | (b & 7);
    }
    assert parts[..|parts|] == parts;
  }

  /** The (mod, reg, r/m) fields of a ModR/M byte. */
  function DecodeModRM(x: u8): (u8, u8, u8) {
    (x >> 6, (x >> 3) & 7, x & 7)
  }

  /** Splitting a part list anywhere: the fields of the whole are the ORs of
      the fields of the two halves. */
  lemma {:induction false} FieldOrAppend(a: seq<ModRM>, b: seq<ModRM>, field: ModRM -> u8)
    ensures FieldOr(a + b, field) == FieldOr(a, field) | FieldOr(b, field)
    decreases |b|
  {
    if b == [] {
      assert a + b == a;
    } else {
      var b' := b[..|b| - 1];
      assert (a + b)[..|a + b| - 1] == a + b';
      FieldOrAppend(a, b', field);
    }
  }

  /** A field no part sets reads as 0. */
  lemma {:induction false} AbsentFieldIsZero(parts: seq<ModRM>, field: ModRM -> u8)
    requires forall i :: 0 <= i < |parts| ==> field(parts[i]) == 0
    ensures FieldOr(parts, field) == 0
    decreases |parts|
  {
    if parts != [] {
      AbsentFieldIsZero(parts[..|parts| - 1], field);
    }
  }

  /** The order of the parts does not matter. */
  lemma ModRMIgnoresOrder(a: seq<ModRM>, b: seq<ModRM>)
    ensures ModRMByte(a + b) == ModRMByte(b + a)
  {
    FieldOrAppend(a, b, ModPayload);
    FieldOrAppend(b, a, ModPayload);
    FieldOrAppend(a, b, RegPayload);
    FieldOrAppend(b, a, RegPayload);
    FieldOrAppend(a, b, RMPayload);
    FieldOrAppend(b, a, RMPayload);
  }

  /** Packing one value of each field and decoding the byte gives back the
      values truncated to their field widths. */
  lemma ModRMRoundTrip(m: u8, r: u8, b: u8)
    ensures DecodeModRM(ModRMByte([Mod(m), Reg(r), RM(b)])) == (m & 3, r & 7, b & 7)
  {
    FieldsOfThree(Mod(m), Reg(r), RM(b));
  }

  /** The three fields of a list of one, two or three parts. */
  lemma FieldsOfOne(p: ModRM)
    ensures FieldOr([p], ModPayload) == ModPayload(p)
    ensures FieldOr([p], RegPayload) == RegPayload(p)
    ensures FieldOr([p], RMPayload) == RMPayload(p)
  {
  }

  lemma FieldsOfTwo(p: ModRM, q: ModRM)
    ensures FieldOr([p, q], ModPayload) == ModPayload(p) | ModPayload(q)
    ensures FieldOr([p, q], RegPayload) == RegPayload(p) | RegPayload(q)
    ensures FieldOr([p, q], RMPayload) == RMPayload(p) | RMPayload(q)
  {
    FieldsOfOne(p);
  }

  lemma FieldsOfThree(p: ModRM, q: ModRM, s: ModRM)
    ensures FieldOr([p, q, s], ModPayload) == ModPayload(p) | ModPayload(q) | ModPayload(s)
    ensures FieldOr([p, q, s], RegPayload) == RegPayload(p) | RegPayload(q) | RegPayload(s)
    ensures FieldOr([p, q, s], RMPayload) == RMPayload(p) | RMPayload(q) | RMPayload(s)
  {
    assert [p, q, s][..2] == [p, q];
    FieldsOfTwo(p, q);
  }

  /** XOR rax, rax (REX.W + 31 /r, mod = 11, reg = r/m = rax). */
  function ResetAccum(): (code: seq<u8>)
    ensures code == [0x48, 0x31, 0xC0]
    ensures DecodeModRM(code[2]) == (3, 0, 0)
  {
    FieldsOfTwo(Mod(0x3), Reg(0x00));
    [RexByte([W]), 0x31, ModRMByte([Mod(0x3), Reg(0x00)])]
  }

  /** RET. */
  function FuncReturn(): (code: seq<u8>)
    ensures code == [0xC3]
  {
    [0xC3]
  }

  /** ADD rax, imm8 1 (REX.W + 83 /0 ib). */
  function Incr(): (code: seq<u8>)
    ensures code == [0x48, 0x83, 0xC0, 0x01]
    ensures DecodeModRM(code[2]) == (3, 0, 0)
  {
    [RexByte([W]), 0x83, ModRMByte([Mod(0x3)]), 0x01]
  }

  /** SUB rax, imm32 1 (REX.W + 81 /5 id), the immediate little-endian. */
  function Decr(): (code: seq<u8>)
    ensures code == [0x48, 0x81, 0xE8, 0x01, 0x00, 0x00, 0x00]
    ensures DecodeModRM(code[2]) == (3, 5, 0)
  {
    FieldsOfThree(Mod(0x3), Reg(0x05), RM(0x00));
    [RexByte([W]), 0x81, ModRMByte([Mod(0x3), Reg(0x05), RM(0x00)]), 0x01, 0x00, 0x00, 0x00]
  }

  /** MOV rcx, imm32 2 (REX.W + C7 /0 id), then IMUL rcx (REX.W + F7 /5). */
  function Double(): (code: seq<u8>)
    ensures code == [0x48, 0xC7, 0xC1, 0x02, 0x00, 0x00, 0x00, 0x48, 0xF7, 0xE9]
    ensures DecodeModRM(code[2]) == (3, 0, 1)
    ensures DecodeModRM(code[9]) == (3, 5, 1)
  {
    FieldsOfTwo(Mod(0x3), RM(0x01));
    FieldsOfThree(Mod(0x3), Reg(0x05), RM(0x01));
    [RexByte([W]), 0xC7, ModRMByte([Mod(0x3), RM(0x01)]), 0x02, 0x00, 0x00, 0x00,
     RexByte([W]), 0xF7, ModRMByte([Mod(0x3), Reg(0x05), RM(0x01)])]
  }

  /** MOV rcx, imm32 2 (REX.W + C7 /0 id), then IDIV rcx (REX.W + F7 /7): the
      same bytes as `Double` except the opcode extension in the last byte. */
  function Halve(): (code: seq<u8>)
    ensures code == [0x48, 0xC7, 0xC1, 0x02, 0x00, 0x00, 0x00, 0x48, 0xF7, 0xF9]
    ensures DecodeModRM(code[9]) == (3, 7, 1)
    ensures |code| == |Double()| && code[..9] == Double()[..9] && code[9] != Double()[9]
  {
    FieldsOfTwo(Mod(0x3), RM(0x01));
    FieldsOfThree(Mod(0x3), Reg(0x07), RM(0x01));
    [RexByte([W]), 0xC7, ModRMByte([Mod(0x3), RM(0x01)]), 0x02, 0x00, 0x00, 0x00,
     RexByte([W]), 0xF7, ModRMByte([Mod(0x3), Reg(0x07), RM(0x01)])]
  }

  /** `native_insns`: the machine code of one abstract instruction. Every
      instruction has some code, and all but RET begin with the REX.W prefix. */
  function NativeInsns(insn: Insn): (code: seq<u8>)
    ensures |code| > 0
    ensures code[0] == 0x48 <==> insn != Return
  {
    match insn
    case Reset => ResetAccum()
    case Return => FuncReturn()
    case Incr => Incr()
    case Decr => Decr()
    case Double => Double()
    case Halve => Halve()
  }
}
