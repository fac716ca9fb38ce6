/** The AArch64 backend: a little-endian serialiser for 32-bit instruction
    words and one emitter per abstract instruction, each ORing register and
    immediate fields into an A64 instruction template (chapter C6 of the Arm
    Architecture Reference Manual for A-profile, DDI 0487). The accumulator
    lives in X0; X1 and X2 are scratch registers and X30 holds the return
    address. */
module AArch64 {
  import opened Insns

  /** An unsigned 32-bit value, as Rust's `u32`. */
  type u32 = bv32

  /** The four bytes of a word, most significant last. */
  function BytesToWord(bytes: seq<u8>): u32
    requires |bytes| == 4
  {
    (bytes[0] as u32)
    | ((bytes[1] as u32) << 8)
    | ((bytes[2] as u32) << 16)
    | ((bytes[3] as u32) << 24)
  }

  /** The numeric value of the word that four bytes spell, in base 256. */
  lemma {:induction false} BytesToWordValue(bytes: seq<u8>)
    requires |bytes| == 4
    ensures BytesToWord(bytes) as int
            == bytes[0] as int + 0x100 * bytes[1] as int + 0x1_0000 * bytes[2] as int
               + 0x100_0000 * bytes[3] as int
  {
    var lo := ((bytes[1] as bv16) << 8) | (bytes[0] as bv16);
    var hi := ((bytes[3] as bv16) << 8) | (bytes[2] as bv16);
    HalfWordValue(bytes[1], bytes[0]);
    HalfWordValue(bytes[3], bytes[2]);
    WordValue(hi, lo);
    BytesToWordHalves(bytes);
  }

  /** The word that four bytes spell, as its high and low 16-bit halves. */
  lemma BytesToWordHalves(bytes: seq<u8>)
    requires |bytes| == 4
    ensures BytesToWord(bytes)
            == ((((((bytes[3] as bv16) << 8) | (bytes[2] as bv16)) as u32) << 16)
                | ((((bytes[1] as bv16) << 8) | (bytes[0] as bv16)) as u32))
  {
  }

  /** The 32-bit value with high half `h` and low half `l` is h * 2^16 + l. */
  lemma WordValue(h: bv16, l: bv16)
    ensures (((h as u32) << 16) | (l as u32)) as int == h as int * 0x1_0000 + l as int
  {
  }

  /** The 16-bit value with high byte `h` and low byte `l` is h * 2^8 + l. */
  lemma HalfWordValue(h: u8, l: u8)
    ensures (((h as bv16) << 8) | (l as bv16)) as int == h as int * 0x100 + l as int
  {
  }

  /** `arm_u32_insn_to_bytes`: exactly four bytes, least significant first,
      whose base-256 value is the word. */
  function WordToBytes(encoded: u32): (bytes: seq<u8>)
    ensures |bytes| == 4
    ensures BytesToWord(bytes) == encoded
    ensures bytes[0] as int + 0x100 * bytes[1] as int + 0x1_0000 * bytes[2] as int
            + 0x100_0000 * bytes[3] as int == encoded as int
  {
    var bytes := [ (encoded & 0xff) as u8,
                   ((encoded & 0xff00) >> 8) as u8,
                   ((encoded & 0xff0000) >> 16) as u8,
                   ((encoded & 0xff000000) >> 24) as u8 ];
    BytesToWordValue(bytes);
    bytes
  }

  /** Serialising the word that four bytes spell gives back the same bytes. */
  lemma BytesRoundTrip(bytes: seq<u8>)
    requires |bytes| == 4
    ensures WordToBytes(BytesToWord(bytes)) == bytes
  {
  }

  /** Reading a byte stream back as the words it serialises, four bytes at a time. */
  function Words(code: seq<u8>): seq<u32>
    requires |code| % 4 == 0
  {
    if code == [] then [] else [BytesToWord(code[..4])] + Words(code[4..])
  }

  /** A word's bytes followed by more code read back as that word first. */
  lemma WordsCons(w: u32, rest: seq<u8>)
    requires |rest| % 4 == 0
    ensures Words(WordToBytes(w) + rest) == [w] + Words(rest)
  {
  }

  // Fields of an A64 instruction word, by bit range.

  /** Bit 31: 1 selects the 64-bit form of the instruction. */
  function Sf(w: u32): u32 { w >> 31 }
  /** Bits 4-0: destination register. */
  function Rd(w: u32): u32 { w & 0x1F }
  /** Bits 9-5: first source register. */
  function Rn(w: u32): u32 { (w >> 5) & 0x1F }
  /** Bits 20-16: second source register. */
  function Rm(w: u32): u32 { (w >> 16) & 0x1F }
  /** Bits 14-10: addend register of a multiply-add. */
  function Ra(w: u32): u32 { (w >> 10) & 0x1F }
  /** Bits 21-10: the 12-bit immediate of an add or subtract. */
  function Imm12(w: u32): u32 { (w >> 10) & 0xFFF }
  /** Bits 20-5: the 16-bit immediate of a move wide. */
  function Imm16(w: u32): u32 { (w >> 5) & 0xFFFF }
  /** Bits 22-21: the shift (times 16) applied to a move-wide immediate. */
  function Hw(w: u32): u32 { (w >> 21) & 3 }

  /** MOVZ with shift 0 into an empty template: the 32-bit form, sf = 0, opc = 10. */
  const MOVZ: u32 := 0x5280_0000

  /** MOVZ w0, #0, which also clears the upper half of x0: the accumulator is set to 0. */
  function ResetAccum(): (code: seq<u8>)
    ensures code == [0x00, 0x00, 0x80, 0x52]
    ensures Words(code) == [0x5280_0000]
    ensures Sf(Words(code)[0]) == 0 && Hw(Words(code)[0]) == 0
    ensures Rd(Words(code)[0]) == 0 && Imm16(Words(code)[0]) == 0
  {
    WordsCons(MOVZ, []);
    WordToBytes(MOVZ)
  }

  /** RET x30: return to the address in the link register. */
  function FuncReturn(): (code: seq<u8>)
    ensures code == [0xC0, 0x03, 0x5F, 0xD6]
    ensures Words(code) == [0xD65F_03C0]
    ensures Rn(Words(code)[0]) == 30
  {
    WordsCons(0xD65F0000 | (30 << 5), []);
    WordToBytes(0xD65F0000 | (30 << 5))
  }

  /** ADDS x0, x0, #1. */
  function Incr(): (code: seq<u8>)
    ensures code == [0x00, 0x04, 0x00, 0xB1]
    ensures Words(code) == [0xB100_0400]
    ensures Sf(Words(code)[0]) == 1 && Imm12(Words(code)[0]) == 1
    ensures Rn(Words(code)[0]) == 0 && Rd(Words(code)[0]) == 0
  {
    WordsCons(0xB1000000 | (0x01 << 10), []);
    WordToBytes(0xB1000000 | (0x01 << 10))
  }

  /** SUBS x0, x0, #1: the `Incr` word with the op bit (bit 30) set. */
  function Decr(): (code: seq<u8>)
    ensures code == [0x00, 0x04, 0x00, 0xF1]
    ensures Words(code) == [0xF100_0400]
    ensures Sf(Words(code)[0]) == 1 && Imm12(Words(code)[0]) == 1
    ensures Rn(Words(code)[0]) == 0 && Rd(Words(code)[0]) == 0
    ensures Words(code)[0] ^ Words(Incr())[0] == 0x4000_0000
  {
    WordsCons(0xF1000000 | (0x01 << 10), []);
    WordToBytes(0xF1000000 | (0x01 << 10))
  }

  /** MOVZ w1, #2; MOVZ w2, #0; MADD x0, x0, x1, x2: x0 := x2 + x0 * x1 = 2 * x0. */
  function Double(): (code: seq<u8>)
    ensures |code| == 12
    ensures code == [0x41, 0x00, 0x80, 0x52, 0x02, 0x00, 0x80, 0x52, 0x00, 0x08, 0x01, 0x9B]
    ensures Words(code) == [0x5280_0041, 0x5280_0002, 0x9B01_0800]
    ensures Rd(Words(code)[0]) == 1 && Imm16(Words(code)[0]) == 2
    ensures Rd(Words(code)[1]) == 2 && Imm16(Words(code)[1]) == 0
    ensures Rm(Words(code)[2]) == 1 && Ra(Words(code)[2]) == 2
    ensures Rn(Words(code)[2]) == 0 && Rd(Words(code)[2]) == 0
  {
    var first := WordToBytes(MOVZ | (0x02 << 5) | 0x01);
    var second := WordToBytes(MOVZ | 0x02);
    var third := WordToBytes(0x9B000000 | (0x01 << 16) | (0x02 << 10));
    WordsCons(0x9B000000 | (0x01 << 16) | (0x02 << 10), []);
    WordsCons(MOVZ | 0x02, third);
    WordsCons(MOVZ | (0x02 << 5) | 0x01, second + third);
    assert first + second + third == first + (second + third);
    first + second + third
  }

  /** MOVZ w1, #2; SDIV x0, x0, x1: the first word is that of `Double`. */
  function Halve(): (code: seq<u8>)
    ensures |code| == 8
    ensures code == [0x41, 0x00, 0x80, 0x52, 0x00, 0x0C, 0xC1, 0x9A]
    ensures Words(code) == [0x5280_0041, 0x9AC1_0C00]
    ensures Words(code)[0] == Words(Double())[0]
    ensures Sf(Words(code)[1]) == 1 && Rm(Words(code)[1]) == 1
    ensures Rn(Words(code)[1]) == 0 && Rd(Words(code)[1]) == 0
  {
    var first := WordToBytes(MOVZ | (0x02 << 5) | 0x01);
    var second := WordToBytes(0x9AC00C00 | (0x01 << 16));
    WordsCons(0x9AC00C00 | (0x01 << 16), []);
    WordsCons(MOVZ | (0x02 << 5) | 0x01, second);
    first + second
  }

  /** `native_insns`: the machine code of one abstract instruction, always a
      non-empty whole number of 4-byte instruction words. */
  function NativeInsns(insn: Insn): (code: seq<u8>)
    ensures |code| > 0 && |code| % 4 == 0
  {
    match insn
    case Reset => ResetAccum()
    case Return => FuncReturn()
    case Incr => Incr()
    case Decr => Decr()
    case Double => Double()
    case Halve => Halve()
  }
}
