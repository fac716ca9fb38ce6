/** The calculator's front end and its reference semantics: `parse` turns
    program text into abstract instructions and `interpret` folds them over an
    unsigned 64-bit accumulator. */
module Calculator {
  import opened Insns

  datatype Option<T> = None | Some(value: T)

  /** 2^64: one more than the largest `u64`. */
  const U64_LIMIT: int := 0x1_0000_0000_0000_0000

  /** Rust's `u64`. */
  type u64 = x: int | 0 <= x < U64_LIMIT

  /** The closure `parse` maps over the characters of the program. */
  function ParseChar(ch: char): (r: Option<Insn>)
    ensures r.Some? <==> ch in "+-*/"
    ensures r.Some? ==> IsUserInsn(r.value)
  {
    match ch
    case '+' => Some(Incr)
    case '-' => Some(Decr)
    case '*' => Some(Double)
    case '/' => Some(Halve)
    case _ => None
  }

  /** `parse`: one instruction per `+`, `-`, `*` or `/`, in program order;
      every other character is dropped. Only user instructions come out. */
  function Parse(program: string): (insns: seq<Insn>)
    ensures forall i :: 0 <= i < |insns| ==> IsUserInsn(insns[i])
  {
    if program == [] then []
    else
      match ParseChar(program[0])
      case Some(insn) => [insn] + Parse(program[1..])
      case None => Parse(program[1..])
  }

  /** The characters of `program` that `parse` keeps, in order. */
  function OpChars(program: string): string {
    if program == [] then []
    else if program[0] in "+-*/" then [program[0]] + OpChars(program[1..])
    else OpChars(program[1..])
  }

  /** The program character of a user instruction. */
  function OpChar(insn: Insn): char
    requires IsUserInsn(insn)
  {
    match insn
    case Incr => '+'
    case Decr => '-'
    case Double => '*'
    case Halve => '/'
  }

  /** The program text that spells a sequence of user instructions. */
  function Unparse(insns: seq<Insn>): string
    requires forall i :: 0 <= i < |insns| ==> IsUserInsn(insns[i])
  {
    if insns == [] then [] else [OpChar(insns[0])] + Unparse(insns[1..])
  }

  /** `parse` works character by character: parsing a concatenation is
      concatenating the parses. */
  lemma {:induction false} ParseAppend(a: string, b: string)
    ensures Parse(a + b) == Parse(a) + Parse(b)
  {
    if a == [] {
      assert a + b == b;
    } else {
      assert (a + b)[0] == a[0];
      assert (a + b)[1..] == a[1..] + b;
      ParseAppend(a[1..], b);
    }
  }

  /** Parsing the text of a user program gives that program back. */
  lemma {:induction false} ParseUnparse(insns: seq<Insn>)
    requires forall i :: 0 <= i < |insns| ==> IsUserInsn(insns[i])
    ensures Parse(Unparse(insns)) == insns
  {
    if insns != [] {
      var text := Unparse(insns);
      assert text[0] == OpChar(insns[0]);
      assert text[1..] == Unparse(insns[1..]);
      ParseUnparse(insns[1..]);
    }
  }

  /** Spelling out what `parse` produced gives exactly the characters it kept,
      in their order. */
  lemma {:induction false} UnparseParse(program: string)
    ensures Unparse(Parse(program)) == OpChars(program)
  {
    if program != [] {
      UnparseParse(program[1..]);
    }
  }

  /** The canonical program of the test suite. */
  lemma ParseCanonical()
    ensures Parse("+ + * - /") == [Incr, Incr, Double, Decr, Halve]
  {
    var p := "+ + * - /";
    assert Parse(p[8..]) == [Halve];
    assert Parse(p[6..]) == [Decr, Halve] by { assert p[6..][1..][1..] == p[8..]; }
    assert Parse(p[4..]) == [Double, Decr, Halve] by { assert p[4..][1..][1..] == p[6..]; }
    assert Parse(p[2..]) == [Incr, Double, Decr, Halve] by { assert p[2..][1..][1..] == p[4..]; }
    assert p[1..][1..] == p[2..];
  }

  /** What an instruction does to the accumulator over the unbounded integers. */
  function MathStep(insn: Insn, accum: int): int
    requires accum >= 0
  {
    match insn
    case Reset => 0
    case Return => accum
    case Incr => accum + 1
    case Decr => accum - 1
    case Double => 2 * accum
    case Halve => accum / 2
  }

  /** The result of `interpret` or the u64 overflow that stops it (a panic in
      Rust's checked arithmetic). */
  datatype Outcome = Value(accum: u64) | Overflow

  /** One iteration of the `interpret` loop body on a non-`Return` instruction,
      with Rust's checked `u64` arithmetic. It agrees with integer arithmetic
      whenever the integer result is a `u64`, and overflows otherwise: `Decr`
      at 0, `Incr` at 2^64 - 1 and `Double` from 2^63 up. `Halve` is unsigned
      division rounding down. */
  function Step(insn: Insn, accum: u64): (r: Outcome)
    requires insn != Return
    ensures r.Value? ==> r.accum == MathStep(insn, accum)
    ensures r.Overflow? <==> !(0 <= MathStep(insn, accum) < U64_LIMIT)
    ensures insn == Decr ==> (r.Overflow? <==> accum == 0)
    ensures insn == Double ==> (r.Overflow? <==> accum >= U64_LIMIT / 2)
  {
    match insn
    case Reset => Value(0)
    case Incr => if accum == U64_LIMIT - 1 then Overflow else Value(accum + 1)
    case Decr => if accum == 0 then Overflow else Value(accum - 1)
    case Double => if accum > (U64_LIMIT - 1) / 2 then Overflow else Value(accum * 2)
    case Halve => Value(accum / 2)
  }

  /** The `interpret` loop from accumulator `accum`: it stops at the first
      `Return` or at the first overflow. */
  function Run(insns: seq<Insn>, accum: u64): Outcome {
    if insns == [] || insns[0] == Return then Value(accum)
    else
      match Step(insns[0], accum)
      case Overflow => Overflow
      case Value(next) => Run(insns[1..], next)
  }

  /** `interpret`: starts from 0 and runs the instructions in order, stopping
      at the first `Return`. */
  method Interpret(insns: seq<Insn>) returns (r: Outcome)
    ensures r == Run(insns, 0)
  {
    var accum: u64 := 0;
    var i := 0;
    while i < |insns|
      invariant 0 <= i <= |insns|
      invariant Run(insns[i..], accum) == Run(insns, 0)
    {
      assert insns[i..][1..] == insns[i + 1..];
      match insns[i] {
        case Reset =>
          accum := 0;
        case Return =>
          break;
        case Incr =>
          if accum == U64_LIMIT - 1 { return Overflow; }
          accum := accum + 1;
        case Decr =>
          if accum == 0 { return Overflow; }
          accum := accum - 1;
        case Double =>
          if accum > (U64_LIMIT - 1) / 2 { return Overflow; }
          accum := accum * 2;
        case Halve =>
          accum := accum / 2;
      }
      i := i + 1;
    }
    r := Value(accum);
  }

  /** Whether running the instructions over the integers keeps every
      intermediate accumulator value reached before the first `Return`
      within `u64`. */
  ghost predicate StaysInRange(insns: seq<Insn>, accum: int)
    requires accum >= 0
  {
    insns == [] || insns[0] == Return
    || (0 <= MathStep(insns[0], accum) < U64_LIMIT && StaysInRange(insns[1..], MathStep(insns[0], accum)))
  }

  /** The final accumulator over the unbounded integers, up to the first
      `Return` (or the first step that would go negative). */
  ghost function MathRun(insns: seq<Insn>, accum: int): int
    requires accum >= 0
  {
    if insns == [] || insns[0] == Return then accum
    else if MathStep(insns[0], accum) < 0 then MathStep(insns[0], accum)
    else MathRun(insns[1..], MathStep(insns[0], accum))
  }

  /** The u64 interpreter computes the integer result exactly when no
      intermediate value leaves `u64`, and overflows otherwise. */
  lemma {:induction false} RunIsIntegerArithmetic(insns: seq<Insn>, accum: u64)
    ensures Run(insns, accum).Value? <==> StaysInRange(insns, accum)
    ensures Run(insns, accum).Value? ==> Run(insns, accum).accum == MathRun(insns, accum)
  {
    if insns != [] && insns[0] != Return {
      match Step(insns[0], accum)
      case Overflow =>
      case Value(next) =>
        RunIsIntegerArithmetic(insns[1..], next);
    }
  }

  /** Running `a` and then `b` from the accumulator `a` left behind, unless `a`
      already returned or overflowed. */
  lemma {:induction false} RunAppend(a: seq<Insn>, b: seq<Insn>, accum: u64)
    ensures Run(a + b, accum)
            == if Return in a then Run(a, accum)
               else match Run(a, accum)
                    case Overflow => Overflow
                    case Value(x) => Run(b, x)
  {
    if a == [] {
      assert a + b == b;
    } else {
      assert (a + b)[0] == a[0];
      assert (a + b)[1..] == a[1..] + b;
      if a[0] != Return {
        match Step(a[0], accum)
        case Overflow =>
        case Value(next) =>
          RunAppend(a[1..], b, next);
          assert Return in a <==> Return in a[1..];
      }
    }
  }

  /** Nothing after the first `Return` has any effect. */
  lemma ReturnStops(a: seq<Insn>, b: seq<Insn>, accum: u64)
    ensures Run(a + [Return] + b, accum) == Run(a, accum)
  {
    RunAppend(a, [Return] + b, accum);
    assert a + [Return] + b == a + ([Return] + b);
  }

  /** After a `Reset` reached without overflow or `Return`, the run continues
      from 0 whatever came before. */
  lemma ResetClears(a: seq<Insn>, b: seq<Insn>, accum: u64)
    requires Return !in a && Run(a, accum).Value?
    ensures Run(a + [Reset] + b, accum) == Run(b, 0)
  {
    RunAppend(a, [Reset] + b, accum);
    assert a + [Reset] + b == a + ([Reset] + b);
    var x := Run(a, accum).accum;
    assert ([Reset] + b)[0] == Reset && ([Reset] + b)[1..] == b;
    assert Run([Reset] + b, x) == Run(b, 0);
  }

  /** The canonical program of the test suite evaluates to 1. */
  lemma InterpretCanonical()
    ensures Run(Parse("+ + * - /"), 0) == Value(1)
  {
    ParseCanonical();
  }

  /** The values the test suite expects of the programs it runs natively:
      0, 1, 4 and 3. The two tests that expect -1 and -4 lie outside `u64`:
      there the interpreter overflows. */
  lemma InterpretExamples()
    ensures Run([], 0) == Value(0)
    ensures Run([Incr], 0) == Value(1)
    ensures Run([Decr], 0) == Overflow
    ensures Run([Incr, Double, Double], 0) == Value(4)
    ensures Run([Decr, Double, Double], 0) == Overflow
    ensures Run([Incr, Double, Double, Double, Decr, Decr, Halve], 0) == Value(3)
  {
  }

  /** The number of instructions `parse` produces is the number of `+`, `-`,
      `*` and `/` characters in the program. */
  lemma {:induction false} ParseLength(program: string)
    ensures |Parse(program)| == multiset(program)['+'] + multiset(program)['-']
                                + multiset(program)['*'] + multiset(program)['/']
  {
    if program != [] {
      assert program == [program[0]] + program[1..];
      ParseLength(program[1..]);
    }
  }
}
