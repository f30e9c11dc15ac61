/** The sixteen data-processing opcodes: results, and the flags they set when the S bit is on.
    The C text states the flag rules in comments (arm_instruction.c:148-153, 177-182, 193-198);
    its code departs from them, as AsWritten records. */
module Alu {
  import opened Words
  import opened Status

  datatype Opcode =
    | AND | EOR | SUB | RSB | ADD | ADC | SBC | RSC
    | TST | TEQ | CMP | CMN | ORR | MOV | BIC | MVN

  /** TST, TEQ, CMP and CMN only set flags. */
  predicate Compares(op: Opcode) {
    op.TST? || op.TEQ? || op.CMP? || op.CMN?
  }

  predicate Arithmetic(op: Opcode) {
    op.SUB? || op.RSB? || op.ADD? || op.ADC? || op.SBC? || op.RSC? || op.CMP? || op.CMN?
  }

  function Int(b: bool): nat {
    if b then 1 else 0
  }

  function Result(op: Opcode, a: Word, b: Word, carry: bool): Word {
    WordOps(a, b);
    match op
    case AND => And(a, b)
    case EOR => Xor(a, b)
    case SUB => Wrap(a - b)
    case RSB => Wrap(b - a)
    case ADD => Wrap(a + b)
    case ADC => Wrap(a + b + Int(carry))
    case SBC => Wrap(a - b - Int(!carry))
    case RSC => Wrap(b - a - Int(!carry))
    case TST => And(a, b)
    case TEQ => Xor(a, b)
    case CMP => Wrap(a - b)
    case CMN => Wrap(a + b)
    case ORR => Or(a, b)
    case MOV => b
    case BIC => And(a, Not(b))
    case MVN => Not(b)
  }

  /** Did the exact sum need a 33rd bit? */
  predicate CarryFrom(sum: int) { 0x1_0000_0000 <= sum }

  /** Was the exact difference negative? */
  predicate BorrowFrom(difference: int) { difference < 0 }

  /** The sign-bit rules of the manual's glossary. */
  predicate OverflowFromAdd(a: Word, b: Word, r: Word) {
    Negative(a) == Negative(b) && Negative(r) != Negative(a)
  }

  predicate OverflowFromSub(a: Word, b: Word, r: Word) {
    Negative(a) != Negative(b) && Negative(r) != Negative(a)
  }

  function FlagsAfter(op: Opcode, a: Word, b: Word, shifterCarry: bool, f: Flags): Flags {
    var r := Result(op, a, b, f.c);
    var c := match op
      case SUB | CMP => !BorrowFrom(a - b)
      case RSB => !BorrowFrom(b - a)
      case ADD | CMN => CarryFrom(a + b)
      case ADC => CarryFrom(a + b + Int(f.c))
      case SBC => !BorrowFrom(a - b - Int(!f.c))
      case RSC => !BorrowFrom(b - a - Int(!f.c))
      case _ => shifterCarry;
    var v := match op
      case SUB | CMP | SBC => OverflowFromSub(a, b, r)
      case RSB | RSC => OverflowFromSub(b, a, r)
      case ADD | CMN | ADC => OverflowFromAdd(a, b, r)
      case _ => f.v;
    Flags(Negative(r), r == 0, c, v)
  }

  // ---------------------------------------------------------------- one adder for eight opcodes

  datatype Sum = Sum(result: Word, carry: bool, overflow: bool)

  /** A 32-bit adder with carry in: the carry out is unsigned overflow, the overflow is signed overflow. */
  function Adder(x: Word, y: Word, carryIn: bool): Sum {
    var unsigned := x + y + Int(carryIn);
    var signed := Signed(x) + Signed(y) + Int(carryIn);
    Sum(Wrap(unsigned), unsigned != Wrap(unsigned), !(-0x8000_0000 <= signed < 0x8000_0000))
  }

  /** What each opcode feeds the adder: subtraction complements an operand, compares discard the result. */
  function AdderFor(op: Opcode, a: Word, b: Word, carry: bool): Sum
    requires Arithmetic(op)
  {
    match op
    case SUB | CMP => Adder(a, Not(b), true)
    case RSB => Adder(b, Not(a), true)
    case ADD | CMN => Adder(a, b, false)
    case ADC => Adder(a, b, carry)
    case SBC => Adder(a, Not(b), carry)
    case RSC => Adder(b, Not(a), carry)
  }

  /** The value the opcode is meant to compute, on unsigned or on signed readings of its operands. */
  function Exact(op: Opcode, a: int, b: int, carry: bool): int
    requires Arithmetic(op)
  {
    match op
    case SUB | CMP => a - b
    case RSB => b - a
    case ADD | CMN => a + b
    case ADC => a + b + Int(carry)
    case SBC => a - b - Int(!carry)
    case RSC => b - a - Int(!carry)
  }

  /** Result, C and V against the exact values: the result is right modulo 2^32, C says whether the unsigned
      value fits (for a subtraction: no borrow), and the sign-bit rule for V whether the signed value does not. */
  lemma ArithmeticIsExact(op: Opcode, a: Word, b: Word, shifterCarry: bool, f: Flags)
    requires Arithmetic(op)
    ensures var u, s := Exact(op, a, b, f.c), Exact(op, Signed(a), Signed(b), f.c);
            var g := FlagsAfter(op, a, b, shifterCarry, f);
            && Result(op, a, b, f.c) == u % 0x1_0000_0000
            && (g.c <==> if op.ADD? || op.ADC? || op.CMN? then u >= 0x1_0000_0000 else u >= 0)
            && (g.v <==> !(-0x8000_0000 <= s < 0x8000_0000))
            && (g.z <==> u % 0x1_0000_0000 == 0)
            && (g.n != g.v <==> s < 0)
  {
    hide And, Or, Xor, Signed, Negative, OverflowFromAdd, OverflowFromSub;
    var carry, borrow := Int(f.c), Int(!f.c);
    match op {
      case SUB | CMP => SubtractionFlags(a, b, 0);
      case RSB => SubtractionFlags(b, a, 0);
      case ADD | CMN => AdditionFlags(a, b, 0);
      case ADC => AdditionFlags(a, b, carry);
      case SBC => SubtractionFlags(a, b, borrow);
      case RSC => SubtractionFlags(b, a, borrow);
    }
  }

  lemma AdditionFlags(a: Word, b: Word, carry: nat)
    requires carry <= 1
    ensures var r, s := Wrap(a + b + carry), Signed(a) + Signed(b) + carry;
            && (OverflowFromAdd(a, b, r) <==> !(-0x8000_0000 <= s < 0x8000_0000))
            && (Negative(r) != OverflowFromAdd(a, b, r) <==> s < 0)
  {
  }

  lemma SubtractionFlags(a: Word, b: Word, borrow: nat)
    requires borrow <= 1
    ensures var r, s := Wrap(a - b - borrow), Signed(a) - Signed(b) - borrow;
            && (OverflowFromSub(a, b, r) <==> !(-0x8000_0000 <= s < 0x8000_0000))
            && (Negative(r) != OverflowFromSub(a, b, r) <==> s < 0)
  {
  }

  lemma OneAdder(op: Opcode, a: Word, b: Word, shifterCarry: bool, f: Flags)
    requires Arithmetic(op)
    ensures var s := AdderFor(op, a, b, f.c);
            && Result(op, a, b, f.c) == s.result
            && FlagsAfter(op, a, b, shifterCarry, f) == Flags(Negative(s.result), s.result == 0, s.carry, s.overflow)
  {
    ArithmeticIsExact(op, a, b, shifterCarry, f);
    AdderIsExact(op, a, b, f.c);
    NegativeAndZero(op, a, b, shifterCarry, f);
    hide Result, FlagsAfter, AdderFor, Exact;
  }

  lemma NegativeAndZero(op: Opcode, a: Word, b: Word, shifterCarry: bool, f: Flags)
    ensures var r, g := Result(op, a, b, f.c), FlagsAfter(op, a, b, shifterCarry, f);
            g.n == Negative(r) && g.z == (r == 0)
  {
    hide And, Or, Xor;
  }

  lemma AdderIsExact(op: Opcode, a: Word, b: Word, carry: bool)
    requires Arithmetic(op)
    ensures var u, s, r := Exact(op, a, b, carry), Exact(op, Signed(a), Signed(b), carry), AdderFor(op, a, b, carry);
            && r.result == u % 0x1_0000_0000
            && (r.carry <==> if op.ADD? || op.ADC? || op.CMN? then u >= 0x1_0000_0000 else u >= 0)
            && (r.overflow <==> !(-0x8000_0000 <= s < 0x8000_0000))
  {
    hide Adder;
    match op {
      case SUB | CMP => SubtractingAdder(a, b, true);
      case RSB => SubtractingAdder(b, a, true);
      case SBC => SubtractingAdder(a, b, carry);
      case RSC => SubtractingAdder(b, a, carry);
      case ADD | CMN => AddingAdder(a, b, false);
      case ADC => AddingAdder(a, b, carry);
    }
  }

  lemma AddingAdder(x: Word, y: Word, carryIn: bool)
    ensures var r, u, s := Adder(x, y, carryIn), x + y + Int(carryIn), Signed(x) + Signed(y) + Int(carryIn);
            && r.result == u % 0x1_0000_0000
            && (r.carry <==> u >= 0x1_0000_0000)
            && (r.overflow <==> !(-0x8000_0000 <= s < 0x8000_0000))
  {
  }

  /** Adding the complement subtracts, with the carry as an inverted borrow. */
  lemma SubtractingAdder(x: Word, y: Word, carryIn: bool)
    ensures var r, u, s := Adder(x, Not(y), carryIn), x - y - Int(!carryIn), Signed(x) - Signed(y) - Int(!carryIn);
            && r.result == u % 0x1_0000_0000
            && (r.carry <==> u >= 0)
            && (r.overflow <==> !(-0x8000_0000 <= s < 0x8000_0000))
  {
    var u := x - y - Int(!carryIn);
    assert Signed(Not(y)) == -1 - Signed(y);
    assert x + Not(y) + Int(carryIn) == u + 0x1_0000_0000;
    assert (u + 0x1_0000_0000) % 0x1_0000_0000 == u % 0x1_0000_0000;
  }

  /** The bitwise opcodes act bit by bit; their carry is the shifter's and V is left alone. */
  lemma LogicalOpcodes(op: Opcode, a: Word, b: Word, shifterCarry: bool, f: Flags, k: nat)
    requires !Arithmetic(op) && k < 32
    ensures Bit(Result(op, a, b, f.c), k) == (match op
            case AND | TST => Bit(a, k) && Bit(b, k)
            case EOR | TEQ => Bit(a, k) != Bit(b, k)
            case ORR => Bit(a, k) || Bit(b, k)
            case BIC => Bit(a, k) && !Bit(b, k)
            case MOV => Bit(b, k)
            case _ => !Bit(b, k))
    ensures var g := FlagsAfter(op, a, b, shifterCarry, f);
            g.c == shifterCarry && g.v == f.v && (g.n <==> Bit(Result(op, a, b, f.c), 31))
  {
    hide Bit, And, Or, Xor;
    Pow2Literals();
    BitOps(a, b, k);
    BitAnd(a, Not(b), k);
    BitComplement(b, 32, k);
    TopBit(Result(op, a, b, f.c));
  }

  // ---------------------------------------------------------------- conditions after a comparison

  /** After CMP a, b every comparison code decides the comparison its name says; MI and PL decide the sign of the
      difference modulo 2^32, VS and VC whether that is the signed difference. */
  lemma CompareDecides(a: Word, b: Word, shifterCarry: bool, f: Flags)
    ensures var g := FlagsAfter(CMP, a, b, shifterCarry, f);
            && (ConditionPassed(g, EQ) <==> a == b) && (ConditionPassed(g, NE) <==> a != b)
            && (ConditionPassed(g, HS) <==> a >= b) && (ConditionPassed(g, LO) <==> a < b)
            && (ConditionPassed(g, HI) <==> a > b) && (ConditionPassed(g, LS) <==> a <= b)
            && (ConditionPassed(g, GE) <==> Signed(a) >= Signed(b)) && (ConditionPassed(g, LT) <==> Signed(a) < Signed(b))
            && (ConditionPassed(g, GT) <==> Signed(a) > Signed(b)) && (ConditionPassed(g, LE) <==> Signed(a) <= Signed(b))
            && (ConditionPassed(g, MI) <==> Signed(Wrap(a - b)) < 0) && (ConditionPassed(g, PL) <==> Signed(Wrap(a - b)) >= 0)
            && (ConditionPassed(g, VS) <==> Signed(Wrap(a - b)) != Signed(a) - Signed(b))
            && (ConditionPassed(g, VC) <==> Signed(Wrap(a - b)) == Signed(a) - Signed(b))
  {
    ArithmeticIsExact(CMP, a, b, shifterCarry, f);
  }

  /** CMN a, b against CMP a, -b: the same N and Z; C differs exactly for b = 0, V exactly for b = 2^31. */
  lemma CmnAgainstCmp(a: Word, b: Word, shifterCarry: bool, f: Flags)
    ensures var g, h := FlagsAfter(CMN, a, b, shifterCarry, f), FlagsAfter(CMP, a, Wrap(0 - b as int), shifterCarry, f);
            && g.n == h.n && g.z == h.z
            && (g.c != h.c <==> b == 0)
            && (g.v != h.v <==> b == 0x8000_0000)
  {
    hide And, Or, Xor;
  }
}
