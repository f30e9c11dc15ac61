/** The processor to the letter: arm_instruction.c with the branches of arm_branch_other.c and the addresses of
    arm_load_store.c, where their text departs from what its comments and the manual ask for, and for each departure
    exactly when it makes no difference. The rest of the project models the intent.

    C leaves some values here indeterminate; they come from a `Junk` record, and every statement holds whatever
    it contains. */
module AsWritten {
  import opened Words
  import opened Memory
  import opened Status
  import opened Alu
  import opened Shifter
  import opened Machine
  import opened StoredProgram
  import opened Decoding
  import opened Effects
  import Countdown

  /** What the uninitialised locals and the missing return happen to yield during one instruction: whether
      bits4_11 reads as zero, what shifts by the unset shift_imm give, and whether ConditionPassed looks true
      when it falls off its end. */
  datatype Junk = Junk(plain: bool, shifted: Shifted, taken: bool)

  // ---------------------------------------------------------------- ConditionPassed

  datatype Return = Returned(value: int) | FellOff

  /** Codes 0..13 return 1 when their test holds and otherwise fall off the end; LS is tested with AND. */
  function ConditionReturn(f: Flags, cond: Cond): Return {
    var test := match cond
      case 0 => f.z
      case 1 => !f.z
      case 2 => f.c
      case 3 => !f.c
      case 4 => f.n
      case 5 => !f.n
      case 6 => f.v
      case 7 => !f.v
      case 8 => f.c && !f.z
      case 9 => !f.c && f.z
      case 10 => f.n == f.v
      case 11 => f.n != f.v
      case 12 => !f.z && f.n == f.v
      case 13 => f.z || f.n != f.v
      case _ => false;
    if cond >= 14 then Returned(-1) else if test then Returned(1) else FellOff
  }

  predicate Taken(f: Flags, cond: Cond, junk: Junk) {
    match ConditionReturn(f, cond)
    case Returned(v) => v != 0
    case FellOff => junk.taken
  }

  /** What is returned is always true, and is returned exactly when the condition passes, except that LS with
      C and Z equal passes and returns nothing. No code ever returns 0, so the caller goes on after every return, and
      otherwise as chance has it. */
  lemma ConditionAgreement(f: Flags, cond: Cond, junk: Junk)
    ensures Taken(f, cond, junk) <==> ConditionReturn(f, cond).Returned? || junk.taken
    ensures ConditionReturn(f, cond) != Returned(0)
    ensures ConditionReturn(f, cond).Returned? <==> ConditionPassed(f, cond) && !(cond == LS && f.c == f.z)
  {
  }

  // ---------------------------------------------------------------- flag updates

  /** update_Flag_Z, N, C, V: the local copy changes, the CPSR does not. */
  function UpdateFlag(cpsr: Word, k: nat, indice: int): (written: Word)
    requires k < 32
  {
    var flag := SetFlag(cpsr, k, indice == 1);
    cpsr
  }

  /** So an update does what it is for exactly when the flag already had that value. */
  lemma {:induction false} UpdateFlagAgreement(cpsr: Word, k: nat, indice: int)
    requires k < 32
    ensures UpdateFlag(cpsr, k, indice) == cpsr
    ensures UpdateFlag(cpsr, k, indice) == SetFlag(cpsr, k, indice == 1) <==> Bit(cpsr, k) == (indice == 1)
  {
    hide Bit, SetBit;
    Pow2Literals();
    var r := SetFlag(cpsr, k, indice == 1);
    BitSetBit(cpsr, k, indice == 1, k);
    if Bit(cpsr, k) == (indice == 1) {
      forall j: nat | j < 32
        ensures Bit(r, j) == Bit(cpsr, j)
      {
        BitSetBit(cpsr, k, indice == 1, j);
      }
      BitsDetermine(r, cpsr, 32);
    }
  }

  // ---------------------------------------------------------------- opcodes

  /** TEQ with OR for EOR, BIC and MVN with the logical `!` for the bitwise NOT. */
  function ResultWritten(op: Opcode, a: Word, b: Word, carry: bool): Word {
    WordOps(a, b);
    match op
    case TEQ => Or(a, b)
    case BIC => And(a, if b == 0 then 1 else 0)
    case MVN => if b == 0 then 1 else 0
    case _ => Result(op, a, b, carry)
  }

  /** TEQ: no common bit. BIC: nothing but bit 0 in a, or nothing in a outside b. MVN: all ones. */
  predicate OperandsHideDeparture(op: Opcode, a: Word, b: Word) {
    match op
    case TEQ => And(a, b) == 0
    case BIC => if b == 0 then a <= 1 else And(a, Not(b)) == 0
    case MVN => b == 0xFFFF_FFFF
    case _ => true
  }

  lemma {:induction false} ResultAgreement(op: Opcode, a: Word, b: Word, carry: bool)
    ensures ResultWritten(op, a, b, carry) == Result(op, a, b, carry) <==> OperandsHideDeparture(op, a, b)
  {
    match op {
      case TEQ => HalfAdder(a, b);
      case BIC => AndOnes(a); AndOne(a);
      case _ =>
    }
  }

  /** The written results by value: TEQ is the bitwise or, BIC keeps at most bit 0, MVN is 1 or 0, and the other thirteen
      are as meant. */
  lemma {:induction false} WrittenResults(op: Opcode, a: Word, b: Word, carry: bool, k: nat)
    ensures var r := ResultWritten(op, a, b, carry);
            && (op.TEQ? ==> (Bit(r, k) <==> Bit(a, k) || Bit(b, k)))
            && (op.BIC? ==> r == if b == 0 then a % 2 else 0)
            && (op.MVN? ==> r == if b == 0 then 1 else 0)
            && (!op.TEQ? && !op.BIC? && !op.MVN? ==> r == Result(op, a, b, carry))
  {
    hide Bit, Result, Or, Xor, And;
    BitOr(a, b, k);
    AndOne(a);
  }

  lemma AndOne(a: Word)
    ensures And(a, 0) == 0 && And(a, 1) == a % 2
  {
    assert And(a / 2, 0) == 0;
  }

  lemma AndOnes(a: Word)
    ensures And(a, 0xFFFF_FFFF) == a
  {
    Pow2Literals();
    AndAllOnes(a, 32);
  }

  lemma {:induction false} AndAllOnes(a: nat, n: nat)
    requires a < Pow2(n)
    ensures And(a, Pow2(n) - 1) == a
  {
    if n > 0 {
      AndDigits(a, Pow2(n) - 1);
      assert (Pow2(n) - 1) / 2 == Pow2(n - 1) - 1 && (Pow2(n) - 1) % 2 == 1;
      AndAllOnes(a / 2, n - 1);
    }
  }

  /** CMP and CMN as written ask for N and Z from the result, and for C and V together only if the 32-bit result has
      a bit above 31; even if the updates took effect, these would be the flags. */
  function CompareRequest(op: Opcode, a: Word, b: Word, f: Flags): Flags
    requires op.CMP? || op.CMN?
  {
    var out := ResultWritten(op, a, b, f.c);
    var high := out / 0x1_0000_0000 != 0;
    Flags(Negative(out), out == 0, high || f.c, high || f.v)
  }

  lemma CompareAgreement(op: Opcode, a: Word, b: Word, carry: bool, f: Flags)
    requires op.CMP? || op.CMN?
    ensures var r := Wrap(if op.CMP? then a - b else a + b);
            CompareRequest(op, a, b, f) == Flags(Signed(r) < 0, r == 0, f.c, f.v)
    ensures CompareRequest(op, a, b, f) == FlagsAfter(op, a, b, carry, f) <==>
            && f.c == (if op.CMP? then a >= b else a + b >= 0x1_0000_0000)
            && f.v == !(-0x8000_0000 <= (if op.CMP? then Signed(a) - Signed(b) else Signed(a) + Signed(b)) < 0x8000_0000)
  {
    ArithmeticIsExact(op, a, b, carry, f);
    NegativeAndZero(op, a, b, carry, f);
    hide Result, FlagsAfter;
  }

  // ---------------------------------------------------------------- the shifter

  /** The carry that RRX shifts in is taken from bit 29 of a single bit, so it is 0. */
  function RrxWritten(rm: Word, insBit16: bool): Shifted {
    Rrx(rm, Bit(if insBit16 then 1 else 0, 29))
  }

  lemma RrxAgreement(rm: Word, insBit16: bool, c: bool)
    ensures RrxWritten(rm, insBit16) == Rrx(rm, c) <==> !c
  {
    BitZero(29);
    assert !Bit(1, 29) by { BitZero(28); }
  }

  /** The other forms: shift_imm is set for LSL only, and register shifts use the number of the register. */
  function ShiftWritten(operand: Operand, rm: Word, insBit16: bool, c: bool, junk: Junk): Shifted
    requires !operand.Immediate? && (operand.ShiftByImmediate? ==> operand.amount < 32)
  {
    match operand
    case ShiftByImmediate(LSL, amount, _) => ByImmediate(LSL, rm, amount, c)
    case ShiftByImmediate(ROR, 0, _) => RrxWritten(rm, insBit16)
    case ShiftByImmediate(_, _, _) => junk.shifted
    case ShiftByRegister(kind, rs, _) => ByRegister(kind, rm, rs, c)
  }

  function OperandWritten(st: State, operand: Operand, insBit16: bool, junk: Junk): Shifted
    requires operand.ShiftByImmediate? ==> operand.amount < 32
  {
    if operand.Immediate? then OperandValue(st, operand)
    else if junk.plain then Shifted(st.Read(operand.rm), st.Flags().c)
    else ShiftWritten(operand, st.Read(operand.rm), insBit16, st.Flags().c, junk)
  }

  /** What each form yields, as one-bit shifts through the carry: a register operand whose bits4_11 reads as zero is not
      shifted, register shifts go by the number of the register, RRX shifts in a 0, and what is left is indeterminate. */
  lemma WrittenOperand(st: State, operand: Operand, insBit16: bool, junk: Junk)
    requires operand.ShiftByImmediate? ==> operand.amount < 32
    ensures var y, c := OperandWritten(st, operand, insBit16, junk), st.Flags().c;
            match operand
            case Immediate(rotate, imm8) => y == Iterate(ROR, 2 * rotate, Shifted(imm8, c))
            case ShiftByRegister(kind, rs, rm) =>
              y == if junk.plain then Shifted(st.Read(rm), c) else Iterate(kind, rs, Shifted(st.Read(rm), c))
            case ShiftByImmediate(kind, amount, rm) =>
              y == if junk.plain then Shifted(st.Read(rm), c)
                   else if kind.LSL? then Iterate(LSL, amount, Shifted(st.Read(rm), c))
                   else if kind.ROR? && amount == 0 then Shifted(st.Read(rm) / 2, st.Read(rm) % 2 == 1)
                   else junk.shifted
  {
    hide Iterate, ByImmediate, ByRegister, Ror, FlagsOf, DropBit1, RotateN, Pack;
    match operand {
      case Immediate(rotate, imm8) =>
        hide Bit;
        ImmediateOperandIsIterated(imm8, rotate, st.Flags().c);
      case ShiftByRegister(kind, rs, rm) =>
        RegisterShiftIsIterated(kind, st.Read(rm), rs, st.Flags().c);
      case ShiftByImmediate(kind, amount, rm) =>
        ImmediateShiftIsIterated(LSL, st.Read(rm), amount, st.Flags().c);
        RrxAgreement(st.Read(rm), insBit16, false);
    }
  }

  // ---- a register's number in place of its contents

  /** Two amounts that shift alike. */
  predicate SameShift(kind: Kind, n: Byte, amount: Byte) {
    n == amount || (kind.ROR? && n > 0 && amount > 0 && n % 32 == amount % 32)
  }

  lemma {:induction false} OneBitSet(k: nat, j: nat)
    ensures Bit(Pow2(k), j) <==> j == k
  {
    if k > 0 && j > 0 {
      assert Pow2(k) / 2 == Pow2(k - 1);
      OneBitSet(k - 1, j - 1);
    } else if j > 0 {
      BitZero(j - 1);
    }
  }

  /** Shifting by n and by another amount differ on the word whose one bit the first shifts into the carry. */
  lemma ShiftsDiffer(kind: Kind, n: Byte, amount: Byte) returns (rm: Word, c: bool)
    requires n < 16 && !SameShift(kind, n, amount)
    ensures ByRegister(kind, rm, n, c) != ByRegister(kind, rm, amount, c)
  {
    hide Bit, Ror, Asr, LogicalShift, Pow2;
    if n == 0 {
      rm, c := 1, !ByRegister(kind, 1, amount, false).carry;
    } else if amount == 0 {
      rm, c := 1, !ByRegister(kind, 1, n, false).carry;
    } else {
      var k := if kind.LSL? then 32 - n else n - 1;
      Pow2Literals();
      Pow2Mono(k, 31);
      rm, c := Pow2(k), false;
      OneBitSet(k, k);
      OneBitSet(k, 31);
      OneBitSet(k, 0);
      OneBitSet(k, if kind.LSL? && amount <= 32 then 32 - amount else amount - 1);
      OneBitSet(k, if amount % 32 == 0 then 31 else amount % 32 - 1);
    }
  }

  /** A shift by register n as written is the intended one for every word and carry exactly if the register's low byte
      is n, or the shift is a rotation and the byte is neither 0 nor different from n modulo 32. */
  lemma {:induction false} RegisterShiftAgreement(kind: Kind, n: Reg, amount: Byte)
    ensures (forall rm: Word, c: bool :: ByRegister(kind, rm, n, c) == ByRegister(kind, rm, amount, c)) <==>
            SameShift(kind, n, amount)
  {
    hide Bit, Ror, Asr, LogicalShift, Pow2;
    if !SameShift(kind, n, amount) {
      var rm, c := ShiftsDiffer(kind, n, amount);
    }
  }

  // ---- the operands that come out right whatever C leaves indeterminate

  predicate Plain(operand: Operand) {
    operand.Immediate? || (operand.ShiftByImmediate? && operand.kind.LSL? && operand.amount == 0)
  }

  predicate Left(operand: Operand) {
    operand.Immediate? || (operand.ShiftByImmediate? && operand.kind.LSL?)
  }

  lemma OperandAgrees(st: State, operand: Operand, insBit16: bool, junk: Junk)
    requires operand.ShiftByImmediate? ==> operand.amount < 32
    requires Plain(operand) || (Left(operand) && !junk.plain)
    ensures OperandWritten(st, operand, insBit16, junk) == OperandValue(st, operand)
  {
  }

  /** A machine whose registers all read 1, with r1 replaced, and a carry flag of choice. */
  function Ones(r1: Word, c: bool): (st: State)
    ensures st.Read(1) == r1 && forall r: Reg | r != 1 :: st.Read(r) == 1
    ensures st.Flags().c == c
  {
    FlagsRoundTrip(0, Flags(false, false, c, false), 0);
    OnesPc();
    State(seq(16, i => if i == PC then 0xFFFF_FFFD else if i == 1 then r1 else 1),
          WithFlags(0, Flags(false, false, c, false)), Mem(0, []))
  }

  lemma OnesPc()
    ensures DropBit1(Wrap(0xFFFF_FFFD + 4)) == 1
  {
    hide SetBit;
  }

  /** On the word whose only bit is k, only a shift by k + 1 moves it into the carry, and shifts to the left leave it in
      different places. */
  lemma ShiftsOfOneBit(kind: Kind, k: nat, n: Byte, m: Byte)
    requires k < 2 && n < 16 && m == k + 1 && n != m
    ensures Pow2(k) < 0x1_0000_0000
    ensures ByRegister(kind, Pow2(k), n, false) != ByRegister(kind, Pow2(k), m, false)
  {
    Pow2Literals();
    hide Bit, Ror, Asr, LogicalShift, Pow2;
    Pow2Mono(k, 31);
    if kind.LSL? {
      LeftShiftOfBit(k, n);
      LeftShiftOfBit(k, m);
      PowersDiffer(k + n, k + m);
    } else {
      OneBitSet(k, if n > 0 then n - 1 else 0);
      OneBitSet(k, m - 1);
    }
  }

  lemma LeftShiftOfBit(k: nat, n: Byte)
    requires k + n < 32
    ensures Pow2(k) < 0x1_0000_0000
    ensures ByRegister(LSL, Pow2(k), n, false).value == Pow2(k + n)
  {
    Pow2Literals();
    hide ByRegister, Pow2;
    Pow2Mono(k, 31);
    Pow2Mono(k + n, 31);
    Pow2Add(k, n);
    ShiftMeaning(Pow2(k), n, false);
  }

  lemma PowersDiffer(m: nat, n: nat)
    requires m != n
    ensures Pow2(m) != Pow2(n)
  {
    if m < n { Pow2Mono(m + 1, n); } else { Pow2Mono(n + 1, m); }
  }

  /** A state and indeterminate values for which a shift that is set up goes wrong, for every form but LSL by an
      immediate. */
  lemma ShiftedOperandFails(operand: Operand) returns (st: State, junk: Junk)
    requires (operand.ShiftByImmediate? ==> operand.amount < 32) && !Left(operand)
    ensures !junk.plain && OperandWritten(st, operand, false, junk) != OperandValue(st, operand)
  {
    match operand {
      case ShiftByImmediate(kind, amount, rm) =>
        st := Ones(1, true);
        var right := OperandValue(st, operand);
        junk := Junk(false, Shifted(if right.value == 0 then 1 else 0, false), false);
        if kind.ROR? && amount == 0 {
          RrxAgreement(1, false, true);
        }
      case ShiftByRegister(kind, rs, rm) =>
        junk := Junk(false, Shifted(0, false), false);
        RegisterOperandFails(kind, rs, rm);
        st := Ones(if rs == 1 then 2 else 1, false);
    }
  }

  lemma RegisterOperandFails(kind: Kind, rs: Reg, rm: Reg)
    ensures var st := Ones(if rs == 1 then 2 else 1, false);
            ByRegister(kind, st.Read(rm), rs, false) != ByRegister(kind, st.Read(rm), st.Read(rs) % 0x100, false)
  {
    SmallPowers();
    hide ByRegister, Ones, Pow2;
    if rs != 1 {
      ShiftsOfOneBit(kind, 0, rs, 1);
    } else if rm == 1 {
      ShiftsOfOneBit(kind, 1, 1, 2);
    } else {
      ShiftsOfOneBit(kind, 0, 2, 1);
    }
  }

  lemma SmallPowers()
    ensures Pow2(0) == 1 && Pow2(1) == 2
  {
  }

  /** LSL by an immediate goes wrong when bits4_11 reads as zero. */
  lemma LeftShiftLost(amount: nat, rm: Reg)
    requires 0 < amount < 32
    ensures var st, operand := Ones(1, false), ShiftByImmediate(LSL, amount, rm);
            OperandWritten(st, operand, false, Junk(true, Shifted(0, false), false)) != OperandValue(st, operand)
  {
    hide Ones, Bit, Pow2, LogicalShift;
    LeftShiftMoves(1, amount);
  }

  lemma LeftShiftMoves(x: Word, amount: nat)
    requires 0 < amount < 32 && x == 1
    ensures LogicalShift(x, amount, 'l') != 1
  {
    SmallPowers();
    Pow2Literals();
    hide Pow2;
    Pow2Mono(amount, 31);
    Pow2Mono(1, amount);
    assert x * Pow2(amount) == Pow2(amount);
  }

  /** For which operands the text gives the intended value in every state and whatever C leaves indeterminate; and for
      which it does so once bits4_11 reads as set. */
  lemma {:induction false} OperandAgreement(operand: Operand)
    requires operand.ShiftByImmediate? ==> operand.amount < 32
    ensures (forall st: State, insBit16: bool, junk: Junk ::
               OperandWritten(st, operand, insBit16, junk) == OperandValue(st, operand)) <==> Plain(operand)
    ensures (forall st: State, insBit16: bool, junk: Junk | !junk.plain ::
               OperandWritten(st, operand, insBit16, junk) == OperandValue(st, operand)) <==> Left(operand)
  {
    hide OperandWritten, OperandValue, Ones;
    forall st: State, insBit16: bool, junk: Junk | Plain(operand) || (Left(operand) && !junk.plain)
      ensures OperandWritten(st, operand, insBit16, junk) == OperandValue(st, operand)
    {
      OperandAgrees(st, operand, insBit16, junk);
    }
    if !Left(operand) {
      var st, junk := ShiftedOperandFails(operand);
    } else if !Plain(operand) {
      LeftShiftLost(operand.amount, operand.rm);
    }
  }

  // ---------------------------------------------------------------- branches and addresses

  /** arm_branch: BL puts what it reads from R15, its own address plus 8, in LR; the offset is sign-extended by
      or-ing ones above its 24 bits before the shift. */
  function BranchWritten(st: State, link: bool, words: Offset24): State {
    var here := st.Read(PC);
    var st1 := if link then st.Write(LR, here) else st;
    var x := Or(words, if words >= 0x80_0000 then 0x3F * 0x100_0000 else 0);
    st1.Write(PC, Wrap(here as int + Wrap(x * 4)))
  }

  lemma ExtendedOffset(here: Word, words: Offset24)
    ensures var x := Or(words, if words >= 0x80_0000 then 0x3F * 0x100_0000 else 0);
            Wrap(here as int + Wrap(x * 4)) == Wrap(here as int + 4 * SignExtend24(words))
  {
    Pow2Literals();
    hide Or, Pow2;
    OrFields(words, if words >= 0x80_0000 then 0x3F else 0, 24);
    var x := Or(words, if words >= 0x80_0000 then 0x3F * 0x100_0000 else 0);
    assert x * 4 == 4 * SignExtend24(words) + if words >= 0x80_0000 then 0x1_0000_0000 else 0;
    WrapAdd(here, 4 * SignExtend24(words));
    WrapTurns(4 * SignExtend24(words), 1);
  }

  /** The target is always right, the link never: LR gets what R15 reads as. */
  lemma {:induction false} BranchAgreement(st: State, link: bool, words: Offset24)
    ensures var here := st.Read(PC);
            BranchWritten(st, link, words) ==
            st.(regs := (if link then st.regs[LR := here] else st.regs)
                  [PC := Wrap(here as int + 4 * (words - if Bit(words, 23) then 0x100_0000 else 0))])
    ensures BranchWritten(st, link, words).regs[PC] == ExecuteBranch(st, link, words).regs[PC]
    ensures BranchWritten(st, link, words) == ExecuteBranch(st, link, words) <==> !link
  {
    ExtendedOffset(st.Read(PC), words);
    SignBit24(words);
    hide Or, DropBit1, Bit;
    if link {
      assert BranchWritten(st, link, words).regs[LR] == st.Read(PC);
      assert ExecuteBranch(st, link, words).regs[LR] == Wrap(st.Read(PC) as int - 4);
    }
  }

  /** load_store_shifts_rotate, on the number of the register. */
  function ScaledIndex(rm: Reg, kind: Kind, amount: nat, insBit29: bool): Word
    requires amount < 32
  {
    match kind
    case LSL => LogicalShift(rm, amount, 'l')
    case LSR => if amount == 0 then 0 else LogicalShift(rm, amount, 'r')
    case ASR => if amount == 0 then (if Bit(rm, 31) then 0xFFFF_FFFF else 0) else Asr(rm, amount)
    case ROR => if amount == 0 then (if insBit29 || rm / 2 != 0 then 1 else 0) else Ror(rm, amount)
  }

  function IndexWritten(f: Fields, insBit29: bool): Word {
    if f.group != 3 then f.low
    else if f.low / 16 == 0 then f.low % 16
    else ScaledIndex(f.low % 16, KindOf(f.low / 32 % 4), f.low / 128, insBit29)
  }

  /** arm_load_store: the number of the base register, plus or minus the offset or the number of the index register,
      scaled; whatever the P and W bits say, and without a write-back. */
  function AddressWritten(w: Word): Word {
    var f := Split(w);
    var index := IndexWritten(f, Bit(w, 29));
    if f.mid / 8 % 2 == 1 then Wrap(f.rn + index) else Wrap(f.rn - index)
  }

  lemma WrapShift(x: Word, y: Word, d: int)
    ensures Wrap(x as int + d) == Wrap(y as int + d) <==> x == y
  {
    var p, q := (x as int + d) / 0x1_0000_0000, (y as int + d) / 0x1_0000_0000;
    assert x as int + d == 0x1_0000_0000 * p + Wrap(x as int + d);
    assert y as int + d == 0x1_0000_0000 * q + Wrap(y as int + d);
  }

  /** A transfer with an immediate offset as written uses the intended address exactly if its base register happens
      to read as its own number. */
  lemma {:induction false} AddressAgreement(st: State, i: Instr)
    requires i.Transfer?
    ensures AddressWritten(Encode(i)) == TransferAddress(st, i.up, i.rn, i.offset) <==> st.Read(i.rn) == i.rn
  {
    hide Join, Split, DropBit1;
    SplitJoin(Fields(i.cond, 2, 16 + 8 * Int(i.up) + 4 * Int(i.byte) + Int(i.load), i.rn, i.rd, i.offset));
    WrapShift(i.rn, st.Read(i.rn), if i.up then i.offset else 0 - i.offset as int);
  }

  // ---------------------------------------------------------------- the machine as written

  /** arm_execute_instruction on the word it fetched: the condition, operand, result, branch and address of the
      text, and no flag update that reaches the CPSR. A write to R15 with the S bit is an ordinary write. */
  function ExecuteWritten(st: State, w: Word, junk: Junk): Outcome {
    match Decode(w)
    case Data(cond, op, s, rn, rd, operand) =>
      if !Taken(st.Flags(), cond, junk) || Compares(op) then Running(st)
      else
        var y := OperandWritten(st, operand, Bit(w, 16), junk).value;
        Running(st.Write(rd, ResultWritten(op, st.Read(rn), y, st.Flags().c)))
    case Branch(cond, link, words) =>
      if !Taken(st.Flags(), cond, junk) then Running(st) else Running(BranchWritten(st, link, words))
    case Idle => Running(st)
    case _ => TransferWritten(st, w, junk)
  }

  function TransferWritten(st: State, w: Word, junk: Junk): Outcome {
    var f := Split(w);
    if !Taken(st.Flags(), f.cond, junk) then Running(st)
    else LoadStore(st, f.mid % 2 == 1, f.mid / 4 % 2 == 1, f.rd, AddressWritten(w))
  }

  /** Instructions without a handler do nothing, and neither does one whose condition is not taken. */
  lemma {:induction false} WrittenIdles(st: State, w: Word, cond: Cond, junk: Junk)
    requires Field(cond, w, 28, 4)
    requires var group := (Bit(w, 27), Bit(w, 26), Bit(w, 25));
             || group == (true, false, false) || group == (true, true, false) || group == (true, true, true)
             || (!Bit(w, 27) && !Bit(w, 26) && Bit(w, 24) && !Bit(w, 23) && !Bit(w, 20))
             || !Taken(st.Flags(), cond, junk)
    ensures ExecuteWritten(st, w, junk) == Running(st)
  {
    DecodeByBits(w);
    ConditionField(w, cond);
    hide Bit, Split, Decode, Taken, FlagsOf, Field, DropBit1, AddressWritten;
  }

  lemma ConditionField(w: Word, cond: Cond)
    requires Field(cond, w, 28, 4)
    ensures cond == Split(w).cond
    ensures var i := Decode(w);
            i.Data? || i.Transfer? || i.Branch? ==> i.cond == cond
  {
    SplitByBits(w);
    SameField(cond, Split(w).cond, w, 28, 4);
    hide Split, Field, DecodeOperand, OpcodeOf;
    GroupAndMid(w);
  }

  lemma SameField(x: nat, y: nat, w: nat, lo: nat, n: nat)
    requires Field(x, w, lo, n) && Field(y, w, lo, n)
    ensures x == y
  {
    hide Bit;
    BitsDetermine(x, y, n);
  }

  /** A transfer that is taken loads or stores the register of bits 15..12 at the address it computes, whatever its
      addressing mode, and does nothing else. */
  lemma {:induction false} TransfersWritten(st: State, w: Word, cond: Cond, rd: Reg, junk: Junk)
    requires !Bit(w, 27) && Bit(w, 26)
    requires Field(cond, w, 28, 4) && Field(rd, w, 12, 4) && Taken(st.Flags(), cond, junk)
    ensures Transferred(st, ExecuteWritten(st, w, junk), Bit(w, 20), Bit(w, 22), rd, st.Read(rd), AddressWritten(w))
  {
    DecodeByBits(w);
    SplitByBits(w);
    SameField(cond, Split(w).cond, w, 28, 4);
    SameField(rd, Split(w).rd, w, 12, 4);
    GroupAndMid(w);
    hide Bit, Split, Decode, Taken, FlagsOf, Field, DropBit1, AddressWritten, LoadStore, Transferred;
    TransferEffect(st, Bit(w, 20), Bit(w, 22), rd, AddressWritten(w));
  }

  /** A branch that is taken. */
  lemma {:induction false} BranchesWritten(st: State, w: Word, cond: Cond, words: Offset24, junk: Junk)
    requires Bit(w, 27) && !Bit(w, 26) && Bit(w, 25)
    requires Field(cond, w, 28, 4) && Field(words, w, 0, 24) && Taken(st.Flags(), cond, junk)
    ensures var here := st.Read(PC);
            ExecuteWritten(st, w, junk) == Running(
              st.(regs := (if Bit(w, 24) then st.regs[LR := here] else st.regs)
                    [PC := Wrap(here as int + 4 * (words - if Bit(words, 23) then 0x100_0000 else 0))]))
  {
    DecodeByBits(w);
    BranchByBits(w);
    ConditionField(w, cond);
    hide Bit, Split, Decode, Taken, FlagsOf, Field, DropBit1, BranchWritten;
    SameField(words, Decode(w).words, w, 0, 24);
    BranchAgreement(st, Bit(w, 24), words);
  }

  // ---- the address in numbers

  /** By bits 23 and 25: the number of the base register plus or minus the offset, or the number of the index register
      times or over a power of two. */
  lemma {:induction false} AddressByBits(w: Word, rn: Reg, offset: Offset12, rm: Reg, kind: nat, n: nat)
    requires Field(rn, w, 16, 4) && Field(offset, w, 0, 12)
    requires Field(rm, w, 0, 4) && Field(kind, w, 5, 2) && Field(n, w, 7, 5)
    ensures n < 32 && kind < 4
    ensures var index: int :=
              if !Bit(w, 25) then offset
              else if kind == 0 then rm * Pow2(n)
              else if kind < 3 then (if n == 0 then 0 else rm / Pow2(n))
              else if n == 0 then (if Bit(w, 29) || rm >= 2 then 1 else 0)
              else Exchanged(rm, n);
            !Bit(w, 27) && Bit(w, 26) ==>
              AddressWritten(w) == if Bit(w, 23) then Wrap(rn + index) else Wrap(rn - index)
  {
    FieldValues(w, rn, offset, rm, kind, n);
    KindAndAmount(w, kind, n);
    AddressSum(w);
    hide Field, Bit, Split, IndexWritten, Exchanged, Pow2, Wrap, AddressWritten;
    if Bit(w, 25) && Split(w).group == 3 {
      IndexValue(Split(w), rm, kind, n, Bit(w, 29));
      AddWrapped(rn, rm * Pow2(n));
    }
  }

  lemma AddressSum(w: Word)
    ensures var f := Split(w);
            var index := IndexWritten(f, Bit(w, 29));
            && AddressWritten(w) == (if Bit(w, 23) then Wrap(f.rn + index) else Wrap(f.rn - index))
            && (!Bit(w, 27) && Bit(w, 26) ==> f.group == if Bit(w, 25) then 3 else 2)
            && (f.group == 2 ==> index == f.low)
  {
    GroupAndMid(w);
    hide Bit, Split, Wrap, ScaledIndex;
  }

  lemma KindAndAmount(w: Word, kind: nat, n: nat)
    requires Field(kind, w, 5, 2) && Field(n, w, 7, 5)
    ensures kind < 4 && n < 32
  {
    MorePowers();
    hide Pow2, Bit;
  }

  /** The index of the register forms in numbers; an index without a shift is one shifted by LSL #0. */
  lemma IndexValue(f: Fields, rm: Reg, kind: nat, n: nat, insBit29: bool)
    requires f.group == 3 && f.low % 16 == rm && f.low / 32 % 4 == kind && f.low / 128 == n
    ensures n < 32 && kind < 4
    ensures var index := IndexWritten(f, insBit29);
            && (kind == 0 ==> index == Wrap(rm * Pow2(n)))
            && (kind == 1 || kind == 2 ==> index == if n == 0 then 0 else rm / Pow2(n))
            && (kind == 3 ==> index == if n == 0 then (if insBit29 || rm >= 2 then 1 else 0) else Exchanged(rm, n))
  {
    assert n < 32 && kind < 4;
    hide Exchanged;
    ScaledValue(rm, kind, n, insBit29);
    hide ScaledIndex;
    if f.low / 16 == 0 {
      NoShift(f.low);
      PowZeroIsOne();
      hide Pow2;
    }
  }

  lemma PowZeroIsOne()
    ensures Pow2(0) == 1
  {
  }

  lemma NoShift(low: Offset12)
    requires low / 16 == 0
    ensures low / 128 == 0 && low / 32 % 4 == 0
  {
  }

  lemma AddWrapped(x: int, y: int)
    ensures Wrap(x + Wrap(y)) == Wrap(x + y) && Wrap(x - Wrap(y)) == Wrap(x - y)
  {
    WrapAdd(x, y);
    var q := y / 0x1_0000_0000;
    assert y == 0x1_0000_0000 * q + Wrap(y);
    assert x - Wrap(y) == x - y + 0x1_0000_0000 * q;
    WrapTurns(x - y, q);
  }

  lemma WrapTurns(x: int, q: int)
    ensures Wrap(x + 0x1_0000_0000 * q) == Wrap(x)
  {
    var p := x / 0x1_0000_0000;
    DivUnique(x + 0x1_0000_0000 * q, 0x1_0000_0000, p + q, Wrap(x));
  }

  lemma FieldValues(w: Word, rn: Reg, offset: Offset12, rm: Reg, kind: nat, n: nat)
    requires Field(rn, w, 16, 4) && Field(offset, w, 0, 12)
    requires Field(rm, w, 0, 4) && Field(kind, w, 5, 2) && Field(n, w, 7, 5)
    ensures var f := Split(w);
            f.rn == rn && f.low == offset && f.low % 16 == rm && f.low / 32 % 4 == kind && f.low / 128 == n
  {
    SplitByBits(w);
    LowFields(w);
    LowIs(w);
    hide Field, Bit, Split;
    SameField(rn, Split(w).rn, w, 16, 4);
    SameField(offset, Split(w).low, w, 0, 12);
    var low := w % 0x1000;
    SameField(rm, low % 16, w, 0, 4);
    SameField(kind, low / 32 % 4, w, 5, 2);
    SameField(n, low / 128, w, 7, 5);
  }

  /** load_store_shifts_rotate in numbers. */
  lemma ScaledValue(rm: Reg, kind: nat, n: nat, insBit29: bool)
    requires kind < 4 && n < 32
    ensures var index := ScaledIndex(rm, KindOf(kind), n, insBit29);
            && (kind == 0 ==> index == Wrap(rm * Pow2(n)))
            && (kind == 1 || kind == 2 ==> index == if n == 0 then 0 else rm / Pow2(n))
            && (kind == 3 ==> index == if n == 0 then (if insBit29 || rm >= 2 then 1 else 0) else Exchanged(rm, n))
  {
    RorExchanges(rm, n);
    TopBit(rm);
    hide Pow2, Ror, Exchanged, Bit;
  }

  function StepWritten(st: State, junk: Junk): Outcome {
    var w := st.mem.ReadWord(st.Next());
    if w.PastEnd? then Stopped(BadAccess) else ExecuteWritten(Fetched(st), Loaded(w), junk)
  }

  /** A step fetches like the intended machine; beyond the memory it only moves the PC. */
  lemma {:induction false} StepsWritten(st: State, junk: Junk, w: Word)
    ensures st.mem.ReadWord(st.Next()) == Value(w) ==> StepWritten(st, junk) == ExecuteWritten(Moved(st), w, junk)
    ensures |st.mem.bytes| < st.Next() ==> StepWritten(st, junk) == Running(Moved(st))
  {
    assert Decode(0xFFFF_FFFF).Idle?;
    hide Decode, DropBit1, TransferWritten, BranchWritten, Taken, ResultWritten, OperandWritten, Bit;
  }

  function RunWritten(st: State, k: nat, junk: nat -> Junk): Outcome {
    if k == 0 then Running(st)
    else
      match RunWritten(st, k - 1, junk)
      case Running(s) => StepWritten(s, junk(k - 1))
      case Stopped(why) => Stopped(why)
  }

  /** A data-processing instruction whose condition returns does as written what it is meant to exactly when the
      results coincide and the flags it should set are already set; where the operand is right in any case,
      the results coincide exactly on the operands named above. */
  lemma DataAgreement(st: State, i: Instr, junk: Junk)
    requires i.Data? && WellFormed(i) && !(i.s && i.rd == PC && !Compares(i.op))
    requires ConditionReturn(st.Flags(), i.cond).Returned?
    ensures var x, a, c := OperandValue(st, i.operand), st.Read(i.rn), st.Flags().c;
            var y := OperandWritten(st, i.operand, Bit(Encode(i), 16), junk);
            var same := ExecuteWritten(st, Encode(i), junk) == Execute(st, i);
            var ready := i.s ==> FlagsAfter(i.op, a, x.value, x.carry, st.Flags()) == st.Flags();
            && (same <==> (Compares(i.op) || ResultWritten(i.op, a, y.value, c) == Result(i.op, a, x.value, c)) && ready)
            && (Plain(i.operand) || (Left(i.operand) && !junk.plain) ==>
                  (same <==> (Compares(i.op) || OperandsHideDeparture(i.op, a, x.value)) && ready))
  {
    var x, a, c := OperandValue(st, i.operand), st.Read(i.rn), st.Flags().c;
    var y := OperandWritten(st, i.operand, Bit(Encode(i), 16), junk);
    DecodeEncode(i);
    ConditionAgreement(st.Flags(), i.cond, junk);
    ResultAgreement(i.op, a, x.value, c);
    WithFlagsIdentity(st.cpsr, FlagsAfter(i.op, a, x.value, x.carry, st.Flags()));
    if Plain(i.operand) || (Left(i.operand) && !junk.plain) {
      OperandAgrees(st, i.operand, Bit(Encode(i), 16), junk);
    }
    hide ConditionPassed, OperandValue, OperandWritten, Result, ResultWritten, FlagsAfter, WithFlags, FlagsOf;
    hide OperandsHideDeparture, Decode, Encode, Plain, Left, Bit, DropBit1;
    var r, w := Result(i.op, a, x.value, c), ResultWritten(i.op, a, y.value, c);
    assert st.Write(i.rd, r).regs[i.rd] == r && st.Write(i.rd, w).regs[i.rd] == w;
  }

  /** No run of any program as written changes the CPSR. */
  lemma {:induction false} CpsrIsFrozen(st: State, k: nat, junk: nat -> Junk)
    ensures match RunWritten(st, k, junk)
            case Running(s) => s.cpsr == st.cpsr
            case Stopped(_) => true
  {
    hide StepWritten;
    if k > 0 {
      CpsrIsFrozen(st, k - 1, junk);
      if RunWritten(st, k - 1, junk).Running? {
        StepKeepsCpsr(RunWritten(st, k - 1, junk).st, junk(k - 1));
      }
    }
  }

  lemma StepKeepsCpsr(st: State, junk: Junk)
    ensures match StepWritten(st, junk)
            case Running(s) => s.cpsr == st.cpsr
            case Stopped(_) => true
  {
    hide Decode, Taken, OperandWritten, ResultWritten, Ror, Mem.ReadWord, Mem.WriteWord, AddressWritten, DropBit1, Split;
  }

  /** The access of this word that C leaves undefined. */
  predicate LeavesMemory(st: State, w: Word, junk: Junk) {
    var f := Split(w);
    && (f.group == 2 || f.group == 3) && Taken(st.Flags(), f.cond, junk)
    && var a := AddressWritten(w);
       if f.mid % 2 == 1 then
         if f.mid / 4 % 2 == 1 then st.mem.ReadByte(a).PastEnd? else st.mem.ReadWord(a).PastEnd?
       else !st.mem.Holds(a, if f.mid / 4 % 2 == 1 then 1 else 4)
  }

  /** And a run goes on for as long as its accesses are defined: a step stops only for a read past the end of the memory or a
      store outside it. Instructions without a handler and refused accesses do not stop it. */
  lemma {:induction false} StopsOnlyOutside(st: State, junk: Junk)
    ensures var r := st.mem.ReadWord(st.Next());
            StepWritten(st, junk).Stopped? <==> r.PastEnd? || LeavesMemory(Fetched(st), Loaded(r), junk)
  {
    var r := st.mem.ReadWord(st.Next());
    if !r.PastEnd? {
      hide Mem.ReadWord, Mem.ReadByte, Mem.WriteWord, Mem.WriteByte, Taken, AddressWritten, DropBit1, Split, Ror;
      hide OperandWritten, ResultWritten, OpcodeOf, DecodeOperand;
    }
  }

  // ---------------------------------------------------------------- example1 as written

  lemma FetchesListed(p: seq<Instr>, base: nat, st: State, j: nat, junk: Junk)
    requires Encodable(p) && CodeAt(st.mem, base, Image(p)) && j < |p| && st.Next() == base + 4 * j
    ensures StepWritten(st, junk) == ExecuteWritten(Fetched(st), Encode(p[j]), junk) && Decode(Encode(p[j])) == p[j]
  {
    hide ExecuteWritten, Decode, Encode, DropBit1;
    assert st.mem.ReadWord(base + 4 * j) == Value(Image(p)[j]);
    DecodeEncode(p[j]);
  }

  predicate Ready(n: Byte, base: nat, st: State) {
    Countdown.Placed(base) && CodeAt(st.mem, base, Image(Countdown.Program(n)))
  }

  lemma StaysReady(n: Byte, base: nat, st: State, s: State)
    requires Ready(n, base, st) && s.mem == st.mem && s.regs[PC] % 4 < 2
    ensures Ready(n, base, s) && Countdown.Placed(base) && s.Next() == s.regs[PC]
  {
    hide CodeAt, Image, DropBit1;
    NextIsPc(s);
  }

  /** BL leaves in LR the address after the BNE, which is `end`. */
  lemma StepCall(n: Byte, base: nat, st: State, junk: Junk)
    requires Ready(n, base, st) && st.Next() == base + Countdown.LOOP
    ensures var s := st.Write(LR, base + Countdown.END).Write(PC, base);
            StepWritten(st, junk) == Running(s) && Ready(n, base, s) && s.Next() == base
  {
    hide CodeAt, StepWritten, Image, FlagsOf, DropBit1, Decode, Encode, TransferWritten;
    FetchMoves(st);
    FetchesListed(Countdown.Program(n), base, st, 3, junk);
    CallWritten(base, Fetched(st));
    hide BranchWritten;
    var s := Fetched(st);
    assert s == st.Write(PC, base + 16);
    assert s.Write(LR, base + 20).Write(PC, base) == st.Write(LR, base + 20).Write(PC, base);
    StaysReady(n, base, st, st.Write(LR, base + 20).Write(PC, base));
  }

  lemma CallWritten(base: nat, s: State)
    requires Countdown.Placed(base) && s.Read(PC) == base + 20
    ensures BranchWritten(s, true, 0xFF_FFFB) == s.Write(LR, base + 20).Write(PC, base)
  {
    ExtendedOffset(base + 20, 0xFF_FFFB);
    assert SignExtend24(0xFF_FFFB) == -5;
    hide Or, DropBit1;
  }

  lemma StepDecrement(n: Byte, base: nat, st: State, junk: Junk)
    requires Ready(n, base, st) && st.Next() == base
    ensures var s := st.Write(0, Wrap(st.regs[0] as int - 1)).Write(PC, base + 4);
            StepWritten(st, junk) == Running(s) && Ready(n, base, s) && s.Next() == base + 4
  {
    hide CodeAt, StepWritten, Image, And, Or, Xor, Bit, Ror, DropBit1, Decode, Encode, TransferWritten, FlagsOf;
    FetchesListed(Countdown.Program(n), base, st, 0, junk);
    RorZero(1);
    var s := st.Write(0, Wrap(st.regs[0] as int - 1)).Write(PC, base + 4);
    assert Fetched(st).Write(0, Wrap(st.regs[0] as int - 1)).regs == s.regs;
    StaysReady(n, base, st, s);
  }

  lemma StepReturn(n: Byte, base: nat, st: State, junk: Junk)
    requires Ready(n, base, st) && st.Next() == base + 4
    ensures StepWritten(st, junk) == Running(st.Write(PC, st.regs[LR]))
  {
    hide CodeAt, StepWritten, Image, And, Or, Xor, Bit, DropBit1, Decode, Encode, TransferWritten, FlagsOf;
    FetchesListed(Countdown.Program(n), base, st, 1, junk);
    assert st.Write(PC, base + 8).Write(PC, st.regs[LR]) == st.Write(PC, st.regs[LR]);
  }

  lemma RunNext(st: State, k: nat, junk: nat -> Junk, s: State, t: State)
    requires RunWritten(st, k, junk) == Running(s) && StepWritten(s, junk(k)) == Running(t)
    ensures RunWritten(st, k + 1, junk) == Running(t)
  {
  }

  lemma RunWrittenZero(st: State, junk: nat -> Junk)
    ensures RunWritten(st, 0, junk) == Running(st)
  {
  }

  /** After k steps the run is in state t, and it was not at `end` before. */
  predicate FirstArrives(base: nat, st: State, junk: nat -> Junk, k: nat, t: State) {
    && RunWritten(st, k, junk) == Running(t) && t.Next() == base + Countdown.END
    && forall j: nat | j < k :: !AtEnd(base, RunWritten(st, j, junk))
  }

  predicate AtEnd(base: nat, o: Outcome) {
    o.Running? && o.st.Next() == base + Countdown.END
  }

  /** Where the countdown ends as written. */
  function FinalWritten(base: nat, st: State): State
    requires Countdown.Placed(base)
  {
    st.Write(0, Wrap(st.regs[0] as int - 1)).Write(LR, base + Countdown.END).Write(PC, base + Countdown.END)
  }

  /** The countdown as written, whatever r0, the flags and the indeterminate values are: the subroutine returns past
      the BNE, so `end` is first reached after exactly three steps, with r0 decremented once. */
  lemma {:induction false} CountdownAsWritten(n: Byte, base: nat, st: State, junk: nat -> Junk)
    requires Ready(n, base, st) && st.Next() == base + Countdown.LOOP
    ensures FirstArrives(base, st, junk, 3, FinalWritten(base, st))
  {
    hide FirstArrives, StepWritten, Ready, FlagsOf, DropBit1, FinalWritten;
    var s1, s2 := CountdownPath(n, base, st, junk);
    ThreeSteps(base, st, junk, s1, s2, FinalWritten(base, st));
  }

  /** BL, SUBS, MOV pc, lr. */
  lemma CountdownPath(n: Byte, base: nat, st: State, junk: nat -> Junk) returns (s1: State, s2: State)
    requires Ready(n, base, st) && st.Next() == base + Countdown.LOOP
    ensures Countdown.Placed(base)
    ensures StepWritten(st, junk(0)) == Running(s1) && s1.Next() == base
    ensures StepWritten(s1, junk(1)) == Running(s2) && s2.Next() == base + 4
    ensures StepWritten(s2, junk(2)) == Running(FinalWritten(base, st))
    ensures FinalWritten(base, st).Next() == base + Countdown.END
  {
    assert Countdown.Placed(base);
    hide StepWritten, Ready, FlagsOf, DropBit1;
    StepCall(n, base, st, junk(0));
    s1 := StepWritten(st, junk(0)).st;
    StepDecrement(n, base, s1, junk(1));
    s2 := StepWritten(s1, junk(1)).st;
    StepReturn(n, base, s2, junk(2));
    FinalRegisters(base, st);
  }

  lemma FinalRegisters(base: nat, st: State)
    requires Countdown.Placed(base)
    ensures var s := st.Write(LR, base + 20).Write(PC, base).Write(0, Wrap(st.regs[0] as int - 1)).Write(PC, base + 4);
            s.regs[LR] == base + 20 && s.Write(PC, base + 20) == FinalWritten(base, st)
    ensures FinalWritten(base, st).Next() == base + Countdown.END
  {
    hide DropBit1;
    NextIsPc(FinalWritten(base, st));
    var s := st.Write(LR, base + 20).Write(PC, base).Write(0, Wrap(st.regs[0] as int - 1)).Write(PC, base + 4);
    assert s.Write(PC, base + 20).regs == FinalWritten(base, st).regs;
  }

  lemma ThreeSteps(base: nat, st: State, junk: nat -> Junk, s1: State, s2: State, s3: State)
    requires StepWritten(st, junk(0)) == Running(s1) && StepWritten(s1, junk(1)) == Running(s2)
    requires StepWritten(s2, junk(2)) == Running(s3)
    requires st.Next() != base + Countdown.END && s1.Next() != base + Countdown.END && s2.Next() != base + Countdown.END
    requires s3.Next() == base + Countdown.END
    ensures FirstArrives(base, st, junk, 3, s3)
  {
    hide RunWritten, StepWritten, DropBit1;
    RunWrittenZero(st, junk);
    RunNext(st, 0, junk, st, s1);
    RunNext(st, 1, junk, s1, s2);
    RunNext(st, 2, junk, s2, s3);
    forall j: nat | j < 3
      ensures !AtEnd(base, RunWritten(st, j, junk))
    {
      assert j == 0 || j == 1 || j == 2;
    }
  }

  /** That is the r0 the program is meant to leave exactly if it started from 1; LR is never the intended one. */
  lemma CountdownResult(base: nat, st: State)
    requires Countdown.Placed(base)
    ensures FinalWritten(base, st).regs[0] == Countdown.Finished(base, st).regs[0] <==> st.regs[0] == 1
    ensures FinalWritten(base, st).regs[LR] != Countdown.Finished(base, st).regs[LR]
  {
    hide WithFlags;
  }
}
