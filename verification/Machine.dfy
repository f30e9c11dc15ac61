/** The processor as a transition system: sixteen registers, a CPSR and a memory, stepped by
    fetch, decode and execute (arm_step). Each transition is a function of the state; the class Core
    performs it in place.

    The stored PC is the address of the next instruction to fetch. Reading register 15 adds 4 and clears bit 1, and
    the fetch takes 4 off again, so an executing instruction sees its own address plus 8. */
module Machine {
  import opened Words
  import opened Memory
  import opened Status
  import opened Alu
  import opened Shifter

  type Reg = r: int | 0 <= r < 16
  type Nibble = x: int | 0 <= x < 16
  type Offset12 = x: int | 0 <= x < 0x1000
  type Offset24 = x: int | 0 <= x < 0x100_0000
  type Registers = s: seq<Word> | |s| == 16 witness seq(16, i => 0)

  const LR: Reg := 14
  const PC: Reg := 15

  /** The mask 0xFFFFFFFD. */
  function DropBit1(x: Word): (r: Word)
    ensures r == SetBit(x, 1, false)
  {
    assert SetBit(x, 1, false) == x % 2 + 2 * SetBit(x / 2, 0, false);
    if x % 4 >= 2 then x - 2 else x
  }

  datatype State = State(regs: Registers, cpsr: Word, mem: Mem) {
    function Read(r: Reg): Word {
      if r == PC then DropBit1(Wrap(regs[PC] as int + 4)) else regs[r]
    }

    function Write(r: Reg, v: Word): State {
      this.(regs := regs[r := v])
    }

    function Flags(): Flags { FlagsOf(cpsr) }

    /** Where the next instruction is fetched. */
    function Next(): Word { DropBit1(regs[PC]) }
  }

  datatype Operand =
    | Immediate(rotate: Nibble, imm8: Byte)
    | ShiftByImmediate(kind: Kind, amount: nat, rm: Reg)
    | ShiftByRegister(kind: Kind, rs: Reg, rm: Reg)

  /** `Idle` instructions do nothing: a software interrupt has no case of its own, and the handlers of status transfers,
      of multiple and of coprocessor transfers only return UNDEFINED_INSTRUCTION, which their caller discards.
      `Foreign` are the transfers with another addressing mode than an immediate offset without write-back. */
  datatype Instr =
    | Data(cond: Cond, op: Opcode, s: bool, rn: Reg, rd: Reg, operand: Operand)
    | Transfer(cond: Cond, load: bool, byte: bool, up: bool, rn: Reg, rd: Reg, offset: Offset12)
    | Branch(cond: Cond, link: bool, words: Offset24)
    | Idle
    | Foreign

  /** `OutsideProgram` only stops the machine over an instruction list (StoredProgram). */
  datatype Reason = BadAccess | NotModelled | OutsideProgram

  datatype Outcome = Running(st: State) | Stopped(why: Reason)

  // ---------------------------------------------------------------- execution

  function OperandValue(st: State, operand: Operand): Shifted
    requires operand.ShiftByImmediate? ==> operand.amount < 32
  {
    match operand
    case Immediate(rotate, imm8) =>
      var v := Ror(imm8, 2 * rotate);
      Shifted(v, if rotate == 0 then st.Flags().c else Bit(v, 31))
    case ShiftByImmediate(kind, amount, rm) => ByImmediate(kind, st.Read(rm), amount, st.Flags().c)
    case ShiftByRegister(kind, rs, rm) => ByRegister(kind, st.Read(rm), st.Read(rs) % 0x100, st.Flags().c)
  }

  predicate WellFormed(i: Instr) {
    i.Data? ==>
      && (i.operand.ShiftByImmediate? ==> i.operand.amount < 32)
      && (Compares(i.op) ==> i.s)
  }

  /** The effect of a data-processing instruction whose condition passed. */
  function ExecuteData(st: State, op: Opcode, s: bool, rn: Reg, rd: Reg, operand: Shifted): State {
    var a := st.Read(rn);
    var st1 := if Compares(op) then st else st.Write(rd, Result(op, a, operand.value, st.Flags().c));
    if s then st1.(cpsr := WithFlags(st.cpsr, FlagsAfter(op, a, operand.value, operand.carry, st.Flags())))
    else st1
  }

  function TransferAddress(st: State, up: bool, rn: Reg, offset: Offset12): Word {
    if up then Wrap(st.Read(rn) + offset) else Wrap(st.Read(rn) - offset)
  }

  /** What a load gets: a refused read returns -1, which the loads take for data. */
  function Loaded(r: Read<Word>): Word
    requires !r.PastEnd?
  {
    if r.Value? then r.value else 0xFFFF_FFFF
  }

  /** loadStoreByteOrWord. A word load reads at the address as it is and rotates the word by the two low bits. What
      C leaves undefined, a store outside the memory or a read past its end, stops the machine. */
  function LoadStore(st: State, load: bool, byte: bool, rd: Reg, address: Word): Outcome {
    if !load then
      if byte then
        if st.mem.Holds(address, 1) then Running(st.(mem := st.mem.WriteByte(address, st.Read(rd) % 0x100)))
        else Stopped(BadAccess)
      else
        if st.mem.Holds(address, 4) then Running(st.(mem := st.mem.WriteWord(address, st.Read(rd))))
        else Stopped(BadAccess)
    else if byte then
      match st.mem.ReadByte(address)
      case Value(b) => Running(st.Write(rd, b))
      case Refused => Running(st.Write(rd, 0xFF))
      case PastEnd => Stopped(BadAccess)
    else
      var w := st.mem.ReadWord(address);
      if w.PastEnd? then Stopped(BadAccess)
      else
        var data := Ror(Loaded(w), 8 * (address % 4));
        Running(st.Write(rd, if rd == PC then data - data % 2 else data))
  }

  function SignExtend24(x: Offset24): int {
    if x < 0x80_0000 then x else x - 0x100_0000
  }

  function ExecuteBranch(st: State, link: bool, offset: Offset24): State {
    var here := st.Read(PC);
    var st1 := if link then st.Write(LR, Wrap(here - 4)) else st;
    st1.Write(PC, Wrap(here + 4 * SignExtend24(offset)))
  }

  function Execute(st: State, i: Instr): Outcome
    requires WellFormed(i)
  {
    match i
    case Data(cond, op, s, rn, rd, operand) =>
      if !ConditionPassed(st.Flags(), cond) then Running(st)
      else if s && rd == PC && !Compares(op) then Stopped(NotModelled)
      else Running(ExecuteData(st, op, s, rn, rd, OperandValue(st, operand)))
    case Transfer(cond, load, byte, up, rn, rd, offset) =>
      if !ConditionPassed(st.Flags(), cond) then Running(st)
      else LoadStore(st, load, byte, rd, TransferAddress(st, up, rn, offset))
    case Branch(cond, link, offset) =>
      if !ConditionPassed(st.Flags(), cond) then Running(st)
      else Running(ExecuteBranch(st, link, offset))
    case Idle => Running(st)
    case Foreign => Stopped(NotModelled)
  }

  /** The PC after the fetch. */
  function Fetched(st: State): State {
    st.Write(PC, Wrap(st.Next() + 4))
  }

  /** A refused fetch moves the PC like any other and executes the -1 it returned. */
  function Step(st: State): Outcome {
    var w := st.mem.ReadWord(st.Next());
    if w.PastEnd? then Stopped(BadAccess) else Execute(Fetched(st), Decode(Loaded(w)))
  }

  /** The fetch moves the PC by one instruction, and the instruction reads its own address plus 8. */
  lemma FetchMoves(st: State)
    ensures Fetched(st).Next() == Wrap(st.Next() as int + 4)
    ensures Fetched(st).Read(PC) == Wrap(st.Next() as int + 8)
  {
    hide SetBit, Wrap;
    var a := st.Next();
    assert a % 4 < 2;
    KeepsLowBits(a as int + 4);
    KeepsLowBits(a as int + 8);
    WrapAdd(4, a as int + 4);
  }

  /** Reading R15 and taking 4 off is the address of the fetch, whatever R15 holds. */
  lemma ReadPcIsNext(st: State)
    ensures st.Read(PC) == Wrap(st.Next() as int + 4)
    ensures Wrap(st.Read(PC) as int - 4) == st.Next()
  {
    hide SetBit, Wrap;
    var x := st.regs[PC];
    KeepsLowBits(x as int + 4);
    WrapAdd(-2, x as int + 4);
    DropFits(Wrap(x as int + 4));
    WrapAdd(-4, st.Next() as int + 4);
    WrapsToItself(st.Next());
  }

  lemma DropFits(y: Word)
    ensures DropBit1(y) == Wrap(if y % 4 >= 2 then y as int - 2 else y)
  {
    hide SetBit;
  }

  lemma WrapsToItself(x: Word)
    ensures Wrap(x) == x
  {
  }

  lemma KeepsLowBits(x: int)
    ensures Wrap(x) % 4 == x % 4
  {
    assert x == 0x1_0000_0000 * (x / 0x1_0000_0000) + Wrap(x);
  }

  lemma NextBit1(st: State)
    ensures st.Next() % 4 < 2
  {
    hide SetBit;
  }

  /** A PC with bit 1 clear is where the next fetch goes. */
  lemma NextIsPc(st: State)
    requires st.regs[PC] % 4 < 2
    ensures st.Next() == st.regs[PC]
  {
    hide SetBit;
  }

  function Run(st: State, k: nat): Outcome {
    if k == 0 then Running(st)
    else
      match Run(st, k - 1)
      case Running(s) => Step(s)
      case Stopped(why) => Stopped(why)
  }

  // ---------------------------------------------------------------- encoding

  function OpcodeOf(k: Nibble): Opcode {
    match k
    case 0 => AND case 1 => EOR case 2 => SUB case 3 => RSB
    case 4 => ADD case 5 => ADC case 6 => SBC case 7 => RSC
    case 8 => TST case 9 => TEQ case 10 => CMP case 11 => CMN
    case 12 => ORR case 13 => MOV case 14 => BIC case _ => MVN
  }

  function OpcodeNumber(op: Opcode): (k: Nibble)
    ensures OpcodeOf(k) == op
    ensures Compares(op) <==> 8 <= k < 12
  {
    match op
    case AND => 0 case EOR => 1 case SUB => 2 case RSB => 3
    case ADD => 4 case ADC => 5 case SBC => 6 case RSC => 7
    case TST => 8 case TEQ => 9 case CMP => 10 case CMN => 11
    case ORR => 12 case MOV => 13 case BIC => 14 case MVN => 15
  }

  function KindOf(k: nat): Kind {
    match k case 0 => LSL case 1 => LSR case 2 => ASR case _ => ROR
  }

  function KindNumber(kind: Kind): (k: nat)
    ensures k < 4 && KindOf(k) == kind
  {
    match kind case LSL => 0 case LSR => 1 case ASR => 2 case ROR => 3
  }

  /** An instruction word taken apart: condition, group (bits 27..25), bits 24..20, the two registers
      and the low twelve bits. */
  datatype Fields = Fields(cond: Cond, group: nat, mid: nat, rn: Reg, rd: Reg, low: Offset12)

  function Split(w: Word): Fields {
    Fields(w / 0x1000_0000, w / 0x200_0000 % 8, w / 0x10_0000 % 32, w / 0x1_0000 % 16, w / 0x1000 % 16, w % 0x1000)
  }

  function Join(f: Fields): Word
    requires f.group < 8 && f.mid < 32
  {
    f.cond * 0x1000_0000 + f.group * 0x200_0000 + f.mid * 0x10_0000 + f.rn * 0x1_0000 + f.rd * 0x1000 + f.low
  }

  function DecodeOperand(immediate: bool, low: Offset12): Operand {
    if immediate then Immediate(low / 0x100, low % 0x100)
    else if low / 16 % 2 == 0 then ShiftByImmediate(KindOf(low / 32 % 4), low / 128, low % 16)
    else ShiftByRegister(KindOf(low / 32 % 4), low / 0x100, low % 16)
  }

  function Decode(w: Word): (i: Instr)
    ensures WellFormed(i)
  {
    DecodeFields(Split(w), w % 0x100_0000)
  }

  /** In `mid`: the opcode and S for data processing, P U B W L for transfers, the L bit of branches on top. */
  function DecodeFields(f: Fields, low24: Offset24): (i: Instr)
    requires f.group < 8 && f.mid < 32
    ensures WellFormed(i)
  {
    match f.group
    case 0 | 1 =>
      if f.mid / 8 == 2 && f.mid % 2 == 0 then Idle
      else Data(f.cond, OpcodeOf(f.mid / 2), f.mid % 2 == 1, f.rn, f.rd, DecodeOperand(f.group == 1, f.low))
    case 2 =>
      if f.mid / 16 == 1 && f.mid / 2 % 2 == 0 then
        Transfer(f.cond, f.mid % 2 == 1, f.mid / 4 % 2 == 1, f.mid / 8 % 2 == 1, f.rn, f.rd, f.low)
      else Foreign
    case 3 => Foreign
    case 5 => Branch(f.cond, f.mid / 16 == 1, low24)
    case _ => Idle
  }

  function EncodeOperand(operand: Operand): Offset12
    requires operand.ShiftByImmediate? ==> operand.amount < 32
  {
    match operand
    case Immediate(rotate, imm8) => rotate * 0x100 + imm8
    case ShiftByImmediate(kind, amount, rm) => amount * 128 + KindNumber(kind) * 32 + rm
    case ShiftByRegister(kind, rs, rm) => rs * 0x100 + KindNumber(kind) * 32 + 16 + rm
  }

  /** The word an assembler makes of an instruction; Idle stands for SWI 0x123456, with which the examples end. */
  function Encode(i: Instr): Word
    requires WellFormed(i) && !i.Foreign?
  {
    match i
    case Data(cond, op, s, rn, rd, operand) =>
      Join(Fields(cond, Int(operand.Immediate?), 2 * OpcodeNumber(op) + Int(s), rn, rd, EncodeOperand(operand)))
    case Transfer(cond, load, byte, up, rn, rd, offset) =>
      Join(Fields(cond, 2, 16 + 8 * Int(up) + 4 * Int(byte) + Int(load), rn, rd, offset))
    case Branch(cond, link, offset) =>
      cond * 0x1000_0000 + 0xA00_0000 + Int(link) * 0x100_0000 + offset
    case Idle => 0xEF12_3456
  }

  lemma SplitJoin(f: Fields)
    requires f.group < 8 && f.mid < 32
    ensures Split(Join(f)) == f
  {
    var w := Join(f);
    var w12 := f.cond * 0x1_0000 + f.group * 0x2000 + f.mid * 0x100 + f.rn * 0x10 + f.rd;
    var w16 := f.cond * 0x1000 + f.group * 0x200 + f.mid * 0x10 + f.rn;
    var w20 := f.cond * 0x100 + f.group * 0x20 + f.mid;
    DivUnique(w, 0x1000, w12, f.low);
    DivUnique(w, 0x1_0000, w16, f.rd * 0x1000 + f.low);
    DivUnique(w, 0x10_0000, w20, f.rn * 0x1_0000 + f.rd * 0x1000 + f.low);
    DivUnique(w, 0x200_0000, f.cond * 8 + f.group, f.mid * 0x10_0000 + f.rn * 0x1_0000 + f.rd * 0x1000 + f.low);
    DivUnique(w, 0x1000_0000, f.cond, w - f.cond * 0x1000_0000);
    DivUnique(w12, 16, w16, f.rd);
    DivUnique(w16, 16, w20, f.rn);
    DivUnique(w20, 32, f.cond * 8 + f.group, f.mid);
  }

  lemma DecodeEncodeOperand(operand: Operand)
    requires operand.ShiftByImmediate? ==> operand.amount < 32
    ensures DecodeOperand(operand.Immediate?, EncodeOperand(operand)) == operand
  {
    match operand {
      case Immediate(rotate, imm8) =>
      case ShiftByImmediate(kind, amount, rm) =>
        OperandFields(amount, KindNumber(kind), 0, rm);
      case ShiftByRegister(kind, rs, rm) =>
        OperandFields(2 * rs, KindNumber(kind), 1, rm);
    }
  }

  lemma OperandFields(top: nat, kind: nat, form: nat, rm: Reg)
    requires top < 32 && kind < 4 && form < 2
    ensures var x := top * 128 + kind * 32 + form * 16 + rm;
            && x / 16 % 2 == form && x / 32 % 4 == kind && x / 128 == top && x / 0x100 == top / 2 && x % 16 == rm
  {
    var x := top * 128 + kind * 32 + form * 16 + rm;
    assert x / 16 == top * 8 + kind * 2 + form;
    assert x / 32 == top * 4 + kind;
  }

  /** Decoding inverts encoding. */
  lemma DecodeEncode(i: Instr)
    requires WellFormed(i) && !i.Foreign?
    ensures Decode(Encode(i)) == i
  {
    match i {
      case Data(cond, op, s, rn, rd, operand) =>
        DecodeEncodeData(cond, op, s, rn, rd, operand);
      case Transfer(cond, load, byte, up, rn, rd, offset) =>
        DecodeEncodeTransfer(cond, load, byte, up, rn, rd, offset);
      case Branch(cond, link, offset) =>
        BranchFields(cond, link, offset);
      case Idle =>
        assert Split(0xEF12_3456).group == 7;
    }
  }

  lemma DecodeEncodeData(cond: Cond, op: Opcode, s: bool, rn: Reg, rd: Reg, operand: Operand)
    requires WellFormed(Data(cond, op, s, rn, rd, operand))
    ensures Decode(Encode(Data(cond, op, s, rn, rd, operand))) == Data(cond, op, s, rn, rd, operand)
  {
    hide Join, Split, EncodeOperand, DecodeOperand, OpcodeOf, OpcodeNumber, Compares;
    var k := OpcodeNumber(op);
    assert (2 * k + Int(s)) / 2 == k && (2 * k + Int(s)) % 2 == Int(s) && (2 * k + Int(s)) / 8 == k / 4;
    SplitJoin(Fields(cond, Int(operand.Immediate?), 2 * k + Int(s), rn, rd, EncodeOperand(operand)));
    DecodeEncodeOperand(operand);
  }

  lemma DecodeEncodeTransfer(cond: Cond, load: bool, byte: bool, up: bool, rn: Reg, rd: Reg, offset: Offset12)
    ensures var i := Transfer(cond, load, byte, up, rn, rd, offset);
            Decode(Encode(i)) == i
  {
    hide Join, Split;
    SplitJoin(Fields(cond, 2, 16 + 8 * Int(up) + 4 * Int(byte) + Int(load), rn, rd, offset));
  }

  lemma BranchFields(cond: Cond, link: bool, offset: Offset24)
    ensures var w := cond * 0x1000_0000 + 0xA00_0000 + Int(link) * 0x100_0000 + offset;
            && w < 0x1_0000_0000 && w % 0x100_0000 == offset
            && w / 0x1000_0000 == cond && w / 0x200_0000 % 8 == 5 && w / 0x10_0000 % 32 / 16 == Int(link)
  {
    var w := cond * 0x1000_0000 + 0xA00_0000 + Int(link) * 0x100_0000 + offset;
    DivUnique(w, 0x1000_0000, cond, 0xA00_0000 + Int(link) * 0x100_0000 + offset);
    DivUnique(w, 0x200_0000, 8 * cond + 5, Int(link) * 0x100_0000 + offset);
    DivUnique(w, 0x100_0000, 16 * cond + 10 + Int(link), offset);
    DivUnique(w, 0x10_0000, 256 * cond + 160 + 16 * Int(link) + offset / 0x10_0000, offset % 0x10_0000);
    DivUnique(256 * cond + 160 + 16 * Int(link) + offset / 0x10_0000, 32, 8 * cond + 5, 16 * Int(link) + offset / 0x10_0000);
  }

  // ---------------------------------------------------------------- runs

  lemma {:induction false} RunAdd(st: State, j: nat, k: nat)
    ensures Run(st, j + k) == match Run(st, j)
            case Running(s) => Run(s, k)
            case Stopped(why) => Stopped(why)
  {
    hide Step;
    if k > 0 {
      RunAdd(st, j, k - 1);
    }
  }

  lemma RunFrom(st: State, j: nat, s: State, k: nat)
    requires Run(st, j) == Running(s)
    ensures Run(st, j + k) == Run(s, k)
  {
    hide Run;
    RunAdd(st, j, k);
  }

  lemma RunZero(st: State)
    ensures Run(st, 0) == Running(st)
  {
  }
}
