/** The processor object: registers, CPSR and memory updated in place, one method for each function of
    arm_instruction.c, each proved to perform the transition Machine gives it. */
module Processor {
  import opened Words
  import Storage = Memory
  import opened Status
  import opened Alu
  import opened Shifter
  import opened Machine

  datatype Verdict = Done | Halted(why: Reason)

  class Core {
    const regs: array<Word>
    var cpsr: Word
    const mem: Storage.Memory

    ghost predicate Valid()
      reads mem
    {
      regs.Length == 16 && mem.Valid() && regs as object != mem.address
    }

    ghost function Model(): State
      reads this, regs, mem, mem.address
      requires Valid()
    {
      State(regs[..], cpsr, mem.Model())
    }

    /** arm_create: the reset exception sets the CPSR to supervisor mode; the registers start unspecified, R15 too,
        since its reset goes through a write that this mode ignores. */
    constructor (mem: Storage.Memory)
      requires mem.Valid()
      ensures Valid() && this.mem == mem && fresh(regs) && cpsr == 0x1D3
    {
      this.mem := mem;
      regs := new Word[16];
      cpsr := 0x1D3;
    }

    method ReadRegister(r: Reg) returns (v: Word)
      requires Valid()
      ensures v == Model().Read(r)
    {
      v := regs[r];
      if r == PC {
        v := DropBit1(Wrap(v as int + 4));
      }
    }

    method WriteRegister(r: Reg, v: Word)
      requires Valid()
      modifies regs
      ensures Valid() && Model() == old(Model()).Write(r, v)
    {
      regs[r] := v;
    }

    /** arm_fetch: the word at register 15 less 4; the PC moves past it even if the memory refuses the read. */
    method Fetch() returns (r: Storage.Read<Word>)
      requires Valid()
      modifies regs
      ensures Valid() && r == old(Model().mem.ReadWord(Model().Next()))
      ensures Model() == if r.PastEnd? then old(Model()) else Fetched(old(Model()))
    {
      hide Storage.Mem.ReadWord, DropBit1;
      var pc := ReadRegister(PC);
      var address := Wrap(pc as int - 4);
      ReadPcIsNext(Model());
      r := mem.ReadWord(address);
      if !r.PastEnd? {
        WriteRegister(PC, Wrap(address as int + 4));
      }
    }

    /** update_Flag_Z, N, C and V, with the CPSR written back: bit k becomes v, every other bit stays, and so do
        the registers and the memory. */
    method UpdateFlag(k: nat, v: bool)
      requires Valid() && k < 32
      modifies this`cpsr
      ensures Valid() && Model() == old(Model()).(cpsr := cpsr)
      ensures forall j: nat :: Bit(cpsr, j) == if j == k then v else Bit(old(cpsr), j)
    {
      ghost var was := cpsr;
      cpsr := SetFlag(cpsr, k, v);
      forall j: nat
        ensures Bit(cpsr, j) == if j == k then v else Bit(was, j)
      {
        BitSetBit(was, k, v, j);
      }
    }

    method UpdateFlags(f: Flags)
      requires Valid()
      modifies this`cpsr
      ensures Valid() && Model() == old(Model()).(cpsr := WithFlags(old(cpsr), f))
    {
      hide Bit, WithFlags;
      ghost var was := cpsr;
      UpdateFlag(30, f.z);
      UpdateFlag(31, f.n);
      UpdateFlag(29, f.c);
      UpdateFlag(28, f.v);
      SameBits(was, cpsr, f);
    }

    /** The second operand and the shifter carry-out. */
    method ShifterOperand(operand: Operand) returns (r: Shifted)
      requires Valid() && (operand.ShiftByImmediate? ==> operand.amount < 32)
      ensures r == OperandValue(Model(), operand)
    {
      var carry := FlagsOf(cpsr).c;
      match operand {
        case Immediate(rotate, imm8) =>
          var v := Ror(imm8, 2 * rotate);
          if rotate != 0 { carry := Bit(v, 31); }
          r := Shifted(v, carry);
        case ShiftByImmediate(kind, amount, rm) =>
          var x := ReadRegister(rm);
          r := ByImmediate(kind, x, amount, carry);
        case ShiftByRegister(kind, rs, rm) =>
          var x := ReadRegister(rm);
          var amount := ReadRegister(rs);
          r := ByRegister(kind, x, amount % 0x100, carry);
      }
    }

    method DataProcessing(op: Opcode, s: bool, rn: Reg, rd: Reg, operand: Operand)
      requires Valid() && (operand.ShiftByImmediate? ==> operand.amount < 32)
      modifies this`cpsr, regs
      ensures Valid()
      ensures Model() == ExecuteData(old(Model()), op, s, rn, rd, OperandValue(old(Model()), operand))
    {
      hide Result, FlagsAfter, WithFlags, FlagsOf, OperandValue;
      var a := ReadRegister(rn);
      var b := ShifterOperand(operand);
      var f := FlagsOf(cpsr);
      if !Compares(op) {
        WriteRegister(rd, Result(op, a, b.value, f.c));
      }
      if s {
        UpdateFlags(FlagsAfter(op, a, b.value, b.carry, f));
      }
    }

    method LoadStoreByteOrWord(load: bool, byte: bool, rd: Reg, address: Word) returns (r: Verdict)
      requires Valid()
      modifies regs, mem.address
      ensures Valid()
      ensures Agrees(r, old(Model()), Model(), LoadStore(old(Model()), load, byte, rd, address))
    {
      hide Ror, Storage.Mem.ReadWord, Storage.Mem.WriteWord, Storage.Mem.ReadByte, Storage.Mem.WriteByte;
      var value := ReadRegister(rd);
      if !load {
        if address as int + (if byte then 1 else 4) > mem.size { return Halted(BadAccess); }
        if byte {
          mem.WriteByte(address, value % 0x100);
        } else {
          mem.WriteWord(address, value);
        }
      } else if byte {
        var x := mem.ReadByte(address);
        if x.PastEnd? { return Halted(BadAccess); }
        WriteRegister(rd, if x.Value? then x.value else 0xFF);
      } else {
        var x := mem.ReadWord(address);
        if x.PastEnd? { return Halted(BadAccess); }
        var data := Ror(Loaded(x), 8 * (address % 4));
        WriteRegister(rd, if rd == PC then data - data % 2 else data);
      }
      r := Done;
    }

    method BranchTo(link: bool, words: Offset24)
      requires Valid()
      modifies regs
      ensures Valid() && Model() == ExecuteBranch(old(Model()), link, words)
    {
      var here := ReadRegister(PC);
      if link {
        WriteRegister(LR, Wrap(here as int - 4));
      }
      WriteRegister(PC, Wrap(here as int + 4 * SignExtend24(words)));
    }

    /** arm_execute_instruction after the fetch. */
    method ExecuteInstruction(i: Instr) returns (r: Verdict)
      requires Valid() && WellFormed(i)
      modifies this`cpsr, regs, mem.address
      ensures Valid()
      ensures Agrees(r, old(Model()), Model(), Execute(old(Model()), i))
    {
      hide ExecuteData, LoadStore, ExecuteBranch, FlagsOf, OperandValue, ConditionPassed;
      r := Done;
      match i {
        case Data(cond, op, s, rn, rd, operand) =>
          if ConditionPassed(FlagsOf(cpsr), cond) {
            if s && rd == PC && !Compares(op) { return Halted(NotModelled); }
            DataProcessing(op, s, rn, rd, operand);
          }
        case Transfer(cond, load, byte, up, rn, rd, offset) =>
          if ConditionPassed(FlagsOf(cpsr), cond) {
            var from := ReadRegister(rn);
            var address := if up then Wrap(from as int + offset) else Wrap(from as int - offset);
            r := LoadStoreByteOrWord(load, byte, rd, address);
          }
        case Branch(cond, link, words) =>
          if ConditionPassed(FlagsOf(cpsr), cond) {
            BranchTo(link, words);
          }
        case Idle =>
        case Foreign =>
          r := Halted(NotModelled);
      }
    }

    /** arm_step: the object moves exactly as the transition system does. */
    method StepOnce() returns (r: Verdict)
      requires Valid()
      modifies this`cpsr, regs, mem.address
      ensures Valid()
      ensures match Step(old(Model()))
              case Running(s) => r == Done && Model() == s
              case Stopped(why) => r == Halted(why)
    {
      hide Execute, Decode, Storage.Mem.ReadWord;
      var w := Fetch();
      if w.PastEnd? { return Halted(BadAccess); }
      r := ExecuteInstruction(Decode(Loaded(w)));
    }
  }

  lemma SameBits(was: Word, now: Word, f: Flags)
    requires forall j: nat :: Bit(now, j) == match j
               case 31 => f.n
               case 30 => f.z
               case 29 => f.c
               case 28 => f.v
               case _ => Bit(was, j)
    ensures now == WithFlags(was, f)
  {
    hide Bit, WithFlags;
    Pow2Literals();
    forall j: nat | j < 32
      ensures Bit(now, j) == Bit(WithFlags(was, f), j)
    {
      WithFlagsBit(was, f, j);
    }
    BitsDetermine(now, WithFlags(was, f), 32);
  }

  /** The verdict and the new state are those of the outcome; a halted instruction leaves the state it found. */
  ghost predicate Agrees(r: Verdict, before: State, after: State, o: Outcome) {
    match o
    case Running(s) => r == Done && after == s
    case Stopped(why) => r == Halted(why) && after == before
  }
}
