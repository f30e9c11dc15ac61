/** What one step does, said in terms of the stored registers, the bits of the fetched word and the bytes of memory. */
module Effects {
  import opened Words
  import opened Memory
  import opened MemoryLog
  import opened Status
  import opened Alu
  import opened Shifter
  import opened Machine
  import opened Decoding

  /** What register r holds for the instruction that is about to be fetched: R15 is its address plus 8. */
  function Seen(st: State, r: Reg): Word {
    if r == PC then Wrap(st.Next() as int + 8) else st.regs[r]
  }

  /** The PC moved past the instruction. */
  function Moved(st: State): State {
    st.(regs := st.regs[PC := Wrap(st.Next() as int + 4)])
  }

  lemma SeenIsRead(st: State, r: Reg)
    ensures Fetched(st) == Moved(st) && Fetched(st).Read(r) == Seen(st, r) && Fetched(st).Flags() == st.Flags()
  {
    FetchMoves(st);
    hide DropBit1, FlagsOf;
  }

  lemma StepIsExecute(st: State, w: Word)
    requires st.mem.ReadWord(st.Next()) == Value(w)
    ensures Step(st) == Execute(Moved(st), Decode(w)) && WellFormed(Decode(w))
  {
    hide Execute, Decode, Mem.ReadWord, DropBit1;
  }

  // ---------------------------------------------------------------- nothing but the PC

  /** Software interrupts, coprocessor instructions, multiple and status transfers only move the PC. */
  lemma {:induction false} StepIdles(st: State, w: Word)
    requires st.mem.ReadWord(st.Next()) == Value(w)
    requires (Bit(w, 27) && !(!Bit(w, 26) && Bit(w, 25))) ||
             (!Bit(w, 27) && !Bit(w, 26) && Bit(w, 24) && !Bit(w, 23) && !Bit(w, 20))
    ensures Step(st) == Running(Moved(st))
  {
    DecodeByBits(w);
    hide Bit, Mem.ReadWord, Decode, DropBit1;
    StepIsExecute(st, w);
  }

  /** So does an instruction whose condition fails. */
  lemma StepSkips(st: State, w: Word)
    requires st.mem.ReadWord(st.Next()) == Value(w)
    requires var i := Decode(w);
             (i.Data? || i.Transfer? || i.Branch?) && !ConditionPassed(st.Flags(), i.cond)
    ensures Step(st) == Running(Moved(st))
  {
    hide Mem.ReadWord, Decode, DropBit1, ConditionPassed, FlagsOf;
    StepIsExecute(st, w);
  }

  /** And a fetch beyond the memory. */
  lemma {:induction false} StepBeyondMemory(st: State)
    requires |st.mem.bytes| < st.Next()
    ensures Step(st) == Running(Moved(st))
  {
    assert Decode(0xFFFF_FFFF).Idle?;
    hide Decode, DropBit1;
  }

  /** The machine stops as not modelled exactly on a transfer of another addressing mode, and on an S-bit write to R15
      whose condition holds. A fetch that runs past the end of the memory stops it too. */
  lemma StepStops(st: State, w: Word)
    ensures st.mem.ReadWord(st.Next()) == Value(w) ==>
              var i := Decode(w);
              Step(st) == Stopped(NotModelled) <==>
              i.Foreign? || (i.Data? && ConditionPassed(st.Flags(), i.cond) && i.s && i.rd == PC && !Compares(i.op))
    ensures st.Next() <= |st.mem.bytes| < st.Next() + 4 ==> Step(st) == Stopped(BadAccess)
  {
    GuardAsWritten(st.mem, st.Next());
    hide Mem.ReadWord, Decode, DropBit1, ConditionPassed, FlagsOf, OperandValue, ExecuteData, Compares, Ror;
    if st.mem.ReadWord(st.Next()) == Value(w) {
      StepIsExecute(st, w);
      SeenIsRead(st, 0);
    }
  }

  // ---------------------------------------------------------------- branches

  /** B and BL: to the address plus 8 plus four times the two's complement offset; BL leaves the next address in LR. */
  lemma StepBranches(st: State, w: Word)
    requires st.mem.ReadWord(st.Next()) == Value(w)
    requires Decode(w).Branch? && ConditionPassed(st.Flags(), Decode(w).cond)
    ensures var i, at := Decode(w), st.Next();
            var target := at as int + 8 + 4 * (i.words - if Bit(i.words, 23) then 0x100_0000 else 0);
            Step(st) == Running(
              st.(regs := (if i.link then st.regs[LR := Wrap(at as int + 4)] else st.regs)[PC := Wrap(target)]))
  {
    hide Mem.ReadWord, Decode, DropBit1, ConditionPassed, FlagsOf, Bit, Wrap;
    StepIsExecute(st, w);
    SeenIsRead(st, PC);
    var i, at := Decode(w), st.Next();
    SignBit24(i.words);
    WrapAdd(-4, at as int + 8);
    WrapAdd(4 * SignExtend24(i.words), at as int + 8);
    assert ExecuteBranch(Moved(st), i.link, i.words).regs ==
           (if i.link then st.regs[LR := Wrap(at as int + 4)] else st.regs)
             [PC := Wrap(at as int + 8 + 4 * SignExtend24(i.words))];
  }

  lemma SignBit24(x: Offset24)
    ensures SignExtend24(x) == x - if Bit(x, 23) then 0x100_0000 else 0
  {
    BitDiv(x, 23);
    Pow2Literals();
    assert Pow2(24) == 2 * Pow2(23);
  }

  // ---------------------------------------------------------------- data processing

  /** The second operand and the shifter carry-out as iterated one-bit shifts through the carry c of what the
      registers hold. LSR #0 and ASR #0 stand for 32 places, ROR #0 for one place through the carry. */
  predicate Iterated(operand: Operand, at: Reg -> Word, c: bool, x: Shifted) {
    match operand
    case Immediate(rotate, imm8) => x == Iterate(ROR, 2 * rotate, Shifted(imm8, c))
    case ShiftByRegister(kind, rs, rm) => x == Iterate(kind, at(rs) % 0x100, Shifted(at(rm), c))
    case ShiftByImmediate(kind, amount, rm) =>
      if amount == 0 && kind.ROR? then Pack(x) == RotateN(0x1_0000_0000, 1, Pack(Shifted(at(rm), c)))
      else x == Iterate(kind, if amount == 0 && !kind.LSL? then 32 else amount, Shifted(at(rm), c))
  }

  /** For every state and every operand. */
  lemma OperandIsIterated(st: State, operand: Operand)
    requires operand.ShiftByImmediate? ==> operand.amount < 32
    ensures Iterated(operand, r => st.Read(r), st.Flags().c, OperandValue(st, operand))
  {
    hide Iterate, ByImmediate, ByRegister, Ror, Bit, RotateN, Pack, FlagsOf, DropBit1;
    match operand {
      case Immediate(rotate, imm8) =>
        ImmediateOperandIsIterated(imm8, rotate, st.Flags().c);
      case ShiftByRegister(kind, rs, rm) =>
        RegisterShiftIsIterated(kind, st.Read(rm), st.Read(rs) % 0x100, st.Flags().c);
      case ShiftByImmediate(kind, amount, rm) =>
        ImmediateShiftIsIterated(kind, st.Read(rm), amount, st.Flags().c);
    }
  }

  /** A data-processing instruction that passes, with its operand and carry-out x: the result goes to the destination, the
      flags to the CPSR if bit 20 asks for them, and nothing else changes but the PC. */
  lemma StepProcesses(st: State, w: Word)
    requires st.mem.ReadWord(st.Next()) == Value(w)
    requires var i := Decode(w);
             i.Data? && ConditionPassed(st.Flags(), i.cond) && !(i.s && i.rd == PC && !Compares(i.op))
    ensures var i := Decode(w);
            exists x | Iterated(i.operand, r => Seen(st, r), st.Flags().c, x) ::
              var result := Result(i.op, Seen(st, i.rn), x.value, st.Flags().c);
              var flags := FlagsAfter(i.op, Seen(st, i.rn), x.value, x.carry, st.Flags());
              Step(st) == Running(Moved(st).(
                regs := if Compares(i.op) then Moved(st).regs else Moved(st).regs[i.rd := result],
                cpsr := if i.s then WithFlags(st.cpsr, flags) else st.cpsr))
  {
    hide Mem.ReadWord, Decode, DropBit1, ConditionPassed, FlagsOf, Bit, Wrap;
    hide OperandValue, Iterated, Result, FlagsAfter, WithFlags, Compares;
    var i := Decode(w);
    StepIsExecute(st, w);
    SeenIsRead(st, i.rn);
    OperandIsIterated(Fetched(st), i.operand);
    IteratedSees(st, i.operand, OperandValue(Fetched(st), i.operand));
  }

  lemma IteratedSees(st: State, operand: Operand, x: Shifted)
    requires Iterated(operand, r => Fetched(st).Read(r), Fetched(st).Flags().c, x)
    ensures Iterated(operand, r => Seen(st, r), st.Flags().c, x)
  {
    hide Iterate, RotateN, Pack, FlagsOf, DropBit1;
    forall r: Reg
      ensures Fetched(st).Read(r) == Seen(st, r)
    {
      SeenIsRead(st, r);
    }
    SeenIsRead(st, 0);
  }

  // ---------------------------------------------------------------- transfers

  /** The effect of a transfer between rd, which holds v, and address a: inside the memory it loads or stores; a load
      beyond the memory gets all ones; an access that C leaves undefined stops. */
  predicate Transferred(st: State, o: Outcome, load: bool, byte: bool, rd: Reg, v: Word, a: Word) {
    var width := if byte then 1 else 4;
    if st.mem.Holds(a, width) then
      && o.Running?
      && if load then Loads(st, o.st, byte, rd, a)
         else o.st == st.(mem := o.st.mem) && Stored(st.mem, o.st.mem, width, v, a)
    else if load && |st.mem.bytes| < a then
      o == Running(st.(regs := st.regs[rd := if byte then 0xFF else if rd == PC then 0xFFFF_FFFE else 0xFFFF_FFFF]))
    else
      o == Stopped(BadAccess)
  }

  /** A word with its n low bits exchanged with the others. */
  function Exchanged(w: int, n: nat): int
    requires n <= 32
  {
    w / Pow2(n) + w % Pow2(n) * Pow2(32 - n)
  }

  /** rd gets the byte, or the word with its low 8 (a % 4) bits exchanged with the others, R15 without bit 0. */
  predicate Loads(st: State, t: State, byte: bool, rd: Reg, a: Word)
    requires st.mem.Holds(a, if byte then 1 else 4)
  {
    && t == st.(regs := st.regs[rd := t.regs[rd]])
    && if byte then t.regs[rd] == st.mem.bytes[a]
       else
         var data := Exchanged(NumberAt(st.mem, a, 4), 8 * (a % 4));
         t.regs[rd] == if rd == PC then data - data % 2 else data
  }

  lemma TransferEffect(st: State, load: bool, byte: bool, rd: Reg, a: Word)
    ensures Transferred(st, LoadStore(st, load, byte, rd, a), load, byte, rd, st.Read(rd), a)
  {
    hide DropBit1, Mem.WriteWord, Mem.WriteByte, Stored;
    if !load {
      StoreStores(st.mem, st.Read(rd), a);
    } else if !byte {
      WordLoadEffect(st, rd, a);
    }
  }

  lemma WordLoadEffect(st: State, rd: Reg, a: Word)
    ensures Transferred(st, LoadStore(st, true, false, rd, a), true, false, rd, st.Read(rd), a)
  {
    hide Ror, Exchanged, NumberAt, DropBit1, Mem.ReadWord;
    GuardAsWritten(st.mem, a);
    var r := st.mem.ReadWord(a);
    if r.Value? {
      ReadsAreNumbers(st.mem, a);
      RorExchanges(r.value, 8 * (a % 4));
    } else if r.Refused? {
      OnesRotate(a);
      WordRefused(st.mem, a);
    }
  }

  lemma WordRefused(m: Mem, a: Word)
    ensures m.ReadWord(a).Refused? <==> |m.bytes| < a
  {
  }

  lemma RorExchanges(w: Word, n: nat)
    requires n < 32
    ensures Ror(w, n) == Exchanged(w, n)
  {
    RorSwaps(w, n);
    hide Pow2, Ror;
  }

  lemma OnesRotate(a: Word)
    ensures Ror(0xFFFF_FFFF, 8 * (a % 4)) == 0xFFFF_FFFF
  {
    hide Ror, Pow2;
    var n := 8 * (a % 4);
    RorZero(0xFFFF_FFFF);
    RorSwaps(0xFFFF_FFFF, n);
    Pow2Literals();
    assert n == 0 || n == 8 || n == 16 || n == 24;
  }

  /** A transfer that passes, at what its base register holds plus or minus the offset. */
  lemma StepTransfers(st: State, w: Word)
    requires st.mem.ReadWord(st.Next()) == Value(w)
    requires Decode(w).Transfer? && ConditionPassed(st.Flags(), Decode(w).cond)
    ensures var i := Decode(w);
            var a := Wrap(if i.up then Seen(st, i.rn) as int + i.offset else Seen(st, i.rn) as int - i.offset);
            Transferred(Moved(st), Step(st), i.load, i.byte, i.rd, Seen(st, i.rd), a)
  {
    hide Mem.ReadWord, Decode, DropBit1, ConditionPassed, FlagsOf, LoadStore, Transferred, Wrap;
    var i := Decode(w);
    StepIsExecute(st, w);
    SeenIsRead(st, i.rn);
    SeenIsRead(st, i.rd);
    TransferEffect(Fetched(st), i.load, i.byte, i.rd, TransferAddress(Fetched(st), i.up, i.rn, i.offset));
  }

  /** LDR rd, [pc, #offset], as an assembler addresses its literals: the word at the instruction's address plus 8 plus or
      minus the offset. */
  lemma LiteralLoad(st: State, cond: Cond, up: bool, rd: Reg, offset: Offset12, v: Word)
    requires var a := Wrap(st.Next() as int + 8 + if up then offset else 0 - offset as int);
             a % 4 == 0 && st.mem.ReadWord(a) == Value(v)
    requires st.mem.ReadWord(st.Next()) == Value(Encode(Transfer(cond, true, false, up, PC, rd, offset)))
    requires ConditionPassed(st.Flags(), cond) && rd != PC
    ensures Step(st) == Running(st.(regs := st.regs[PC := Wrap(st.Next() as int + 4)][rd := v]))
  {
    var i := Transfer(cond, true, false, up, PC, rd, offset);
    LiteralAddress(st, up, offset);
    hide Mem.ReadWord, Encode, DropBit1, ConditionPassed, FlagsOf, Wrap, Ror;
    DecodeEncode(i);
    hide Decode;
    StepIsExecute(st, Encode(i));
    RorZero(v);
  }

  lemma LiteralAddress(st: State, up: bool, offset: Offset12)
    ensures TransferAddress(Moved(st), up, PC, offset) == Wrap(st.Next() as int + 8 + if up then offset else 0 - offset as int)
  {
    hide DropBit1, Wrap;
    SeenIsRead(st, PC);
    WrapAdd(if up then offset else 0 - offset as int, st.Next() as int + 8);
  }
}
