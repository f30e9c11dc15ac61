/** Two instructions that belong together: a store and the load that reads it back, a comparison and the branch on it. */
module Pairs {
  import opened Words
  import opened Memory
  import opened Status
  import opened Alu
  import opened Shifter
  import opened Machine

  /** STR rd, [rn, #up] then LDR rt, [rm, #-down] at the same address: rt gets the stored register back, rotated right
      by eight bits for each byte the address is out of alignment, so unchanged if it is aligned; the PC drops bit 0;
      nothing else moves. */
  lemma WordStoredIsLoaded(st: State, rd: Reg, rn: Reg, up: Offset12, rt: Reg, rm: Reg, down: Offset12)
    requires var a := TransferAddress(st, true, rn, up);
             st.mem.Valid() && st.mem.Holds(a, 4) && TransferAddress(st, false, rm, down) == a
    ensures var a, v := TransferAddress(st, true, rn, up), st.Read(rd);
            var stored := Execute(st, Transfer(AL, false, false, true, rn, rd, up));
            && stored == Running(st.(mem := st.mem.WriteWord(a, v)))
            && Execute(stored.st, Transfer(AL, true, false, false, rm, rt, down)) ==
               Running(stored.st.Write(rt, if rt == PC then Ror(v, 8 * (a % 4)) - Ror(v, 8 * (a % 4)) % 2 else Ror(v, 8 * (a % 4))))
            && (a % 4 == 0 ==> Ror(v, 8 * (a % 4)) == v)
  {
    var a, v := TransferAddress(st, true, rn, up), st.Read(rd);
    var stored := st.(mem := st.mem.WriteWord(a, v));
    RorZero(v);
    AlwaysPasses(st.Flags());
    WordRoundTrip(st.mem, a, v);
    hide Ror, FlagsOf, ConditionPassed, Mem.ReadWord, Mem.WriteWord, Mem.ReadByte, Mem.WriteByte, DropBit1;
    assert Execute(st, Transfer(AL, false, false, true, rn, rd, up)) == Running(stored);
    assert TransferAddress(stored, false, rm, down) == a;
  }

  /** STRB then LDRB: the low byte of the stored register comes back, the other bits cleared. */
  lemma ByteStoredIsLoaded(st: State, rd: Reg, rn: Reg, up: Offset12, rt: Reg, rm: Reg, down: Offset12)
    requires var a := TransferAddress(st, true, rn, up);
             st.mem.Holds(a, 1) && TransferAddress(st, false, rm, down) == a
    ensures var a := TransferAddress(st, true, rn, up);
            var stored := Execute(st, Transfer(AL, false, true, true, rn, rd, up));
            && stored == Running(st.(mem := st.mem.WriteByte(a, st.Read(rd) % 0x100)))
            && Execute(stored.st, Transfer(AL, true, true, false, rm, rt, down)) ==
               Running(stored.st.Write(rt, st.Read(rd) % 0x100))
  {
    hide FlagsOf;
  }

  /** The relation between two registers that a condition code names. */
  predicate Relates(cond: Cond, a: Word, b: Word)
    requires cond < 4 || 8 <= cond < 14
  {
    match cond
    case 0 => a == b
    case 1 => a != b
    case 2 => a >= b
    case 3 => a < b
    case 8 => a > b
    case 9 => a <= b
    case 10 => Signed(a) >= Signed(b)
    case 11 => Signed(a) < Signed(b)
    case 12 => Signed(a) > Signed(b)
    case _ => Signed(a) <= Signed(b)
  }

  /** CMP rn, rm then a conditional branch: it branches exactly if the registers stand in the relation, and the
      comparison changes nothing but flags. */
  lemma CompareAndBranch(st: State, rn: Reg, rm: Reg, rd: Reg, cond: Cond, words: Offset24)
    requires cond < 4 || 8 <= cond < 14
    ensures var compared := Execute(st, Data(AL, CMP, true, rn, rd, ShiftByImmediate(LSL, 0, rm)));
            && compared.Running? && compared.st == st.(cpsr := compared.st.cpsr)
            && Execute(compared.st, Branch(cond, false, words)) ==
               Running(if Relates(cond, st.Read(rn), st.Read(rm)) then ExecuteBranch(compared.st, false, words) else compared.st)
  {
    var a, b, f := st.Read(rn), st.Read(rm), st.Flags();
    var g := FlagsAfter(CMP, a, b, f.c, f);
    CompareDecides(a, b, f.c, f);
    FlagsRoundTrip(st.cpsr, g, 0);
    ConditionRelates(cond, a, b, g);
    hide FlagsOf, FlagsAfter, WithFlags, Result, ConditionPassed, Relates;
    AlwaysPasses(f);
  }

  lemma ConditionRelates(cond: Cond, a: Word, b: Word, g: Flags)
    requires cond < 4 || 8 <= cond < 14
    requires && (ConditionPassed(g, EQ) <==> a == b) && (ConditionPassed(g, NE) <==> a != b)
             && (ConditionPassed(g, HS) <==> a >= b) && (ConditionPassed(g, LO) <==> a < b)
             && (ConditionPassed(g, HI) <==> a > b) && (ConditionPassed(g, LS) <==> a <= b)
             && (ConditionPassed(g, GE) <==> Signed(a) >= Signed(b)) && (ConditionPassed(g, LT) <==> Signed(a) < Signed(b))
             && (ConditionPassed(g, GT) <==> Signed(a) > Signed(b)) && (ConditionPassed(g, LE) <==> Signed(a) <= Signed(b))
    ensures ConditionPassed(g, cond) <==> Relates(cond, a, b)
  {
  }
}
