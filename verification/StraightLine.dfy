/** What a run of data-processing instructions that leave R15 alone can change. */
module StraightLine {
  import opened Words
  import opened Status
  import opened Alu
  import opened Shifter
  import opened Machine
  import opened StoredProgram

  predicate DataOnly(p: seq<Instr>) {
    forall i | 0 <= i < |p| :: p[i].Data? && (Compares(p[i].op) || p[i].rd != PC)
  }

  /** Instruction j of the run from st executes with its condition true. */
  predicate Passes(p: seq<Instr>, base: nat, st: State, j: nat)
    requires Encodable(p) && DataOnly(p) && j < |p|
  {
    ListRun(p, base, st, j).Running? && ConditionPassed(ListRun(p, base, st, j).st.Flags(), p[j].cond)
  }

  /** One instruction: s is the state it leaves, from st. */
  predicate Framed(st: State, s: State, i: Instr)
    requires i.Data?
  {
    var passed := ConditionPassed(st.Flags(), i.cond);
    && s.mem == st.mem
    && (forall k: nat | k < 28 :: Bit(s.cpsr, k) == Bit(st.cpsr, k))
    && (forall r: Reg | r != PC :: s.regs[r] == st.regs[r] || (passed && !Compares(i.op) && r == i.rd))
    && (s.cpsr == st.cpsr || (passed && i.s))
    && (s.Flags().v == st.Flags().v || (passed && i.s && Arithmetic(i.op)))
  }

  lemma DataExecute(st: State, i: Instr)
    requires WellFormed(i) && i.Data? && (Compares(i.op) || i.rd != PC)
    ensures var o := Execute(st, i);
            o.Running? && o.st.Next() == st.Next() && Framed(st, o.st, i)
  {
    if ConditionPassed(st.Flags(), i.cond) {
      PassedFrame(st, i.op, i.s, i.rn, i.rd, OperandValue(st, i.operand));
      hide ExecuteData, OperandValue, ConditionPassed, Compares, Bit;
    }
  }

  lemma PassedFrame(st: State, op: Opcode, s: bool, rn: Reg, rd: Reg, x: Shifted)
    requires Compares(op) || rd != PC
    ensures var t := ExecuteData(st, op, s, rn, rd, x);
            && t.mem == st.mem && t.Next() == st.Next()
            && (forall k: nat | k < 28 :: Bit(t.cpsr, k) == Bit(st.cpsr, k))
            && (forall r: Reg | r != PC :: t.regs[r] == st.regs[r] || (!Compares(op) && r == rd))
            && (t.cpsr == st.cpsr || s)
            && (t.Flags().v == st.Flags().v || (s && Arithmetic(op)))
  {
    hide Result, Bit, Compares, Arithmetic, FlagsAfter, WithFlags, FlagsOf;
    FlagsKept(st.cpsr, FlagsAfter(op, st.Read(rn), x.value, x.carry, st.Flags()));
    LogicalKeepsV(op, st.Read(rn), x.value, x.carry, st.Flags());
  }

  lemma DataStep(p: seq<Instr>, base: nat, st: State, j: nat)
    requires Encodable(p) && DataOnly(p) && base + 4 * |p| < 0x1_0000_0000
    requires j < |p| && st.Next() == base + 4 * j
    ensures var o := ListStep(p, base, st);
            o.Running? && o.st.Next() == base + 4 * (j + 1) && Framed(st, o.st, p[j])
  {
    FetchMoves(st);
    hide Execute, ConditionPassed, Compares, Arithmetic, Bit, DropBit1;
    DataExecute(Fetched(st), p[j]);
  }

  lemma FlagsKept(cpsr: Word, g: Flags)
    ensures FlagsOf(WithFlags(cpsr, g)) == g
    ensures forall k: nat | k < 28 :: Bit(WithFlags(cpsr, g), k) == Bit(cpsr, k)
  {
    hide Bit, WithFlags;
    FlagsRoundTrip(cpsr, g, 0);
    forall k: nat | k < 28
      ensures Bit(WithFlags(cpsr, g), k) == Bit(cpsr, k)
    {
      FlagsRoundTrip(cpsr, g, k);
    }
  }

  lemma LogicalKeepsV(op: Opcode, a: Word, b: Word, carry: bool, f: Flags)
    ensures !Arithmetic(op) ==> FlagsAfter(op, a, b, carry, f).v == f.v
  {
    hide And, Or, Xor;
  }

  /** Over any run: the PC moves by 4 a step; memory and CPSR bits 27..0 never change; a register changes only if an
      instruction that passed names it as destination; the CPSR only if one that passed has the S bit; V only if
      that one is arithmetic, so it survives any stretch of logical opcodes. */
  lemma {:induction false} StraightLineFrame(p: seq<Instr>, base: nat, st: State, k: nat, r: Reg, b: nat)
    requires Encodable(p) && DataOnly(p) && base + 4 * |p| < 0x1_0000_0000
    requires k <= |p| && st.Next() == base && r != PC && b < 28
    ensures ListRun(p, base, st, k).Running?
    ensures var s := ListRun(p, base, st, k).st;
            && s.Next() == base + 4 * k && s.mem == st.mem && Bit(s.cpsr, b) == Bit(st.cpsr, b)
            && (s.regs[r] == st.regs[r] ||
                exists j | 0 <= j < k :: Passes(p, base, st, j) && !Compares(p[j].op) && p[j].rd == r)
            && (s.cpsr == st.cpsr || exists j | 0 <= j < k :: Passes(p, base, st, j) && p[j].s)
            && (s.Flags().v == st.Flags().v ||
                exists j | 0 <= j < k :: Passes(p, base, st, j) && p[j].s && Arithmetic(p[j].op))
  {
    if k > 0 {
      hide ListStep, ConditionPassed, Compares, Bit;
      StraightLineFrame(p, base, st, k - 1, r, b);
      var s := ListRun(p, base, st, k - 1).st;
      DataStep(p, base, s, k - 1);
      assert Passes(p, base, st, k - 1) == ConditionPassed(s.Flags(), p[k - 1].cond);
    }
  }
}
