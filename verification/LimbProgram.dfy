/** The carry chains as stored programs: n limbs in r0..r(n-1) and n in rn..r(2n-1), for every n the registers
    have room for. */
module LimbProgram {
  import opened Words
  import opened Status
  import opened Alu
  import opened Shifter
  import opened Limbs
  import opened Machine
  import opened StoredProgram

  /** The opcode of a chain's first limb, and the one that takes over the carry. */
  predicate ChainOps(first: Opcode, rest: Opcode) {
    (first == ADD && rest == ADC) || (first == SUB && rest == SBC)
  }

  lemma OpsDoNotCompare(first: Opcode, rest: Opcode)
    requires ChainOps(first, rest)
    ensures !Compares(first) && !Compares(rest)
  {
  }

  function Limb(op: Opcode, n: nat, i: nat): (r: Instr)
    requires i < n <= 7
    ensures r.Data? && (!Compares(op) ==> WellFormed(r))
  {
    Data(AL, op, true, i, i, ShiftByImmediate(LSL, 0, n + i))
  }

  /** adds r0, r0, rn; adcs r1, r1, r(n+1); ... or the same with subs and sbcs. */
  function Program(first: Opcode, rest: Opcode, n: nat): (p: seq<Instr>)
    requires 0 < n <= 7 && ChainOps(first, rest)
    ensures |p| == n && forall i | 0 <= i < n :: p[i] == Limb(if i == 0 then first else rest, n, i)
    ensures Encodable(p)
  {
    OpsDoNotCompare(first, rest);
    seq(n, i requires 0 <= i < n => Limb(if i == 0 then first else rest, n, i))
  }

  function ChainOf(first: Opcode, a: seq<Word>, b: seq<Word>, f: Flags): Chain
    requires |a| == |b| > 0
  {
    if first == ADD then AddChain(a, b, f) else SubChain(a, b, f)
  }

  /** The effect of limb i's instruction. */
  function Linked(op: Opcode, base: nat, n: nat, st: State, i: nat): State
    requires i < n <= 7 && base + 4 * (i + 1) < 0x1_0000_0000
  {
    var a, b, f := st.regs[i], st.regs[n + i], st.Flags();
    st.(regs := st.regs[i := Result(op, a, b, f.c)][PC := base + 4 * (i + 1)],
        cpsr := WithFlags(st.cpsr, FlagsAfter(op, a, b, f.c, f)))
  }

  lemma StepLimb(p: seq<Instr>, base: nat, n: nat, op: Opcode, st: State, i: nat)
    requires i < n <= 7 && Encodable(p) && |p| == n && base + 4 * n < 0x1_0000_0000
    requires p[i] == Limb(op, n, i) && !Compares(op) && st.Next() == base + 4 * i
    ensures ListStep(p, base, st) == Running(Linked(op, base, n, st, i))
    ensures Linked(op, base, n, st, i).Flags() == FlagsAfter(op, st.regs[i], st.regs[n + i], st.Flags().c, st.Flags())
  {
    hide Result, FlagsAfter, WithFlags, Bit, Compares, DropBit1;
    var s := Fetched(st);
    var f := st.Flags();
    FlagsRoundTrip(st.cpsr, FlagsAfter(op, st.regs[i], st.regs[n + i], f.c, f), 0);
    hide FlagsOf;
    assert s.Read(i) == st.regs[i] && OperandValue(s, p[i].operand) == Shifted(st.regs[n + i], f.c);
    assert s.Write(i, Result(op, st.regs[i], st.regs[n + i], f.c)).regs == Linked(op, base, n, st, i).regs;
  }

  /** From limb i on, the run computes what the chain computes, and touches no other register. */
  predicate Chained(st: State, t: State, i: nat, n: nat, base: nat, r: Chain)
    requires i <= n <= 7
  {
    && t.regs[i..n] == r.limbs && t.Flags() == r.flags
    && t.Next() == base + 4 * n && t.mem == st.mem
    && forall k: Reg | k != PC && !(i <= k < n) :: t.regs[k] == st.regs[k]
  }

  predicate RunsChain(st: State, o: Outcome, i: nat, n: nat, base: nat, r: Chain)
    requires i <= n <= 7
  {
    o.Running? && Chained(st, o.st, i, n, base, r)
  }

  lemma {:induction false} RestRuns(p: seq<Instr>, base: nat, n: nat, rest: Opcode, st: State, i: nat)
    requires i <= n <= 7 && Encodable(p) && |p| == n && base + 4 * n < 0x1_0000_0000 && !Compares(rest)
    requires forall j | i <= j < n :: p[j] == Limb(rest, n, j)
    requires st.Next() == base + 4 * i
    ensures RunsChain(st, ListRun(p, base, st, n - i), i, n, base,
                      Carrying(rest, st.regs[i..n], st.regs[n + i..2 * n], st.Flags()))
    decreases n - i
  {
    NextBit1(st);
    hide ListRun, ListStep, Linked, Chained, Carrying, Encodable, Compares, Limb, FlagsOf, DropBit1;
    ListRunZero(p, base, st);
    if i == n { ChainEnd(base, n, rest, st); }
    if i < n {
      LinkedNext(rest, base, n, st, i);
      var s := Linked(rest, base, n, st, i);
      StepLimb(p, base, n, rest, st, i);
      ListRunNext(p, base, st, 0, st, s);
      RestRuns(p, base, n, rest, s, i + 1);
      ListRunFrom(p, base, st, 1, s, n - i - 1);
      ChainLink(base, n, rest, st, i, ListRun(p, base, s, n - i - 1).st);
    }
  }

  lemma LinkedNext(op: Opcode, base: nat, n: nat, st: State, i: nat)
    requires i < n <= 7 && base + 4 * n < 0x1_0000_0000 && base % 4 < 2
    ensures Linked(op, base, n, st, i).Next() == base + 4 * (i + 1)
  {
    NextIsPc(Linked(op, base, n, st, i));
  }

  lemma ChainEnd(base: nat, n: nat, op: Opcode, st: State)
    requires n <= 7 && base + 4 * n < 0x1_0000_0000 && st.Next() == base + 4 * n
    ensures Chained(st, st, n, n, base, Carrying(op, st.regs[n..n], st.regs[2 * n..2 * n], st.Flags()))
  {
  }

  /** One limb in front of a chain makes a chain. */
  lemma ChainLink(base: nat, n: nat, op: Opcode, st: State, i: nat, t: State)
    requires i < n <= 7 && base + 4 * n < 0x1_0000_0000
    requires var s := Linked(op, base, n, st, i);
             && s.Flags() == FlagsAfter(op, st.regs[i], st.regs[n + i], st.Flags().c, st.Flags())
             && Chained(s, t, i + 1, n, base, Carrying(op, s.regs[i + 1..n], s.regs[n + i + 1..2 * n], s.Flags()))
    ensures Chained(st, t, i, n, base, Carrying(op, st.regs[i..n], st.regs[n + i..2 * n], st.Flags()))
  {
    hide FlagsOf, Result, FlagsAfter, WithFlags, Compares;
    var s := Linked(op, base, n, st, i);
    var a, b := st.regs[i..n], st.regs[n + i..2 * n];
    assert a[0] == st.regs[i] && b[0] == st.regs[n + i];
    assert s.regs[i + 1..n] == st.regs[i..n][1..] && s.regs[n + i + 1..2 * n] == st.regs[n + i..2 * n][1..];
    assert t.regs[i] == s.regs[i];
    assert t.regs[i..n] == [t.regs[i]] + t.regs[i + 1..n];
  }

  lemma ProgramRuns(first: Opcode, rest: Opcode, base: nat, n: nat, st: State)
    requires 0 < n <= 7 && ChainOps(first, rest) && base + 4 * n < 0x1_0000_0000 && st.Next() == base
    ensures RunsChain(st, ListRun(Program(first, rest, n), base, st, n), 0, n, base,
                      ChainOf(first, st.regs[..n], st.regs[n..2 * n], st.Flags()))
  {
    NextBit1(st);
    hide ListRun, ListStep, Linked, Chained, Carrying, Encodable, Limb, FlagsOf, Compares, ChainOf, DropBit1;
    var p := Program(first, rest, n);
    OpsDoNotCompare(first, rest);
    ListRunZero(p, base, st);
    LinkedNext(first, base, n, st, 0);
    var s := Linked(first, base, n, st, 0);
    StepLimb(p, base, n, first, st, 0);
    ListRunNext(p, base, st, 0, st, s);
    RestRuns(p, base, n, rest, s, 1);
    ListRunFrom(p, base, st, 1, s, n - 1);
    FirstLink(first, rest, base, n, st, ListRun(p, base, s, n - 1).st);
  }

  lemma FirstLink(first: Opcode, rest: Opcode, base: nat, n: nat, st: State, t: State)
    requires 0 < n <= 7 && ChainOps(first, rest) && base + 4 * n < 0x1_0000_0000
    requires var s := Linked(first, base, n, st, 0);
             && s.Flags() == FlagsAfter(first, st.regs[0], st.regs[n], st.Flags().c, st.Flags())
             && Chained(s, t, 1, n, base, Carrying(rest, s.regs[1..n], s.regs[n + 1..2 * n], s.Flags()))
    ensures Chained(st, t, 0, n, base, ChainOf(first, st.regs[..n], st.regs[n..2 * n], st.Flags()))
  {
    hide FlagsOf, Result, FlagsAfter, WithFlags;
    var s := Linked(first, base, n, st, 0);
    assert s.regs[1..n] == st.regs[..n][1..] && s.regs[n + 1..2 * n] == st.regs[n..2 * n][1..];
    assert t.regs[0] == s.regs[0];
    assert t.regs[0..n] == [t.regs[0]] + t.regs[1..n];
  }

  lemma SparesItself(first: Opcode, rest: Opcode, base: nat, n: nat, st: State, k: nat)
    requires 0 < n <= 7 && ChainOps(first, rest)
    ensures RunSparesCode(Program(first, rest, n), base, st, k)
  {
    hide ListRun, Fetched;
    var p := Program(first, rest, n);
    assert forall i | 0 <= i < n :: p[i].Data?;
  }

  /** What the two programs leave: the exact sum or difference of the numbers, with the flags of the whole. */
  predicate Computes(first: Opcode, n: nat, st: State, t: State)
    requires 0 < n <= 7
  {
    var a, b, r, f := st.regs[..n], st.regs[n..2 * n], t.regs[..n], t.Flags();
    && (first == ADD ==>
          && Value(r) + Int(f.c) * Radix(n) == Value(a) + Value(b)
          && (f.v <==> !Fits(SignedValue(a) + SignedValue(b), n)))
    && (first == SUB ==>
          && Value(r) - Int(!f.c) * Radix(n) == Value(a) - Value(b)
          && (f.v <==> !Fits(SignedValue(a) - SignedValue(b), n))
          && (ConditionPassed(f, HS) <==> Value(a) >= Value(b))
          && (ConditionPassed(f, GE) <==> SignedValue(a) >= SignedValue(b)))
    && t.mem == st.mem && t.regs[n..PC] == st.regs[n..PC]
  }

  lemma ChainComputes(first: Opcode, rest: Opcode, base: nat, n: nat, st: State, t: State)
    requires 0 < n <= 7 && ChainOps(first, rest)
    requires Chained(st, t, 0, n, base, ChainOf(first, st.regs[..n], st.regs[n..2 * n], st.Flags()))
    ensures Computes(first, n, st, t)
  {
    hide AddChain, SubChain, Value, SignedValue, Radix, FlagsOf, Fits, ConditionPassed;
    var a, b := st.regs[..n], st.regs[n..2 * n];
    AdditionOfLimbs(a, b, st.Flags());
    SubtractionOfLimbs(a, b, st.Flags());
    assert t.regs[0..n] == t.regs[..n];
    assert forall k: Reg | n <= k < PC :: t.regs[k] == st.regs[k];
  }

  /** The stored programs on the whole machine, in either byte order: n steps add or subtract the n-limb numbers in
      the registers, and leave flags on which HS/LO and GE/LT compare them. */
  lemma StoredLimbProgram(first: Opcode, rest: Opcode, base: nat, n: nat, st: State)
    requires 0 < n <= 7 && ChainOps(first, rest) && base + 4 * n < 0x1_0000_0000
    requires CodeAt(st.mem, base, Image(Program(first, rest, n))) && st.Next() == base
    ensures Run(st, n).Running? && Computes(first, n, st, Run(st, n).st)
  {
    hide ListRun, Run, RunSparesCode, CodeAt, Computes, Chained, ChainOf;
    ProgramRuns(first, rest, base, n, st);
    SparesItself(first, rest, base, n, st, n);
    StoredProgramRefines(Program(first, rest, n), base, st, n);
    ChainComputes(first, rest, base, n, st, Run(st, n).st);
  }
}
