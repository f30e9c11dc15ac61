/** Byte order is invisible to programs that only touch aligned words: a big-endian and a little-endian machine
    with the same aligned words run in lock step. */
module EndianRuns {
  import opened Words
  import opened Memory
  import opened EndianDuality
  import opened Status
  import opened Alu
  import opened Shifter
  import opened Machine
  import opened StoredProgram

  /** Equal registers, equal CPSR, and memories of opposite byte order with equal aligned words. */
  predicate Alike(be: State, le: State) {
    && be.regs == le.regs && be.cpsr == le.cpsr
    && be.mem.flag == 1 && le.mem.flag == 0
    && |be.mem.bytes| == |le.mem.bytes| < 0x1_0000_0000 && |be.mem.bytes| % 4 == 0
    && forall a: Word | a % 4 == 0 && a < |be.mem.bytes| :: be.mem.ReadWord(a) == le.mem.ReadWord(a)
  }

  predicate AlikeOutcomes(x: Outcome, y: Outcome) {
    match (x, y)
    case (Running(be), Running(le)) => Alike(be, le)
    case (Stopped(v), Stopped(w)) => v == w
    case _ => false
  }

  /** This step fetches an aligned word and, if it transfers anything, transfers an aligned word. */
  predicate WordsOnly(st: State) {
    && st.Next() % 4 == 0
    && var w := st.mem.ReadWord(st.Next());
       !w.PastEnd? ==> TransfersWords(Fetched(st), Decode(Loaded(w)))
  }

  predicate TransfersWords(st: State, i: Instr) {
    i.Transfer? && ConditionPassed(st.Flags(), i.cond) ==>
      !i.byte && TransferAddress(st, i.up, i.rn, i.offset) % 4 == 0
  }

  lemma AlikeIsDual(be: State, le: State)
    ensures Alike(be, le) <==> be.regs == le.regs && be.cpsr == le.cpsr && Dual(be.mem, le.mem) && |be.mem.bytes| < 0x1_0000_0000
  {
    hide Mem.ReadWord;
    if |be.mem.bytes| == |le.mem.bytes| < 0x1_0000_0000 && |be.mem.bytes| % 4 == 0 && be.mem.flag == 1 && le.mem.flag == 0 {
      DualMeansEqualWords(be.mem, le.mem);
    }
  }

  lemma AlikeRegisters(be: State, le: State, regs: Registers, cpsr: Word)
    requires Alike(be, le)
    ensures Alike(be.(regs := regs, cpsr := cpsr), le.(regs := regs, cpsr := cpsr))
  {
    hide Mem.ReadWord;
  }

  lemma AlikeReads(be: State, le: State, a: Word)
    requires Alike(be, le) && a % 4 == 0
    ensures be.mem.ReadWord(a) == le.mem.ReadWord(a)
  {
    AlikeIsDual(be, le);
    hide Alike, Dual, Mem.ReadWord;
    DualLoadWord(be.mem, le.mem, a);
  }

  lemma AlikeTransfer(be: State, le: State, load: bool, rd: Reg, a: Word)
    requires Alike(be, le) && a % 4 == 0
    ensures AlikeOutcomes(LoadStore(be, load, false, rd, a), LoadStore(le, load, false, rd, a))
  {
    if load {
      hide Ror, Alike;
      AlikeReads(be, le, a);
      if be.mem.ReadWord(a).Value? {
        var st := LoadStore(be, load, false, rd, a).st;
        assert be.regs == le.regs && be.cpsr == le.cpsr by { AlikeFields(be, le); }
        AlikeRegisters(be, le, st.regs, st.cpsr);
      }
    } else {
      hide Mem.ReadWord, Mem.WriteWord;
      AlikeIsDual(be, le);
      if be.mem.Holds(a, 4) {
        DualStoreWord(be.mem, le.mem, a, be.Read(rd));
        AlikeIsDual(LoadStore(be, load, false, rd, a).st, LoadStore(le, load, false, rd, a).st);
      }
    }
  }

  lemma AlikeFields(be: State, le: State)
    requires Alike(be, le)
    ensures be.regs == le.regs && be.cpsr == le.cpsr
  {
  }

  lemma AlikeExecute(be: State, le: State, i: Instr)
    requires Alike(be, le) && WellFormed(i) && TransfersWords(be, i)
    ensures AlikeOutcomes(Execute(be, i), Execute(le, i))
  {
    AlikeFields(be, le);
    hide Alike;
    if i.Transfer? {
      hide LoadStore, ConditionPassed;
      if ConditionPassed(be.Flags(), i.cond) {
        AlikeTransfer(be, le, i.load, i.rd, TransferAddress(be, i.up, i.rn, i.offset));
      }
    } else if Execute(be, i).Running? {
      AlikeProcessing(be, le, i);
    } else {
      hide ConditionPassed;
    }
  }

  lemma AlikeProcessing(be: State, le: State, i: Instr)
    requires Alike(be, le) && WellFormed(i) && !i.Transfer? && Execute(be, i).Running?
    ensures AlikeOutcomes(Execute(be, i), Execute(le, i))
  {
    AlikeFields(be, le);
    hide Alike, ConditionPassed, Result, FlagsAfter, WithFlags, Ror, ByImmediate, ByRegister, Bit;
    var st := Execute(be, i).st;
    AlikeRegisters(be, le, st.regs, st.cpsr);
  }

  lemma AlikeStep(be: State, le: State)
    requires Alike(be, le) && WordsOnly(be)
    ensures AlikeOutcomes(Step(be), Step(le))
  {
    AlikeFields(be, le);
    AlikeReads(be, le, be.Next());
    hide Alike, Execute, Decode, TransfersWords, Mem.ReadWord, DropBit1;
    var w := be.mem.ReadWord(be.Next());
    if !w.PastEnd? {
      AlikeRegisters(be, le, Fetched(be).regs, be.cpsr);
      AlikeExecute(Fetched(be), Fetched(le), Decode(Loaded(w)));
    }
  }

  /** Lock step for any number of steps: equal registers, flags and aligned words, or the same reason to stop. */
  lemma {:induction false} EndianLockStep(be: State, le: State, k: nat)
    requires Alike(be, le)
    requires forall j: nat | j < k :: Run(be, j).Running? ==> WordsOnly(Run(be, j).st)
    ensures AlikeOutcomes(Run(be, k), Run(le, k))
  {
    hide Alike, Step, WordsOnly;
    if k > 0 {
      EndianLockStep(be, le, k - 1);
      if Run(be, k - 1).Running? {
        AlikeStep(Run(be, k - 1).st, Run(le, k - 1).st);
      }
    }
  }

  /** The premise can be had by loading: the same words written to alike machines leave them alike. */
  lemma {:induction false} LoadingKeepsAlike(be: State, le: State, base: nat, words: seq<Word>)
    requires Alike(be, le) && base % 4 == 0 && base + 4 * |words| <= |be.mem.bytes|
    ensures Alike(be.(mem := Install(be.mem, base, words)), le.(mem := Install(le.mem, base, words)))
    decreases |words|
  {
    if words != [] {
      hide Alike, Dual, Mem.WriteWord;
      AlikeIsDual(be, le);
      DualStoreWord(be.mem, le.mem, base, words[0]);
      var be1, le1 := be.(mem := be.mem.WriteWord(base, words[0])), le.(mem := le.mem.WriteWord(base, words[0]));
      WriteWordFrame(be.mem, base, words[0]);
      AlikeIsDual(be1, le1);
      LoadingKeepsAlike(be1, le1, base + 4, words[1..]);
    }
  }

  /** Byte accesses are what tells the orders apart: LDRB at a reads in one memory what a XOR 3 holds in the other. */
  lemma ByteLoadsTellOrders(be: State, le: State, a: Word)
    requires Alike(be, le) && a < |be.mem.bytes|
    ensures be.mem.ReadByte(a) == le.mem.ReadByte(Across(a, B)) && Across(a, B) == Xor(a, 3) != a
  {
    AlikeIsDual(be, le);
    DualLoadByte(be.mem, le.mem, a);
    AcrossIsXor(a, B);
  }
}
