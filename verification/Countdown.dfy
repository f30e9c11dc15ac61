/** Examples/example1.s: a loop that calls a decrementing subroutine until the Z flag is set, for every
    start value and every load address. */
module Countdown {
  import opened Words
  import opened Status
  import opened Alu
  import opened Shifter
  import opened Machine
  import opened StoredProgram

  /** The assembled program; n is the immediate that main puts in r0. */
  function Program(n: Byte): (p: seq<Instr>)
    ensures |p| == 6 && Encodable(p)
  {
    [ Data(AL, SUB, true, 0, 0, Immediate(0, 1)),                   // decr: subs r0, r0, #1
      Data(AL, MOV, false, 0, PC, ShiftByImmediate(LSL, 0, LR)),    //       mov pc, lr
      Data(AL, MOV, false, 0, 0, Immediate(0, n)),                  // main: mov r0, #n
      Branch(AL, true, 0xFF_FFFB),                                  // loop: bl decr
      Branch(NE, false, 0xFF_FFFD),                                 //       bne loop
      Idle ]                                                        // end:  swi
  }

  const MAIN := 8
  const LOOP := 12
  const END := 20

  /** These are the words of the example's trace. */
  lemma {:induction false} ProgramWords(n: Byte)
    ensures Image(Program(n)) ==
            [0xE250_0001, 0xE1A0_F00E, 0xE3A0_0000 + n, 0xEBFF_FFFB, 0x1AFF_FFFD, 0xEF12_3456]
  {
    hide Encode, Join, EncodeOperand;
    EncodedSubs();
    EncodedReturn();
    EncodedMov(0, n);
    EncodedBranches();
  }

  lemma EncodedSubs()
    ensures Encode(Data(AL, SUB, true, 0, 0, Immediate(0, 1))) == 0xE250_0001
  {
  }

  lemma EncodedReturn()
    ensures Encode(Data(AL, MOV, false, 0, PC, ShiftByImmediate(LSL, 0, LR))) == 0xE1A0_F00E
  {
  }

  lemma EncodedMov(rd: Reg, n: Byte)
    ensures Encode(Data(AL, MOV, false, 0, rd, Immediate(0, n))) == 0xE3A0_0000 + 0x1000 * rd + n
  {
  }

  lemma EncodedBranches()
    ensures Encode(Branch(AL, true, 0xFF_FFFB)) == 0xEBFF_FFFB
    ensures Encode(Branch(NE, false, 0xFF_FFFD)) == 0x1AFF_FFFD
    ensures Encode(Idle) == 0xEF12_3456
  {
  }

  /** The program fits below 2^32, from an address a fetch can have. */
  predicate Placed(base: nat) {
    base + 24 < 0x1_0000_0000 && base % 4 < 2
  }

  /** The flags after SUBS r0, r0, #1. */
  function Decremented(st: State): State {
    var r := st.regs[0];
    st.(cpsr := WithFlags(st.cpsr, FlagsAfter(SUB, r, 1, st.Flags().c, st.Flags())),
        regs := st.regs[0 := Wrap(r as int - 1)])
  }

  lemma StepBl(n: Byte, base: nat, st: State)
    requires Placed(base) && st.Next() == base + LOOP
    ensures ListStep(Program(n), base, st) == Running(st.Write(LR, base + 16).Write(PC, base))
  {
    FetchMoves(st);
    AlwaysPasses(st.Flags());
    hide DropBit1, FlagsOf, ConditionPassed;
    var s := Fetched(st);
    assert Program(n)[3] == Branch(AL, true, 0xFF_FFFB);
    assert SignExtend24(0xFF_FFFB) == -5;
    assert s == st.Write(PC, base + 16) && s.Read(PC) == base + 20;
    assert s.Write(LR, base + 16).Write(PC, base) == st.Write(LR, base + 16).Write(PC, base);
  }

  lemma StepSubs(n: Byte, base: nat, st: State)
    requires Placed(base) && st.Next() == base
    ensures ListStep(Program(n), base, st) == Running(Decremented(st).Write(PC, base + 4))
  {
    hide FlagsAfter, WithFlags, Or, And, Xor, Bit, DropBit1;
    assert Program(n)[0] == Data(AL, SUB, true, 0, 0, Immediate(0, 1));
    assert Ror(1, 0) == 1;
    var s := Fetched(st);
    assert s.Flags() == st.Flags() && s.Read(0) == st.regs[0];
    assert s.Write(0, Wrap(st.regs[0] as int - 1)).regs == Decremented(st).Write(PC, base + 4).regs;
  }

  lemma StepReturn(n: Byte, base: nat, st: State)
    requires Placed(base) && st.Next() == base + 4
    ensures ListStep(Program(n), base, st) == Running(st.Write(PC, st.regs[LR]))
  {
    hide FlagsAfter, WithFlags, Or, And, Xor, Bit, DropBit1;
    assert Program(n)[1] == Data(AL, MOV, false, 0, PC, ShiftByImmediate(LSL, 0, LR));
    assert st.Write(PC, base + 8).Write(PC, st.regs[LR]) == st.Write(PC, st.regs[LR]);
  }

  lemma StepBne(n: Byte, base: nat, st: State)
    requires Placed(base) && st.Next() == base + 16
    ensures ListStep(Program(n), base, st) ==
            Running(st.Write(PC, if st.Flags().z then base + END else base + LOOP))
  {
    FetchMoves(st);
    hide Bit, DropBit1, FlagsOf, LoadStore, ExecuteData, OperandValue;
    assert Program(n)[4] == Branch(NE, false, 0xFF_FFFD);
    assert SignExtend24(0xFF_FFFD) == -3;
    assert Fetched(st).Read(PC) == base + 24;
    assert st.Write(PC, base + 20).Write(PC, base + 12) == st.Write(PC, base + 12);
  }

  /** One turn of the loop. */
  function Turn(base: nat, st: State): State
    requires Placed(base)
  {
    Decremented(st).Write(LR, base + 16).Write(PC, if st.regs[0] == 1 then base + END else base + LOOP)
  }

  /** Four steps make one turn, and `end` is not reached on the way. */
  lemma OneTurn(n: Byte, base: nat, st: State)
    requires Placed(base) && st.Next() == base + LOOP
    ensures ListRun(Program(n), base, st, 4) == Running(Turn(base, st))
    ensures forall j: nat | j < 4 :: ListRun(Program(n), base, st, j).Running?
                                     && ListRun(Program(n), base, st, j).st.Next() != base + END
  {
    hide ListStep, FlagsAfter, WithFlags, FlagsOf, DropBit1;
    var p := Program(n);
    var s1 := st.Write(LR, base + 16).Write(PC, base);
    var s2 := Decremented(s1).Write(PC, base + 4);
    var s3 := s2.Write(PC, base + 16);
    NextIsPc(s1);
    NextIsPc(s2);
    NextIsPc(s3);
    StepBl(n, base, st);
    StepSubs(n, base, s1);
    StepReturn(n, base, s2);
    StepBne(n, base, s3);
    DecrementZero(s1);
    assert s1.Flags() == st.Flags() && s1.regs[0] == st.regs[0];
    assert s3.Flags() == Decremented(s1).Flags();
    assert s3.Write(PC, if st.regs[0] == 1 then base + END else base + LOOP).regs == Turn(base, st).regs;
    assert ListRun(p, base, st, 0) == Running(st);
    hide ListRun;
    ListRunNext(p, base, st, 0, st, s1);
    ListRunNext(p, base, st, 1, s1, s2);
    ListRunNext(p, base, st, 2, s2, s3);
    ListRunNext(p, base, st, 3, s3, Turn(base, st));
  }

  lemma DecrementZero(st: State)
    ensures Decremented(st).Flags() == FlagsAfter(SUB, st.regs[0], 1, st.Flags().c, st.Flags())
    ensures Decremented(st).Flags().z <==> st.regs[0] == 1
    ensures st.regs[0] == 1 ==> Decremented(st).Flags() == Flags(false, true, true, false)
  {
    hide Bit, And, Or, Xor, WithFlags;
    FlagsRoundTrip(st.cpsr, FlagsAfter(SUB, st.regs[0], 1, st.Flags().c, st.Flags()), 0);
  }

  /** The machine state when `end` is reached. */
  function Finished(base: nat, st: State): State
    requires Placed(base)
  {
    st.Write(0, 0).Write(LR, base + 16).Write(PC, base + END)
      .(cpsr := WithFlags(st.cpsr, Flags(false, true, true, false)))
  }

  /** 0 counts as 2^32. */
  function Turns(r0: Word): nat {
    if r0 == 0 then 0x1_0000_0000 else r0
  }

  lemma {:induction false} LoopOnList(n: Byte, base: nat, st: State, turns: nat)
    requires Placed(base) && st.Next() == base + LOOP && turns == Turns(st.regs[0])
    ensures ListRun(Program(n), base, st, 4 * turns) == Running(Finished(base, st))
    ensures forall j: nat | j < 4 * turns :: ListRun(Program(n), base, st, j).Running?
                                             && ListRun(Program(n), base, st, j).st.Next() != base + END
    decreases turns
  {
    hide ListRun, FlagsAfter, WithFlags, FlagsOf, DropBit1;
    var p := Program(n);
    OneTurn(n, base, st);
    if turns == 1 {
      DecrementZero(st);
      assert Turn(base, st).regs == Finished(base, st).regs;
    } else {
      var t := Turn(base, st);
      NextIsPc(t);
      assert Turns(t.regs[0]) == turns - 1;
      LoopOnList(n, base, t, turns - 1);
      WithFlagsTwice(st.cpsr, FlagsAfter(SUB, st.regs[0], 1, st.Flags().c, st.Flags()), Flags(false, true, true, false));
      assert Finished(base, t).regs == Finished(base, st).regs;
      assert 4 + 4 * (turns - 1) == 4 * turns;
      ListRunAdd(p, base, st, 4, 4 * (turns - 1));
      forall j: nat | 4 <= j < 4 * turns
        ensures ListRun(p, base, st, j).Running? && ListRun(p, base, st, j).st.Next() != base + END
      {
        ListRunAdd(p, base, st, 4, j - 4);
        assert j - 4 < 4 * (turns - 1);
      }
    }
  }

  /** No instruction of the program stores. */
  lemma SparesItself(n: Byte, base: nat, st: State, k: nat)
    ensures RunSparesCode(Program(n), base, st, k)
  {
    hide ListRun, Fetched;
    assert forall i | 0 <= i < 6 :: !Program(n)[i].Transfer?;
  }

  /** For k steps the machine runs without being at `end`. */
  predicate EndNotReached(base: nat, st: State, k: nat) {
    forall j: nat | j < k :: Run(st, j).Running? && Run(st, j).st.Next() != base + END
  }

  lemma EndNotReachedFrom(base: nat, st: State, s: State, k: nat)
    requires Run(st, 1) == Running(s) && st.Next() != base + END && EndNotReached(base, s, k)
    ensures EndNotReached(base, st, 1 + k)
  {
    RunZero(st);
    hide Run, DropBit1;
    forall j: nat | j < 1 + k
      ensures Run(st, j).Running? && Run(st, j).st.Next() != base + END
    {
      if j > 0 {
        RunFrom(st, 1, s, j - 1);
      }
    }
  }

  /** Total correctness of the stored program, in either byte order: from `loop` it first reaches `end` after
      exactly four steps a turn, with r0 = 0, Z and C set, N and V clear, LR at the BNE and the memory as it was. */
  lemma {:induction false} CountdownTerminates(n: Byte, base: nat, st: State)
    requires Placed(base) && CodeAt(st.mem, base, Image(Program(n)))
    requires st.Next() == base + LOOP
    ensures Run(st, 4 * Turns(st.regs[0])) == Running(Finished(base, st))
    ensures EndNotReached(base, st, 4 * Turns(st.regs[0]))
  {
    hide ListRun, Run, RunSparesCode, CodeAt;
    var turns := Turns(st.regs[0]);
    LoopOnList(n, base, st, turns);
    SparesItself(n, base, st, 4 * turns);
    StoredProgramRefines(Program(n), base, st, 4 * turns);
    forall j: nat | j < 4 * turns
      ensures Run(st, j).Running? && Run(st, j).st.Next() != base + END
    {
      SparesItself(n, base, st, j);
      StoredProgramRefines(Program(n), base, st, j);
    }
  }

  /** From `main`, with any immediate: `end` is first reached one step later, in the final state of the loop
      started at r0 = n. */
  lemma MainTerminates(n: Byte, base: nat, st: State)
    requires Placed(base) && CodeAt(st.mem, base, Image(Program(n)))
    requires st.Next() == base + MAIN
    ensures Run(st, 1 + 4 * Turns(n)) == Running(Finished(base, st))
    ensures EndNotReached(base, st, 1 + 4 * Turns(n))
  {
    hide Run, RunSparesCode, CodeAt, WithFlags, FlagsOf, DropBit1, EndNotReached, Finished;
    var s := st.Write(0, n).Write(PC, base + LOOP);
    NextIsPc(s);
    MainStep(n, base, st);
    CountdownTerminates(n, base, s);
    RunFrom(st, 1, s, 4 * Turns(n));
    EndNotReachedFrom(base, st, s, 4 * Turns(n));
    SameFinish(n, base, st);
  }

  lemma SameFinish(n: Byte, base: nat, st: State)
    requires Placed(base)
    ensures Finished(base, st.Write(0, n).Write(PC, base + LOOP)) == Finished(base, st)
  {
    hide WithFlags;
    assert Finished(base, st.Write(0, n).Write(PC, base + LOOP)).regs == Finished(base, st).regs;
  }

  lemma MainStep(n: Byte, base: nat, st: State)
    requires Placed(base) && CodeAt(st.mem, base, Image(Program(n)))
    requires st.Next() == base + MAIN
    ensures Run(st, 1) == Running(st.Write(0, n).Write(PC, base + LOOP))
  {
    hide ListStep, RunSparesCode, CodeAt;
    StepMain(n, base, st);
    assert ListRun(Program(n), base, st, 0) == Running(st);
    SparesItself(n, base, st, 1);
    StoredProgramRefines(Program(n), base, st, 1);
  }

  lemma StepMain(n: Byte, base: nat, st: State)
    requires Placed(base) && st.Next() == base + MAIN
    ensures ListStep(Program(n), base, st) == Running(st.Write(0, n).Write(PC, base + LOOP))
  {
    hide FlagsAfter, WithFlags, Or, And, Xor, Bit, DropBit1;
    assert Program(n)[2] == Data(AL, MOV, false, 0, 0, Immediate(0, n));
    assert st.Write(PC, base + 12).Write(0, n).regs == st.Write(0, n).Write(PC, base + LOOP).regs;
  }
}
