/** Examples/example2.s: bytes shifted and added into a register, stored as a word and read back as bytes. */
module BytePacking {
  import opened Words
  import opened Memory
  import opened Status
  import opened Alu
  import opened Shifter
  import opened Machine
  import opened StoredProgram

  function Base256(bs: seq<Byte>): nat {
    if bs == [] then 0 else 0x100 * Base256(bs[..|bs| - 1]) + bs[|bs| - 1]
  }

  function Mov(rd: Reg, b: Byte): Instr {
    Data(AL, MOV, false, 0, rd, Immediate(0, b))
  }

  /** add r0, r1, r0, lsl #8 */
  const SHIFT_IN: Instr := Data(AL, ADD, false, 1, 0, ShiftByImmediate(LSL, 8, 0))

  /** mov r0, #first, then for every further byte mov r1, #byte and the shifted add. */
  function Fold(bs: seq<Byte>): (p: seq<Instr>)
    requires bs != []
    ensures |p| == 2 * |bs| - 1 && Encodable(p)
  {
    if |bs| == 1 then [Mov(0, bs[0])]
    else Fold(bs[..|bs| - 1]) + [Mov(1, bs[|bs| - 1]), SHIFT_IN]
  }

  /** mov r1, #0x2000; str r0, [r1]; ldrb r2, [r1]; add r1, r1, #3; ldrb r3, [r1]; swi */
  const TAIL: seq<Instr> :=
    [ Data(AL, MOV, false, 0, 1, Immediate(10, 2)),
      Transfer(AL, false, false, true, 1, 0, 0),
      Transfer(AL, true, true, true, 1, 2, 0),
      Data(AL, ADD, false, 1, 1, Immediate(0, 3)),
      Transfer(AL, true, true, true, 1, 3, 0),
      Idle ]

  function Program(bs: seq<Byte>): (p: seq<Instr>)
    requires bs != []
    ensures |p| == 2 * |bs| + 5 && Encodable(p)
  {
    var f, t := Fold(bs), TAIL;
    assert Encodable(t);
    f + t
  }

  /** On the bytes of the example these are the words of its trace. */
  lemma {:induction false} ExampleWords()
    ensures Image(Program([0x12, 0x34, 0x56, 0x78])) ==
            [0xE3A0_0012, 0xE3A0_1034, 0xE081_0400, 0xE3A0_1056, 0xE081_0400, 0xE3A0_1078, 0xE081_0400,
             0xE3A0_1A02, 0xE581_0000, 0xE5D1_2000, 0xE281_1003, 0xE5D1_3000, 0xEF12_3456]
  {
    ExampleFold();
    EncodedFold();
    EncodedTail();
    hide Encode, Fold, Mov;
  }

  lemma ExampleFold()
    ensures Fold([0x12, 0x34, 0x56, 0x78]) ==
            [Mov(0, 0x12), Mov(1, 0x34), SHIFT_IN, Mov(1, 0x56), SHIFT_IN, Mov(1, 0x78), SHIFT_IN]
  {
    hide Mov, Encodable;
    assert [0x12, 0x34, 0x56, 0x78][..3] == [0x12, 0x34, 0x56];
    assert [0x12, 0x34, 0x56][..2] == [0x12, 0x34];
    assert [0x12, 0x34][..1] == [0x12];
    assert Fold([0x12]) == [Mov(0, 0x12)];
    assert Fold([0x12, 0x34]) == [Mov(0, 0x12), Mov(1, 0x34), SHIFT_IN];
  }

  lemma EncodedFold()
    ensures Encode(SHIFT_IN) == 0xE081_0400
    ensures Encode(Mov(0, 0x12)) == 0xE3A0_0012 && Encode(Mov(1, 0x34)) == 0xE3A0_1034
    ensures Encode(Mov(1, 0x56)) == 0xE3A0_1056 && Encode(Mov(1, 0x78)) == 0xE3A0_1078
  {
  }

  lemma EncodedTail()
    ensures Encode(TAIL[0]) == 0xE3A0_1A02 && Encode(TAIL[1]) == 0xE581_0000 && Encode(TAIL[2]) == 0xE5D1_2000
    ensures Encode(TAIL[3]) == 0xE281_1003 && Encode(TAIL[4]) == 0xE5D1_3000 && Encode(TAIL[5]) == 0xEF12_3456
  {
  }

  // ---------------------------------------------------------------- the fold

  /** The state after folding bs in: r1 is used from the second byte on. */
  function Folded(base: nat, st: State, bs: seq<Byte>): State
    requires bs != [] && base + 4 * (2 * |bs| - 1) < 0x1_0000_0000
  {
    st.Write(0, Wrap(Base256(bs)))
      .Write(1, if |bs| == 1 then st.regs[1] else bs[|bs| - 1])
      .Write(PC, base + 4 * (2 * |bs| - 1))
  }

  lemma StepMov(p: seq<Instr>, base: nat, st: State, j: nat, rd: Reg, b: Byte)
    requires Encodable(p) && base + 4 * |p| < 0x1_0000_0000
    requires j < |p| && st.Next() == base + 4 * j && p[j] == Mov(rd, b) && rd != PC
    ensures ListStep(p, base, st) == Running(st.Write(rd, b).Write(PC, base + 4 * (j + 1)))
  {
    RorZero(b);
    hide Ror, And, Xor, Bit, WithFlags, FlagsAfter, DropBit1;
    assert Fetched(st).Write(rd, b).regs == st.Write(rd, b).Write(PC, base + 4 * (j + 1)).regs;
  }

  lemma StepShiftIn(p: seq<Instr>, base: nat, st: State, j: nat)
    requires Encodable(p) && base + 4 * |p| < 0x1_0000_0000
    requires j < |p| && st.Next() == base + 4 * j && p[j] == SHIFT_IN
    ensures ListStep(p, base, st) ==
            Running(st.Write(0, ShiftedIn(st.regs[1], st.regs[0])).Write(PC, base + 4 * (j + 1)))
  {
    hide Or, And, Xor, Bit, WithFlags, FlagsAfter, DropBit1;
    assert Pow2(8) == 0x100;
    hide Pow2;
    var r0, r1 := st.regs[0], st.regs[1];
    WrapAdd(r1, 0x100 * (r0 as int));
    assert Wrap(r0 as int * 0x100) == Wrap(0x100 * (r0 as int));
    assert Fetched(st).Write(0, ShiftedIn(r1, r0)).regs == st.Write(0, ShiftedIn(r1, r0)).Write(PC, base + 4 * (j + 1)).regs;
  }

  function ShiftedIn(r1: Word, r0: Word): Word {
    Wrap(r1 as int + 0x100 * (r0 as int))
  }

  lemma ShiftedInValue(b: Byte, v: nat)
    ensures ShiftedIn(b, Wrap(v)) == Wrap(0x100 * v + b)
  {
    var q := v / 0x1_0000_0000;
    assert 0x100 * v + b == 0x1_0000_0000 * (0x100 * q) + (b + 0x100 * Wrap(v) as int);
  }

  /** For n steps from st, which starts at instruction number `at`, the PC moves by one instruction a step. */
  predicate Paced(p: seq<Instr>, base: nat, st: State, at: nat, n: nat)
    requires Encodable(p)
  {
    forall k: nat | k <= n :: ListRun(p, base, st, k).Running? && ListRun(p, base, st, k).st.Next() == base + 4 * (at + k)
  }

  lemma PacedJoin(p: seq<Instr>, base: nat, st: State, j: nat, s: State, n: nat)
    requires Encodable(p) && ListRun(p, base, st, j) == Running(s)
    requires Paced(p, base, st, 0, j) && Paced(p, base, s, j, n)
    ensures Paced(p, base, st, 0, j + n)
  {
    hide ListRun;
    forall i: nat | i <= j + n
      ensures ListRun(p, base, st, i).Running? && ListRun(p, base, st, i).st.Next() == base + 4 * (0 + i)
    {
      if i >= j {
        ListRunFrom(p, base, st, j, s, i - j);
        assert ListRun(p, base, s, i - j).st.Next() == base + 4 * (j + (i - j));
      } else {
        assert ListRun(p, base, st, i).st.Next() == base + 4 * (0 + i);
      }
    }
  }

  lemma PacedTwo(p: seq<Instr>, base: nat, s0: State, at: nat, s1: State, s2: State)
    requires Encodable(p)
    requires s0.Next() == base + 4 * at && ListStep(p, base, s0) == Running(s1)
    requires s1.Next() == base + 4 * (at + 1) && ListStep(p, base, s1) == Running(s2)
    requires s2.Next() == base + 4 * (at + 2)
    ensures ListRun(p, base, s0, 2) == Running(s2) && Paced(p, base, s0, at, 2)
  {
    hide ListStep;
    assert ListRun(p, base, s0, 0) == Running(s0);
    assert ListRun(p, base, s0, 1) == Running(s1);
  }

  /** Folding any bytes leaves their base-256 value modulo 2^32 in r0. */
  lemma {:induction false} FoldRuns(p: seq<Instr>, base: nat, st: State, bs: seq<Byte>)
    requires bs != [] && Encodable(p) && base + 4 * |p| < 0x1_0000_0000
    requires Fold(bs) <= p && st.Next() == base
    ensures ListRun(p, base, st, 2 * |bs| - 1) == Running(Folded(base, st, bs))
    ensures Paced(p, base, st, 0, 2 * |bs| - 1)
  {
    hide ListStep, ListRun, Paced, Encodable, DropBit1, Fold, Folded, Base256, Mov;
    var n := |bs|;
    NextBit1(st);
    if n == 1 {
      FoldFirst(p, base, st, bs);
    } else {
      var init := bs[..n - 1];
      PrefixOfFold(p, bs);
      FoldRuns(p, base, st, init);
      FoldOneMore(p, base, st, bs);
      PacedJoin(p, base, st, 2 * n - 3, Folded(base, st, init), 2);
      ListRunFrom(p, base, st, 2 * n - 3, Folded(base, st, init), 2);
    }
  }

  lemma FoldFirst(p: seq<Instr>, base: nat, st: State, bs: seq<Byte>)
    requires |bs| == 1 && Fold(bs) <= p && Encodable(p) && base + 4 * |p| < 0x1_0000_0000
    requires st.Next() == base
    ensures ListRun(p, base, st, |bs|) == Running(Folded(base, st, bs)) && Paced(p, base, st, 0, |bs|)
  {
    hide ListStep, ListRun, Encodable, DropBit1, Fold, Folded, Base256;
    FoldFirstStep(p, base, st, bs);
    ListRunZero(p, base, st);
    ListRunNext(p, base, st, 0, st, Folded(base, st, bs));
  }

  lemma FoldFirstStep(p: seq<Instr>, base: nat, st: State, bs: seq<Byte>)
    requires |bs| == 1 && Fold(bs) <= p && Encodable(p) && base + 4 * |p| < 0x1_0000_0000
    requires st.Next() == base
    ensures ListStep(p, base, st) == Running(Folded(base, st, bs)) && Folded(base, st, bs).Next() == base + 4
  {
    hide ListStep, Encodable, Wrap, DropBit1, Mov, Fold;
    FoldOfOne(bs);
    NextBit1(st);
    OneByte(bs);
    hide Base256;
    NextIsPc(Folded(base, st, bs));
    assert p[0] == Fold(bs)[0];
    StepMov(p, base, st, 0, 0, bs[0]);
    assert st.Write(0, bs[0]).Write(PC, base + 4).regs == Folded(base, st, bs).regs;
  }

  lemma FoldOfOne(bs: seq<Byte>)
    requires |bs| == 1
    ensures Fold(bs) == [Mov(0, bs[0])]
  {
    hide Mov, Encodable;
  }

  lemma PrefixOfFold(p: seq<Instr>, bs: seq<Byte>)
    requires |bs| > 1 && Fold(bs) <= p
    ensures Fold(bs[..|bs| - 1]) <= p && p[2 * |bs| - 3] == Mov(1, bs[|bs| - 1]) && p[2 * |bs| - 2] == SHIFT_IN
  {
    PrefixParts(p, Fold(bs[..|bs| - 1]), Mov(1, bs[|bs| - 1]), SHIFT_IN);
  }

  lemma PrefixParts(p: seq<Instr>, f: seq<Instr>, x: Instr, y: Instr)
    requires f + [x, y] <= p
    ensures f <= p && p[|f|] == x && p[|f| + 1] == y
  {
    assert (f + [x, y])[..|f|] == f;
    assert p[|f|] == (f + [x, y])[|f|] && p[|f| + 1] == (f + [x, y])[|f| + 1];
  }

  lemma FoldOneMore(p: seq<Instr>, base: nat, st: State, bs: seq<Byte>)
    requires |bs| > 1 && Encodable(p) && base % 4 < 2 && base + 4 * |p| < 0x1_0000_0000 && 2 * |bs| - 1 <= |p|
    requires p[2 * |bs| - 3] == Mov(1, bs[|bs| - 1]) && p[2 * |bs| - 2] == SHIFT_IN
    ensures var s0 := Folded(base, st, bs[..|bs| - 1]);
            && ListRun(p, base, s0, 2) == Running(Folded(base, st, bs))
            && Paced(p, base, s0, 2 * |bs| - 3, 2)
  {
    hide ListStep, ListRun, Paced, Encodable, Wrap, Mov, DropBit1;
    var init, b, j := bs[..|bs| - 1], bs[|bs| - 1], 2 * |bs| - 3;
    var s0 := Folded(base, st, init);
    var s1 := s0.Write(1, b).Write(PC, base + 4 * (j + 1));
    var s2 := Folded(base, st, bs);
    NextIsPc(s0);
    NextIsPc(s1);
    NextIsPc(s2);
    StepMov(p, base, s0, j, 1, b);
    StepShiftIn(p, base, s1, j + 1);
    ShiftedInValue(b, Base256(init));
    assert s1.Write(0, ShiftedIn(b, s1.regs[0])).Write(PC, base + 4 * (j + 2)).regs == s2.regs;
    PacedTwo(p, base, s0, j, s1, s2);
  }

  lemma OneByte(bs: seq<Byte>)
    requires |bs| == 1
    ensures Base256(bs) == bs[0] && Wrap(Base256(bs)) == bs[0]
  {
    assert Base256(bs[..0]) == 0;
  }

  // ---------------------------------------------------------------- the bytes of the stored word

  /** Byte k of the sequence counted from its end, 0 beyond its start. */
  function FromEnd(bs: seq<Byte>, k: nat): Byte {
    if k < |bs| then bs[|bs| - 1 - k] else 0
  }

  function DropLast(bs: seq<Byte>): seq<Byte> {
    if bs == [] then [] else bs[..|bs| - 1]
  }

  lemma LastDigit(bs: seq<Byte>, k: nat)
    ensures Base256(bs) == 0x100 * Base256(DropLast(bs)) + FromEnd(bs, 0)
    ensures FromEnd(DropLast(bs), k) == FromEnd(bs, k + 1)
  {
  }

  lemma LowWord(bs: seq<Byte>)
    ensures Wrap(Base256(bs)) ==
            FromEnd(bs, 0) + 0x100 * FromEnd(bs, 1) + 0x1_0000 * FromEnd(bs, 2) + 0x100_0000 * FromEnd(bs, 3)
  {
    hide Base256, DropLast, FromEnd;
    var c1 := DropLast(bs);
    var c2 := DropLast(c1);
    var c3 := DropLast(c2);
    LastDigit(bs, 0);
    LastDigit(c1, 0);
    LastDigit(c2, 0);
    LastDigit(c3, 0);
    LastDigit(bs, 1);
    LastDigit(c1, 1);
    LastDigit(bs, 2);
    var rest := Base256(DropLast(c3));
    DivUnique(Base256(bs), 0x1_0000_0000, rest,
              FromEnd(bs, 0) + 0x100 * FromEnd(bs, 1) + 0x1_0000 * FromEnd(bs, 2) + 0x100_0000 * FromEnd(bs, 3));
  }

  /** The packed word stored and read back byte by byte: the last four bytes in order from a big-endian memory,
      reversed from a little-endian one. */
  lemma PackedBytesReadBack(m: Mem, a: Word, bs: seq<Byte>, i: nat)
    requires m.Holds(a, 4) && |m.bytes| < 0x1_0000_0000 && i < 4
    ensures m.WriteWord(a, Wrap(Base256(bs))).ReadByte(a + i) == Value(FromEnd(bs, if m.flag == 1 then 3 - i else i))
  {
    hide Base256, FromEnd;
    LowWord(bs);
    ValueDigits(FromEnd(bs, 0), FromEnd(bs, 1), FromEnd(bs, 2), FromEnd(bs, 3));
  }

  lemma ValueDigits(b0: Byte, b1: Byte, b2: Byte, b3: Byte)
    ensures var v := JoinWord(b0, b1, b2, b3);
            v % 0x100 == b0 && v / 0x100 % 0x100 == b1 && v / 0x1_0000 % 0x100 == b2 && v / 0x100_0000 == b3
  {
    hide JoinWord;
    var v := JoinWord(b0, b1, b2, b3);
    assert v / 0x100 == b1 + 0x100 * (b2 as int) + 0x1_0000 * (b3 as int);
    assert v / 0x1_0000 == b2 + 0x100 * (b3 as int);
  }

  // ---------------------------------------------------------------- the whole example

  const CELL: Word := 0x2000

  /** The program is where fetches can reach it and leaves room for the cell it stores to. */
  predicate Placed(base: nat, bs: seq<Byte>)
    requires bs != []
  {
    && base % 4 < 2 && base + 4 * |Program(bs)| < 0x1_0000_0000
    && (base + 4 * |Program(bs)| <= CELL || CELL + 4 <= base)
  }

  /** Where the tail leaves the machine. */
  function Packed(base: nat, st: State, bs: seq<Byte>): State
    requires bs != [] && Placed(base, bs) && st.mem.Holds(CELL, 4)
  {
    var m := st.mem.WriteWord(CELL, Wrap(Base256(bs)));
    var big := st.mem.flag == 1;
    Folded(base, st, bs)
      .(mem := m)
      .Write(1, CELL + 3)
      .Write(2, FromEnd(bs, if big then 3 else 0))
      .Write(3, FromEnd(bs, if big then 0 else 3))
      .Write(PC, base + 4 * (2 * |bs| + 4))
  }

  lemma StepSetCell(p: seq<Instr>, base: nat, st: State, j: nat)
    requires Encodable(p) && base + 4 * |p| < 0x1_0000_0000
    requires j < |p| && st.Next() == base + 4 * j && p[j] == TAIL[0]
    ensures ListStep(p, base, st) == Running(st.Write(1, CELL).Write(PC, base + 4 * (j + 1)))
  {
    hide Or, And, Xor, WithFlags, FlagsAfter, Ror, Bit, DropBit1;
    RotatedCell();
    assert Fetched(st).Write(1, CELL).regs == st.Write(1, CELL).Write(PC, base + 4 * (j + 1)).regs;
  }

  lemma RotatedCell()
    ensures Ror(2, 20) == CELL
  {
    RorSwaps(2, 20);
    assert Pow2(20) == 0x10_0000 && Pow2(12) == 0x1000;
  }

  lemma StepStore(p: seq<Instr>, base: nat, st: State, j: nat)
    requires Encodable(p) && base + 4 * |p| < 0x1_0000_0000
    requires j < |p| && st.Next() == base + 4 * j && p[j] == TAIL[1]
    requires st.regs[1] == CELL && st.mem.Holds(CELL, 4)
    ensures ListStep(p, base, st) ==
            Running(st.(mem := st.mem.WriteWord(CELL, st.regs[0])).Write(PC, base + 4 * (j + 1)))
  {
    hide Mem.WriteWord, FlagsOf, DropBit1;
    assert Fetched(st).Read(1) == CELL && Fetched(st).Read(0) == st.regs[0];
  }

  lemma StepLoadByte(p: seq<Instr>, base: nat, st: State, j: nat, rd: Reg, b: Byte)
    requires Encodable(p) && base + 4 * |p| < 0x1_0000_0000 && rd != PC
    requires j < |p| && st.Next() == base + 4 * j && p[j] == Transfer(AL, true, true, true, 1, rd, 0)
    requires st.mem.ReadByte(st.regs[1]) == Value(b)
    ensures ListStep(p, base, st) == Running(st.Write(rd, b).Write(PC, base + 4 * (j + 1)))
  {
    hide Mem.ReadByte, FlagsOf, DropBit1;
    assert Fetched(st).Read(1) == st.regs[1];
    assert Fetched(st).Write(rd, b).regs == st.Write(rd, b).Write(PC, base + 4 * (j + 1)).regs;
  }

  lemma StepNextByte(p: seq<Instr>, base: nat, st: State, j: nat)
    requires Encodable(p) && base + 4 * |p| < 0x1_0000_0000
    requires j < |p| && st.Next() == base + 4 * j && p[j] == TAIL[3] && st.regs[1] == CELL
    ensures ListStep(p, base, st) == Running(st.Write(1, CELL + 3).Write(PC, base + 4 * (j + 1)))
  {
    hide Or, And, Xor, Bit, WithFlags, FlagsAfter, DropBit1;
    assert Fetched(st).Write(1, CELL + 3).regs == st.Write(1, CELL + 3).Write(PC, base + 4 * (j + 1)).regs;
  }

  /** After the store. */
  function Stored(base: nat, st: State, bs: seq<Byte>): State
    requires bs != [] && Placed(base, bs) && st.mem.Holds(CELL, 4)
  {
    Folded(base, st, bs).Write(1, CELL)
      .(mem := st.mem.WriteWord(CELL, Wrap(Base256(bs)))).Write(PC, base + 4 * (2 * |bs| + 1))
  }

  lemma StoreRuns(base: nat, st: State, bs: seq<Byte>)
    requires bs != [] && Placed(base, bs) && st.mem.Holds(CELL, 4)
    ensures var p, t := Program(bs), 2 * |bs| - 1;
            var s0 := Folded(base, st, bs);
            && ListRun(p, base, s0, 2) == Running(Stored(base, st, bs))
            && Paced(p, base, s0, t, 2)
            && ListRun(p, base, s0, 1).Running? && ListRun(p, base, s0, 1).st.regs[1] == CELL
  {
    hide ListStep, Paced, Encodable, Base256, Fold, Mem.WriteWord, Wrap, DropBit1;
    var p, t := Program(bs), 2 * |bs| - 1;
    var s0 := Folded(base, st, bs);
    var s1 := s0.Write(1, CELL).Write(PC, base + 4 * (t + 1));
    var s2 := s1.(mem := st.mem.WriteWord(CELL, s1.regs[0])).Write(PC, base + 4 * (t + 2));
    assert p[t] == TAIL[0] && p[t + 1] == TAIL[1];
    NextIsPc(s0);
    NextIsPc(s1);
    NextIsPc(s2);
    StepSetCell(p, base, s0, t);
    StepStore(p, base, s1, t + 1);
    assert s2.regs == Stored(base, st, bs).regs;
    ListRunZero(p, base, s0);
    hide ListRun;
    PacedTwo(p, base, s0, t, s1, s2);
    ListRunNext(p, base, s0, 0, s0, s1);
  }

  /** ldrb r2, [r1]; add r1, r1, #3; ldrb r3, [r1] from position j. */
  lemma LoadsFrom(p: seq<Instr>, base: nat, st: State, j: nat, x: Byte, y: Byte)
    requires Encodable(p) && base + 4 * |p| < 0x1_0000_0000
    requires j + 3 <= |p| && p[j] == TAIL[2] && p[j + 1] == TAIL[3] && p[j + 2] == TAIL[4]
    requires st.Next() == base + 4 * j && st.regs[1] == CELL
    requires st.mem.ReadByte(CELL) == Value(x) && st.mem.ReadByte(CELL + 3) == Value(y)
    ensures ListRun(p, base, st, 3) ==
            Running(st.Write(1, CELL + 3).Write(2, x).Write(3, y).Write(PC, base + 4 * (j + 3)))
    ensures Paced(p, base, st, j, 3)
  {
    NextBit1(st);
    hide ListStep, Encodable, Mem.ReadByte, DropBit1;
    var s1 := st.Write(2, x).Write(PC, base + 4 * (j + 1));
    var s2 := s1.Write(1, CELL + 3).Write(PC, base + 4 * (j + 2));
    var s3 := s2.Write(3, y).Write(PC, base + 4 * (j + 3));
    NextIsPc(s1);
    NextIsPc(s2);
    NextIsPc(s3);
    StepLoadByte(p, base, st, j, 2, x);
    StepNextByte(p, base, s1, j + 1);
    StepLoadByte(p, base, s2, j + 2, 3, y);
    assert ListRun(p, base, st, 0) == Running(st);
    hide ListRun;
    ListRunNext(p, base, st, 0, st, s1);
    ListRunNext(p, base, st, 1, s1, s2);
    ListRunNext(p, base, st, 2, s2, s3);
    assert s3.regs == st.Write(1, CELL + 3).Write(2, x).Write(3, y).Write(PC, base + 4 * (j + 3)).regs;
  }

  lemma LoadsRun(base: nat, st: State, bs: seq<Byte>)
    requires bs != [] && Placed(base, bs) && st.mem.Holds(CELL, 4) && |st.mem.bytes| < 0x1_0000_0000
    ensures var p, s := Program(bs), Stored(base, st, bs);
            ListRun(p, base, s, 3) == Running(Packed(base, st, bs)) && Paced(p, base, s, 2 * |bs| + 1, 3)
  {
    hide ListRun, Paced, Encodable, Base256, FromEnd, Fold, Mem.WriteWord, Mem.ReadByte, Wrap;
    var p, t := Program(bs), 2 * |bs| - 1;
    var big := st.mem.flag == 1;
    StoredReads(base, st, bs);
    PackedFromStored(base, st, bs);
    hide Stored, Packed;
    assert p[t + 2] == TAIL[2] && p[t + 3] == TAIL[3] && p[t + 4] == TAIL[4];
    LoadsFrom(p, base, Stored(base, st, bs), t + 2,
              FromEnd(bs, if big then 3 else 0), FromEnd(bs, if big then 0 else 3));
  }

  lemma StoredReads(base: nat, st: State, bs: seq<Byte>)
    requires bs != [] && Placed(base, bs) && st.mem.Holds(CELL, 4) && |st.mem.bytes| < 0x1_0000_0000
    ensures var s, big := Stored(base, st, bs), st.mem.flag == 1;
            && s.Next() == base + 4 * (2 * |bs| + 1) && s.regs[1] == CELL
            && s.mem.ReadByte(CELL) == Value(FromEnd(bs, if big then 3 else 0))
            && s.mem.ReadByte(CELL + 3) == Value(FromEnd(bs, if big then 0 else 3))
  {
    hide Base256, FromEnd, Fold, Mem.WriteWord, Mem.ReadByte, Wrap, DropBit1;
    NextIsPc(Stored(base, st, bs));
    PackedBytesReadBack(st.mem, CELL, bs, 0);
    PackedBytesReadBack(st.mem, CELL, bs, 3);
  }

  lemma PackedFromStored(base: nat, st: State, bs: seq<Byte>)
    requires bs != [] && Placed(base, bs) && st.mem.Holds(CELL, 4)
    ensures var big := st.mem.flag == 1;
            Packed(base, st, bs) == Stored(base, st, bs)
              .Write(1, CELL + 3)
              .Write(2, FromEnd(bs, if big then 3 else 0))
              .Write(3, FromEnd(bs, if big then 0 else 3))
              .Write(PC, base + 4 * (2 * |bs| + 4))
  {
    hide Base256, FromEnd, Fold, Mem.WriteWord, Wrap;
    var big := st.mem.flag == 1;
    assert Packed(base, st, bs).regs == Stored(base, st, bs)
      .Write(1, CELL + 3)
      .Write(2, FromEnd(bs, if big then 3 else 0))
      .Write(3, FromEnd(bs, if big then 0 else 3))
      .Write(PC, base + 4 * (2 * |bs| + 4)).regs;
  }

  lemma TailRuns(base: nat, st: State, bs: seq<Byte>)
    requires bs != [] && Placed(base, bs) && st.mem.Holds(CELL, 4) && |st.mem.bytes| < 0x1_0000_0000
    requires st.Next() == base
    ensures var p, t := Program(bs), 2 * |bs| - 1;
            && ListRun(p, base, st, t + 5) == Running(Packed(base, st, bs))
            && Paced(p, base, st, 0, t + 5)
            && ListRun(p, base, st, t + 1).Running? && ListRun(p, base, st, t + 1).st.regs[1] == CELL
  {
    var p, t := Program(bs), 2 * |bs| - 1;
    assert Fold(bs) <= p;
    hide ListRun, Paced, Program, Stored, Packed, Folded, Fold;
    var s0, s2 := Folded(base, st, bs), Stored(base, st, bs);
    FoldRuns(p, base, st, bs);
    StoreRuns(base, st, bs);
    LoadsRun(base, st, bs);
    ListRunFrom(p, base, st, t, s0, 1);
    ListRunFrom(p, base, st, t, s0, 2);
    ListRunFrom(p, base, st, t + 2, s2, 3);
    PacedJoin(p, base, st, t, s0, 2);
    PacedJoin(p, base, st, t + 2, s2, 3);
  }

  lemma {:induction false} FoldNeverStores(bs: seq<Byte>)
    requires bs != []
    ensures forall i | i in Fold(bs) :: i.Data?
  {
    if |bs| > 1 { FoldNeverStores(bs[..|bs| - 1]); }
  }

  lemma RunSparesProgram(base: nat, st: State, bs: seq<Byte>)
    requires bs != [] && Placed(base, bs) && st.mem.Holds(CELL, 4) && |st.mem.bytes| < 0x1_0000_0000
    requires st.Next() == base
    ensures RunSparesCode(Program(bs), base, st, 2 * |bs| + 4)
  {
    hide ListRun, SparesCode, Program, Fetched;
    var p := Program(bs);
    forall j: nat | j < 2 * |bs| + 4
      ensures var o := ListRun(p, base, st, j);
              o.Running? && Inside(p, base, o.st.Next()) ==>
                SparesCode(Fetched(o.st), p[(o.st.Next() - base) / 4], base, |p|)
    {
      SparesStep(base, st, bs, j);
    }
  }

  lemma SparesStep(base: nat, st: State, bs: seq<Byte>, j: nat)
    requires bs != [] && Placed(base, bs) && st.mem.Holds(CELL, 4) && |st.mem.bytes| < 0x1_0000_0000
    requires st.Next() == base && j < 2 * |bs| + 4
    ensures var p := Program(bs);
            var o := ListRun(p, base, st, j);
            o.Running? && Inside(p, base, o.st.Next()) &&
            SparesCode(Fetched(o.st), p[(o.st.Next() - base) / 4], base, |p|)
  {
    hide ListRun, Packed, SparesCode, Program, Fetched;
    TailRuns(base, st, bs);
    var s := ListRun(Program(bs), base, st, j).st;
    assert s.Next() == base + 4 * j && (s.Next() - base) / 4 == j;
    SparesAt(base, s, bs, j);
  }

  lemma SparesAt(base: nat, s: State, bs: seq<Byte>, j: nat)
    requires bs != [] && Placed(base, bs) && j < 2 * |bs| + 4
    requires j == 2 * |bs| ==> s.regs[1] == CELL
    ensures SparesCode(Fetched(s), Program(bs)[j], base, |Program(bs)|)
  {
    hide Fold, FlagsOf;
    var p, t := Program(bs), 2 * |bs| - 1;
    FoldNeverStores(bs);
    if j < t {
      assert p[j] == Fold(bs)[j];
    } else if j == t + 1 {
      assert p[j] == TAIL[1] && Fetched(s).Read(1) == CELL;
    } else {
      assert p[j] == TAIL[j - t];
    }
  }

  /** The stored program, in either byte order: after 2n + 4 steps r2 and r3 hold the bytes LDRB found at
      the ends of the stored word: the fourth byte from the end and the last one from a big-endian memory,
      the other way round from a little-endian one. */
  lemma PackingRoundTrip(base: nat, st: State, bs: seq<Byte>)
    requires bs != [] && Placed(base, bs)
    requires st.mem.Holds(CELL, 4) && CodeAt(st.mem, base, Image(Program(bs)))
    requires st.Next() == base
    ensures Run(st, 2 * |bs| + 4) == Running(Packed(base, st, bs))
  {
    hide RunSparesCode, CodeAt, ListRun, Run;
    var p := Program(bs);
    assert |st.mem.bytes| < 0x1_0000_0000 by { CodeFits(st.mem, base, Image(p)); }
    TailRuns(base, st, bs);
    RunSparesProgram(base, st, bs);
    StoredProgramRefines(p, base, st, 2 * |bs| + 4);
  }

  lemma CodeFits(m: Mem, base: nat, words: seq<Word>)
    requires CodeAt(m, base, words)
    ensures |m.bytes| < 0x1_0000_0000
  {
  }
}
