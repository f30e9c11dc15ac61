/** What every instruction word means, told by its bits: decoding is characterised on all words, not only on those
    an assembler produces. */
module Decoding {
  import opened Words
  import opened Alu
  import opened Shifter
  import opened Machine

  /** x is the n bits of w from bit lo up. */
  predicate Field(x: nat, w: nat, lo: nat, n: nat) {
    x < Pow2(n) && forall k: nat | k < n :: Bit(x, k) <==> Bit(w, lo + k)
  }

  lemma {:induction false} BitOfQuotient(x: nat, lo: nat, k: nat)
    ensures x / Pow2(lo) >= 0 && (Bit(x / Pow2(lo), k) <==> Bit(x, lo + k))
  {
    if lo > 0 {
      DivDiv(x, 2, Pow2(lo - 1));
      BitOfQuotient(x / 2, lo - 1, k);
    }
  }

  lemma {:induction false} BitOfRemainder(x: nat, n: nat, k: nat)
    requires k < n
    ensures Bit(x % Pow2(n), k) <==> Bit(x, k)
  {
    var p := Pow2(n - 1);
    assert Pow2(n) == 2 * p;
    var q := x / (2 * p);
    var r := x % (2 * p);
    assert x == 2 * p * q + r;
    assert 2 * p * q == 2 * (p * q);
    assert x / 2 == p * q + r / 2 && x % 2 == r % 2;
    if k > 0 {
      DivUnique(x / 2, p, q, r / 2);
      BitOfRemainder(x / 2, n - 1, k - 1);
    }
  }

  lemma FieldOf(w: nat, lo: nat, n: nat)
    ensures Field(w / Pow2(lo) % Pow2(n), w, lo, n)
  {
    hide Bit;
    var q := w / Pow2(lo);
    forall k: nat | k < n
      ensures q >= 0 && (Bit(q % Pow2(n), k) <==> Bit(w, lo + k))
    {
      BitOfQuotient(w, lo, k);
      BitOfRemainder(q, n, k);
    }
    BitOfQuotient(w, lo, 0);
  }

  lemma FieldOfField(x: nat, w: nat, lo: nat, n: nat, at: nat, m: nat)
    requires Field(x, w, lo, n) && at + m <= n
    ensures x / Pow2(at) >= 0 && Field(x / Pow2(at) % Pow2(m), w, lo + at, m)
  {
    hide Bit;
    BitOfQuotient(x, at, 0);
    FieldOf(x, at, m);
    var y := x / Pow2(at) % Pow2(m);
    forall k: nat | k < m
      ensures Bit(y, k) <==> Bit(w, lo + at + k)
    {
      assert Bit(y, k) == Bit(x, at + k);
      assert Bit(x, at + k) == Bit(w, lo + (at + k));
    }
  }

  lemma MorePowers()
    ensures Pow2(0) == 1 && Pow2(1) == 2 && Pow2(2) == 4 && Pow2(3) == 8 && Pow2(4) == 16 && Pow2(5) == 32
    ensures Pow2(7) == 0x80 && Pow2(12) == 0x1000 && Pow2(20) == 0x10_0000 && Pow2(21) == 0x20_0000
    ensures Pow2(25) == 0x200_0000 && Pow2(28) == 0x1000_0000
  {
    Pow2Literals();
    assert Pow2(12) == 0x1000;
    assert Pow2(20) == 0x10_0000;
  }

  /** The fields an instruction word is split into. */
  lemma SplitByBits(w: Word)
    ensures var f := Split(w);
            && Field(f.cond, w, 28, 4) && Field(f.group, w, 25, 3) && Field(f.mid, w, 20, 5)
            && Field(f.rn, w, 16, 4) && Field(f.rd, w, 12, 4) && Field(f.low, w, 0, 12)
            && Field(w % 0x100_0000, w, 0, 24)
  {
    MorePowers();
    Pow2Literals();
    FieldOf(w, 28, 4);
    FieldOf(w, 25, 3);
    FieldOf(w, 20, 5);
    FieldOf(w, 16, 4);
    FieldOf(w, 12, 4);
    FieldOf(w, 0, 12);
    FieldOf(w, 0, 24);
    hide Field, Pow2;
  }

  lemma SmallBits(x: nat)
    requires x < 32
    ensures Bit(x, 0) <==> x % 2 == 1
    ensures Bit(x, 1) <==> x / 2 % 2 == 1
    ensures Bit(x, 2) <==> x / 4 % 2 == 1
    ensures Bit(x, 3) <==> x / 8 % 2 == 1
    ensures Bit(x, 4) <==> x / 16 == 1
  {
    MorePowers();
    hide Bit, Pow2;
    BitDiv(x, 0);
    BitDiv(x, 1);
    BitDiv(x, 2);
    BitDiv(x, 3);
    BitDiv(x, 4);
  }

  lemma GroupAndMid(w: Word)
    ensures var f := Split(w);
            && f.group < 8 && f.mid < 32
            && (Bit(w, 25) <==> f.group % 2 == 1) && (Bit(w, 26) <==> f.group / 2 % 2 == 1)
            && (Bit(w, 27) <==> f.group / 4 == 1)
            && (Bit(w, 20) <==> f.mid % 2 == 1) && (Bit(w, 21) <==> f.mid / 2 % 2 == 1)
            && (Bit(w, 22) <==> f.mid / 4 % 2 == 1)
            && (Bit(w, 23) <==> f.mid / 8 % 2 == 1) && (Bit(w, 24) <==> f.mid / 16 == 1)
  {
    SplitByBits(w);
    var f := Split(w);
    assert f.group < 8 && f.mid < 32;
    hide Split, Bit;
    FiveBits(f.group, w, 25, 3);
    FiveBits(f.mid, w, 20, 5);
  }

  lemma FiveBits(x: nat, w: nat, lo: nat, n: nat)
    requires Field(x, w, lo, n) && 3 <= n <= 5
    ensures x < 32
    ensures Bit(w, lo) <==> x % 2 == 1
    ensures Bit(w, lo + 1) <==> x / 2 % 2 == 1
    ensures Bit(w, lo + 2) <==> x / 4 % 2 == 1
    ensures n > 3 ==> (Bit(w, lo + 3) <==> x / 8 % 2 == 1)
    ensures n > 4 ==> (Bit(w, lo + 4) <==> x / 16 == 1)
  {
    Pow2Mono(n, 5);
    MorePowers();
    hide Bit, Pow2;
    SmallBits(x);
    assert Bit(x, 0) <==> Bit(w, lo + 0);
  }

  /** Which instruction a word is. What is left over, bits 27..25 being 100, 110 or 111 or a status transfer, is Idle. */
  lemma {:induction false} DecodeByBits(w: Word)
    ensures var i := Decode(w);
            && (i.Data? <==> !Bit(w, 27) && !Bit(w, 26) && !(Bit(w, 24) && !Bit(w, 23) && !Bit(w, 20)))
            && (i.Transfer? <==> !Bit(w, 27) && Bit(w, 26) && !Bit(w, 25) && Bit(w, 24) && !Bit(w, 21))
            && (i.Foreign? <==> !Bit(w, 27) && Bit(w, 26) && (Bit(w, 25) || !Bit(w, 24) || Bit(w, 21)))
            && (i.Branch? <==> Bit(w, 27) && !Bit(w, 26) && Bit(w, 25))
  {
    GroupAndMid(w);
    hide Split, Bit, DecodeOperand, OpcodeOf;
  }

  lemma BranchByBits(w: Word)
    requires Decode(w).Branch?
    ensures var i := Decode(w);
            Field(i.cond, w, 28, 4) && i.link == Bit(w, 24) && Field(i.words, w, 0, 24)
  {
    GroupAndMid(w);
    SplitByBits(w);
    hide Split, Bit, Field, DecodeOperand, OpcodeOf;
  }

  lemma TransferByBits(w: Word)
    requires Decode(w).Transfer?
    ensures var i := Decode(w);
            && Field(i.cond, w, 28, 4) && i.load == Bit(w, 20) && i.byte == Bit(w, 22) && i.up == Bit(w, 23)
            && Field(i.rn, w, 16, 4) && Field(i.rd, w, 12, 4) && Field(i.offset, w, 0, 12)
  {
    GroupAndMid(w);
    SplitByBits(w);
    hide Split, Bit, Field, DecodeOperand, OpcodeOf;
  }

  /** The opcodes in the order of their numbers. */
  const OPCODES: seq<Opcode> := [AND, EOR, SUB, RSB, ADD, ADC, SBC, RSC, TST, TEQ, CMP, CMN, ORR, MOV, BIC, MVN]

  /** The kinds of shift in the order of their numbers. */
  const KINDS: seq<Kind> := [LSL, LSR, ASR, ROR]

  lemma DataByBits(w: Word)
    requires Decode(w).Data?
    ensures var i := Decode(w);
            && Field(i.cond, w, 28, 4) && i.s == Bit(w, 20) && Field(i.rn, w, 16, 4) && Field(i.rd, w, 12, 4)
            && exists k :: 0 <= k < 16 && Field(k, w, 21, 4) && i.op == OPCODES[k]
  {
    GroupAndMid(w);
    SplitByBits(w);
    OpcodeField(w);
    var k := Split(w).mid / 2;
    NumberedOpcode(k);
    hide Split, Bit, Field, DecodeOperand, OpcodeOf, Pow2, OPCODES;
    assert Field(k, w, 21, 4) && Decode(w).op == OPCODES[k];
  }

  lemma OpcodeField(w: Word)
    ensures Field(Split(w).mid / 2, w, 21, 4)
  {
    MorePowers();
    SplitByBits(w);
    FieldOfField(Split(w).mid, w, 20, 5, 1, 4);
  }

  lemma NumberedOpcode(k: Nibble)
    ensures OpcodeOf(k) == OPCODES[k]
  {
  }

  predicate IsKind(kind: Kind, w: Word) {
    exists k :: 0 <= k < 4 && Field(k, w, 5, 2) && kind == KINDS[k]
  }

  /** Bit 25 set: an eight-bit immediate and its rotation. Clear: a register, shifted by the five bits 11..7 if bit 4 is
      clear, and by the register of bits 11..8 if it is set. */
  lemma OperandByBits(w: Word)
    requires Decode(w).Data?
    ensures var o := Decode(w).operand;
            && (o.Immediate? <==> Bit(w, 25))
            && (o.ShiftByImmediate? <==> !Bit(w, 25) && !Bit(w, 4))
            && (o.Immediate? ==> Field(o.rotate, w, 8, 4) && Field(o.imm8, w, 0, 8))
            && (!o.Immediate? ==> Field(o.rm, w, 0, 4) && IsKind(o.kind, w))
            && (o.ShiftByImmediate? ==> Field(o.amount, w, 7, 5))
            && (o.ShiftByRegister? ==> Field(o.rs, w, 8, 4))
  {
    GroupAndMid(w);
    LowFields(w);
    hide Split, Bit, Field, OpcodeOf, Pow2;
    var low: Offset12 := w % 0x1000;
    assert Decode(w).operand == DecodeOperand(Split(w).group == 1, low) by { LowIs(w); }
  }

  lemma LowIs(w: Word)
    ensures Split(w).low == w % 0x1000
  {
  }

  /** Bit 4 and the fields of the twelve low bits. */
  lemma LowFields(w: Word)
    ensures var low := w % 0x1000;
            && Field(low / 0x100, w, 8, 4) && Field(low % 0x100, w, 0, 8) && Field(low / 128, w, 7, 5)
            && Field(low % 16, w, 0, 4) && Field(low / 32 % 4, w, 5, 2) && (Bit(w, 4) <==> low / 16 % 2 == 1)
  {
    MorePowers();
    Pow2Literals();
    hide Bit, Pow2;
    var low := w % 0x1000;
    SplitByBits(w);
    LowIs(w);
    hide Field, Split;
    LowBit4(w, low);
    LowBounds(low);
    FieldOfField(low, w, 0, 12, 8, 4);
    FieldOfField(low, w, 0, 12, 0, 8);
    FieldOfField(low, w, 0, 12, 7, 5);
    FieldOfField(low, w, 0, 12, 0, 4);
    FieldOfField(low, w, 0, 12, 5, 2);
  }

  lemma LowBit4(w: nat, low: nat)
    requires Field(low, w, 0, 12)
    ensures Bit(w, 4) <==> low / 16 % 2 == 1
  {
    MorePowers();
    hide Bit, Pow2;
    BitDiv(low, 4);
    assert Bit(low, 4) == Bit(w, 0 + 4);
  }

  lemma LowBounds(low: Offset12)
    ensures low / 0x100 % 16 == low / 0x100 && low / 128 % 32 == low / 128
  {
  }

  // ---------------------------------------------------------------- encoding what was decoded

  lemma JoinSplit(w: Word)
    ensures Split(w).group < 8 && Split(w).mid < 32 && Join(Split(w)) == w
  {
    var w12, w16, w20, w25 := w / 0x1000, w / 0x1_0000, w / 0x10_0000, w / 0x200_0000;
    DivDiv(w, 0x1000, 16);
    DivDiv(w, 0x1_0000, 16);
    DivDiv(w, 0x10_0000, 32);
    DivDiv(w, 0x200_0000, 8);
    assert w == 0x1000 * w12 + w % 0x1000;
    assert w12 == 16 * w16 + w12 % 16;
    assert w16 == 16 * w20 + w16 % 16;
    assert w20 == 32 * w25 + w20 % 32;
    assert w25 == 8 * (w / 0x1000_0000) + w25 % 8;
  }

  /** Encoding restores every word that decodes to a modelled instruction, but for bit 7 of a shift by a register, which
      means nothing here and is cleared. */
  lemma {:induction false} EncodeDecode(w: Word)
    requires var i := Decode(w); i.Data? || i.Transfer? || i.Branch?
    ensures var i := Decode(w);
            Encode(i) == if i.Data? && i.operand.ShiftByRegister? && Bit(w, 7) then w - 0x80 else w
  {
    var i := Decode(w);
    hide Split, Join, DecodeOperand, OpcodeOf, Encode, Bit, Decode;
    if i.Data? {
      EncodeDecodeData(w);
    } else if i.Transfer? {
      TransferRestored(w);
    } else {
      BranchLow(w);
    }
  }

  lemma TransferRestored(w: Word)
    requires Decode(w).Transfer?
    ensures Encode(Decode(w)) == w
  {
    JoinSplit(w);
    hide Split, Join, DecodeOperand, OpcodeOf;
    MidSum(Split(w).mid);
  }

  lemma BranchLow(w: Word)
    requires Decode(w).Branch?
    ensures Encode(Decode(w)) == w
  {
    assert Split(w).group == 5 by {
      DecodeByBits(w);
      GroupAndMid(w);
      hide Split, Decode, Bit;
    }
    BranchSum(w);
    hide OpcodeOf, DecodeOperand;
  }

  lemma BranchSum(w: Word)
    requires w / 0x200_0000 % 8 == 5
    ensures w == w / 0x1000_0000 * 0x1000_0000 + 0xA00_0000 + w / 0x10_0000 % 32 / 16 * 0x100_0000 + w % 0x100_0000
    ensures w / 0x10_0000 % 32 / 16 <= 1
  {
    var c, w20, w24, w25 := w / 0x1000_0000, w / 0x10_0000, w / 0x100_0000, w / 0x200_0000;
    DivDiv(w, 0x10_0000, 16);
    DivDiv(w, 0x100_0000, 2);
    DivDiv(w, 0x200_0000, 8);
    assert w25 == 8 * c + 5;
    var b, t := w24 % 2, w20 % 16;
    assert w24 == 2 * w25 + b && w20 == 16 * w24 + t;
    DivUnique(w20, 32, w25, 16 * b + t);
    assert w == 0x100_0000 * w24 + w % 0x100_0000;
  }

  lemma MidSum(mid: nat)
    requires mid < 32 && mid / 16 == 1 && mid / 2 % 2 == 0
    ensures mid == 16 + 8 * (mid / 8 % 2) + 4 * (mid / 4 % 2) + mid % 2
  {
  }

  lemma EncodeDecodeData(w: Word)
    requires Decode(w).Data?
    ensures var i := Decode(w);
            Encode(i) == if i.operand.ShiftByRegister? && Bit(w, 7) then w - 0x80 else w
  {
    JoinSplit(w);
    var i, f := Decode(w), Split(w);
    OperandRestored(f.group == 1, f.low);
    OpcodeRestored(f.mid / 2);
    LowIs(w);
    Bit7(w);
    hide Split, DecodeOperand, EncodeOperand, OpcodeOf, OpcodeNumber, Bit;
  }

  lemma OpcodeRestored(k: Nibble)
    ensures OpcodeNumber(OpcodeOf(k)) == k
  {
  }

  lemma Bit7(w: Word)
    ensures Bit(w, 7) <==> w % 0x1000 / 0x80 % 2 == 1
  {
    LowFields(w);
    hide Bit;
    var low := w % 0x1000;
    assert Field(low / 128, w, 7, 5);
    assert Bit(low / 128, 0) == Bit(w, 7 + 0) by { MorePowers(); hide Pow2; }
    assert Bit(low / 128, 0) <==> low / 128 % 2 == 1 by { SmallBits(low / 128); }
  }

  lemma OperandRestored(immediate: bool, low: Offset12)
    ensures var o := DecodeOperand(immediate, low);
            EncodeOperand(o) == if o.ShiftByRegister? && low / 0x80 % 2 == 1 then low - 0x80 else low
  {
    var k := low / 32 % 4;
    assert KindNumber(KindOf(k)) == k;
    hide KindOf, KindNumber;
    assert low == 128 * (low / 128) + 32 * k + 16 * (low / 16 % 2) + low % 16 by { LowSum(low); }
    assert low / 128 == 2 * (low / 0x100) + low / 128 % 2;
  }

  lemma LowSum(low: nat)
    ensures low == 128 * (low / 128) + 32 * (low / 32 % 4) + 16 * (low / 16 % 2) + low % 16
  {
    DivDiv(low, 16, 2);
    DivDiv(low, 32, 4);
    assert low == 16 * (low / 16) + low % 16;
    assert low / 16 == 2 * (low / 32) + low / 16 % 2;
    assert low / 32 == 4 * (low / 128) + low / 32 % 4;
  }
}
