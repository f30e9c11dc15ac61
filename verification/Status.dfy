/** The CPSR: its four condition flags in bits 31..28, and the condition field of an instruction
    (section A3.2 of ARM DDI 0100). */
module Status {
  import opened Words

  datatype Flags = Flags(n: bool, z: bool, c: bool, v: bool)

  function FlagsOf(cpsr: Word): Flags {
    Flags(Bit(cpsr, 31), Bit(cpsr, 30), Bit(cpsr, 29), Bit(cpsr, 28))
  }

  function SetFlag(cpsr: Word, k: nat, v: bool): Word
    requires k < 32
  {
    Pow2Literals();
    SetBitBound(cpsr, k, v, 32);
    SetBit(cpsr, k, v)
  }

  /** The four flag updates in the order update_Flag_Z, N, C, V. */
  function WithFlags(cpsr: Word, f: Flags): Word {
    SetFlag(SetFlag(SetFlag(SetFlag(cpsr, 30, f.z), 31, f.n), 29, f.c), 28, f.v)
  }

  /** Writing the flags and reading them back is the identity, and no other bit of the CPSR moves. */
  lemma {:induction false} FlagsRoundTrip(cpsr: Word, f: Flags, k: nat)
    ensures FlagsOf(WithFlags(cpsr, f)) == f
    ensures k < 28 ==> Bit(WithFlags(cpsr, f), k) == Bit(cpsr, k)
  {
    WithFlagsBit(cpsr, f, 31);
    WithFlagsBit(cpsr, f, 30);
    WithFlagsBit(cpsr, f, 29);
    WithFlagsBit(cpsr, f, 28);
    WithFlagsBit(cpsr, f, k);
  }

  lemma WithFlagsBit(cpsr: Word, f: Flags, k: nat)
    ensures Bit(WithFlags(cpsr, f), k) ==
            match k
            case 31 => f.n
            case 30 => f.z
            case 29 => f.c
            case 28 => f.v
            case _ => Bit(cpsr, k)
  {
    hide Bit, SetBit;
    var x1 := SetFlag(cpsr, 30, f.z);
    var x2 := SetFlag(x1, 31, f.n);
    var x3 := SetFlag(x2, 29, f.c);
    BitSetBit(cpsr, 30, f.z, k);
    BitSetBit(x1, 31, f.n, k);
    BitSetBit(x2, 29, f.c, k);
    BitSetBit(x3, 28, f.v, k);
  }

  /** The two words agree below the flags, and the CPSR is exactly its flags and its other bits. */
  lemma FlagsAndRestDetermine(x: Word, y: Word)
    requires FlagsOf(x) == FlagsOf(y)
    requires forall k: nat | k < 28 :: Bit(x, k) == Bit(y, k)
    ensures x == y
  {
    hide Bit;
    Pow2Literals();
    forall k: nat | k < 32
      ensures Bit(x, k) == Bit(y, k)
    {
      if k >= 28 {
        assert k == 28 || k == 29 || k == 30 || k == 31;
      }
    }
    BitsDetermine(x, y, 32);
  }

  /** Writing flags changes nothing exactly when they are the flags already there. */
  lemma WithFlagsIdentity(cpsr: Word, f: Flags)
    ensures WithFlags(cpsr, f) == cpsr <==> f == FlagsOf(cpsr)
  {
    hide Bit, SetBit, WithFlags;
    FlagsRoundTrip(cpsr, f, 0);
    if f == FlagsOf(cpsr) {
      forall k: nat | k < 28
        ensures Bit(WithFlags(cpsr, f), k) == Bit(cpsr, k)
      {
        FlagsRoundTrip(cpsr, f, k);
      }
      FlagsAndRestDetermine(WithFlags(cpsr, f), cpsr);
    }
  }

  lemma WithFlagsTwice(cpsr: Word, f: Flags, g: Flags)
    ensures WithFlags(WithFlags(cpsr, f), g) == WithFlags(cpsr, g)
  {
    hide Bit, SetBit, WithFlags;
    FlagsRoundTrip(WithFlags(cpsr, f), g, 0);
    FlagsRoundTrip(cpsr, g, 0);
    forall k: nat | k < 28
      ensures Bit(WithFlags(WithFlags(cpsr, f), g), k) == Bit(WithFlags(cpsr, g), k)
    {
      FlagsRoundTrip(cpsr, f, k);
      FlagsRoundTrip(WithFlags(cpsr, f), g, k);
      FlagsRoundTrip(cpsr, g, k);
    }
    FlagsAndRestDetermine(WithFlags(WithFlags(cpsr, f), g), WithFlags(cpsr, g));
  }

  type Cond = k: int | 0 <= k < 16

  /** Codes 14 and 15 always pass: the default case of the C switch returns -1, which its callers take as true. */
  predicate ConditionPassed(f: Flags, cond: Cond) {
    match cond
    case 0 => f.z
    case 1 => !f.z
    case 2 => f.c
    case 3 => !f.c
    case 4 => f.n
    case 5 => !f.n
    case 6 => f.v
    case 7 => !f.v
    case 8 => f.c && !f.z
    case 9 => !f.c || f.z
    case 10 => f.n == f.v
    case 11 => f.n != f.v
    case 12 => !f.z && f.n == f.v
    case 13 => f.z || f.n != f.v
    case _ => true
  }

  const EQ: Cond := 0
  const NE: Cond := 1
  const HS: Cond := 2
  const LO: Cond := 3
  const MI: Cond := 4
  const PL: Cond := 5
  const VS: Cond := 6
  const VC: Cond := 7
  const HI: Cond := 8
  const LS: Cond := 9
  const GE: Cond := 10
  const LT: Cond := 11
  const GT: Cond := 12
  const LE: Cond := 13
  const AL: Cond := 14

  lemma AlwaysPasses(f: Flags)
    ensures ConditionPassed(f, AL)
  {
  }

  lemma OddCodesNegate(f: Flags, cond: Cond)
    requires cond % 2 == 0 && cond < 14
    ensures ConditionPassed(f, cond) <==> !ConditionPassed(f, cond + 1)
  {
  }
}
