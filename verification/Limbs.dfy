/** Numbers of any length held in 32-bit limbs, least significant first, and the instruction chains
    that work on them by passing the carry flag from limb to limb. */
module Limbs {
  import opened Words
  import opened Status
  import opened Alu
  import opened Shifter

  function Value(a: seq<Word>): nat {
    if a == [] then 0 else a[0] + 0x1_0000_0000 * Value(a[1..])
  }

  /** The two's complement reading: the top limb carries the sign. */
  function SignedValue(a: seq<Word>): int
    requires a != []
  {
    if |a| == 1 then Signed(a[0]) else a[0] + 0x1_0000_0000 * SignedValue(a[1..])
  }

  function Radix(n: nat): (r: nat)
    ensures r > 0
  {
    if n == 0 then 1 else 0x1_0000_0000 * Radix(n - 1)
  }

  /** Is s a signed number of n limbs? */
  predicate Fits(s: int, n: nat)
    requires n > 0
  {
    -0x8000_0000 * Radix(n - 1) <= s < 0x8000_0000 * Radix(n - 1)
  }

  lemma {:induction false} ValueBound(a: seq<Word>)
    ensures Value(a) < Radix(|a|)
  {
    if a != [] { ValueBound(a[1..]); }
  }

  lemma {:induction false} ValueInjective(a: seq<Word>, b: seq<Word>)
    requires |a| == |b| && Value(a) == Value(b)
    ensures a == b
  {
    if a != [] {
      QuotientUnique(0x1_0000_0000, Value(a[1..]), a[0], Value(b[1..]), b[0]);
      ValueInjective(a[1..], b[1..]);
      assert a == [a[0]] + a[1..] && b == [b[0]] + b[1..];
    }
  }

  datatype Chain = Chain(limbs: seq<Word>, flags: Flags)

  /** ADCS or SBCS on every limb, from the least significant up. */
  function Carrying(op: Opcode, a: seq<Word>, b: seq<Word>, f: Flags): (r: Chain)
    requires |a| == |b|
    ensures |r.limbs| == |a|
  {
    if a == [] then Chain([], f)
    else
      var rest := Carrying(op, a[1..], b[1..], FlagsAfter(op, a[0], b[0], f.c, f));
      Chain([Result(op, a[0], b[0], f.c)] + rest.limbs, rest.flags)
  }

  /** ADDS, then ADCS. */
  function AddChain(a: seq<Word>, b: seq<Word>, f: Flags): Chain
    requires |a| == |b| > 0
  {
    var rest := Carrying(ADC, a[1..], b[1..], FlagsAfter(ADD, a[0], b[0], f.c, f));
    Chain([Result(ADD, a[0], b[0], f.c)] + rest.limbs, rest.flags)
  }

  /** SUBS, then SBCS. */
  function SubChain(a: seq<Word>, b: seq<Word>, f: Flags): Chain
    requires |a| == |b| > 0
  {
    var rest := Carrying(SBC, a[1..], b[1..], FlagsAfter(SUB, a[0], b[0], f.c, f));
    Chain([Result(SUB, a[0], b[0], f.c)] + rest.limbs, rest.flags)
  }

  // ---------------------------------------------------------------- addition

  /** One link: the exact sum of the limbs splits into the result and the carry passed on. */
  lemma AdcLink(x: Word, y: Word, f: Flags)
    ensures var r, g := Result(ADC, x, y, f.c), FlagsAfter(ADC, x, y, f.c, f);
            && r + 0x1_0000_0000 * Int(g.c) == x + y + Int(f.c)
            && (g.v <==> !(-0x8000_0000 <= Signed(x) + Signed(y) + Int(f.c) < 0x8000_0000))
            && (g.n != g.v <==> Signed(x) + Signed(y) + Int(f.c) < 0)
  {
    hide And, Or, Xor;
  }

  lemma {:induction false} CarryingAdds(a: seq<Word>, b: seq<Word>, f: Flags)
    requires |a| == |b|
    ensures var r := Carrying(ADC, a, b, f);
            Value(r.limbs) + Int(r.flags.c) * Radix(|a|) == Value(a) + Value(b) + Int(f.c)
  {
    if a != [] {
      hide Result, FlagsAfter;
      var g := FlagsAfter(ADC, a[0], b[0], f.c, f);
      AdcLink(a[0], b[0], f);
      CarryingAdds(a[1..], b[1..], g);
      var rest := Carrying(ADC, a[1..], b[1..], g);
      assert Carrying(ADC, a, b, f).limbs[1..] == rest.limbs;
    }
  }

  lemma {:induction false} CarryingAddsSigned(a: seq<Word>, b: seq<Word>, f: Flags)
    requires |a| == |b| > 0
    ensures var g, s := Carrying(ADC, a, b, f).flags, SignedValue(a) + SignedValue(b) + Int(f.c);
            && (g.v <==> !Fits(s, |a|))
            && (g.n != g.v <==> s < 0)
  {
    hide Result, FlagsAfter;
    var g := FlagsAfter(ADC, a[0], b[0], f.c, f);
    AdcLink(a[0], b[0], f);
    if |a| > 1 {
      CarryingAddsSigned(a[1..], b[1..], g);
      var s := SignedValue(a[1..]) + SignedValue(b[1..]) + Int(g.c);
      FitsStep(Result(ADC, a[0], b[0], f.c), s, |a| - 1);
      assert SignedValue(a) + SignedValue(b) + Int(f.c) == Result(ADC, a[0], b[0], f.c) + 0x1_0000_0000 * s;
    } else {
      assert Radix(0) == 1;
      assert Carrying(ADC, a[1..], b[1..], g).flags == g;
    }
  }

  /** A low limb never decides the range or the sign. */
  lemma FitsStep(low: Word, s: int, n: nat)
    requires n > 0
    ensures Fits(low + 0x1_0000_0000 * s, n + 1) <==> Fits(s, n)
    ensures low + 0x1_0000_0000 * s < 0 <==> s < 0
  {
    var h := Radix(n - 1);
    assert Radix(n) == 0x1_0000_0000 * h;
  }

  lemma AddChainIsCarrying(a: seq<Word>, b: seq<Word>, f: Flags)
    requires |a| == |b| > 0
    ensures AddChain(a, b, f) == Carrying(ADC, a, b, f.(c := false))
  {
    AddIsAdc(a[0], b[0], f);
    hide Result, FlagsAfter;
  }

  lemma AddIsAdc(x: Word, y: Word, f: Flags)
    ensures Result(ADD, x, y, f.c) == Result(ADC, x, y, false)
    ensures FlagsAfter(ADD, x, y, f.c, f) == FlagsAfter(ADC, x, y, false, f.(c := false))
  {
    hide And, Or, Xor;
  }

  /** ADDS then ADCS adds n-limb numbers: C is the carry out of the top limb, V signed overflow of the whole. */
  lemma AdditionOfLimbs(a: seq<Word>, b: seq<Word>, f: Flags)
    requires |a| == |b| > 0
    ensures var r := AddChain(a, b, f);
            && Value(r.limbs) + Int(r.flags.c) * Radix(|a|) == Value(a) + Value(b)
            && (r.flags.v <==> !Fits(SignedValue(a) + SignedValue(b), |a|))
  {
    AddChainIsCarrying(a, b, f);
    CarryingAdds(a, b, f.(c := false));
    CarryingAddsSigned(a, b, f.(c := false));
  }

  // ---------------------------------------------------------------- subtraction is addition of the complement

  function Complement(b: seq<Word>): (r: seq<Word>)
    ensures |r| == |b|
  {
    if b == [] then [] else [Not(b[0])] + Complement(b[1..])
  }

  lemma {:induction false} ComplementValue(b: seq<Word>)
    ensures Value(Complement(b)) == Radix(|b|) - 1 - Value(b)
    ensures b != [] ==> SignedValue(Complement(b)) == -1 - SignedValue(b)
  {
    if b != [] {
      ComplementValue(b[1..]);
      assert Complement(b)[1..] == Complement(b[1..]);
    }
  }

  lemma SbcIsAdc(x: Word, y: Word, f: Flags)
    ensures Result(SBC, x, y, f.c) == Result(ADC, x, Not(y), f.c)
    ensures FlagsAfter(SBC, x, y, f.c, f) == FlagsAfter(ADC, x, Not(y), f.c, f)
  {
    OneAdder(SBC, x, y, f.c, f);
    OneAdder(ADC, x, Not(y), f.c, f);
  }

  lemma {:induction false} CarryingComplement(a: seq<Word>, b: seq<Word>, f: Flags)
    requires |a| == |b|
    ensures Carrying(SBC, a, b, f) == Carrying(ADC, a, Complement(b), f)
  {
    if a != [] {
      hide Result, FlagsAfter;
      SbcIsAdc(a[0], b[0], f);
      assert Complement(b)[1..] == Complement(b[1..]);
      CarryingComplement(a[1..], b[1..], FlagsAfter(SBC, a[0], b[0], f.c, f));
    }
  }

  lemma SubChainIsCarrying(a: seq<Word>, b: seq<Word>, f: Flags)
    requires |a| == |b| > 0
    ensures SubChain(a, b, f) == Carrying(SBC, a, b, f.(c := true))
  {
    SubIsSbc(a[0], b[0], f);
    hide Result, FlagsAfter;
  }

  lemma SubIsSbc(x: Word, y: Word, f: Flags)
    ensures Result(SUB, x, y, f.c) == Result(SBC, x, y, true)
    ensures FlagsAfter(SUB, x, y, f.c, f) == FlagsAfter(SBC, x, y, true, f.(c := true))
  {
    hide And, Or, Xor;
  }

  /** SUBS then SBCS subtracts n-limb numbers: C is the inverted borrow and V signed overflow of the whole,
      so afterwards HS/LO and GE/LT compare the whole numbers, unsigned and signed. */
  lemma SubtractionOfLimbs(a: seq<Word>, b: seq<Word>, f: Flags)
    requires |a| == |b| > 0
    ensures var r := SubChain(a, b, f);
            && Value(a) - Value(b) == Value(r.limbs) - Int(!r.flags.c) * Radix(|a|)
            && (r.flags.v <==> !Fits(SignedValue(a) - SignedValue(b), |a|))
            && (ConditionPassed(r.flags, HS) <==> Value(a) >= Value(b))
            && (ConditionPassed(r.flags, LO) <==> Value(a) < Value(b))
            && (ConditionPassed(r.flags, GE) <==> SignedValue(a) >= SignedValue(b))
            && (ConditionPassed(r.flags, LT) <==> SignedValue(a) < SignedValue(b))
  {
    hide Carrying, Value, SignedValue, Complement, Radix, Result, FlagsAfter;
    var f1 := f.(c := true);
    var r := SubChain(a, b, f);
    SubChainIsCarrying(a, b, f);
    CarryingComplement(a, b, f1);
    ComplementValue(b);
    CarryingAdds(a, Complement(b), f1);
    CarryingAddsSigned(a, Complement(b), f1);
    assert r == Carrying(ADC, a, Complement(b), f1);
    ValueBound(r.limbs);
    ValueBound(b);
  }

  /** Z sees only the top limb of the result. */
  lemma {:induction false} ZeroFlagOfChain(a: seq<Word>, b: seq<Word>, f: Flags)
    requires |a| == |b| > 0
    ensures var r := Carrying(SBC, a, b, f);
            ConditionPassed(r.flags, EQ) <==> r.limbs[|a| - 1] == 0
  {
    NegativeAndZero(SBC, a[0], b[0], f.c, f);
    hide Result, FlagsAfter;
    var g := FlagsAfter(SBC, a[0], b[0], f.c, f);
    if |a| > 1 {
      ZeroFlagOfChain(a[1..], b[1..], g);
    } else {
      assert Carrying(SBC, a[1..], b[1..], g).flags == g;
    }
  }

  lemma {:induction false} TopLimb(a: seq<Word>)
    requires a != []
    ensures a[|a| - 1] == 0 <==> Value(a) < Radix(|a| - 1)
  {
    if |a| > 1 {
      TopLimb(a[1..]);
    } else {
      assert Value(a[1..]) == 0;
    }
  }

  /** So after the chain EQ does not say that the numbers are equal: it passes exactly if their difference modulo the
      radix is below that of one limb less, and agrees with equality exactly if that difference is 0 or not so small. */
  lemma {:induction false} EqualityAfterChain(a: seq<Word>, b: seq<Word>, f: Flags)
    requires |a| == |b| > 0
    ensures var d, eq := (Value(a) - Value(b)) % Radix(|a|), ConditionPassed(SubChain(a, b, f).flags, EQ);
            && (eq <==> d < Radix(|a| - 1))
            && ((eq <==> a == b) <==> d == 0 || Radix(|a| - 1) <= d)
  {
    hide Carrying, Value, SignedValue, Radix, Fits, ConditionPassed;
    var r := SubChain(a, b, f);
    SubtractionOfLimbs(a, b, f);
    SubChainIsCarrying(a, b, f);
    ZeroFlagOfChain(a, b, f.(c := true));
    TopLimb(r.limbs);
    ValueBound(r.limbs);
    ValueBound(a);
    ValueBound(b);
    DivUnique(Value(a) - Value(b), Radix(|a|), if r.flags.c then 0 else -1, Value(r.limbs));
    if Value(r.limbs) == 0 {
      ValueInjective(a, b);
    }
  }

  /** Numbers that differ and pass it. */
  lemma EqualityIsNotDecided(f: Flags)
    ensures ConditionPassed(SubChain([1, 0], [0, 0], f).flags, EQ) && Value([1, 0]) != Value([0, 0])
  {
    SubChainIsCarrying([1, 0], [0, 0], f);
    assert Result(SUB, 1, 0, f.c) == 1 && FlagsAfter(SUB, 1, 0, f.c, f).c;
    assert Value([1, 0]) == 1 + 0x1_0000_0000 * Value([1, 0][1..]);
    assert [1, 0][1..] == [0] && [0, 0][1..] == [0];
  }

  // ---------------------------------------------------------------- halving through the carry, and back

  /** MOVS top, top, LSR #1, then MOVS limb, limb, RRX from the next limb down. */
  function HalveChain(a: seq<Word>, f: Flags): (r: Chain)
    requires a != []
    ensures |r.limbs| == |a|
  {
    if |a| == 1 then
      var s := ByImmediate(LSR, a[0], 1, f.c);
      Chain([Result(MOV, 0, s.value, f.c)], FlagsAfter(MOV, 0, s.value, s.carry, f))
    else
      var high := HalveChain(a[1..], f);
      var s := ByImmediate(ROR, a[0], 0, high.flags.c);
      Chain([Result(MOV, 0, s.value, f.c)] + high.limbs, FlagsAfter(MOV, 0, s.value, s.carry, high.flags))
  }

  lemma {:induction false} HalvingOfLimbs(a: seq<Word>, f: Flags)
    requires a != []
    ensures var r := HalveChain(a, f);
            Value(r.limbs) == Value(a) / 2 && Int(r.flags.c) == Value(a) % 2
  {
    hide And, Or, Xor;
    var r := HalveChain(a, f);
    assert Bit(a[0], 0) <==> a[0] % 2 == 1;
    if |a| == 1 {
      assert Pow2(1) == 2;
      assert a[1..] == [] && r.limbs[1..] == [];
    } else {
      HalvingOfLimbs(a[1..], f);
      assert r.limbs[1..] == HalveChain(a[1..], f).limbs;
    }
  }

  /** Halving keeps the lost bit in C, so ADCS of every limb with itself restores the number and clears C. */
  lemma HalvingUndone(a: seq<Word>, f: Flags)
    requires a != []
    ensures var h := HalveChain(a, f);
            var back := Carrying(ADC, h.limbs, h.limbs, h.flags);
            back.limbs == a && !back.flags.c
  {
    hide Carrying, Value, Radix, HalveChain;
    var h := HalveChain(a, f);
    var back := Carrying(ADC, h.limbs, h.limbs, h.flags);
    HalvingOfLimbs(a, f);
    CarryingAdds(h.limbs, h.limbs, h.flags);
    ValueBound(a);
    ValueInjective(back.limbs, a);
  }
}
