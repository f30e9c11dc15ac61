/** The barrel shifter: the eleven forms of a shifted register operand, each with its carry-out
    (section A5.1 of ARM DDI 0100), and the one-bit shift machine they all unfold to. */
module Shifter {
  import opened Words

  datatype Kind = LSL | LSR | ASR | ROR

  /** A shifter operand and the shifter carry-out. */
  datatype Shifted = Shifted(value: Word, carry: bool)

  function LogicalShift(value: Word, shift: nat, direction: char): Word {
    if direction == 'r' then (NonNegativeQuotient(value, shift); value / Pow2(shift))
    else if direction == 'l' then Wrap(value * Pow2(shift))
    else 0
  }

  /** asr of util.c: a logical shift or-ed with ones in the n places it frees, if the sign is set. */
  function Asr(x: Word, n: nat): (r: Word)
    requires n < 32
    ensures r == x / Pow2(n) + if Negative(x) then 0x1_0000_0000 - Pow2(32 - n) else 0
  {
    AsrFields(x, n);
    Or(LogicalShift(x, n, 'r'), if Negative(x) then 0x1_0000_0000 - Pow2(32 - n) else 0)
  }

  lemma AsrFields(x: Word, n: nat)
    requires n < 32
    ensures var filled := if Negative(x) then 0x1_0000_0000 - Pow2(32 - n) else 0;
            filled >= 0 && Or(LogicalShift(x, n, 'r'), filled) == x / Pow2(n) + filled < 0x1_0000_0000
  {
    AsrBound(x, n);
    ShiftRight(x, n);
    OrZero(x / Pow2(n));
    Pow2Literals();
    Pow2Add(n, 32 - n);
    Pow2Mono(32 - n, 32);
    hide Pow2, Or, LogicalShift;
    if Negative(x) {
      OnesAbove(Pow2(n), Pow2(32 - n));
      OrFields(x / Pow2(n), Pow2(n) - 1, 32 - n);
    }
  }

  lemma ShiftRight(x: Word, n: nat)
    ensures LogicalShift(x, n, 'r') == x / Pow2(n)
  {
  }

  lemma OrZero(y: nat)
    ensures Or(y, 0) == y
  {
  }

  lemma OnesAbove(p: nat, q: nat)
    requires p > 0 && p * q == 0x1_0000_0000
    ensures (p - 1) * q == 0x1_0000_0000 - q
  {
  }

  /** Rotation by 0 to 31 places. */
  function Ror(x: Word, n: nat): Word
    requires n < 32
  {
    WordOps(LogicalShift(x, n, 'r'), LogicalShift(x, 32 - n, 'l'));
    if n == 0 then x else Or(LogicalShift(x, n, 'r'), LogicalShift(x, 32 - n, 'l'))
  }

  /** Rotation one place through the carry: RRX. The carry is that of the CPSR; the C text takes it
      from an already extracted single bit instead (arm_instruction.c:459). */
  function Rrx(x: Word, c: bool): Shifted {
    Shifted(x / 2 + (if c then 0x8000_0000 else 0), Bit(x, 0))
  }

  /** Shift by the low byte of a register. */
  function ByRegister(kind: Kind, rm: Word, amount: Byte, c: bool): Shifted {
    if amount == 0 then Shifted(rm, c)
    else match kind
      case LSL =>
        if amount < 32 then Shifted(LogicalShift(rm, amount, 'l'), Bit(rm, 32 - amount))
        else if amount == 32 then Shifted(0, Bit(rm, 0))
        else Shifted(0, false)
      case LSR =>
        if amount < 32 then Shifted(LogicalShift(rm, amount, 'r'), Bit(rm, amount - 1))
        else if amount == 32 then Shifted(0, Bit(rm, 31))
        else Shifted(0, false)
      case ASR =>
        if amount < 32 then Shifted(Asr(rm, amount), Bit(rm, amount - 1))
        else Shifted(if Bit(rm, 31) then 0xFFFF_FFFF else 0, Bit(rm, 31))
      case ROR =>
        if amount % 32 == 0 then Shifted(rm, Bit(rm, 31))
        else Shifted(Ror(rm, amount % 32), Bit(rm, amount % 32 - 1))
  }

  /** Shift by a five-bit field of the instruction. LSR #0 and ASR #0 mean 32, ROR #0 means RRX. */
  function ByImmediate(kind: Kind, rm: Word, imm: nat, c: bool): Shifted
    requires imm < 32
  {
    match kind
    case LSL =>
      if imm == 0 then Shifted(rm, c)
      else Shifted(LogicalShift(rm, imm, 'l'), Bit(rm, 32 - imm))
    case LSR =>
      if imm == 0 then Shifted(0, Bit(rm, 31))
      else Shifted(LogicalShift(rm, imm, 'r'), Bit(rm, imm - 1))
    case ASR =>
      if imm == 0 then Shifted(if Bit(rm, 31) then 0xFFFF_FFFF else 0, Bit(rm, 31))
      else Shifted(Asr(rm, imm), Bit(rm, imm - 1))
    case ROR =>
      if imm == 0 then Rrx(rm, c)
      else Shifted(Ror(rm, imm), Bit(rm, imm - 1))
  }

  // ---------------------------------------------------------------- the one-bit machine

  function OneBit(kind: Kind, s: Shifted): Shifted {
    var x := s.value;
    match kind
    case LSL => Shifted(Wrap(2 * x), Negative(x))
    case LSR => Shifted(x / 2, x % 2 == 1)
    case ASR => Shifted(x / 2 + (if Negative(x) then 0x8000_0000 else 0), x % 2 == 1)
    case ROR => Shifted(x / 2 + (if x % 2 == 1 then 0x8000_0000 else 0), x % 2 == 1)
  }

  function Iterate(kind: Kind, n: nat, s: Shifted): Shifted {
    if n == 0 then s else OneBit(kind, Iterate(kind, n - 1, s))
  }

  lemma {:induction false} IterateAdd(kind: Kind, m: nat, n: nat, s: Shifted)
    ensures Iterate(kind, m + n, s) == Iterate(kind, m, Iterate(kind, n, s))
  {
    if m > 0 { IterateAdd(kind, m - 1, n, s); }
  }

  lemma HalvePow(x: int, n: nat)
    ensures x / Pow2(n) / 2 == x / Pow2(n + 1)
  {
    DivDiv(x, Pow2(n), 2);
  }

  lemma AsrBound(x: Word, n: nat)
    requires n <= 32
    ensures var filled := if Negative(x) then 0x1_0000_0000 - Pow2(32 - n) else 0;
            0 <= x / Pow2(n) + filled < 0x1_0000_0000 && x / Pow2(n) < Pow2(32 - n)
  {
    Pow2Literals();
    Pow2Add(n, 32 - n);
    Pow2Mono(32 - n, 32);
    DivBounds(x, Pow2(n), Pow2(32 - n));
    DivBounds(x, Pow2(n), 0);
  }

  // ---- LSL: after n steps carry and value are bits 32 and 31..0 of x * 2^n

  lemma {:induction false} IterateLsl(x: Word, c: bool, n: nat)
    ensures Iterate(LSL, n, Shifted(x, c)).value == Wrap(x * Pow2(n))
    ensures n > 0 ==> (Iterate(LSL, n, Shifted(x, c)).carry <==> x * Pow2(n) / 0x1_0000_0000 % 2 == 1)
  {
    if n > 0 {
      IterateLsl(x, c, n - 1);
      var p := Pow2(n - 1);
      assert Pow2(n) == 2 * p;
      hide Pow2;
      assert x * (2 * p) == 2 * (x * p);
      DoubleWord(x * p);
    }
  }

  lemma DoubleWord(y: nat)
    ensures Wrap(2 * Wrap(y)) == Wrap(2 * y)
    ensures Negative(Wrap(y)) <==> 2 * y / 0x1_0000_0000 % 2 == 1
  {
    var q := y / 0x1_0000_0000;
    assert y == 0x1_0000_0000 * q + Wrap(y);
  }

  lemma LslCarryWithin(x: Word, n: nat)
    requires n <= 32
    ensures x * Pow2(n) / 0x1_0000_0000 % 2 == 1 <==> Bit(x, 32 - n)
  {
    hide Bit;
    Pow2Literals();
    hide Pow2;
    Pow2Add(32 - n, n);
    ScaleMod(x, Pow2(32 - n), Pow2(n));
    BitDiv(x, 32 - n);
  }

  lemma LslCarry(x: Word, n: nat)
    requires 0 < n
    ensures n <= 32 ==> (x * Pow2(n) / 0x1_0000_0000 % 2 == 1 <==> Bit(x, 32 - n))
    ensures n > 32 ==> x * Pow2(n) / 0x1_0000_0000 % 2 == 0
    ensures n >= 32 ==> Wrap(x * Pow2(n)) == 0
  {
    if n <= 32 { LslCarryWithin(x, n); }
    if n >= 32 { LslCarryBeyond(x, n); }
  }

  lemma LslCarryBeyond(x: Word, n: nat)
    requires n >= 32
    ensures Wrap(x * Pow2(n)) == 0
    ensures n > 32 ==> x * Pow2(n) / 0x1_0000_0000 % 2 == 0
  {
    Pow2Literals();
    hide Pow2;
    var m := n - 32;
    Pow2Add(32, m);
    WordMultiple(x, Pow2(m));
    if n > 32 {
      Pow2Add(1, m - 1);
      Pow2One();
      EvenMultiple(0, x, Pow2(m - 1));
    }
  }

  lemma WordMultiple(x: Word, p: nat)
    ensures Wrap(x * (0x1_0000_0000 * p)) == 0 && x * (0x1_0000_0000 * p) / 0x1_0000_0000 == x * p
  {
    assert x * (0x1_0000_0000 * p) == 0x1_0000_0000 * (x * p);
  }

  lemma Pow2One()
    ensures Pow2(1) == 2
  {
  }

  // ---- LSR

  lemma {:induction false} IterateLsr(x: Word, c: bool, n: nat)
    ensures Iterate(LSR, n, Shifted(x, c)).value == x / Pow2(n)
    ensures n > 0 ==> Iterate(LSR, n, Shifted(x, c)).carry == Bit(x, n - 1)
  {
    if n > 0 {
      IterateLsr(x, c, n - 1);
      HalvePow(x, n - 1);
      BitDiv(x, n - 1);
    }
  }

  lemma LsrPastEnd(x: Word, n: nat)
    requires n >= 32
    ensures x / Pow2(n) == 0 && !Bit(x, n)
  {
    Pow2Literals();
    Pow2Mono(32, n);
    DivUnique(x, Pow2(n), 0, x);
    BitDiv(x, n);
  }

  // ---- ASR: floor division of the signed value

  lemma {:induction false} IterateAsr(x: Word, c: bool, n: nat)
    ensures Signed(Iterate(ASR, n, Shifted(x, c)).value) == Signed(x) / Pow2(n)
    ensures n > 0 ==> (Iterate(ASR, n, Shifted(x, c)).carry <==> Signed(x) / Pow2(n - 1) % 2 == 1)
  {
    hide Pow2;
    if n > 0 {
      IterateAsr(x, c, n - 1);
      HalvePow(Signed(x), n - 1);
      AsrOneBit(Iterate(ASR, n - 1, Shifted(x, c)));
    } else {
      DivOne(Signed(x));
    }
  }

  lemma AsrOneBit(s: Shifted)
    ensures Signed(OneBit(ASR, s).value) == Signed(s.value) / 2
    ensures Signed(s.value) % 2 == s.value % 2
  {
  }

  lemma DivOne(x: int)
    ensures x / Pow2(0) == x
  {
  }

  lemma AsrIsFloor(x: Word, n: nat)
    requires n < 32
    ensures Signed(Asr(x, n)) == Signed(x) / Pow2(n)
    ensures Signed(x) / Pow2(n) % 2 == 1 <==> Bit(x, n)
  {
    hide Pow2, Bit;
    BitDiv(x, n);
    AsrBound(x, n);
    if Negative(x) {
      NegativeQuotient(x, n);
      FillSign(x / Pow2(n), Pow2(31 - n));
    } else {
      NonNegativeQuotient(x, n);
    }
  }

  lemma FillSign(q: nat, half: nat)
    requires half <= q && half <= 0x8000_0000 && q < 2 * half
    ensures Signed(q + (0x1_0000_0000 - 2 * half)) == q - 2 * half
    ensures (q - 2 * half) % 2 == q % 2
  {
  }

  lemma NegativeQuotient(x: Word, n: nat)
    requires n < 32 && Negative(x)
    ensures Pow2(31 - n) <= x / Pow2(n) && Pow2(31 - n) <= 0x8000_0000 && Pow2(32 - n) == 2 * Pow2(31 - n)
    ensures Signed(x) / Pow2(n) == x / Pow2(n) - Pow2(32 - n)
  {
    Pow2Literals();
    Pow2Add(n, 31 - n);
    Pow2Add(n, 32 - n);
    Pow2Mono(31 - n, 31);
    ShiftQuotient(x, Pow2(n), Pow2(32 - n));
    DivBounds(x, Pow2(n), Pow2(31 - n));
  }

  lemma ShiftQuotient(x: int, d: int, q: int)
    requires d > 0
    ensures (x - d * q) / d == x / d - q
  {
    var p, r := x / d, x % d;
    assert d * (p - q) == d * p - d * q;
    DivUnique(x - d * q, d, p - q, r);
  }

  lemma NonNegativeQuotient(x: Word, n: nat)
    ensures 0 <= x / Pow2(n) <= x
  {
    DivBounds(x, Pow2(n), 0);
    MulLe(x + 1, 1, Pow2(n));
    DivBounds(x, Pow2(n), x + 1);
  }

  lemma AsrPastEnd(x: Word, n: nat)
    requires n >= 31
    ensures Signed(x) / Pow2(n) == if Negative(x) then -1 else 0
  {
    Pow2Literals();
    Pow2Mono(31, n);
    if Negative(x) {
      DivUnique(Signed(x), Pow2(n), -1, Signed(x) + Pow2(n));
    } else {
      DivUnique(Signed(x), Pow2(n), 0, x);
    }
  }

  // ---- rotations of a number whose highest place is worth `top`

  function Rotate1(top: nat, y: nat): nat {
    y / 2 + (if y % 2 == 1 then top else 0)
  }

  function RotateN(top: nat, n: nat, y: nat): nat {
    if n == 0 then y else Rotate1(top, RotateN(top, n - 1, y))
  }

  /** Rotating a w-bit number n <= w places swaps its low n bits with the others. */
  lemma {:induction false} RotateSwaps(w: nat, n: nat, y: nat)
    requires n <= w && w > 0
    ensures RotateN(Pow2(w - 1), n, y) == y / Pow2(n) + y % Pow2(n) * Pow2(w - n)
  {
    if n > 0 {
      RotateSwaps(w, n - 1, y);
      Pow2Add(n - 1, w - n);
      RotateStep(y, Pow2(n - 1), Pow2(w - n));
    }
  }

  lemma RotateStep(y: nat, p: nat, q: nat)
    requires p > 0 && q > 0
    ensures Rotate1(p * q, y / p + y % p * (2 * q)) == y / (2 * p) + y % (2 * p) * q
  {
    SplitDouble(y, p);
    var h, l := y / p, y % p;
    var lq := l * q;
    var v := h + l * (2 * q);
    assert v == h + 2 * lq;
    assert v / 2 == h / 2 + lq && v % 2 == h % 2;
    if h % 2 == 1 {
      assert (p + l) * q == p * q + lq;
    }
  }

  lemma SplitDouble(y: nat, p: nat)
    requires p > 0
    ensures y / (2 * p) == y / p / 2 && y % (2 * p) == (if y / p % 2 == 1 then p else 0) + y % p
  {
    var h, l := y / p, y % p;
    var k := h / 2;
    assert y == p * h + l;
    assert 2 * p * k == p * (2 * k);
    if h % 2 == 1 {
      assert p * (2 * k + 1) == p * (2 * k) + p;
      DivUnique(y, 2 * p, k, p + l);
    } else {
      DivUnique(y, 2 * p, k, l);
    }
  }

  lemma RotateFullCircle(w: nat, y: nat)
    requires w > 0 && y < Pow2(w)
    ensures RotateN(Pow2(w - 1), w, y) == y
  {
    RotateSwaps(w, w, y);
    DivUnique(y, Pow2(w), 0, y);
  }

  lemma {:induction false} IterateRor(x: Word, c: bool, n: nat)
    ensures Iterate(ROR, n, Shifted(x, c)).value == RotateN(0x8000_0000, n, x)
    ensures n > 0 ==> (Iterate(ROR, n, Shifted(x, c)).carry <==> RotateN(0x8000_0000, n - 1, x) % 2 == 1)
  {
    if n > 0 {
      IterateRor(x, c, n - 1);
    }
  }

  lemma {:induction false} RotatePeriod(w: nat, n: nat, y: nat)
    requires w > 0 && y < Pow2(w)
    ensures RotateN(Pow2(w - 1), n + w, y) == RotateN(Pow2(w - 1), n, y)
  {
    if n == 0 {
      RotateFullCircle(w, y);
    } else {
      RotatePeriod(w, n - 1, y);
    }
  }

  lemma RotateBy32(x: Word, n: nat)
    ensures RotateN(0x8000_0000, n + 32, x) == RotateN(0x8000_0000, n, x)
  {
    hide RotateN;
    Pow2Literals();
    RotatePeriod(32, n, x);
  }

  lemma {:induction false} RotatePeriodic(x: Word, n: nat)
    ensures RotateN(0x8000_0000, n, x) == RotateN(0x8000_0000, n % 32, x)
  {
    hide RotateN;
    if n >= 32 {
      RotateBy32(x, n - 32);
      RotatePeriodic(x, n - 32);
    }
  }

  lemma RorIsRotation(x: Word, n: nat)
    requires n < 32
    ensures Ror(x, n) == RotateN(0x8000_0000, n, x)
    ensures RotateN(0x8000_0000, n, x) % 2 == 1 <==> Bit(x, n)
  {
    Pow2Literals();
    RotateSwaps(32, n, x);
    RorSwaps(x, n);
    BitDiv(x, n);
    assert Pow2(32 - n) == 2 * Pow2(31 - n);
    EvenMultiple(x / Pow2(n), x % Pow2(n), Pow2(31 - n));
  }

  lemma RorZero(x: Word)
    ensures Ror(x, 0) == x
  {
  }

  lemma RorSwaps(x: Word, n: nat)
    requires n < 32
    ensures Ror(x, n) == x / Pow2(n) + x % Pow2(n) * Pow2(32 - n)
  {
    hide Pow2, Or;
    LeftShiftKeepsLow(x, n);
    AsrBound(x, n);
    OrFields(x / Pow2(n), x % Pow2(n), 32 - n);
    if n == 0 {
      PowZero(x);
    }
  }

  lemma PowZero(x: Word)
    ensures x / Pow2(0) == x && x % Pow2(0) == 0
  {
  }

  lemma LeftShiftKeepsLow(x: Word, n: nat)
    requires n <= 32
    ensures LogicalShift(x, 32 - n, 'l') == x % Pow2(n) * Pow2(32 - n)
  {
    Pow2Literals();
    Pow2Add(n, 32 - n);
    ScaleMod(x, Pow2(n), Pow2(32 - n));
  }

  lemma EvenMultiple(h: nat, l: nat, q: nat)
    ensures (h + l * (2 * q)) % 2 == h % 2
  {
    assert l * (2 * q) == 2 * (l * q);
  }

  // ---------------------------------------------------------------- main results

  /** A shift by any amount is that many one-bit shifts through the carry. */
  lemma RegisterShiftIsIterated(kind: Kind, rm: Word, amount: Byte, c: bool)
    ensures ByRegister(kind, rm, amount, c) == Iterate(kind, amount, Shifted(rm, c))
  {
    if amount > 0 {
      match kind {
        case LSL => LslIterated(rm, amount, c);
        case LSR => LsrIterated(rm, amount, c);
        case ASR => AsrIterated(rm, amount, c);
        case ROR => RorIterated(rm, amount, c);
      }
    }
  }

  lemma OneRrx(s: Shifted)
    ensures Pack(Rrx(s.value, s.carry)) == RotateN(0x1_0000_0000, 1, Pack(s))
  {
    RrxRotatesPack(1, s);
    assert RrxN(0, s) == s;
    assert RrxN(1, s) == Rrx(s.value, s.carry);
  }

  lemma IterateZero(kind: Kind, s: Shifted)
    ensures Iterate(kind, 0, s) == s
  {
  }

  lemma LslIterated(rm: Word, n: Byte, c: bool)
    requires n > 0
    ensures ByRegister(LSL, rm, n, c) == Iterate(LSL, n, Shifted(rm, c))
  {
    IterateLsl(rm, c, n);
    LslCarry(rm, n);
  }

  lemma LsrIterated(rm: Word, n: Byte, c: bool)
    requires n > 0
    ensures ByRegister(LSR, rm, n, c) == Iterate(LSR, n, Shifted(rm, c))
  {
    IterateLsr(rm, c, n);
    if n >= 32 { LsrPastEnd(rm, n); }
    if n > 32 { LsrPastEnd(rm, n - 1); }
  }

  lemma SignedInjective(x: Word, y: Word)
    requires Signed(x) == Signed(y)
    ensures x == y
  {
  }

  lemma AsrIterated(rm: Word, n: Byte, c: bool)
    requires n > 0
    ensures ByRegister(ASR, rm, n, c) == Iterate(ASR, n, Shifted(rm, c))
  {
    var s := Iterate(ASR, n, Shifted(rm, c));
    IterateAsr(rm, c, n);
    TopBit(rm);
    if n < 32 {
      AsrIsFloor(rm, n);
      AsrIsFloor(rm, n - 1);
      SignedInjective(s.value, Asr(rm, n));
    } else {
      AsrPastEnd(rm, n);
      AsrPastEnd(rm, n - 1);
    }
  }

  lemma RorIterated(rm: Word, n: Byte, c: bool)
    requires n > 0
    ensures ByRegister(ROR, rm, n, c) == Iterate(ROR, n, Shifted(rm, c))
  {
    hide Or, Ror, Bit, RotateN, Pow2, Iterate;
    var k, j := n % 32, (n - 1) % 32;
    assert j == if k == 0 then 31 else k - 1;
    IterateRor(rm, c, n);
    RotatePeriodic(rm, n);
    RotatePeriodic(rm, n - 1);
    RorIsRotation(rm, k);
    RorIsRotation(rm, j);
    assert k == 0 ==> Ror(rm, k) == rm by { RorZero(rm); }
  }

  /** The immediate encodings, with LSR #0 and ASR #0 standing for 32, and ROR #0 for a rotation by one place of the 33 bits
      that the carry and the word make. */
  lemma ImmediateShiftIsIterated(kind: Kind, rm: Word, imm: nat, c: bool)
    requires imm < 32
    ensures !(kind.ROR? && imm == 0) ==>
              ByImmediate(kind, rm, imm, c)
              == Iterate(kind, if imm == 0 && !kind.LSL? then 32 else imm, Shifted(rm, c))
    ensures kind.ROR? && imm == 0 ==>
              Pack(ByImmediate(kind, rm, imm, c)) == RotateN(0x1_0000_0000, 1, Pack(Shifted(rm, c)))
  {
    OneRrx(Shifted(rm, c));
    hide Iterate, Or, Ror, Asr, Bit, Pow2, LogicalShift, Rrx, RotateN, Pack;
    IterateZero(kind, Shifted(rm, c));
    RegisterShiftIsIterated(kind, rm, imm, c);
    RegisterShiftIsIterated(kind, rm, 32, c);
  }

  /** An eight-bit immediate rotated right by twice a four-bit field, with its carry-out, is the same machine. */
  lemma {:induction false} ImmediateOperandIsIterated(imm8: Byte, rotate: nat, c: bool)
    requires rotate < 16
    ensures Iterate(ROR, 2 * rotate, Shifted(imm8, c)) ==
            Shifted(Ror(imm8, 2 * rotate), if rotate == 0 then c else Bit(Ror(imm8, 2 * rotate), 31))
  {
    hide Iterate, Bit, Ror;
    RegisterShiftIsIterated(ROR, imm8, 2 * rotate, c);
    if rotate == 0 {
      RorZero(imm8);
    } else {
      RorCarryOnTop(2 * rotate, Shifted(imm8, c));
      TopBit(Ror(imm8, 2 * rotate));
    }
  }

  lemma RorCarryOnTop(n: nat, s: Shifted)
    requires n > 0
    ensures Iterate(ROR, n, s).carry == Negative(Iterate(ROR, n, s).value)
  {
    var t := Iterate(ROR, n - 1, s);
    assert Iterate(ROR, n, s) == OneBit(ROR, t);
  }

  /** What the shifts mean as arithmetic, at every amount including those past 31. */
  lemma ShiftMeaning(rm: Word, amount: Byte, c: bool)
    ensures ByRegister(LSL, rm, amount, c).value == Wrap(rm * Pow2(amount))
    ensures ByRegister(LSR, rm, amount, c).value == rm / Pow2(amount)
    ensures Signed(ByRegister(ASR, rm, amount, c).value) == Signed(rm) / Pow2(amount)
  {
    RegisterShiftIsIterated(LSL, rm, amount, c);
    RegisterShiftIsIterated(LSR, rm, amount, c);
    RegisterShiftIsIterated(ASR, rm, amount, c);
    IterateLsl(rm, c, amount);
    IterateLsr(rm, c, amount);
    IterateAsr(rm, c, amount);
  }

  /** Rotations compose by adding their amounts modulo 32. */
  lemma RorComposes(x: Word, m: nat, n: nat)
    requires m < 32 && n < 32
    ensures Ror(Ror(x, m), n) == Ror(x, (m + n) % 32)
  {
    RorIsRotation(x, m);
    RorIsRotation(Ror(x, m), n);
    RorIsRotation(x, (m + n) % 32);
    IterateAdd(ROR, n, m, Shifted(x, false));
    IterateRor(x, false, m);
    IterateRor(x, false, m + n);
    IterateRor(Ror(x, m), Iterate(ROR, m, Shifted(x, false)).carry, n);
    RotatePeriodic(x, m + n);
  }

  // ---- RRX rotates the 33 bits formed by the carry and the word

  function RrxN(n: nat, s: Shifted): Shifted {
    if n == 0 then s else
      var t := RrxN(n - 1, s);
      Rrx(t.value, t.carry)
  }

  function Pack(s: Shifted): nat {
    s.value + if s.carry then 0x1_0000_0000 else 0
  }

  lemma {:induction false} RrxRotatesPack(n: nat, s: Shifted)
    ensures Pack(RrxN(n, s)) == RotateN(0x1_0000_0000, n, Pack(s))
  {
    if n > 0 {
      RrxRotatesPack(n - 1, s);
      var t := RrxN(n - 1, s);
      assert Bit(t.value, 0) <==> t.value % 2 == 1;
      assert Pack(Rrx(t.value, t.carry)) == Rotate1(0x1_0000_0000, Pack(t));
    }
  }

  /** Rotating through the carry 33 times restores the word and the carry; after n < 33 steps the packed
      33-bit number has its low n bits exchanged with the rest. */
  lemma RrxCycle(s: Shifted, n: nat)
    ensures RrxN(33, s) == s
    ensures n <= 33 ==> Pack(RrxN(n, s)) == Pack(s) / Pow2(n) + Pack(s) % Pow2(n) * Pow2(33 - n)
  {
    Pow2Literals();
    RrxRotatesPack(33, s);
    RotateFullCircle(33, Pack(s));
    RrxRotatesPack(n, s);
    if n <= 33 { RotateSwaps(33, n, Pack(s)); }
  }
}
