/** Machine words as naturals below 2^32, with the bitwise operators of C defined digit by digit.
    Keeping words as integers lets carries, borrows and overflow be stated exactly; the bit lemmas below
    say that And, Or, Xor, Not and SetBit are the operators the instruction set means. */
module Words {

  type Word = x: int | 0 <= x < 0x1_0000_0000
  type Half = x: int | 0 <= x < 0x1_0000
  type Byte = x: int | 0 <= x < 0x100

  /** Truncation to 32 bits, as an assignment to uint32_t does. */
  function Wrap(x: int): Word {
    x % 0x1_0000_0000
  }

  /** The two's complement reading of a word. */
  function Signed(x: Word): int {
    if x < 0x8000_0000 then x else x - 0x1_0000_0000
  }

  predicate Negative(x: Word) {
    0x8000_0000 <= x
  }

  function Pow2(n: nat): (p: nat)
    ensures p >= 1
  {
    if n == 0 then 1 else 2 * Pow2(n - 1)
  }

  lemma Pow2Literals()
    ensures Pow2(8) == 0x100 && Pow2(16) == 0x1_0000 && Pow2(24) == 0x100_0000
    ensures Pow2(31) == 0x8000_0000 && Pow2(32) == 0x1_0000_0000 && Pow2(33) == 0x2_0000_0000
  {
    assert Pow2(8) == 0x100;
    assert Pow2(16) == 0x1_0000;
    assert Pow2(24) == 0x100_0000;
  }

  lemma {:induction false} Pow2Add(m: nat, n: nat)
    ensures Pow2(m + n) == Pow2(m) * Pow2(n)
  {
    if m > 0 {
      Pow2Add(m - 1, n);
      assert Pow2(m) * Pow2(n) == 2 * (Pow2(m - 1) * Pow2(n));
    }
  }

  lemma {:induction false} Pow2Mono(m: nat, n: nat)
    requires m <= n
    ensures Pow2(m) <= Pow2(n)
  {
    if m < n {
      Pow2Mono(m, n - 1);
    }
  }

  /** Bit k of x, the C macro get_bit. */
  predicate Bit(x: nat, k: nat) {
    if k == 0 then x % 2 == 1 else Bit(x / 2, k - 1)
  }

  function And(x: nat, y: nat): (r: nat)
    ensures r <= x && r <= y
  {
    if x == 0 || y == 0 then 0
    else (if x % 2 == 1 && y % 2 == 1 then 1 else 0) + 2 * And(x / 2, y / 2)
  }

  function Or(x: nat, y: nat): nat {
    if x == 0 then y else if y == 0 then x
    else (if x % 2 == 1 || y % 2 == 1 then 1 else 0) + 2 * Or(x / 2, y / 2)
  }

  function Xor(x: nat, y: nat): nat {
    if x == 0 then y else if y == 0 then x
    else (if x % 2 != y % 2 then 1 else 0) + 2 * Xor(x / 2, y / 2)
  }

  function Not(x: Word): Word {
    0xFFFF_FFFF - x
  }

  /** The C macros set_bit and clr_bit. */
  function SetBit(x: nat, k: nat, v: bool): nat {
    if k == 0 then x - x % 2 + (if v then 1 else 0)
    else x % 2 + 2 * SetBit(x / 2, k - 1, v)
  }

  /** And, Or and Xor act on every bit separately. */
  lemma BitOps(x: nat, y: nat, k: nat)
    ensures Bit(And(x, y), k) <==> Bit(x, k) && Bit(y, k)
    ensures Bit(Or(x, y), k) <==> Bit(x, k) || Bit(y, k)
    ensures Bit(Xor(x, y), k) <==> Bit(x, k) != Bit(y, k)
  {
    BitAnd(x, y, k);
    BitOr(x, y, k);
    BitXor(x, y, k);
  }

  lemma AndDigits(x: nat, y: nat)
    ensures And(x, y) / 2 == And(x / 2, y / 2)
    ensures And(x, y) % 2 == 1 <==> x % 2 == 1 && y % 2 == 1
  {
  }

  lemma {:induction false} BitAnd(x: nat, y: nat, k: nat)
    ensures Bit(And(x, y), k) <==> Bit(x, k) && Bit(y, k)
  {
    AndDigits(x, y);
    if k > 0 {
      BitAnd(x / 2, y / 2, k - 1);
    }
  }

  lemma OrDigits(x: nat, y: nat)
    ensures Or(x, y) / 2 == Or(x / 2, y / 2)
    ensures Or(x, y) % 2 == 1 <==> x % 2 == 1 || y % 2 == 1
  {
  }

  lemma {:induction false} BitOr(x: nat, y: nat, k: nat)
    ensures Bit(Or(x, y), k) <==> Bit(x, k) || Bit(y, k)
  {
    OrDigits(x, y);
    if k > 0 {
      BitOr(x / 2, y / 2, k - 1);
    }
  }

  lemma XorDigits(x: nat, y: nat)
    ensures Xor(x, y) / 2 == Xor(x / 2, y / 2)
    ensures Xor(x, y) % 2 == 1 <==> x % 2 != y % 2
  {
  }

  lemma {:induction false} BitXor(x: nat, y: nat, k: nat)
    ensures Bit(Xor(x, y), k) <==> Bit(x, k) != Bit(y, k)
  {
    XorDigits(x, y);
    if k > 0 {
      BitXor(x / 2, y / 2, k - 1);
    }
  }

  lemma {:induction false} BitZero(k: nat)
    ensures !Bit(0, k)
  {
    if k > 0 { BitZero(k - 1); }
  }

  /** Bit k is a division and a remainder. */
  lemma {:induction false} BitDiv(x: nat, k: nat)
    ensures Bit(x, k) <==> x / Pow2(k) % 2 == 1
  {
    if k > 0 {
      BitDiv(x / 2, k - 1);
      DivDiv(x, 2, Pow2(k - 1));
    }
  }

  lemma TopBit(x: Word)
    ensures Bit(x, 31) <==> Negative(x)
  {
    BitDiv(x, 31);
    Pow2Literals();
  }

  lemma WrapAdd(x: int, y: int)
    ensures Wrap(x + Wrap(y)) == Wrap(x + y)
  {
    assert y == 0x1_0000_0000 * (y / 0x1_0000_0000) + Wrap(y);
  }

  lemma DivDiv(x: int, a: nat, b: nat)
    requires a > 0 && b > 0
    ensures a * b > 0 && x / (a * b) == x / a / b
  {
    var q, r := x / a / b, x / a % b;
    var s := x % a;
    assert x == a * (x / a) + s && x / a == b * q + r;
    assert x == a * (b * q + r) + s;
    assert a * (b * q + r) == a * b * q + a * r;
    assert a * r <= a * (b - 1);
    assert a * (b - 1) == a * b - a;
    DivUnique(x, a * b, q, a * r + s);
  }

  lemma DivUnique(x: int, d: int, q: int, r: int)
    requires 0 <= r < d && x == d * q + r
    ensures x / d == q && x % d == r
  {
    QuotientUnique(d, q, r, x / d, x % d);
  }

  lemma QuotientUnique(d: int, q: int, r: int, q': int, r': int)
    requires 0 <= r < d && 0 <= r' < d && d * q + r == d * q' + r'
    ensures q == q' && r == r'
  {
    if q < q' {
      MulLe(d, q + 1, q');
    } else if q' < q {
      MulLe(d, q' + 1, q);
    }
  }

  lemma DivBounds(x: int, d: int, q: int)
    requires d > 0
    ensures x < d * q ==> x / d < q
    ensures d * q <= x ==> q <= x / d
  {
    var p := x / d;
    assert d * p <= x < d * p + d;
    if x < d * q && q <= p {
      MulLe(d, q, p);
    }
    if d * q <= x && p + 1 <= q {
      MulLe(d, p + 1, q);
    }
  }

  /** (x mod p) scaled by q is (x q) mod (p q). */
  lemma ScaleMod(x: nat, p: nat, q: nat)
    requires p > 0 && q > 0
    ensures p * q > 0 && x * q % (p * q) == x % p * q && x * q / (p * q) == x / p
  {
    var h, l := x / p, x % p;
    assert x == p * h + l;
    assert x * q == p * q * h + l * q by {
      assert (p * h + l) * q == p * h * q + l * q;
      assert p * h * q == p * q * h;
    }
    MulLe(q, l, p - 1);
    assert q * (p - 1) == p * q - q;
    DivUnique(x * q, p * q, h, l * q);
  }

  lemma MulLe(d: int, a: int, b: int)
    requires 0 <= d && a <= b
    ensures d * a <= d * b
  {
  }

  /** A word is determined by its bits. */
  lemma {:induction false} BitsDetermine(x: nat, y: nat, n: nat)
    requires x < Pow2(n) && y < Pow2(n)
    requires forall k: nat | k < n :: Bit(x, k) == Bit(y, k)
    ensures x == y
  {
    if n > 0 {
      assert Bit(x, 0) == Bit(y, 0);
      forall k: nat | k < n - 1
        ensures Bit(x / 2, k) == Bit(y / 2, k)
      {
        assert Bit(x, k + 1) == Bit(y, k + 1);
      }
      BitsDetermine(x / 2, y / 2, n - 1);
    }
  }

  lemma {:induction false} BitwiseBound(x: nat, y: nat, n: nat)
    requires x < Pow2(n) && y < Pow2(n)
    ensures Or(x, y) < Pow2(n) && Xor(x, y) < Pow2(n)
  {
    if n > 0 { BitwiseBound(x / 2, y / 2, n - 1); }
  }

  lemma WordOps(x: Word, y: Word)
    ensures Or(x, y) < 0x1_0000_0000 && Xor(x, y) < 0x1_0000_0000
  {
    Pow2Literals();
    BitwiseBound(x, y, 32);
  }

  /** Complement flips each of the n low bits. */
  lemma {:induction false} BitComplement(x: nat, n: nat, k: nat)
    requires x < Pow2(n) && k < n
    ensures Bit(Pow2(n) - 1 - x, k) != Bit(x, k)
  {
    var h, p := x / 2, Pow2(n - 1);
    assert x == 2 * h + x % 2 && h < p;
    assert (Pow2(n) - 1 - x) / 2 == p - 1 - h && (Pow2(n) - 1 - x) % 2 != x % 2;
    if k > 0 {
      BitComplement(h, n - 1, k - 1);
    }
  }

  /** A half adder: the exclusive or is the sum without carries, the conjunction holds the carries. */
  lemma {:induction false} HalfAdder(x: nat, y: nat)
    ensures x + y == Xor(x, y) + 2 * And(x, y)
    ensures Or(x, y) == Xor(x, y) + And(x, y)
  {
    if x != 0 && y != 0 { HalfAdder(x / 2, y / 2); }
  }

  /** Or-ing disjoint fields together adds them. */
  lemma {:induction false} OrFields(lo: nat, hi: nat, n: nat)
    requires lo < Pow2(n)
    ensures Or(lo, hi * Pow2(n)) == lo + hi * Pow2(n)
  {
    if n > 0 {
      var h := hi * Pow2(n - 1);
      assert hi * Pow2(n) == 2 * h;
      OrFields(lo / 2, hi, n - 1);
      OrDouble(lo, h);
    }
  }

  lemma OrDouble(lo: nat, h: nat)
    ensures Or(lo, 2 * h) == lo % 2 + 2 * Or(lo / 2, h)
  {
  }

  /** Setting one bit changes that bit and no other. */
  lemma {:induction false} BitSetBit(x: nat, k: nat, v: bool, j: nat)
    ensures Bit(SetBit(x, k, v), j) == if j == k then v else Bit(x, j)
  {
    if k > 0 && j > 0 {
      assert SetBit(x, k, v) / 2 == SetBit(x / 2, k - 1, v);
      BitSetBit(x / 2, k - 1, v, j - 1);
    } else if j > 0 {
      assert SetBit(x, k, v) / 2 == x / 2;
    }
  }

  lemma {:induction false} SetBitBound(x: nat, k: nat, v: bool, n: nat)
    requires x < Pow2(n) && k < n
    ensures SetBit(x, k, v) < Pow2(n)
  {
    var h, p := x / 2, Pow2(n - 1);
    assert x == 2 * h + x % 2 && h + 1 <= p;
    if k > 0 {
      SetBitBound(h, k - 1, v, n - 1);
      var s := SetBit(h, k - 1, v);
      assert SetBit(x, k, v) == x % 2 + 2 * s && s + 1 <= p;
    }
  }
}
