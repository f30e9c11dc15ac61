/** Addition out of the logical opcodes: EOR gives the sum without carries, AND then LSL #1 the carries. */
module LogicalAdd {
  import opened Words
  import opened Alu
  import opened Shifter

  datatype Pair = Pair(a: Word, b: Word)

  function Round(p: Pair, c: bool): Pair {
    Pair(Result(EOR, p.a, p.b, c), ByImmediate(LSL, Result(AND, p.a, p.b, c), 1, c).value)
  }

  function Rounds(p: Pair, c: bool, k: nat): Pair {
    if k == 0 then p else Round(Rounds(p, c, k - 1), c)
  }

  lemma RoundMeaning(p: Pair, c: bool)
    ensures Round(p, c) == Pair(Xor(p.a, p.b), Wrap(2 * And(p.a, p.b)))
    ensures Wrap(Round(p, c).a + Round(p, c).b) == Wrap(p.a + p.b)
  {
    hide Xor, And, Or;
    assert Pow2(1) == 2;
    HalfAdder(p.a, p.b);
    WrapAdd(Xor(p.a, p.b), 2 * And(p.a, p.b));
  }

  lemma {:induction false} AndKeepsLowZeros(a: nat, b: nat, k: nat)
    requires b % Pow2(k) == 0
    ensures And(a, b) % Pow2(k) == 0
  {
    if k > 0 {
      hide And;
      AndDigits(a, b);
      SplitModPow(b, k);
      SplitModPow(And(a, b), k);
      AndKeepsLowZeros(a / 2, b / 2, k - 1);
    }
  }

  lemma SplitModPow(x: nat, k: nat)
    requires k > 0
    ensures x % Pow2(k) == x % 2 + 2 * (x / 2 % Pow2(k - 1))
  {
    var h, p := x / 2, Pow2(k - 1);
    var q, r := h / p, h % p;
    assert x == 2 * (p * q + r) + x % 2;
    assert 2 * (p * q) == 2 * p * q;
    DivUnique(x, 2 * p, q, 2 * r + x % 2);
  }

  lemma LowZerosGrow(x: nat, k: nat)
    requires x % Pow2(k) == 0 && k < 32
    ensures Wrap(2 * x) % Pow2(k + 1) == 0
  {
    var p, q := Pow2(k + 1), Pow2(31 - k);
    Pow2Literals();
    Pow2Add(k + 1, 31 - k);
    SplitModPow(2 * x, k + 1);
    ModOfMod(2 * x, p, q);
  }

  lemma ModOfMod(x: nat, p: nat, q: nat)
    requires p > 0 && q > 0 && x % p == 0
    ensures p * q > 0 && x % (p * q) % p == 0
  {
    var s := x / (p * q);
    assert x == p * q * s + x % (p * q);
    assert x == p * (x / p);
    assert p * q * s == p * (q * s);
    assert x % (p * q) == p * (x / p - q * s) by {
      assert p * (x / p - q * s) == p * (x / p) - p * (q * s);
    }
    DivUnique(x % (p * q), p, x / p - q * s, 0);
  }

  lemma {:induction false} RoundsInvariant(p: Pair, c: bool, k: nat)
    requires k <= 32
    ensures var q := Rounds(p, c, k);
            Wrap(q.a + q.b) == Wrap(p.a + p.b) && q.b % Pow2(k) == 0
  {
    if k > 0 {
      hide And, Xor, Pow2, Round;
      var q := Rounds(p, c, k - 1);
      RoundsInvariant(p, c, k - 1);
      RoundMeaning(q, c);
      AndKeepsLowZeros(q.a, q.b, k - 1);
      LowZerosGrow(And(q.a, q.b), k - 1);
    } else {
      assert Pow2(0) == 1;
    }
  }

  /** After k rounds the low k bits of b are 0; after 32 nothing is left of b and a holds what ADD computes. */
  lemma AdditionFromLogic(a: Word, b: Word, c: bool)
    ensures Rounds(Pair(a, b), c, 32) == Pair(Result(ADD, a, b, c), 0)
    ensures forall k: nat | k <= 32 :: Rounds(Pair(a, b), c, k).b % Pow2(k) == 0
  {
    hide And, Xor, Or, Round, Rounds;
    forall k: nat | k <= 32
      ensures Rounds(Pair(a, b), c, k).b % Pow2(k) == 0
    {
      RoundsInvariant(Pair(a, b), c, k);
    }
    Pow2Literals();
    RoundsInvariant(Pair(a, b), c, 32);
  }
}
