/** Any sequence of overlapping writes of mixed width behaves as a log in which the last write to a byte wins. */
module MemoryLog {
  import opened Words
  import opened Memory

  datatype Write = OfByte(a: Word, b: Byte) | OfHalf(a: Word, h: Half) | OfWord(a: Word, w: Word) {
    function Width(): nat {
      if OfByte? then 1 else if OfHalf? then 2 else 4
    }

    predicate Covers(k: nat) { a <= k < a + Width() }

    predicate Fits(size: nat) { a + Width() <= size }

    /** The byte this write leaves at address k: digit k - a of the value, counted from the end the byte order puts first. */
    function ByteAt(k: nat, big: bool): Byte
      requires Covers(k)
    {
      var digit := if big then a + Width() - 1 - k else k - a;
      Digit(if OfByte? then b else if OfHalf? then h else w, digit)
    }
  }

  function Digit(v: nat, i: nat): Byte {
    if i == 0 then v % 0x100 else Digit(v / 0x100, i - 1)
  }

  lemma WordDigits(v: Word)
    ensures Digit(v, 0) == v % 0x100
    ensures Digit(v, 1) == v / 0x100 % 0x100
    ensures Digit(v, 2) == v / 0x1_0000 % 0x100
    ensures Digit(v, 3) == v / 0x100_0000
  {
    assert Pow256(1) == 0x100 && Pow256(2) == 0x1_0000 && Pow256(3) == 0x100_0000;
    DigitIsDiv(v, 1);
    DigitIsDiv(v, 2);
    DigitIsDiv(v, 3);
  }

  function Pow256(i: nat): (p: nat)
    ensures p > 0
  {
    if i == 0 then 1 else 0x100 * Pow256(i - 1)
  }

  /** Digit i is what a shift by 8 i bits and a truncation to uint8_t leave. */
  lemma {:induction false} DigitIsDiv(v: nat, i: nat)
    ensures Digit(v, i) == v / Pow256(i) % 0x100
  {
    if i > 0 {
      DigitIsDiv(v / 0x100, i - 1);
      DivDiv(v, 0x100, Pow256(i - 1));
    }
  }

  function Apply(m: Mem, w: Write): Mem
    requires w.Fits(|m.bytes|)
  {
    match w
    case OfByte(a, v) => m.WriteByte(a, v)
    case OfHalf(a, v) => m.WriteHalf(a, v)
    case OfWord(a, v) => m.WriteWord(a, v)
  }

  function ApplyAll(m: Mem, log: seq<Write>): (r: Mem)
    requires forall w | w in log :: w.Fits(|m.bytes|)
    ensures |r.bytes| == |m.bytes| && r.flag == m.flag
  {
    if log == [] then m else Apply(ApplyAll(m, log[..|log| - 1]), log[|log| - 1])
  }

  lemma ApplyOne(m: Mem, w: Write, k: nat)
    requires w.Fits(|m.bytes|) && k < |m.bytes|
    ensures Apply(m, w).bytes[k] == if w.Covers(k) then w.ByteAt(k, m.flag == 1) else m.bytes[k]
  {
    if w.OfWord? && w.Covers(k) {
      WordDigits(w.w);
    } else if w.OfHalf? && w.Covers(k) {
      assert Digit(w.h, 1) == Digit(w.h / 0x100, 0);
    }
  }

  /** The base-256 number of the `width` bytes from a up, in the order of the memory. */
  function NumberAt(m: Mem, a: nat, width: nat): int
    requires m.Holds(a, width)
    decreases width
  {
    if width == 0 then 0
    else if m.flag == 0 then m.bytes[a] + 0x100 * NumberAt(m, a + 1, width - 1)
    else 0x100 * NumberAt(m, a, width - 1) + m.bytes[a + width - 1]
  }

  /** Every read inside the memory yields the number its bytes make. */
  lemma ReadsAreNumbers(m: Mem, a: Word)
    ensures m.Holds(a, 1) ==> m.ReadByte(a).Value? && m.ReadByte(a).value == NumberAt(m, a, 1)
    ensures m.Holds(a, 2) ==> m.ReadHalf(a).Value? && m.ReadHalf(a).value == NumberAt(m, a, 2)
    ensures m.Holds(a, 4) ==> m.ReadWord(a).Value? && m.ReadWord(a).value == NumberAt(m, a, 4)
  {
    TwoBytes(m, a);
    if m.Holds(a, 4) { FourBytes(m, a); TwoBytes(m, a + 2); }
    hide NumberAt;
  }

  lemma TwoBytes(m: Mem, a: nat)
    ensures m.Holds(a, 1) ==> NumberAt(m, a, 1) == m.bytes[a]
    ensures m.Holds(a, 2) && m.flag != 0 ==> NumberAt(m, a, 2) == 0x100 * m.bytes[a] as int + m.bytes[a + 1]
    ensures m.Holds(a, 2) && m.flag == 0 ==> NumberAt(m, a, 2) == m.bytes[a] + 0x100 * m.bytes[a + 1] as int
  {
    if m.Holds(a, 1) {
      assert NumberAt(m, a, 0) == 0;
      if m.Holds(a, 2) {
        assert NumberAt(m, a + 1, 0) == 0;
        assert NumberAt(m, a + 1, 1) == m.bytes[a + 1];
      }
    }
  }

  lemma FourBytes(m: Mem, a: nat)
    requires m.Holds(a, 4)
    ensures NumberAt(m, a, 4) ==
            if m.flag == 0 then NumberAt(m, a, 2) + 0x1_0000 * NumberAt(m, a + 2, 2)
            else 0x1_0000 * NumberAt(m, a, 2) + NumberAt(m, a + 2, 2)
  {
    TwoBytes(m, a);
    TwoBytes(m, a + 2);
    if m.flag != 0 {
      assert NumberAt(m, a, 3) == 0x100 * NumberAt(m, a, 2) + m.bytes[a + 2];
    } else {
      assert NumberAt(m, a + 1, 3) == m.bytes[a + 1] + 0x100 * NumberAt(m, a + 2, 2);
    }
  }

  /** The bytes from a on are the digits of v in the order of the memory, and no other byte differs. */
  predicate Stored(m: Mem, t: Mem, width: nat, v: Word, a: Word) {
    && t.flag == m.flag && |t.bytes| == |m.bytes|
    && forall k: nat | k < |m.bytes| ::
         t.bytes[k] == if a <= k < a + width then Digit(v, if m.flag == 1 then a + width - 1 - k else k - a) else m.bytes[k]
  }

  lemma StoreStores(m: Mem, v: Word, a: Word)
    ensures m.Holds(a, 1) ==> Stored(m, m.WriteByte(a, v % 0x100), 1, v, a)
    ensures m.Holds(a, 4) ==> Stored(m, m.WriteWord(a, v), 4, v, a)
  {
    hide Mem.WriteWord;
    if m.Holds(a, 4) { WordStores(m, v, a); }
  }

  lemma WordStores(m: Mem, v: Word, a: Word)
    requires m.Holds(a, 4)
    ensures Stored(m, m.WriteWord(a, v), 4, v, a)
  {
    assert m.WriteWord(a, v).flag == m.flag && |m.WriteWord(a, v).bytes| == |m.bytes|;
    hide Mem.WriteWord, Digit;
    forall k: nat | k < |m.bytes|
      ensures m.WriteWord(a, v).bytes[k] ==
              if a <= k < a + 4 then Digit(v, if m.flag == 1 then a + 4 - 1 - k else k - a) else m.bytes[k]
    {
      ApplyOne(m, OfWord(a, v), k);
    }
  }

  /** Write number i of the log is the last one to touch byte k. */
  predicate LastTo(log: seq<Write>, i: nat, k: nat) {
    i < |log| && log[i].Covers(k) && forall j :: i < j < |log| ==> !log[j].Covers(k)
  }

  lemma {:induction false} LastWriteWins(m: Mem, log: seq<Write>, k: nat)
    requires forall w | w in log :: w.Fits(|m.bytes|)
    requires k < |m.bytes|
    ensures forall i: nat | LastTo(log, i, k) :: ApplyAll(m, log).bytes[k] == log[i].ByteAt(k, m.flag == 1)
    ensures (forall w | w in log :: !w.Covers(k)) ==> ApplyAll(m, log).bytes[k] == m.bytes[k]
  {
    if log != [] {
      var n := |log| - 1;
      var init := log[..n];
      LastWriteWins(m, init, k);
      ApplyOne(ApplyAll(m, init), log[n], k);
      if log[n].Covers(k) {
        assert LastTo(log, n, k);
      } else {
        forall i: nat | LastTo(log, i, k)
          ensures ApplyAll(m, log).bytes[k] == log[i].ByteAt(k, m.flag == 1)
        {
          assert init[i] == log[i];
          assert forall j :: i < j < n ==> init[j] == log[j];
          assert LastTo(init, i, k);
        }
      }
    }
  }

  /** The byte a log leaves at k, looking from its end. */
  function Logged(m: Mem, log: seq<Write>, k: nat): Byte
    requires k < |m.bytes|
  {
    if log == [] then m.bytes[k]
    else if log[|log| - 1].Covers(k) then log[|log| - 1].ByteAt(k, m.flag == 1)
    else Logged(m, log[..|log| - 1], k)
  }

  lemma {:induction false} LoggedIsStored(m: Mem, log: seq<Write>, k: nat)
    requires forall w | w in log :: w.Fits(|m.bytes|)
    requires k < |m.bytes|
    ensures ApplyAll(m, log).bytes[k] == Logged(m, log, k)
  {
    if log != [] {
      var n := |log| - 1;
      LoggedIsStored(m, log[..n], k);
      ApplyOne(ApplyAll(m, log[..n]), log[n], k);
    }
  }

  /** Every read after the log, at any width, is put together from the bytes the log left. */
  lemma ReadsComeFromTheLog(m: Mem, log: seq<Write>, a: Word)
    requires m.Valid()
    requires forall w | w in log :: w.Fits(|m.bytes|)
    ensures m.Holds(a, 1) ==> ApplyAll(m, log).ReadByte(a) == Value(Logged(m, log, a))
    ensures m.Holds(a, 2) ==> ApplyAll(m, log).ReadHalf(a) == Value(
      if m.flag == 1 then 0x100 * Logged(m, log, a) + Logged(m, log, a + 1)
      else Logged(m, log, a) + 0x100 * Logged(m, log, a + 1))
    ensures m.Holds(a, 4) ==> ApplyAll(m, log).ReadWord(a) == Value(
      if m.flag == 1 then
        0x100_0000 * Logged(m, log, a) + 0x1_0000 * Logged(m, log, a + 1)
        + 0x100 * Logged(m, log, a + 2) + Logged(m, log, a + 3)
      else
        Logged(m, log, a) + 0x100 * Logged(m, log, a + 1)
        + 0x1_0000 * Logged(m, log, a + 2) + 0x100_0000 * Logged(m, log, a + 3))
  {
    forall k: nat | k < |m.bytes|
      ensures ApplyAll(m, log).bytes[k] == Logged(m, log, k)
    {
      LoggedIsStored(m, log, k);
    }
  }
}
