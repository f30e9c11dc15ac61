/** The two byte orders of memory.c are one memory seen through two address maps: a big-endian memory
    accessed at a answers as a little-endian one accessed at a XOR 3, a XOR 2 or a, for bytes, halves and words. */
module EndianDuality {
  import opened Words
  import opened Memory
  import MemoryLog

  datatype Width = B | H | W {
    function Size(): nat {
      if B? then 1 else if H? then 2 else 4
    }

    function Limit(): nat {
      if B? then 0x100 else if H? then 0x1_0000 else 0x1_0000_0000
    }
  }

  datatype Access =
    | Load(width: Width, a: Word)
    | Store(width: Width, a: Word, v: Word)
  {
    predicate Legal(size: nat) {
      && (width.H? ==> a % 2 == 0) && (width.W? ==> a % 4 == 0)
      && a + width.Size() <= size
      && (Store? ==> v < width.Limit())
    }
  }

  /** a XOR (4 - width): the bytes, or the halves, of one aligned word in the opposite order. */
  function Across(a: nat, width: Width): nat {
    match width
    case B => a + 3 - 2 * (a % 4)
    case H => if a % 4 < 2 then a + 2 else a - 2
    case W => a
  }

  lemma AcrossIsXor(a: nat, width: Width)
    ensures Across(a, width) == Xor(a, 4 - width.Size())
  {
    hide Xor;
    var h := a / 2;
    XorZero(a);
    XorZero(h / 2);
    XorStep(h, 1);
    XorStep(a, 3);
    XorStep(a, 2);
    assert a == 4 * (h / 2) + 2 * (h % 2) + a % 2;
  }

  lemma XorZero(a: nat)
    ensures Xor(a, 0) == a
  {
  }

  lemma AcrossInjective(k: nat, a: nat)
    ensures Across(k, B) == Across(a, B) <==> k == a
  {
  }

  lemma XorStep(x: nat, y: nat)
    ensures Xor(x, y) == (if x % 2 != y % 2 then 1 else 0) + 2 * Xor(x / 2, y / 2)
  {
  }

  function Mirror(acc: Access): Access {
    acc.(a := Wrap(Across(acc.a, acc.width)))
  }

  predicate Dual(be: Mem, le: Mem) {
    && be.flag == 1 && le.flag == 0
    && |be.bytes| == |le.bytes| && |be.bytes| % 4 == 0
    && forall k: nat {:trigger be.bytes[k]} | k < |be.bytes| :: be.bytes[k] == le.bytes[Across(k, B)]
  }

  /** The new memory, and the value read (or stored). */
  function Perform(m: Mem, acc: Access): (Mem, Read<Word>)
    requires acc.Legal(|m.bytes|)
  {
    match acc
    case Load(B, a) => (m, Widen(m.ReadByte(a)))
    case Load(H, a) => (m, Widen(m.ReadHalf(a)))
    case Load(W, a) => (m, m.ReadWord(a))
    case Store(B, a, v) => (m.WriteByte(a, v), Value(v))
    case Store(H, a, v) => (m.WriteHalf(a, v), Value(v))
    case Store(W, a, v) => (m.WriteWord(a, v), Value(v))
  }

  /** The write a store makes. */
  function WriteOf(acc: Access): MemoryLog.Write
    requires acc.Store? && acc.v < acc.width.Limit()
  {
    match acc.width
    case B => MemoryLog.OfByte(acc.a, acc.v)
    case H => MemoryLog.OfHalf(acc.a, acc.v)
    case W => MemoryLog.OfWord(acc.a, acc.v)
  }

  /** A load changes nothing and yields the number its bytes make. A store yields what it stores, and makes one write of its
      log, byte by byte: its digits where it covers the memory, and the old bytes elsewhere. */
  lemma PerformIsLogged(m: Mem, acc: Access)
    requires acc.Legal(|m.bytes|)
    ensures acc.Load? ==> Perform(m, acc).0 == m &&
                          Perform(m, acc).1.Value? && Perform(m, acc).1.value == MemoryLog.NumberAt(m, acc.a, acc.width.Size())
    ensures acc.Store? ==> Perform(m, acc).1 == Value(acc.v)
    ensures acc.Store? ==>
              var t, w := Perform(m, acc).0, WriteOf(acc);
              && t.flag == m.flag && |t.bytes| == |m.bytes| && w.a == acc.a && w.Width() == acc.width.Size()
              && forall k: nat | k < |m.bytes| ::
                   t.bytes[k] == if w.Covers(k) then w.ByteAt(k, m.flag == 1) else m.bytes[k]
  {
    if acc.Load? {
      MemoryLog.ReadsAreNumbers(m, acc.a);
      hide MemoryLog.NumberAt, Mem.ReadByte, Mem.ReadHalf, Mem.ReadWord;
    } else {
      var w := WriteOf(acc);
      forall k: nat | k < |m.bytes|
        ensures MemoryLog.Apply(m, w).bytes[k] == if w.Covers(k) then w.ByteAt(k, m.flag == 1) else m.bytes[k]
      {
        MemoryLog.ApplyOne(m, w, k);
      }
    }
  }

  function Widen(r: Read<int>): (w: Read<Word>)
    requires r.Value? ==> 0 <= r.value < 0x1_0000_0000
  {
    match r
    case Value(v) => Value(v)
    case Refused => Refused
    case PastEnd => PastEnd
  }

  /** The four bytes of an aligned word are reversed. */
  lemma DualBytes(be: Mem, le: Mem, a: nat)
    requires Dual(be, le) && a % 4 == 0 && a < |be.bytes|
    ensures a + 4 <= |be.bytes|
    ensures be.bytes[a] == le.bytes[a + 3] && be.bytes[a + 1] == le.bytes[a + 2]
    ensures be.bytes[a + 2] == le.bytes[a + 1] && be.bytes[a + 3] == le.bytes[a]
  {
    assert be.bytes[a] == le.bytes[Across(a, B)];
    assert be.bytes[a + 1] == le.bytes[Across(a + 1, B)];
    assert be.bytes[a + 2] == le.bytes[Across(a + 2, B)];
    assert be.bytes[a + 3] == le.bytes[Across(a + 3, B)];
  }

  lemma DualLoadByte(be: Mem, le: Mem, a: Word)
    requires Dual(be, le) && a < |be.bytes| < 0x1_0000_0000
    ensures Across(a, B) < |le.bytes|
    ensures be.ReadByte(a) == le.ReadByte(Across(a, B))
  {
    assert be.bytes[a] == le.bytes[Across(a, B)];
  }

  lemma DualLoadHalf(be: Mem, le: Mem, a: Word)
    requires Dual(be, le) && a % 2 == 0 && a + 2 <= |be.bytes| < 0x1_0000_0000
    ensures Across(a, H) + 2 <= |le.bytes|
    ensures be.ReadHalf(a) == le.ReadHalf(Across(a, H))
  {
    DualBytes(be, le, a - a % 4);
  }

  lemma DualLoadWord(be: Mem, le: Mem, a: Word)
    requires Dual(be, le) && a % 4 == 0
    ensures be.ReadWord(a) == le.ReadWord(a)
  {
    if a < |be.bytes| {
      DualBytes(be, le, a);
    }
  }

  lemma DualStoreByte(be: Mem, le: Mem, a: Word, v: Byte)
    requires Dual(be, le) && a < |be.bytes| < 0x1_0000_0000
    ensures Dual(be.WriteByte(a, v), le.WriteByte(Across(a, B), v))
  {
    forall k: nat | k < |be.bytes|
      ensures be.WriteByte(a, v).bytes[k] == le.WriteByte(Across(a, B), v).bytes[Across(k, B)]
    {
      AcrossInjective(k, a);
    }
  }

  /** Wider stores are byte stores, so their duality is that of each byte. */
  lemma DualStoreHalf(be: Mem, le: Mem, a: Word, v: Half)
    requires Dual(be, le) && a % 2 == 0 && a + 2 <= |be.bytes| < 0x1_0000_0000
    ensures Dual(be.WriteHalf(a, v), le.WriteHalf(Across(a, H), v))
  {
    var c: Word := Across(a, H);
    assert Across(a, B) == c + 1 && Across(a + 1, B) == c;
    var be1, le1 := be.WriteByte(a, v / 0x100), le.WriteByte(c + 1, v / 0x100);
    DualStoreByte(be, le, a, v / 0x100);
    DualStoreByte(be1, le1, a + 1, v % 0x100);
    assert le1.WriteByte(c, v % 0x100) == le.WriteHalf(c, v) by {
      var l, h := v % 0x100, v / 0x100;
      assert le.bytes[c + 1 := h][c := l] == le.bytes[c := l][c + 1 := h];
    }
  }

  lemma DualStoreWord(be: Mem, le: Mem, a: Word, v: Word)
    requires Dual(be, le) && a % 4 == 0 && a + 4 <= |be.bytes| < 0x1_0000_0000
    ensures Dual(be.WriteWord(a, v), le.WriteWord(a, v))
  {
    forall k: nat | k < |be.bytes|
      ensures be.WriteWord(a, v).bytes[k] == le.WriteWord(a, v).bytes[Across(k, B)]
    {
      DualStoreWordAt(be, le, a, v, k);
    }
  }

  lemma DualStoreWordAt(be: Mem, le: Mem, a: Word, v: Word, k: nat)
    requires Dual(be, le) && a % 4 == 0 && a + 4 <= |be.bytes| < 0x1_0000_0000 && k < |be.bytes|
    ensures Across(k, B) < |le.bytes|
    ensures be.WriteWord(a, v).bytes[k] == le.WriteWord(a, v).bytes[Across(k, B)]
  {
    assert be.bytes[k] == le.bytes[Across(k, B)];
    DualSizes(be, le);
    hide Mem.WriteWord, WordByte, Dual;
    AcrossWord(a, k);
    var k' := Across(k, B);
    WordByteAt(be, a, v, k);
    WordByteAt(le, a, v, k');
  }

  lemma AcrossWord(a: nat, k: nat)
    requires a % 4 == 0
    ensures a <= k < a + 4 ==> Across(k, B) - a == a + 3 - k
    ensures !(a <= k < a + 4) ==> !(a <= Across(k, B) < a + 4)
  {
  }

  function WordByte(v: Word, i: nat): Byte
    requires i < 4
  {
    match i
    case 0 => v % 0x100
    case 1 => v / 0x100 % 0x100
    case 2 => v / 0x1_0000 % 0x100
    case _ => v / 0x100_0000
  }

  lemma WordByteAt(m: Mem, a: Word, v: Word, k: nat)
    requires m.Holds(a, 4) && k < |m.bytes|
    ensures m.WriteWord(a, v).bytes[k] ==
            if k < a || a + 4 <= k then m.bytes[k]
            else WordByte(v, if m.flag == 1 then a + 3 - k else k - a)
  {
  }

  lemma DualStep(be: Mem, le: Mem, acc: Access)
    requires Dual(be, le) && acc.Legal(|be.bytes|) && |be.bytes| < 0x1_0000_0000
    ensures Mirror(acc).Legal(|le.bytes|)
    ensures Perform(be, acc).1 == Perform(le, Mirror(acc)).1
    ensures Dual(Perform(be, acc).0, Perform(le, Mirror(acc)).0)
  {
    DualSizes(be, le);
    hide Dual, Mem.ReadByte, Mem.ReadHalf, Mem.ReadWord, Mem.WriteByte, Mem.WriteHalf, Mem.WriteWord;
    MirrorLegal(acc, |be.bytes|);
    hide Across;
    var a := acc.a;
    if acc.Load? {
      if acc.width.B? {
        DualLoadByte(be, le, a);
      } else if acc.width.H? {
        DualLoadHalf(be, le, a);
      } else {
        DualLoadWord(be, le, a);
      }
    } else {
      if acc.width.B? {
        DualStoreByte(be, le, a, acc.v);
      } else if acc.width.H? {
        DualStoreHalf(be, le, a, acc.v);
      } else {
        DualStoreWord(be, le, a, acc.v);
      }
    }
  }

  lemma MirrorLegal(acc: Access, size: nat)
    requires acc.Legal(size) && size % 4 == 0 && size < 0x1_0000_0000
    ensures Mirror(acc).Legal(size) && Mirror(acc) == acc.(a := Across(acc.a, acc.width))
    ensures acc.width.W? ==> Mirror(acc).a == acc.a
  {
    AcrossFits(acc.a, acc.width, size);
    hide Across;
  }

  lemma AcrossFits(a: nat, width: Width, size: nat)
    requires size % 4 == 0 && a + width.Size() <= size && (width.H? ==> a % 2 == 0) && (width.W? ==> a % 4 == 0)
    ensures Across(a, width) + width.Size() <= size
    ensures (width.H? ==> Across(a, width) % 2 == 0) && (width.W? ==> Across(a, width) == a)
  {
    if !width.W? {
      var q, r, n := a / 4, a % 4, size / 4;
      assert q < n;
      if width.H? {
        HalfParts(a, q, r);
      }
    }
  }

  lemma HalfParts(a: nat, q: nat, r: nat)
    requires r < 4 && a == 4 * q + r && a % 2 == 0
    ensures r == 0 || r == 2
    ensures a % 2 == (a + 2) % 2 == (a - 2) % 2
  {
    var h := a / 2;
    assert a == 2 * h;
    DivUnique(a + 2, 2, h + 1, 0);
    DivUnique(a - 2, 2, h - 1, 0);
    assert r == 2 * (h - 2 * q);
  }

  lemma DualSizes(be: Mem, le: Mem)
    requires Dual(be, le)
    ensures |be.bytes| == |le.bytes| && |be.bytes| % 4 == 0
  {
  }

  function PerformAll(m: Mem, accs: seq<Access>): (Mem, seq<Read<Word>>)
    requires forall acc | acc in accs :: acc.Legal(|m.bytes|)
    decreases accs
  {
    if accs == [] then (m, [])
    else
      var (m1, r) := Perform(m, accs[0]);
      var (m2, rs) := PerformAll(m1, accs[1..]);
      (m2, [r] + rs)
  }

  /** A run of accesses is one access after the other: access i meets the memory the first i leave. */
  lemma {:induction false} PerformAllByOne(m: Mem, accs: seq<Access>, i: nat)
    requires (forall acc | acc in accs :: acc.Legal(|m.bytes|)) && i < |accs|
    ensures |PerformAll(m, accs).1| == |accs|
    ensures var before := PerformAll(m, accs[..i]).0;
            && |before.bytes| == |m.bytes|
            && PerformAll(m, accs).1[i] == Perform(before, accs[i]).1
            && PerformAll(m, accs[..i + 1]).0 == Perform(before, accs[i]).0
    decreases accs
  {
    hide Perform;
    PerformKeepsSize(m, accs[0]);
    var m1 := Perform(m, accs[0]).0;
    PerformAllSize(m1, accs[1..]);
    if i == 0 {
      assert accs[..1][1..] == [] && accs[..1][0] == accs[0];
    } else {
      assert accs[..i][1..] == accs[1..][..i - 1] && accs[..i + 1][1..] == accs[1..][..i];
      PerformAllByOne(m1, accs[1..], i - 1);
    }
  }

  lemma PerformKeepsSize(m: Mem, acc: Access)
    requires acc.Legal(|m.bytes|)
    ensures |Perform(m, acc).0.bytes| == |m.bytes|
  {
  }

  lemma {:induction false} PerformAllSize(m: Mem, accs: seq<Access>)
    requires forall acc | acc in accs :: acc.Legal(|m.bytes|)
    ensures |PerformAll(m, accs).1| == |accs| && |PerformAll(m, accs).0.bytes| == |m.bytes|
    decreases accs
  {
    if accs != [] {
      PerformKeepsSize(m, accs[0]);
      PerformAllSize(Perform(m, accs[0]).0, accs[1..]);
    }
  }

  function MirrorAll(accs: seq<Access>): (r: seq<Access>)
    ensures |r| == |accs| && forall i :: 0 <= i < |accs| ==> r[i] == Mirror(accs[i])
  {
    seq(|accs|, i requires 0 <= i < |accs| => Mirror(accs[i]))
  }

  /** Over any run of aligned accesses the two memories return the same values and stay dual. */
  lemma {:induction false} DualRun(be: Mem, le: Mem, accs: seq<Access>)
    requires Dual(be, le) && |be.bytes| < 0x1_0000_0000
    requires forall acc | acc in accs :: acc.Legal(|be.bytes|)
    ensures forall acc | acc in MirrorAll(accs) :: acc.Legal(|le.bytes|)
    ensures PerformAll(be, accs).1 == PerformAll(le, MirrorAll(accs)).1
    ensures Dual(PerformAll(be, accs).0, PerformAll(le, MirrorAll(accs)).0)
    decreases accs
  {
    forall i | 0 <= i < |accs|
      ensures MirrorAll(accs)[i].Legal(|le.bytes|)
    {
      DualStep(be, le, accs[i]);
    }
    if accs != [] {
      DualStep(be, le, accs[0]);
      assert MirrorAll(accs)[1..] == MirrorAll(accs[1..]);
      DualRun(Perform(be, accs[0]).0, Perform(le, Mirror(accs[0])).0, accs[1..]);
    }
  }

  /** Duality is agreement of all aligned words. */
  lemma DualMeansEqualWords(be: Mem, le: Mem)
    requires be.flag == 1 && le.flag == 0
    requires |be.bytes| == |le.bytes| < 0x1_0000_0000 && |be.bytes| % 4 == 0
    ensures Dual(be, le) <==>
            forall a: Word | a % 4 == 0 && a < |be.bytes| :: be.ReadWord(a) == le.ReadWord(a)
  {
    if Dual(be, le) {
      forall a: Word | a % 4 == 0 && a < |be.bytes|
        ensures be.ReadWord(a) == le.ReadWord(a)
      {
        DualLoadWord(be, le, a);
      }
    }
    hide Mem.ReadWord;
    if forall a: Word | a % 4 == 0 && a < |be.bytes| :: be.ReadWord(a) == le.ReadWord(a) {
      forall k: nat | k < |be.bytes|
        ensures be.bytes[k] == le.bytes[Across(k, B)]
      {
        var a := k - k % 4;
        assert a % 4 == 0 && a + 4 <= |be.bytes|;
        EqualWordBytes(be, le, a);
        AcrossWord(a, k);
      }
    }
  }

  lemma EqualWordBytes(be: Mem, le: Mem, a: Word)
    requires be.flag == 1 && le.flag == 0
    requires be.Holds(a, 4) && le.Holds(a, 4) && be.ReadWord(a) == le.ReadWord(a)
    ensures be.bytes[a] == le.bytes[a + 3] && be.bytes[a + 1] == le.bytes[a + 2]
    ensures be.bytes[a + 2] == le.bytes[a + 1] && be.bytes[a + 3] == le.bytes[a]
  {
    hide JoinWord;
    JoinInjective(be.bytes[a + 3], be.bytes[a + 2], be.bytes[a + 1], be.bytes[a],
                  le.bytes[a], le.bytes[a + 1], le.bytes[a + 2], le.bytes[a + 3]);
  }

  lemma JoinInjective(a0: Byte, a1: Byte, a2: Byte, a3: Byte, b0: Byte, b1: Byte, b2: Byte, b3: Byte)
    requires JoinWord(a0, a1, a2, a3) == JoinWord(b0, b1, b2, b3)
    ensures a0 == b0 && a1 == b1 && a2 == b2 && a3 == b3
  {
    QuotientUnique(0x100, a1 + 0x100 * a2 + 0x1_0000 * a3, a0, b1 + 0x100 * b2 + 0x1_0000 * b3, b0);
    QuotientUnique(0x100, a2 + 0x100 * a3, a1, b2 + 0x100 * b3, b1);
    QuotientUnique(0x100, a3, a2, b3, b2);
  }
}
