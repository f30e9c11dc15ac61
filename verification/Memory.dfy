/** memory.c: a byte buffer read and written by bytes, half words and words in either byte order.
    `Mem` is the value of a memory and carries the meaning of each access; the class `Memory` performs
    the accesses in place and is proved against it. */
module Memory {
  import opened Words

  /** What a read does. `Refused` is the -1 of the failed guard. The guard compares the address alone with
      the size, so it also lets through reads that run past the buffer, which C leaves undefined:
      those are `PastEnd`. The value is the out-parameter; the int result, which cannot tell
      0xFFFFFFFF from -1, is not used. */
  datatype Read<+T> = Value(value: T) | Refused | PastEnd

  /** The endianness word is an int: reads compare it with 0, writes compare it with 1. */
  datatype Mem = Mem(flag: int, bytes: seq<Byte>) {
    predicate Valid() { flag == 0 || flag == 1 }

    predicate Holds(a: nat, width: nat) { a + width <= |bytes| }

    function ReadByte(a: Word): Read<Byte> {
      if a <= |bytes| then
        if Holds(a, 1) then Value(bytes[a]) else PastEnd
      else Refused
    }

    function ReadHalf(a: Word): Read<Half> {
      if a <= |bytes| then
        if Holds(a, 2) then
          Value(if flag == 0 then JoinHalf(bytes[a], bytes[a + 1]) else JoinHalf(bytes[a + 1], bytes[a]))
        else PastEnd
      else Refused
    }

    function ReadWord(a: Word): Read<Word> {
      if a <= |bytes| then
        if Holds(a, 4) then
          Value(if flag == 0 then JoinWord(bytes[a], bytes[a + 1], bytes[a + 2], bytes[a + 3])
                else JoinWord(bytes[a + 3], bytes[a + 2], bytes[a + 1], bytes[a]))
        else PastEnd
      else Refused
    }

    function WriteByte(a: Word, v: Byte): (m: Mem)
      requires Holds(a, 1)
    {
      this.(bytes := bytes[a := v])
    }

    function WriteHalf(a: Word, v: Half): (m: Mem)
      requires Holds(a, 2)
    {
      if flag == 1 then this.(bytes := bytes[a := v / 0x100][a + 1 := v % 0x100])
      else this.(bytes := bytes[a := v % 0x100][a + 1 := v / 0x100])
    }

    function WriteWord(a: Word, v: Word): (m: Mem)
      requires Holds(a, 4)
    {
      var b0, b1, b2, b3 := v % 0x100, v / 0x100 % 0x100, v / 0x1_0000 % 0x100, v / 0x100_0000;
      if flag == 1 then this.(bytes := bytes[a := b3][a + 1 := b2][a + 2 := b1][a + 3 := b0])
      else this.(bytes := bytes[a := b0][a + 1 := b1][a + 2 := b2][a + 3 := b3])
    }
  }

  /** The reads or together bytes shifted into place; the fields are disjoint, so this is the base-256 value. */
  function JoinHalf(b0: Byte, b1: Byte): (r: Half)
    ensures r == b0 + 0x100 * b1
  {
    Pow2Literals();
    OrFields(b0, b1, 8);
    Or(b0, b1 * 0x100)
  }

  function JoinWord(b0: Byte, b1: Byte, b2: Byte, b3: Byte): (r: Word)
    ensures r == b0 + 0x100 * b1 + 0x1_0000 * b2 + 0x100_0000 * b3
  {
    Pow2Literals();
    OrFields(b0, b1, 8);
    OrFields(b0 + 0x100 * b1, b2, 16);
    OrFields(b0 + 0x100 * b1 + 0x1_0000 * b2, b3, 24);
    Or(Or(Or(b0, b1 * 0x100), b2 * 0x1_0000), b3 * 0x100_0000)
  }

  function Reverse(v: Word): Word {
    v % 0x100 * 0x100_0000 + v / 0x100 % 0x100 * 0x1_0000 + v / 0x1_0000 % 0x100 * 0x100 + v / 0x100_0000
  }

  lemma SplitWord(v: Word)
    ensures v == v % 0x100 + 0x100 * (v / 0x100 % 0x100) + 0x1_0000 * (v / 0x1_0000 % 0x100)
                 + 0x100_0000 * (v / 0x100_0000)
  {
    assert v / 0x1_0000 == v / 0x100 / 0x100;
    assert v / 0x100_0000 == v / 0x1_0000 / 0x100;
  }

  /** A word written is the word read back exactly when reads and writes agree on the byte order,
      which an endianness word outside {0, 1} breaks for every word that is not its own reversal. */
  lemma WordRoundTrip(m: Mem, a: Word, v: Word)
    requires m.Holds(a, 4)
    ensures m.WriteWord(a, v).ReadWord(a) == Value(if m.Valid() then v else Reverse(v))
    ensures m.WriteWord(a, v).ReadWord(a) == Value(v) <==>
            m.Valid() || (v % 0x100 == v / 0x100_0000 && v / 0x100 % 0x100 == v / 0x1_0000 % 0x100)
  {
    SplitWord(v);
  }

  lemma HalfRoundTrip(m: Mem, a: Word, v: Half)
    requires m.Holds(a, 2)
    ensures m.WriteHalf(a, v).ReadHalf(a) == Value(v) <==> m.Valid() || v % 0x100 == v / 0x100
  {
  }

  /** The guard of a read as written admits a read beyond the buffer exactly on the last few addresses. */
  lemma GuardAsWritten(m: Mem, a: Word)
    ensures m.ReadWord(a).PastEnd? <==> |m.bytes| - 4 < a <= |m.bytes|
    ensures m.ReadHalf(a).PastEnd? <==> |m.bytes| - 2 < a <= |m.bytes|
    ensures m.ReadByte(a).PastEnd? <==> a == |m.bytes|
    ensures m.ReadWord(a).Value? <==> m.Holds(a, 4)
  {
  }

  class Memory {
    const bigEndian: int
    const address: array<Byte>
    const size: Word

    ghost predicate Valid() {
      size == address.Length
    }

    ghost function Model(): Mem
      reads this, address
    {
      Mem(bigEndian, address[..])
    }

    /** memory_create, when both allocations succeed; the contents are unspecified. */
    constructor (size: Word, bigEndian: int)
      ensures Valid() && this.size == size && Model().flag == bigEndian
      ensures fresh(address)
    {
      this.size := size;
      this.bigEndian := bigEndian;
      address := new Byte[size];
    }

    method GetSize() returns (value: Word)
      requires Valid()
      ensures value == |Model().bytes|
    {
      value := size;
    }

    method ReadByte(a: Word) returns (r: Read<Byte>)
      requires Valid()
      ensures r == Model().ReadByte(a)
    {
      if a <= size {
        if a == size { return PastEnd; }
        r := Value(address[a]);
      } else {
        r := Refused;
      }
    }

    method ReadHalf(a: Word) returns (r: Read<Half>)
      requires Valid()
      ensures r == Model().ReadHalf(a)
    {
      if a <= size {
        if a + 2 > size { return PastEnd; }
        if bigEndian == 0 {
          r := Value(JoinHalf(address[a], address[a + 1]));
        } else {
          r := Value(JoinHalf(address[a + 1], address[a]));
        }
      } else {
        r := Refused;
      }
    }

    method ReadWord(a: Word) returns (r: Read<Word>)
      requires Valid()
      ensures r == Model().ReadWord(a)
    {
      if a <= size {
        if a + 4 > size { return PastEnd; }
        if bigEndian == 0 {
          r := Value(JoinWord(address[a], address[a + 1], address[a + 2], address[a + 3]));
        } else {
          r := Value(JoinWord(address[a + 3], address[a + 2], address[a + 1], address[a]));
        }
      } else {
        r := Refused;
      }
    }

    /** The writes have no guard of their own: staying inside the buffer is the caller's duty. */
    method WriteByte(a: Word, v: Byte)
      requires Valid() && a < size
      modifies address
      ensures Model() == old(Model()).WriteByte(a, v)
    {
      address[a] := v;
    }

    method WriteHalf(a: Word, v: Half)
      requires Valid() && a + 2 <= size
      modifies address
      ensures Model() == old(Model()).WriteHalf(a, v)
    {
      var lo, hi := v % 0x100, v / 0x100;
      if bigEndian == 1 {
        WriteByte(a, hi);
        WriteByte(a + 1, lo);
      } else {
        WriteByte(a, lo);
        WriteByte(a + 1, hi);
      }
    }

    method WriteWord(a: Word, v: Word)
      requires Valid() && a + 4 <= size
      modifies address
      ensures Model() == old(Model()).WriteWord(a, v)
    {
      var b0, b1, b2, b3 := v % 0x100, v / 0x100 % 0x100, v / 0x1_0000 % 0x100, v / 0x100_0000 % 0x100;
      if bigEndian == 1 {
        address[a] := b3;
        address[a + 1] := b2;
        address[a + 2] := b1;
        address[a + 3] := b0;
      } else {
        address[a] := b0;
        address[a + 1] := b1;
        address[a + 2] := b2;
        address[a + 3] := b3;
      }
    }
  }
}
