/** A program stored in memory by word writes behaves as its list of instructions, in either byte order,
    as long as no store of the run hits the code. */
module StoredProgram {
  import opened Words
  import opened Memory
  import MemoryLog
  import opened Status
  import opened Alu
  import opened Shifter
  import opened Machine

  predicate Encodable(p: seq<Instr>) {
    forall i | 0 <= i < |p| :: WellFormed(p[i]) && !p[i].Foreign?
  }

  function Image(p: seq<Instr>): (ws: seq<Word>)
    requires Encodable(p)
    ensures |ws| == |p|
  {
    seq(|p|, i requires 0 <= i < |p| => Encode(p[i]))
  }

  /** Word writes of `words` from address `base` up. */
  function Install(m: Mem, base: nat, words: seq<Word>): (r: Mem)
    requires base + 4 * |words| <= |m.bytes| < 0x1_0000_0000
    ensures |r.bytes| == |m.bytes| && r.flag == m.flag
    decreases |words|
  {
    if words == [] then m else Install(m.WriteWord(base, words[0]), base + 4, words[1..])
  }

  predicate CodeAt(m: Mem, base: nat, words: seq<Word>) {
    && base + 4 * |words| <= |m.bytes| < 0x1_0000_0000
    && forall i | 0 <= i < |words| :: m.ReadWord(base + 4 * i) == Value(words[i])
  }

  lemma {:induction false} InstallFrame(m: Mem, base: nat, words: seq<Word>, k: nat)
    requires base + 4 * |words| <= |m.bytes| < 0x1_0000_0000
    requires k < |m.bytes| && (k < base || base + 4 * |words| <= k)
    ensures Install(m, base, words).bytes[k] == m.bytes[k]
    decreases |words|
  {
    if words != [] {
      InstallFrame(m.WriteWord(base, words[0]), base + 4, words[1..], k);
    }
  }

  lemma {:induction false} InstalledWord(m: Mem, base: nat, words: seq<Word>, i: nat)
    requires m.Valid() && base + 4 * |words| <= |m.bytes| < 0x1_0000_0000
    requires i < |words|
    ensures Install(m, base, words).ReadWord(base + 4 * i) == Value(words[i])
    decreases |words|
  {
    hide Mem.ReadWord, Mem.WriteWord;
    var m1 := m.WriteWord(base, words[0]);
    WordRoundTrip(m, base, words[0]);
    WriteWordFrame(m, base, words[0]);
    if i > 0 {
      InstalledWord(m1, base + 4, words[1..], i - 1);
      assert base + 4 + 4 * (i - 1) == base + 4 * i;
    } else {
      InstallFrame(m1, base + 4, words[1..], base);
      InstallFrame(m1, base + 4, words[1..], base + 1);
      InstallFrame(m1, base + 4, words[1..], base + 2);
      InstallFrame(m1, base + 4, words[1..], base + 3);
      SameBytesSameWord(m1, Install(m1, base + 4, words[1..]), base);
    }
  }

  lemma WriteWordFrame(m: Mem, a: Word, v: Word)
    requires m.Holds(a, 4)
    ensures |m.WriteWord(a, v).bytes| == |m.bytes| && m.WriteWord(a, v).flag == m.flag
  {
  }

  /** Installing puts the words where fetches find them and touches nothing else. */
  lemma InstallPutsCode(m: Mem, base: nat, words: seq<Word>)
    requires m.Valid() && base + 4 * |words| <= |m.bytes| < 0x1_0000_0000
    ensures CodeAt(Install(m, base, words), base, words)
    ensures forall k: nat | k < |m.bytes| && (k < base || base + 4 * |words| <= k) ::
              Install(m, base, words).bytes[k] == m.bytes[k]
  {
    hide Install, Mem.ReadWord;
    forall i | 0 <= i < |words|
      ensures Install(m, base, words).ReadWord(base + 4 * i) == Value(words[i])
    {
      InstalledWord(m, base, words, i);
    }
    forall k: nat | k < |m.bytes| && (k < base || base + 4 * |words| <= k)
      ensures Install(m, base, words).bytes[k] == m.bytes[k]
    {
      InstallFrame(m, base, words, k);
    }
  }

  lemma SameBytesSameWord(m: Mem, r: Mem, a: Word)
    requires m.Holds(a, 4) && |m.bytes| == |r.bytes| && m.flag == r.flag
    requires m.bytes[a] == r.bytes[a] && m.bytes[a + 1] == r.bytes[a + 1]
    requires m.bytes[a + 2] == r.bytes[a + 2] && m.bytes[a + 3] == r.bytes[a + 3]
    ensures m.ReadWord(a) == r.ReadWord(a)
  {
  }

  // ---------------------------------------------------------------- the machine over the list

  /** The position in the list of the instruction to fetch. */
  predicate Inside(p: seq<Instr>, base: nat, pc: nat) {
    base <= pc < base + 4 * |p| && (pc - base) % 4 == 0
  }

  function ListStep(p: seq<Instr>, base: nat, st: State): Outcome
    requires Encodable(p)
  {
    if Inside(p, base, st.Next()) then Execute(Fetched(st), p[(st.Next() - base) / 4])
    else Stopped(OutsideProgram)
  }

  function ListRun(p: seq<Instr>, base: nat, st: State, k: nat): Outcome
    requires Encodable(p)
  {
    if k == 0 then Running(st)
    else
      match ListRun(p, base, st, k - 1)
      case Running(s) => ListStep(p, base, s)
      case Stopped(why) => Stopped(why)
  }

  lemma ListRunZero(p: seq<Instr>, base: nat, st: State)
    requires Encodable(p)
    ensures ListRun(p, base, st, 0) == Running(st)
  {
  }

  lemma ListRunNext(p: seq<Instr>, base: nat, st: State, k: nat, s: State, t: State)
    requires Encodable(p)
    requires ListRun(p, base, st, k) == Running(s) && ListStep(p, base, s) == Running(t)
    ensures ListRun(p, base, st, k + 1) == Running(t)
  {
  }

  lemma {:induction false} ListRunAdd(p: seq<Instr>, base: nat, st: State, j: nat, k: nat)
    requires Encodable(p)
    ensures ListRun(p, base, st, j + k) == match ListRun(p, base, st, j)
            case Running(s) => ListRun(p, base, s, k)
            case Stopped(why) => Stopped(why)
  {
    hide ListStep;
    if k > 0 {
      ListRunAdd(p, base, st, j, k - 1);
    }
  }

  lemma ListRunFrom(p: seq<Instr>, base: nat, st: State, j: nat, s: State, k: nat)
    requires Encodable(p) && ListRun(p, base, st, j) == Running(s)
    ensures ListRun(p, base, st, j + k) == ListRun(p, base, s, k)
  {
    hide ListRun;
    ListRunAdd(p, base, st, j, k);
  }

  // ---------------------------------------------------------------- what a step can write

  /** Is byte k written when i executes in st? */
  predicate Writes(st: State, i: Instr, k: nat) {
    && i.Transfer? && !i.load && ConditionPassed(st.Flags(), i.cond)
    && var a := TransferAddress(st, i.up, i.rn, i.offset);
       a <= k < a + (if i.byte then 1 else 4)
  }

  /** A store leaves the digits of the register it stores, in the order of the memory, and nothing else is written. */
  lemma ExecuteMemory(st: State, i: Instr, k: nat)
    requires WellFormed(i) && Execute(st, i).Running?
    ensures var m := Execute(st, i).st.mem;
            && |m.bytes| == |st.mem.bytes| && m.flag == st.mem.flag
            && (k < |m.bytes| && !Writes(st, i, k) ==> m.bytes[k] == st.mem.bytes[k])
            && (!i.Transfer? || i.load ==> m == st.mem)
    ensures var m := Execute(st, i).st.mem;
            Writes(st, i, k) ==>
              var a, width := TransferAddress(st, i.up, i.rn, i.offset), if i.byte then 1 else 4;
              && k < |m.bytes|
              && m.bytes[k] == MemoryLog.Digit(st.Read(i.rd), if m.flag == 1 then a + width - 1 - k else k - a)
  {
    hide Result, FlagsAfter, WithFlags, Ror, ByImmediate, ByRegister, Bit, ConditionPassed, TransferAddress, DropBit1;
    hide Mem.WriteWord, Mem.WriteByte, Mem.ReadWord;
    if i.Transfer? && !i.load && ConditionPassed(st.Flags(), i.cond) {
      MemoryLog.StoreStores(st.mem, st.Read(i.rd), TransferAddress(st, i.up, i.rn, i.offset));
    }
  }

  /** The store of this step, if any, stays out of the code. */
  predicate SparesCode(st: State, i: Instr, base: nat, n: nat) {
    forall k: nat | base <= k < base + 4 * n :: !Writes(st, i, k)
  }

  predicate RunSparesCode(p: seq<Instr>, base: nat, st: State, k: nat)
    requires Encodable(p)
  {
    forall j: nat | j < k ::
      var o := ListRun(p, base, st, j);
      o.Running? && Inside(p, base, o.st.Next()) ==>
        SparesCode(Fetched(o.st), p[(o.st.Next() - base) / 4], base, |p|)
  }

  lemma StepKeepsCode(st: State, i: Instr, base: nat, words: seq<Word>)
    requires WellFormed(i) && Execute(st, i).Running?
    requires CodeAt(st.mem, base, words) && SparesCode(st, i, base, |words|)
    ensures CodeAt(Execute(st, i).st.mem, base, words)
  {
    hide Execute;
    var m := Execute(st, i).st.mem;
    ExecuteMemory(st, i, 0);
    forall j | 0 <= j < |words|
      ensures m.ReadWord(base + 4 * j) == Value(words[j])
    {
      var a := base + 4 * j;
      ExecuteMemory(st, i, a);
      ExecuteMemory(st, i, a + 1);
      ExecuteMemory(st, i, a + 2);
      ExecuteMemory(st, i, a + 3);
      assert !Writes(st, i, a) && !Writes(st, i, a + 1) && !Writes(st, i, a + 2) && !Writes(st, i, a + 3);
      SameBytesSameWord(st.mem, m, a);
    }
  }

  /** Fetching from the stored code finds the list's instruction. */
  lemma StepIsListStep(p: seq<Instr>, base: nat, st: State)
    requires Encodable(p) && CodeAt(st.mem, base, Image(p)) && Inside(p, base, st.Next())
    ensures Step(st) == ListStep(p, base, st)
  {
    hide Execute, Decode, Encode;
    var i := (st.Next() - base) / 4;
    assert st.mem.ReadWord(base + 4 * i) == Value(Image(p)[i]);
    DecodeEncode(p[i]);
  }

  /** k steps of fetch, decode and execute are k steps over the list, and the code still reads as the list. */
  lemma {:induction false} StoredProgramRefines(p: seq<Instr>, base: nat, st: State, k: nat)
    requires Encodable(p) && CodeAt(st.mem, base, Image(p))
    requires ListRun(p, base, st, k) != Stopped(OutsideProgram)
    requires RunSparesCode(p, base, st, k)
    ensures Run(st, k) == ListRun(p, base, st, k)
    ensures Run(st, k).Running? ==> CodeAt(Run(st, k).st.mem, base, Image(p))
  {
    hide ListStep, Step, SparesCode, CodeAt, Inside, Fetched, Encodable;
    if k > 0 {
      StoredProgramRefines(p, base, st, k - 1);
      if ListRun(p, base, st, k - 1).Running? {
        var s := ListRun(p, base, st, k - 1).st;
        InsideOrStopped(p, base, s);
        StoredStep(p, base, s);
      }
    }
  }

  lemma InsideOrStopped(p: seq<Instr>, base: nat, s: State)
    requires Encodable(p)
    ensures Inside(p, base, s.Next()) || ListStep(p, base, s) == Stopped(OutsideProgram)
  {
  }

  lemma StoredStep(p: seq<Instr>, base: nat, s: State)
    requires Encodable(p) && CodeAt(s.mem, base, Image(p)) && Inside(p, base, s.Next())
    requires SparesCode(Fetched(s), p[(s.Next() - base) / 4], base, |p|)
    ensures Step(s) == ListStep(p, base, s)
    ensures Step(s).Running? ==> CodeAt(Step(s).st.mem, base, Image(p))
  {
    hide Execute, Step, SparesCode, CodeAt;
    StepIsListStep(p, base, s);
    var i := p[(s.Next() - base) / 4];
    if Execute(Fetched(s), i).Running? {
      StepKeepsCode(Fetched(s), i, base, Image(p));
    }
  }

  /** The same from the moment the program is written to the memory of st, whatever its byte order. */
  lemma InstalledProgramRefines(p: seq<Instr>, base: nat, st: State, k: nat)
    requires Encodable(p) && st.mem.Valid() && base + 4 * |p| <= |st.mem.bytes| < 0x1_0000_0000
    requires var start := st.(mem := Install(st.mem, base, Image(p)));
             ListRun(p, base, start, k) != Stopped(OutsideProgram) && RunSparesCode(p, base, start, k)
    ensures var start := st.(mem := Install(st.mem, base, Image(p)));
            && Run(start, k) == ListRun(p, base, start, k)
            && (Run(start, k).Running? ==> CodeAt(Run(start, k).st.mem, base, Image(p)))
  {
    hide ListRun, Run, RunSparesCode, CodeAt, Install;
    InstallPutsCode(st.mem, base, Image(p));
    StoredProgramRefines(p, base, st.(mem := Install(st.mem, base, Image(p))), k);
  }
}
