/** Examples/insertion_sort.c. The inner loop of the file never changes j, so it cannot end once entered with
    j > 0; `Sort` is the program with the missing decrement supplied; `Turn` steps through the program as written. */
module InsertionSort {

  predicate Sorted(s: seq<int>) {
    forall i, j | 0 <= i < j < |s| :: s[i] <= s[j]
  }

  /** How many elements of s are greater than x. */
  function Greater(s: seq<int>, x: int): nat {
    if s == [] then 0 else Greater(s[..|s| - 1], x) + (if s[|s| - 1] > x then 1 else 0)
  }

  /** The number of pairs out of order. */
  function Inversions(s: seq<int>): nat {
    if s == [] then 0 else Inversions(s[..|s| - 1]) + Greater(s[..|s| - 1], s[|s| - 1])
  }

  function Swap(s: seq<int>, j: nat): (t: seq<int>)
    requires 0 < j < |s|
    ensures |t| == |s|
  {
    s[j - 1 := s[j]][j := s[j - 1]]
  }

  lemma {:induction false} SwapKeepsGreater(s: seq<int>, j: nat, x: int)
    requires 0 < j < |s|
    ensures Greater(Swap(s, j), x) == Greater(s, x)
  {
    var n := |s| - 1;
    var t := Swap(s, j);
    if j < n {
      assert t[..n] == Swap(s[..n], j);
      SwapKeepsGreater(s[..n], j, x);
    } else {
      assert t[..n][..n - 1] == s[..n][..n - 1];
    }
  }

  /** Swapping neighbours that are out of order removes exactly one inversion. */
  lemma {:induction false} SwapRemovesOne(s: seq<int>, j: nat)
    requires 0 < j < |s| && s[j - 1] > s[j]
    ensures Inversions(Swap(s, j)) == Inversions(s) - 1
  {
    var n := |s| - 1;
    var t := Swap(s, j);
    if j < n {
      assert t[..n] == Swap(s[..n], j);
      SwapRemovesOne(s[..n], j);
      SwapKeepsGreater(s[..n], j, s[n]);
    } else {
      SwapLastRemovesOne(s);
    }
  }

  lemma SwapLastRemovesOne(s: seq<int>)
    requires |s| >= 2 && s[|s| - 2] > s[|s| - 1]
    ensures Inversions(Swap(s, |s| - 1)) == Inversions(s) - 1
  {
    var n := |s| - 1;
    var t := Swap(s, n);
    var p := s[..n - 1];
    assert t[..n][..n - 1] == p && s[..n][..n - 1] == p;
    assert Inversions(s[..n]) == Inversions(p) + Greater(p, s[n - 1]);
    assert Inversions(t[..n]) == Inversions(p) + Greater(p, s[n]);
    assert Greater(s[..n], s[n]) == Greater(p, s[n]) + 1;
    assert Greater(t[..n], t[n]) == Greater(p, s[n - 1]);
  }

  lemma SwapPermutes(s: seq<int>, j: nat)
    requires 0 < j < |s|
    ensures multiset(Swap(s, j)) == multiset(s)
  {
    assert s == s[..j - 1] + [s[j - 1], s[j]] + s[j + 1..];
    assert Swap(s, j) == s[..j - 1] + [s[j], s[j - 1]] + s[j + 1..];
  }

  lemma {:induction false} NoneGreater(s: seq<int>, x: int)
    requires forall i | 0 <= i < |s| :: s[i] <= x
    ensures Greater(s, x) == 0
  {
    if s != [] { NoneGreater(s[..|s| - 1], x); }
  }

  lemma {:induction false} SortedHasNone(s: seq<int>)
    requires Sorted(s)
    ensures Inversions(s) == 0
  {
    if s != [] {
      SortedHasNone(s[..|s| - 1]);
      NoneGreater(s[..|s| - 1], s[|s| - 1]);
    }
  }

  /** Everything up to place i is in order, apart from the element travelling down at place j. */
  predicate Travelling(s: seq<int>, i: nat, j: nat)
    requires j <= i < |s|
  {
    forall x, y | 0 <= x < y <= i && y != j :: s[x] <= s[y]
  }

  lemma TravelSwap(s: seq<int>, i: nat, j: nat)
    requires 0 < j <= i < |s| && Travelling(s, i, j) && s[j - 1] > s[j]
    ensures Travelling(Swap(s, j), i, j - 1)
  {
  }

  lemma TravelPast(s: seq<int>, i: nat, j: nat)
    requires 0 < j <= i < |s| && Travelling(s, i, j) && s[j - 1] <= s[j]
    ensures Travelling(s, i, j - 1)
  {
    forall x, y | 0 <= x < y <= i && y != j - 1
      ensures s[x] <= s[y]
    {
      if y == j && x < j - 1 {
        assert s[x] <= s[j - 1] || x == j - 1;
      }
    }
  }

  /** The sort leaves a sorted permutation and swaps once for every inversion of its input. */
  method Sort(t: array<int>) returns (swaps: nat)
    modifies t
    ensures Sorted(t[..])
    ensures multiset(t[..]) == multiset(old(t[..]))
    ensures swaps == Inversions(old(t[..]))
  {
    swaps := 0;
    for i := 0 to t.Length
      invariant Sorted(t[..i])
      invariant multiset(t[..]) == multiset(old(t[..]))
      invariant swaps + Inversions(t[..]) == Inversions(old(t[..]))
    {
      var j := i;
      assert Travelling(t[..], i, i) by {
        assert forall x, y | 0 <= x < y < i :: t[..i][x] <= t[..i][y];
      }
      while j > 0
        invariant j <= i && Travelling(t[..], i, j)
        invariant multiset(t[..]) == multiset(old(t[..]))
        invariant swaps + Inversions(t[..]) == Inversions(old(t[..]))
      {
        ghost var s := t[..];
        if t[j - 1] > t[j] {
          var tmp := t[j - 1];
          t[j - 1] := t[j];
          t[j] := tmp;
          swaps := swaps + 1;
          assert t[..] == Swap(s, j);
          SwapRemovesOne(s, j);
          SwapPermutes(s, j);
          TravelSwap(s, i, j);
        } else {
          TravelPast(s, i, j);
        }
        j := j - 1;  // missing from the file
      }
      assert Sorted(t[..i + 1]);
    }
    assert t[..] == t[..t.Length];
    SortedHasNone(t[..]);
  }

  // ---------------------------------------------------------------- as written

  /** The variables of main, and whether control is inside the inner loop. */
  datatype Locals = Locals(t: seq<int>, i: nat, j: nat, inside: bool)

  predicate InRange(s: Locals) {
    s.inside ==> s.i < |s.t| && s.j < |s.t|
  }

  /** One test of a loop guard, with the body or the exit it leads to, as the file has it. */
  function Turn(s: Locals): (r: Locals)
    requires InRange(s)
    ensures InRange(r) && |r.t| == |s.t|
  {
    if !s.inside then
      if s.i < |s.t| then s.(j := s.i, inside := true) else s
    else if s.j > 0 then
      if s.t[s.j - 1] > s.t[s.j] then s.(t := Swap(s.t, s.j)) else s
    else
      s.(i := s.i + 1, inside := false)
  }

  function Turns(s: Locals, k: nat): (r: Locals)
    requires InRange(s)
    ensures InRange(r) && |r.t| == |s.t|
  {
    if k == 0 then s else Turn(Turns(s, k - 1))
  }

  function Start(t: seq<int>): Locals {
    Locals(t, 0, 0, false)
  }

  predicate Ended(s: Locals) {
    !s.inside && s.i >= |s.t|
  }

  /** Once the inner loop is entered with j > 0 it is never left: i and j stand still, the first turn puts the
      pair at j in order, and no later turn changes anything. */
  lemma {:induction false} InnerLoopNeverExits(s: Locals, k: nat)
    requires InRange(s) && s.inside && s.j > 0
    ensures Turns(s, k).inside && Turns(s, k).i == s.i && Turns(s, k).j == s.j
    ensures k > 0 ==> Turns(s, k) == Turn(s)
  {
    if k > 0 { InnerLoopNeverExits(s, k - 1); }
  }

  /** That turn: the greater of the pair ends at j, so that a pair in order stays as it is, and no other place changes. */
  lemma TurnOrdersPair(s: Locals)
    requires InRange(s) && s.inside && s.j > 0
    ensures var a, b, t := s.t[s.j - 1], s.t[s.j], Turn(s).t;
            && Turn(s) == s.(t := t) && |t| == |s.t|
            && t[s.j - 1] <= t[s.j] && multiset{t[s.j - 1], t[s.j]} == multiset{a, b}
            && (a <= b ==> t == s.t)
            && forall x: nat | x < |t| && x != s.j - 1 && x != s.j :: t[x] == s.t[x]
  {
  }

  lemma {:induction false} StuckInRoundOne(t: seq<int>, k: nat)
    requires |t| >= 2
    ensures var s := Turns(Start(t), k);
            s.i <= 1 && (s.inside ==> s.j == s.i)
  {
    if k > 0 { StuckInRoundOne(t, k - 1); }
  }

  /** What the program as written does to an array of two elements or more: from its fourth turn on it stands at i = j = 1
      with the first pair in order and the rest as it was. */
  lemma {:induction false} WrittenLeaves(t: seq<int>, k: nat)
    requires |t| >= 2 && k >= 4
    ensures var a, b := t[0], t[1];
            Turns(Start(t), k) == Locals((if a <= b then [a, b] else [b, a]) + t[2..], 1, 1, true)
  {
    var s1, s2, s3 := Turn(Start(t)), Turn(Turn(Start(t))), Turn(Turn(Turn(Start(t))));
    if k == 4 {
      assert Turns(Start(t), 0) == Start(t);
      assert Turns(Start(t), 1) == s1;
      assert Turns(Start(t), 2) == s2;
      assert Turns(Start(t), 3) == s3;
      assert s3 == Locals(t, 1, 1, true);
      assert t == [t[0], t[1]] + t[2..];
    } else {
      WrittenLeaves(t, k - 1);
    }
  }

  /** As written the program ends exactly on arrays of at most one element. */
  lemma MainEndsAsWritten(t: seq<int>)
    ensures (exists k: nat :: Ended(Turns(Start(t), k))) <==> |t| <= 1
  {
    if |t| >= 2 {
      forall k: nat
        ensures !Ended(Turns(Start(t), k))
      {
        StuckInRoundOne(t, k);
      }
    } else {
      assert Turns(Start(t), 0) == Start(t);
      var s1 := Turns(Start(t), 1);
      var s2 := Turns(Start(t), 2);
      assert s1 == Turn(Start(t)) && s2 == Turn(s1);
      assert Ended(Turns(Start(t), 0)) || Ended(Turns(Start(t), 2));
    }
  }
}
