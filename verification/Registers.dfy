/** The algebra of the 16-bit division register: shifting is linear and loses nothing. */
module Registers {
  import opened Division

  /** Division steps that bring down zeros. */
  function Shifts(r: Register, n: nat): Register {
    if n == 0 then r else Step(Shifts(r, n - 1), false)
  }

  /** A byte-wise CRC adds each message bit at the top, and then shifts. */
  function Feed(r: Register, bits: Bits): Register {
    if bits == [] then r
    else Step(Xor(Feed(r, bits[..|bits| - 1]), [bits[|bits| - 1]] + Zero(15)), false)
  }

  lemma {:induction false} XorAssoc(a: Bits, b: Bits, c: Bits)
    requires |a| == |b| == |c|
    ensures Xor(Xor(a, b), c) == Xor(a, Xor(b, c))
  {
  }

  lemma {:induction false} StepXor(a: Register, x: bool, b: Register, y: bool)
    ensures Step(Xor(a, b), x != y) == Xor(Step(a, x), Step(b, y))
  {
    var (l, r) := (Step(Xor(a, b), x != y), Xor(Step(a, x), Step(b, y)));
    forall i | 0 <= i < 16
      ensures l[i] == r[i]
    {
    }
  }

  lemma {:induction false} ShiftsXor(a: Register, b: Register, n: nat)
    ensures Shifts(Xor(a, b), n) == Xor(Shifts(a, n), Shifts(b, n))
  {
    if n > 0 {
      ShiftsXor(a, b, n - 1);
      StepXor(Shifts(a, n - 1), false, Shifts(b, n - 1), false);
    }
  }

  lemma {:induction false} ShiftsAdd(r: Register, m: nat, n: nat)
    ensures Shifts(Shifts(r, m), n) == Shifts(r, m + n)
  {
    if n > 0 {
      ShiftsAdd(r, m, n - 1);
    }
  }

  /** As long as only zeros fall out, shifting only moves the bits. */
  lemma {:induction false} ShiftsFree(s: Bits, n: nat)
    requires |s| + n == 16
    ensures Shifts(Zero(n) + s, n) == s + Zero(n)
    decreases n
  {
    if n == 0 {
      assert Zero(0) + s == s == s + Zero(0);
    } else {
      ShiftsAdd(Zero(n) + s, 1, n - 1);
      var t := s + [false];
      assert Shifts(Zero(n) + s, 1) == Step(Shifts(Zero(n) + s, 0), false);
      assert Step(Zero(n) + s, false) == Zero(n - 1) + t;
      ShiftsFree(t, n - 1);
      assert t + Zero(n - 1) == s + Zero(n);
    }
  }

  /** A step loses nothing: only the zero register shifts to zero. */
  lemma {:induction false} StepLosesNothing(r: Register)
    ensures Step(r, false) == Zero(16) ==> r == Zero(16)
  {
    StepBit(r, false, 15);
    var s := Step(r, false);
    assert s[15] == r[0];
    forall i | 0 < i < 16
      ensures !r[0] ==> s[i - 1] == r[i]
    {
      StepBit(r, false, i - 1);
    }
    if s == Zero(16) {
      assert !s[15];
      assert forall i :: 0 < i < 16 ==> r[i] == s[i - 1] && !s[i - 1];
    }
  }

  lemma {:induction false} ShiftsLosesNothing(r: Register, n: nat)
    ensures Shifts(r, n) == Zero(16) ==> r == Zero(16)
  {
    if n > 0 {
      StepLosesNothing(Shifts(r, n - 1));
      ShiftsLosesNothing(r, n - 1);
    }
  }

  lemma {:induction false} ShiftsZero(n: nat)
    ensures Shifts(Zero(16), n) == Zero(16)
  {
    if n > 0 {
      ShiftsZero(n - 1);
    }
  }

  /** Feeding bits at the top is dividing them with sixteen zeros behind. */
  lemma {:induction false} RemThenShifts(bits: Bits, n: nat)
    ensures Rem(bits + Zero(n)) == Shifts(Rem(bits), n)
  {
    if n == 0 {
      assert bits + Zero(0) == bits;
    } else {
      RemThenShifts(bits, n - 1);
      var all := bits + Zero(n);
      assert all[..|all| - 1] == bits + Zero(n - 1) && !all[|all| - 1];
    }
  }

  /** Sixteen more shifts of a step: the new bit comes to the top and goes once over it. */
  lemma {:induction false} ShiftsOfStep(r: Register, b: bool)
    ensures Shifts(Step(r, b), 16) == Step(Xor(Shifts(r, 16), [b] + Zero(15)), false)
  {
    var low: Register := Zero(15) + [b];
    var top: Register := [b] + Zero(15);
    StepXor(r, false, Zero(16), b);
    assert Xor(r, Zero(16)) == r && Step(Zero(16), b) == low;
    ShiftsXor(Step(r, false), low, 16);
    LowBit(b);
    ShiftsAdd(r, 1, 16);
    assert Shifts(r, 1) == Step(Shifts(r, 0), false);
    assert Shifts(r, 17) == Step(Shifts(r, 16), false);
    StepXor(Shifts(r, 16), false, top, false);
  }

  lemma {:induction false} LowBit(b: bool)
    ensures Shifts(Zero(15) + [b], 16) == Step([b] + Zero(15), false)
  {
    ShiftsFree([b], 15);
    assert Shifts(Zero(15) + [b], 16) == Step(Shifts(Zero(15) + [b], 15), false);
  }

  lemma {:induction false} FeedIsRem(bits: Bits)
    ensures Feed(Zero(16), bits) == Shifts(Rem(bits), 16)
    ensures Feed(Zero(16), bits) == Rem(bits + Zero(16))
  {
    RemThenShifts(bits, 16);
    if bits == [] {
      ShiftsZero(16);
    } else {
      FeedIsRem(bits[..|bits| - 1]);
      ShiftsOfStep(Rem(bits[..|bits| - 1]), bits[|bits| - 1]);
    }
  }

  /** Up to sixteen bits can be added at the top at once. */
  lemma {:induction false} FeedTogether(r: Register, bits: Bits)
    requires |bits| <= 16
    ensures Feed(r, bits) == Shifts(Xor(r, bits + Zero(16 - |bits|)), |bits|)
  {
    var n := |bits|;
    if n == 0 {
      assert Xor(r, bits + Zero(16)) == r;
    } else {
      FeedTogether(r, bits[..n - 1]);
      OneMore(r, bits[..n - 1], bits[n - 1]);
      assert bits[..n - 1] + [bits[n - 1]] == bits;
    }
  }

  lemma {:induction false} OneMore(r: Register, front: Bits, b: bool)
    requires |front| < 16
    ensures Step(Xor(Shifts(Xor(r, front + Zero(16 - |front|)), |front|), [b] + Zero(15)), false)
         == Shifts(Xor(r, (front + [b]) + Zero(15 - |front|)), |front| + 1)
  {
    var n := |front|;
    var most: Register := front + Zero(16 - n);
    var s := [b] + Zero(15 - n);
    var last: Register := Zero(n) + s;
    assert (front + [b]) + Zero(15 - n) == Xor(most, last);
    XorAssoc(r, most, last);
    ShiftsXor(Xor(r, most), last, n);
    ShiftsFree(s, n);
    assert s + Zero(n) == [b] + Zero(15);
  }

  lemma {:induction false} FeedConcat(r: Register, a: Bits, b: Bits)
    ensures Feed(r, a + b) == Feed(Feed(r, a), b)
  {
    if b == [] {
      assert a + b == a;
    } else {
      FeedConcat(r, a, b[..|b| - 1]);
      assert (a + b)[..|a + b| - 1] == a + b[..|b| - 1];
    }
  }

  lemma {:induction false} FeedXor(r: Register, s: Register, a: Bits, b: Bits)
    requires |a| == |b|
    ensures Feed(Xor(r, s), Xor(a, b)) == Xor(Feed(r, a), Feed(s, b))
  {
    if a != [] {
      var n := |a| - 1;
      FeedXor(r, s, a[..n], b[..n]);
      assert Xor(a, b)[..n] == Xor(a[..n], b[..n]);
      var (x, y) := (Feed(r, a[..n]), Feed(s, b[..n]));
      var (p, q) := ([a[n]] + Zero(15), [b[n]] + Zero(15));
      assert [a[n] != b[n]] + Zero(15) == Xor(p, q);
      assert Xor(Xor(x, y), Xor(p, q)) == Xor(Xor(x, p), Xor(y, q));
      StepXor(Xor(x, p), false, Xor(y, q), false);
    }
  }

  lemma {:induction false} FeedZeros(r: Register, n: nat)
    ensures Feed(r, Zero(n)) == Shifts(r, n)
  {
    if n > 0 {
      FeedZeros(r, n - 1);
      assert Zero(n)[..n - 1] == Zero(n - 1);
      assert Xor(Shifts(r, n - 1), [false] + Zero(15)) == Shifts(r, n - 1);
    }
  }
}
