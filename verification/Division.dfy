/** Polynomials over GF(2) as bit strings, highest power first, and division by x^16 + x^15 + x^2 + 1. */
module Division {

  type Bits = seq<bool>

  function Zero(n: nat): (z: Bits)
    ensures |z| == n && forall i {:trigger z[i]} :: 0 <= i < n ==> !z[i]
  {
    seq(n, _ => false)
  }

  /** Addition, which is also subtraction. */
  function Xor(a: Bits, b: Bits): (c: Bits)
    requires |a| == |b|
    ensures |c| == |a| && forall i {:trigger c[i]} :: 0 <= i < |a| ==> c[i] == (a[i] != b[i])
  {
    seq(|a|, i requires 0 <= i < |a| => a[i] != b[i])
  }

  /** x^15 + x^2 + 1: the polynomial without its leading term. */
  function Tail(): (g: Bits)
    ensures |g| == 16 && forall i :: 0 <= i < 16 ==> g[i] == (i == 0 || i == 13 || i == 15)
  {
    [true, false, false, false, false, false, false, false, false, false, false, false, false, true, false, true]
  }

  /** c times g, for a single bit c. */
  function Scale(c: bool, g: Bits): (s: Bits)
    ensures |s| == |g| && forall i {:trigger s[i]} :: 0 <= i < |g| ==> s[i] == (c && g[i])
  {
    if c then g else Zero(|g|)
  }

  /** q times g, one coefficient of q at a time. */
  function Times(q: Bits, g: Bits): (p: Bits)
    requires |g| > 0
    ensures |p| == |q| + |g| - 1
  {
    if q == [] then Zero(|g| - 1)
    else
      var n := |q| - 1;
      Xor(Times(q[..n], g) + [false], Zero(n) + Scale(q[n], g))
  }

  /** x^16 + x^15 + x^2 + 1. */
  function Divisor(): (g: Bits)
    ensures |g| == 17 && g[0] && g[1..] == Tail()
  {
    [true] + Tail()
  }

  type Register = r: Bits | |r| == 16 witness Zero(16)

  /** One step of long division: bring down the next bit, subtract the divisor if the leading bit is set. */
  function Step(r: Register, b: bool): (r': Register) {
    Xor(r[1..] + [b], Scale(r[0], Tail()))
  }

  /** Bit-by-bit long division: the remainder... */
  function Rem(bits: Bits): Register {
    if bits == [] then Zero(16) else Step(Rem(bits[..|bits| - 1]), bits[|bits| - 1])
  }

  /** ... and the quotient. */
  function Quot(bits: Bits): (q: Bits)
    ensures |q| == |bits|
  {
    if bits == [] then [] else Quot(bits[..|bits| - 1]) + [Rem(bits[..|bits| - 1])[0]]
  }

  /** bits = q * divisor + r, as polynomials. */
  ghost predicate Divides(bits: Bits, q: Bits, r: Register) {
    |q| == |bits| && Zero(16) + bits == Xor(Times(q, Divisor()), Zero(|bits|) + r)
  }

  /** The same, one coefficient at a time. */
  ghost predicate DividesAt(bits: Bits, q: Bits, r: Register, i: nat)
    requires |q| == |bits| && i < |bits| + 16
  {
    (i >= 16 && bits[i - 16]) == (Times(q, Divisor())[i] != (i >= |bits| && r[i - |bits|]))
  }

  lemma {:induction false} DividesIff(bits: Bits, q: Bits, r: Register)
    requires |q| == |bits|
    ensures Divides(bits, q, r) <==> forall i :: 0 <= i < |bits| + 16 ==> DividesAt(bits, q, r, i)
  {
    var (lhs, rhs) := (Zero(16) + bits, Xor(Times(q, Divisor()), Zero(|bits|) + r));
    forall i | 0 <= i < |bits| + 16
      ensures DividesAt(bits, q, r, i) <==> lhs[i] == rhs[i]
    {
    }
    if Divides(bits, q, r) {
      assert forall i :: 0 <= i < |bits| + 16 ==> lhs[i] == rhs[i];
    }
    if forall i :: 0 <= i < |bits| + 16 ==> DividesAt(bits, q, r, i) {
      assert lhs == rhs;
    }
  }

  lemma {:induction false} TimesAt(q: Bits, c: bool, g: Bits, i: nat)
    requires |g| > 0 && i < |q| + |g|
    ensures Times(q + [c], g)[i]
         == ((i < |q| + |g| - 1 && Times(q, g)[i]) != (i >= |q| && c && g[i - |q|]))
  {
    var p := q + [c];
    assert p[..|q|] == q && p[|q|] == c;
    var (a, b) := (Times(q, g) + [false], Zero(|q|) + Scale(c, g));
    assert Times(p, g) == Xor(a, b);
    assert Xor(a, b)[i] == (a[i] != b[i]);
  }

  lemma {:induction false} StepBit(r: Register, b: bool, i: nat)
    requires i < 16
    ensures Step(r, b)[i] == ((if i < 15 then r[i + 1] else b) != (r[0] && Tail()[i]))
  {
    assert (r[1..] + [b])[i] == if i < 15 then r[i + 1] else b;
  }

  /** Bringing down one bit keeps every coefficient right, and adds one that is right. */
  lemma {:induction false} StepAt(front: Bits, b: bool, q: Bits, r: Register, i: nat)
    requires |q| == |front| && i < |front| + 17
    ensures DividesAt(front + [b], q + [r[0]], Step(r, b), i)
       <==> (i < |front| + 16 ==> DividesAt(front, q, r, i))
  {
    hide Times, Tail, Step;
    TimesAt(q, r[0], Divisor(), i);
    var (bits, k) := (front + [b], i - |front|);
    assert 16 <= i ==> bits[i - 16] == if k < 16 then front[i - 16] else b;
    if 0 < k {
      assert Divisor()[k] == Divisor()[1..][k - 1];
      StepBit(r, b, k - 1);
    }
  }

  lemma {:induction false} RemDivides(bits: Bits)
    ensures Divides(bits, Quot(bits), Rem(bits))
  {
    DividesIff(bits, Quot(bits), Rem(bits));
    if bits != [] {
      var n := |bits| - 1;
      var front := bits[..n];
      RemDivides(front);
      DividesIff(front, Quot(front), Rem(front));
      forall i | 0 <= i < n + 17
        ensures DividesAt(bits, Quot(bits), Rem(bits), i)
      {
        StepAt(front, bits[n], Quot(front), Rem(front), i);
        assert front + [bits[n]] == bits;
      }
    }
  }

  /** The register from which the last step came, if it brought down b and subtracted for c. */
  function Before(r: Register, c: bool): Register {
    Xor([false] + r[..15], Scale(c, Divisor()[..16]))
  }

  lemma StepBefore(r: Register, c: bool)
    ensures Before(r, c)[0] == c
    ensures Step(Before(r, c), c != r[15]) == r
  {
    var r0 := Before(r, c);
    forall k | 0 <= k < 16
      ensures Step(r0, c != r[15])[k] == r[k]
    {
      assert k < 15 ==> r0[k + 1] == (r[k] != (c && Divisor()[k + 1]));
      assert k < 15 ==> Divisor()[k + 1] == Tail()[k];
    }
  }

  /** The remainder is unique: any other division of the same bits leaves the same one. */
  lemma {:induction false} RemUnique(bits: Bits, q: Bits, r: Register)
    requires Divides(bits, q, r)
    ensures r == Rem(bits) && q == Quot(bits)
  {
    DividesIff(bits, q, r);
    if bits == [] {
      forall i | 0 <= i < 16
        ensures !r[i]
      {
        assert DividesAt(bits, q, r, i);
      }
      assert r == Zero(16);
    } else {
      var n := |bits| - 1;
      var (front, b, q0, c) := (bits[..n], bits[n], q[..n], q[n]);
      assert front + [b] == bits && q0 + [c] == q;
      assert DividesAt(bits, q, r, n + 16);
      TimesAt(q0, c, Divisor(), n + 16);
      assert Divisor()[16] == Tail()[15];
      StepBefore(r, c);
      var r0 := Before(r, c);
      forall i | 0 <= i < n + 16
        ensures DividesAt(front, q0, r0, i)
      {
        StepAt(front, b, q0, r0, i);
        assert DividesAt(bits, q, r, i);
      }
      DividesIff(front, q0, r0);
      RemUnique(front, q0, r0);
    }
  }

  /** The number left by bit-by-bit division is the remainder, and the only one. */
  lemma {:induction false} RemainderExact(bits: Bits, r: Register)
    ensures r == Rem(bits) <==> exists q :: Divides(bits, q, r)
  {
    RemDivides(bits);
    forall q | Divides(bits, q, r)
      ensures r == Rem(bits)
    {
      RemUnique(bits, q, r);
    }
  }
}
