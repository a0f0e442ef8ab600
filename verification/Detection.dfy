/** What the checksum of a packet detects: every odd number of flipped bits, every burst of up to sixteen outside the
    check field, all damage within it, and for any other damage the exact condition. */
module Detection {
  import opened Bytes
  import opened Division
  import opened Registers
  import opened Crc

  /** Whether an odd number of bits is set. */
  predicate Parity(s: Bits) {
    s != [] && (s[|s| - 1] != Parity(s[..|s| - 1]))
  }

  function Ones(s: Bits): nat {
    if s == [] then 0 else Ones(s[..|s| - 1]) + if s[|s| - 1] then 1 else 0
  }

  lemma {:induction false} ParityIsOdd(s: Bits)
    ensures Parity(s) <==> Ones(s) % 2 == 1
  {
    if s != [] {
      ParityIsOdd(s[..|s| - 1]);
    }
  }

  lemma {:induction false} ParityConcat(a: Bits, b: Bits)
    ensures Parity(a + b) == (Parity(a) != Parity(b))
  {
    if b == [] {
      assert a + b == a;
    } else {
      ParityConcat(a, b[..|b| - 1]);
      assert (a + b)[..|a + b| - 1] == a + b[..|b| - 1];
    }
  }

  lemma {:induction false} ParityXor(a: Bits, b: Bits)
    requires |a| == |b|
    ensures Parity(Xor(a, b)) == (Parity(a) != Parity(b))
  {
    if a != [] {
      var n := |a| - 1;
      ParityXor(a[..n], b[..n]);
      assert Xor(a, b)[..n] == Xor(a[..n], b[..n]);
    }
  }

  lemma {:induction false} ParityZero(n: nat)
    ensures !Parity(Zero(n))
  {
    if n > 0 {
      ParityZero(n - 1);
      assert Zero(n)[..n - 1] == Zero(n - 1);
    }
  }

  lemma ParityTail()
    ensures Parity(Tail())
  {
    ParityZero(12);
    ParityZero(1);
    assert Tail() == (([true] + Zero(12)) + [true]) + (Zero(1) + [true]);
    ParityConcat(([true] + Zero(12)) + [true], Zero(1) + [true]);
    ParityConcat([true] + Zero(12), [true]);
    ParityConcat([true], Zero(12));
    ParityConcat(Zero(1), [true]);
    assert Parity([true]);
  }

  /** The divisor has an even number of terms, so a step keeps the parity. */
  lemma {:induction false} ParityStep(r: Register)
    ensures Parity(Step(r, false)) == Parity(r)
  {
    ParityTail();
    ParityZero(16);
    ParityXor(r[1..] + [false], Scale(r[0], Tail()));
    ParityConcat(r[1..], [false]);
    ParityConcat([r[0]], r[1..]);
    assert [r[0]] + r[1..] == r;
    assert Parity([r[0]]) == r[0] && !Parity([false]);
  }

  lemma {:induction false} ParityFeed(r: Register, bits: Bits)
    ensures Parity(Feed(r, bits)) == (Parity(r) != Parity(bits))
  {
    if bits != [] {
      var (front, b) := (bits[..|bits| - 1], bits[|bits| - 1]);
      ParityFeed(r, front);
      ParityStep(Xor(Feed(r, front), [b] + Zero(15)));
      ParityXor(Feed(r, front), [b] + Zero(15));
      ParityConcat([b], Zero(15));
      ParityZero(15);
      assert Parity([b]) == b;
    }
  }

  /** The checksum has the parity of the message. */
  lemma {:induction false} ParityOfChecksum(m: seq<byte>)
    ensures Parity(WordBits(Checksum(m))) == Parity(MessageBits(m))
  {
    hide Checksum, WordBits;
    ChecksumFeeds(m);
    ParityFeed(Zero(16), MessageBits(m));
    ParityZero(16);
  }

  // ----- The check field -----

  function LowByte(c: crc): byte {
    (c & 0xff) as byte
  }

  function HighByte(c: crc): byte {
    (c >> 8) as byte
  }

  /** A 16-bit field as the (little-endian) machine stores it. */
  function Field(low: byte, high: byte): crc {
    (Wide(high) << 8) ^ Wide(low)
  }

  lemma FieldRoundTrip(c: crc)
    ensures Field(LowByte(c), HighByte(c)) == c
  {
  }

  lemma WideHasNoHigh(d: byte, i: nat)
    requires i < 8
    ensures !Has(Wide(d), i)
  {
  }

  lemma FieldBits(low: byte, high: byte)
    ensures WordBits(Field(low, high)) == ByteBits(high) + ByteBits(low)
  {
    hide Has;
    WordOfByte(high);
    WordXor(Wide(high) << 8, Wide(low));
    forall i | 0 <= i < 8
      ensures !WordBits(Wide(low))[i]
    {
      WideHasNoHigh(low, i);
    }
    assert WordBits(Wide(low)) == Zero(8) + ByteBits(low);
    assert Xor(ByteBits(high) + Zero(8), Zero(8) + ByteBits(low)) == ByteBits(high) + ByteBits(low);
  }

  /** The packet as it is when the checksum is computed. */
  function Cleared(m: seq<byte>): (c: seq<byte>)
    requires |m| >= 18
    ensures |c| == |m|
  {
    m[..16] + [0, 0] + m[18..]
  }

  /** What the receiver of a packet or an ack tests. */
  predicate Accepted(m: seq<byte>)
    requires |m| >= 18
  {
    Checksum(Cleared(m)) == Field(m[16], m[17])
  }

  /** What the sender of a packet or an ack makes: the field filled with the checksum of the rest. */
  function Sealed(m: seq<byte>): (s: seq<byte>)
    requires |m| >= 18
    ensures |s| == |m|
  {
    var c := Checksum(Cleared(m));
    m[..16] + [LowByte(c), HighByte(c)] + m[18..]
  }

  lemma SealedIsAccepted(m: seq<byte>)
    requires |m| >= 18
    ensures Accepted(Sealed(m))
    ensures Sealed(m)[..16] == m[..16] && Sealed(m)[18..] == m[18..]
  {
    assert Cleared(Sealed(m)) == Cleared(m);
    FieldRoundTrip(Checksum(Cleared(m)));
  }

  lemma {:induction false} MessageConcat(a: seq<byte>, b: seq<byte>)
    ensures MessageBits(a + b) == MessageBits(a) + MessageBits(b)
  {
    hide ByteBits;
    if b == [] {
      assert a + b == a;
    } else {
      MessageConcat(a, b[..|b| - 1]);
      assert (a + b)[..|a + b| - 1] == a + b[..|b| - 1];
    }
  }

  lemma {:induction false} PairBits(x: byte, y: byte)
    ensures MessageBits([x, y]) == ByteBits(x) + ByteBits(y)
  {
    hide ByteBits;
    assert [x, y][..1] == [x] && [x][..0] == [];
    assert MessageBits([x]) == ByteBits(x);
  }

  /** The bits of a packet around its check field. */
  lemma {:induction false} AroundField(front: seq<byte>, x: byte, y: byte, back: seq<byte>)
    ensures MessageBits(front + [x, y] + back)
         == MessageBits(front) + (ByteBits(x) + ByteBits(y)) + MessageBits(back)
  {
    hide ByteBits, MessageBits;
    MessageConcat(front + [x, y], back);
    MessageConcat(front, [x, y]);
    PairBits(x, y);
  }

  lemma ZeroByteBits()
    ensures ByteBits(0) + ByteBits(0) == Zero(16)
  {
  }

  /** The bits that are divided: the packet with sixteen zeros in its check field, and sixteen more behind it. */
  lemma {:induction false} ChecksumOfCleared(m: seq<byte>)
    requires |m| >= 18
    ensures WordBits(Checksum(Cleared(m)))
         == Rem(MessageBits(m[..16]) + Zero(16) + MessageBits(m[18..]) + Zero(16))
  {
    hide ByteBits, MessageBits, Checksum, WordBits;
    AroundField(m[..16], 0, 0, m[18..]);
    ZeroByteBits();
    ChecksumIsRemainder(Cleared(m), 0);
  }

  /** A packet is accepted exactly if its check field is the remainder of the packet with a field of zeros. */
  lemma {:induction false} AcceptedIsRemainder(m: seq<byte>)
    requires |m| >= 18
    ensures Accepted(m) <==>
              WordBits(Field(m[16], m[17]))
              == Rem(MessageBits(m[..16]) + Zero(16) + MessageBits(m[18..]) + Zero(16))
  {
    hide ByteBits, MessageBits, Checksum, WordBits, Field, Rem;
    ChecksumOfCleared(m);
    if WordBits(Field(m[16], m[17])) == WordBits(Checksum(Cleared(m))) {
      WordInjective(Field(m[16], m[17]), Checksum(Cleared(m)));
    }
  }

  /** What a sender puts there is that remainder, whatever was in the field before; nothing else changes. */
  lemma {:induction false} SealedIsRemainder(m: seq<byte>)
    requires |m| >= 18
    ensures |Sealed(m)| == |m| && Sealed(m)[..16] == m[..16] && Sealed(m)[18..] == m[18..]
    ensures WordBits(Field(Sealed(m)[16], Sealed(m)[17]))
         == Rem(MessageBits(m[..16]) + Zero(16) + MessageBits(m[18..]) + Zero(16))
  {
    hide ByteBits, MessageBits, Checksum, WordBits, Rem, Accepted;
    SealedIsAccepted(m);
    AcceptedIsRemainder(Sealed(m));
  }

  /** An accepted packet has even parity. */
  lemma {:induction false} AcceptedIsEven(m: seq<byte>)
    requires |m| >= 18 && Accepted(m)
    ensures !Parity(MessageBits(m))
  {
    hide ByteBits, MessageBits, Checksum, Field, WordBits, Parity;
    var (front, x, y, back) := (m[..16], m[16], m[17], m[18..]);
    assert m == front + [x, y] + back;
    AroundField(front, x, y, back);
    AroundField(front, 0, 0, back);
    ZeroByteBits();
    FieldBits(x, y);
    ParityOfChecksum(Cleared(m));
    var (f, b) := (MessageBits(front), MessageBits(back));
    ParityConcat(f + (ByteBits(x) + ByteBits(y)), b);
    ParityConcat(f, ByteBits(x) + ByteBits(y));
    ParityConcat(ByteBits(x), ByteBits(y));
    ParityConcat(ByteBits(y), ByteBits(x));
    ParityConcat(f + Zero(16), b);
    ParityConcat(f, Zero(16));
    ParityZero(16);
  }

  /** An odd number of flipped bits, in the check field or elsewhere, is always noticed. */
  lemma {:induction false} OddFlipsRejected(m: seq<byte>, m': seq<byte>)
    requires |m| == |m'| >= 18 && Accepted(m)
    requires Ones(Xor(MessageBits(m), MessageBits(m'))) % 2 == 1
    ensures !Accepted(m')
  {
    AcceptedIsEven(m);
    if Accepted(m') {
      AcceptedIsEven(m');
    }
    ParityXor(MessageBits(m), MessageBits(m'));
    ParityIsOdd(Xor(MessageBits(m), MessageBits(m')));
  }

  lemma FieldInjective(low: byte, high: byte, low': byte, high': byte)
    requires Field(low, high) == Field(low', high')
    ensures low == low' && high == high'
  {
    assert LowByte(Field(low, high)) == low && HighByte(Field(low, high)) == high;
    assert LowByte(Field(low', high')) == low' && HighByte(Field(low', high')) == high';
  }

  /** So is any damage that stays within the check field. */
  lemma FieldDamageRejected(m: seq<byte>, m': seq<byte>)
    requires |m| == |m'| >= 18 && Accepted(m)
    requires m[..16] == m'[..16] && m[18..] == m'[18..] && m != m'
    ensures !Accepted(m')
  {
    hide Checksum, Field;
    assert Cleared(m) == Cleared(m');
    assert m == m[..16] + [m[16], m[17]] + m[18..];
    assert m' == m'[..16] + [m'[16], m'[17]] + m'[18..];
    if Accepted(m') {
      FieldInjective(m[16], m[17], m'[16], m'[17]);
    }
  }

  // ----- Bursts -----

  /** All the differences lie within w, after `before` bits that are right. */
  ghost predicate Burst(s: Bits, before: nat, w: Bits) {
    before + |w| <= |s| && s == Zero(before) + w + Zero(|s| - before - |w|)
  }

  lemma SomeOne(w: Bits, z: Bits) returns (k: nat)
    requires |w| == |z| && w != z
    ensures k < |w| && w[k] != z[k]
  {
    k :| 0 <= k < |w| && w[k] != z[k];
  }

  /** A burst of up to sixteen bits leaves something in the register. */
  lemma {:induction false} BurstLeavesTrace(s: Bits, before: nat, w: Bits)
    requires Burst(s, before, w) && |w| <= 16 && w != Zero(|w|)
    ensures Feed(Zero(16), s) != Zero(16)
  {
    hide Step, Feed, Shifts;
    var rest: nat := |s| - before - |w|;
    FeedConcat(Zero(16), Zero(before) + w, Zero(rest));
    FeedConcat(Zero(16), Zero(before), w);
    FeedZeros(Zero(16), before);
    ShiftsZero(before);
    FeedTogether(Zero(16), w);
    var top: Register := w + Zero(16 - |w|);
    assert Xor(Zero(16), top) == top;
    FeedZeros(Shifts(top, |w|), rest);
    var k := SomeOne(w, Zero(|w|));
    assert top[k];
    ShiftsLosesNothing(Shifts(top, |w|), rest);
    ShiftsLosesNothing(top, |w|);
  }

  lemma XorCancels(r: Bits, x: Bits, y: Bits)
    requires |r| == |x| == |y|
    ensures Xor(r, x) == Xor(r, y) <==> x == y
  {
    if Xor(r, x) == Xor(r, y) {
      forall i | 0 <= i < |x|
        ensures x[i] == y[i]
      {
        assert Xor(r, x)[i] == Xor(r, y)[i];
      }
    }
  }

  /** The checksums of two messages differ by what their difference leaves in the register. */
  lemma {:induction false} ChecksumOfDifference(m: seq<byte>, m': seq<byte>)
    requires |m| == |m'|
    ensures Feed(Zero(16), Xor(MessageBits(m), MessageBits(m')))
         == Xor(WordBits(Checksum(m)), WordBits(Checksum(m')))
  {
    hide Checksum, WordBits, MessageBits, Feed;
    ChecksumFeeds(m);
    ChecksumFeeds(m');
    FeedXor(Zero(16), Zero(16), MessageBits(m), MessageBits(m'));
    assert Xor(Zero(16), Zero(16)) == Zero(16);
  }

  /** What two packets differ by past the address and outside the check field, and within it. */
  ghost function BodyDamage(m: seq<byte>, m': seq<byte>): Bits
    requires |m| == |m'| >= 18
  {
    Xor(MessageBits(Cleared(m)), MessageBits(Cleared(m')))
  }

  ghost function FieldDamage(m: seq<byte>, m': seq<byte>): Bits
    requires |m| == |m'| >= 18
  {
    Xor(WordBits(Field(m[16], m[17])), WordBits(Field(m'[16], m'[17])))
  }

  /** Any damage at all to an accepted packet: it goes unnoticed exactly if what it leaves in the register outside
      the check field is what it does to the check field. */
  lemma {:induction false} UnnoticedExactly(m: seq<byte>, m': seq<byte>)
    requires |m| == |m'| >= 18 && Accepted(m)
    ensures Accepted(m') <==> Feed(Zero(16), BodyDamage(m, m')) == FieldDamage(m, m')
  {
    hide Checksum, WordBits, MessageBits, Feed, Field;
    ChecksumOfDifference(Cleared(m), Cleared(m'));
    var (c, f) := (Checksum(Cleared(m')), Field(m'[16], m'[17]));
    XorCancels(WordBits(Checksum(Cleared(m))), WordBits(c), WordBits(f));
    if WordBits(c) == WordBits(f) {
      WordInjective(c, f);
    }
  }

  /** Clearing a field that did not change does not touch the differences. */
  lemma {:induction false} SameDifference(m: seq<byte>, m': seq<byte>)
    requires |m| == |m'| >= 18 && m[16] == m'[16] && m[17] == m'[17]
    ensures Xor(MessageBits(Cleared(m)), MessageBits(Cleared(m'))) == Xor(MessageBits(m), MessageBits(m'))
  {
    hide ByteBits, MessageBits;
    var (front, x, y, back) := (m[..16], m[16], m[17], m[18..]);
    var (front', back') := (m'[..16], m'[18..]);
    assert m == front + [x, y] + back && m' == front' + [x, y] + back';
    AroundField(front, x, y, back);
    AroundField(front', x, y, back');
    AroundField(front, 0, 0, back);
    AroundField(front', 0, 0, back');
    var (c, c') := (Xor(MessageBits(Cleared(m)), MessageBits(Cleared(m'))), Xor(MessageBits(m), MessageBits(m')));
    forall i | 0 <= i < |c|
      ensures c[i] == c'[i]
    {
    }
  }

  /** A burst of up to sixteen bits outside the check field is always noticed. */
  lemma {:induction false} BurstRejected(m: seq<byte>, m': seq<byte>, before: nat, w: Bits)
    requires |m| == |m'| >= 18 && Accepted(m) && m[16] == m'[16] && m[17] == m'[17]
    requires |w| <= 16 && w != Zero(|w|)
    requires Burst(Xor(MessageBits(m), MessageBits(m')), before, w)
    ensures !Accepted(m')
  {
    hide MessageBits, Checksum, WordBits, Burst, Feed, Accepted;
    SameDifference(m, m');
    BurstLeavesTrace(Xor(MessageBits(m), MessageBits(m')), before, w);
    UnnoticedExactly(m, m');
    assert FieldDamage(m, m') == Zero(16);
  }
}
