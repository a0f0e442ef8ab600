/** The daemon's CRC-16: crcInit fills a table from the polynomial 0x8005, crcFast runs a message through it
    byte by byte. */
module Crc {
  import opened Bytes
  import opened Division
  import opened Registers

  type crc = bv16

  const POLYNOMIAL: crc := 0x8005
  const TOPBIT: crc := 0x8000

  /** The mask of bit i, counted from the most significant one. */
  function Mask(i: nat): crc
    requires i < 16
  {
    match i
    case 0 => 0x8000 case 1 => 0x4000 case 2 => 0x2000 case 3 => 0x1000
    case 4 => 0x0800 case 5 => 0x0400 case 6 => 0x0200 case 7 => 0x0100
    case 8 => 0x0080 case 9 => 0x0040 case 10 => 0x0020 case 11 => 0x0010
    case 12 => 0x0008 case 13 => 0x0004 case 14 => 0x0002 case _ => 0x0001
  }

  predicate Has(r: crc, i: nat)
    requires i < 16
  {
    r & Mask(i) != 0
  }

  /** The bits of a word, most significant first. */
  function WordBits(r: crc): Register {
    seq(16, i requires 0 <= i < 16 => Has(r, i))
  }

  function Wide(d: byte): crc {
    d as crc
  }

  function ByteBits(d: byte): (s: Bits)
    ensures |s| == 8
  {
    WordBits(Wide(d))[8..]
  }

  /** The bits of a message, in the order in which the CRC takes them. */
  function MessageBits(m: seq<byte>): (s: Bits)
    ensures |s| == 8 * |m|
  {
    if m == [] then [] else MessageBits(m[..|m| - 1]) + ByteBits(m[|m| - 1])
  }

  lemma ByteOfHigh(d: byte, r: crc)
    ensures Wide(d ^ ((r >> 8) as byte)) == Wide(d) ^ (r >> 8)
  {
  }

  lemma MaskIsOneBit(i: nat)
    requires i < 16
    ensures Mask(i) & (Mask(i) - 1) == 0
  {
  }

  lemma OneBit(a: crc, k: crc)
    requires k & (k - 1) == 0
    ensures a & k == 0 || a & k == k
  {
  }

  lemma AndOfXor(a: crc, b: crc, k: crc)
    ensures (a ^ b) & k == (a & k) ^ (b & k)
  {
  }

  lemma XorMask(a: crc, b: crc, k: crc)
    requires k & (k - 1) == 0
    ensures ((a ^ b) & k != 0) <==> ((a & k != 0) != (b & k != 0))
  {
    OneBit(a, k);
    OneBit(b, k);
    OneBit(a ^ b, k);
    AndOfXor(a, b, k);
  }

  lemma HasXor(a: crc, b: crc, i: nat)
    requires i < 16
    ensures Has(a ^ b, i) == (Has(a, i) != Has(b, i))
  {
    hide Mask;
    MaskIsOneBit(i);
    XorMask(a, b, Mask(i));
  }

  lemma HasShift(r: crc, i: nat)
    requires i < 16
    ensures Has(r << 1, i) == (i < 15 && Has(r, i + 1))
  {
  }

  lemma HasLow(r: crc, i: nat)
    requires i < 16
    ensures Has(r << 8, i) == (i < 8 && Has(r, 8 + i))
  {
  }

  lemma HasHigh(r: crc, i: nat)
    requires i < 8
    ensures Has(r >> 8, 8 + i) == Has(r, i)
  {
  }

  lemma WordXor(a: crc, b: crc)
    ensures WordBits(a ^ b) == Xor(WordBits(a), WordBits(b))
  {
    hide Has;
    forall i | 0 <= i < 16
      ensures WordBits(a ^ b)[i] == Xor(WordBits(a), WordBits(b))[i]
    {
      HasXor(a, b, i);
    }
  }

  lemma WordShift(r: crc)
    ensures WordBits(r << 1) == WordBits(r)[1..] + [false]
  {
    hide Has;
    forall i | 0 <= i < 16
      ensures WordBits(r << 1)[i] == (WordBits(r)[1..] + [false])[i]
    {
      HasShift(r, i);
    }
  }

  lemma WordPolynomial()
    ensures WordBits(0x8005) == Tail()
  {
  }

  lemma WordLow(r: crc)
    ensures WordBits(r << 8) == WordBits(r)[8..] + Zero(8)
  {
    hide Has;
    forall i | 0 <= i < 16
      ensures WordBits(r << 8)[i] == (WordBits(r)[8..] + Zero(8))[i]
    {
      HasLow(r, i);
    }
  }

  lemma WordHigh(r: crc)
    ensures WordBits(r >> 8)[8..] == WordBits(r)[..8]
  {
    hide Has;
    forall i | 0 <= i < 8
      ensures WordBits(r >> 8)[8..][i] == WordBits(r)[..8][i]
    {
      HasHigh(r, i);
    }
  }

  lemma WordOfByte(d: byte)
    ensures WordBits(Wide(d) << 8) == ByteBits(d) + Zero(8)
  {
    WordLow(Wide(d));
    assert WordBits(Wide(d))[8..] == ByteBits(d);
  }

  lemma ByteXorHigh(d: byte, r: crc)
    ensures ByteBits(d ^ ((r >> 8) as byte)) == Xor(ByteBits(d), WordBits(r)[..8])
  {
    ByteOfHigh(d, r);
    WordXor(Wide(d), r >> 8);
    WordHigh(r);
    hide WordBits;
    var (x, y) := (WordBits(Wide(d)), WordBits(r >> 8));
    assert Xor(x, y)[8..] == Xor(x[8..], y[8..]);
  }

  lemma WordZero()
    ensures WordBits(0) == Zero(16)
  {
  }

  predicate SameAt(a: crc, b: crc, i: nat)
    requires i < 16
  {
    a & Mask(i) == b & Mask(i)
  }

  lemma SameEverywhere(a: crc, b: crc)
    requires SameAt(a, b, 0) && SameAt(a, b, 1) && SameAt(a, b, 2) && SameAt(a, b, 3)
    requires SameAt(a, b, 4) && SameAt(a, b, 5) && SameAt(a, b, 6) && SameAt(a, b, 7)
    requires SameAt(a, b, 8) && SameAt(a, b, 9) && SameAt(a, b, 10) && SameAt(a, b, 11)
    requires SameAt(a, b, 12) && SameAt(a, b, 13) && SameAt(a, b, 14) && SameAt(a, b, 15)
    ensures a == b
  {
  }

  lemma SameBit(a: crc, b: crc, i: nat)
    requires i < 16 && Has(a, i) == Has(b, i)
    ensures SameAt(a, b, i)
  {
  }

  lemma WordInjective(a: crc, b: crc)
    requires WordBits(a) == WordBits(b)
    ensures a == b
  {
    hide Has, SameAt;
    forall i | 0 <= i < 16
      ensures SameAt(a, b, i)
    {
      assert WordBits(a)[i] == WordBits(b)[i];
      SameBit(a, b, i);
    }
    SameEverywhere(a, b);
  }

  // ----- The table -----

  /** The body of crcInit's inner loop. */
  function ShiftWord(r: crc): crc {
    if r & 0x8000 != 0 then (r << 1) ^ 0x8005 else r << 1
  }

  function ShiftWords(r: crc, n: nat): crc {
    if n == 0 then r else ShiftWord(ShiftWords(r, n - 1))
  }

  function TableEntry(d: byte): crc {
    ShiftWords(Wide(d) << 8, 8)
  }

  lemma ShiftWordBits(r: crc)
    ensures WordBits(ShiftWord(r)) == Step(WordBits(r), false)
  {
    WordShift(r);
    WordPolynomial();
    WordXor(r << 1, 0x8005);
    var b := WordBits(r);
    assert b[0] == Has(r, 0) && Mask(0) == 0x8000;
    hide WordBits;
    assert Scale(false, Tail()) == Zero(16);
    assert Xor(b[1..] + [false], Zero(16)) == b[1..] + [false];
  }

  lemma {:induction false} ShiftWordsBits(r: crc, n: nat)
    ensures WordBits(ShiftWords(r, n)) == Shifts(WordBits(r), n)
  {
    if n > 0 {
      ShiftWordsBits(r, n - 1);
      ShiftWordBits(ShiftWords(r, n - 1));
    }
  }

  lemma IntIsWide(n: int)
    requires 0 <= n < 256
    ensures n as crc == Wide(n as byte)
  {
  }

  /** The inner loop of crcInit. */
  method DivideByte(start: crc) returns (remainder: crc)
    ensures remainder == ShiftWords(start, 8)
  {
    hide ShiftWord;
    remainder := start;
    var bit := 8;
    while bit > 0
      invariant 0 <= bit <= 8
      invariant remainder == ShiftWords(start, 8 - bit)
    {
      ShiftWordCases(remainder);
      if remainder & TOPBIT != 0 {
        remainder := (remainder << 1) ^ POLYNOMIAL;
      } else {
        remainder := remainder << 1;
      }
      bit := bit - 1;
    }
  }

  lemma ShiftWordCases(r: crc)
    ensures r & TOPBIT != 0 ==> ShiftWord(r) == (r << 1) ^ POLYNOMIAL
    ensures r & TOPBIT == 0 ==> ShiftWord(r) == r << 1
  {
  }

  ghost predicate IsTable(t: seq<crc>) {
    |t| == 256 && forall d: byte :: t[d as int] == TableEntry(d)
  }

  method CrcInit() returns (crcTable: array<crc>)
    ensures fresh(crcTable) && IsTable(crcTable[..])
  {
    hide TableEntry;
    crcTable := new crc[256];
    var dividend := 0;
    while dividend < 256
      invariant 0 <= dividend <= 256
      invariant forall n :: 0 <= n < dividend ==> crcTable[n] == TableEntry(n as byte)
    {
      var remainder := DivideByte((dividend as crc) << 8);
      EntryOfInt(dividend);
      crcTable[dividend] := remainder;
      dividend := dividend + 1;
    }
    forall d: byte
      ensures crcTable[..][d as int] == TableEntry(d)
    {
      ByteIsInt(d);
    }
  }

  lemma EntryOfInt(n: int)
    requires 0 <= n < 256
    ensures ShiftWords((n as crc) << 8, 8) == TableEntry(n as byte)
  {
    hide ShiftWords;
    IntIsWide(n);
  }

  lemma ByteIsInt(d: byte)
    ensures 0 <= d as int < 256 && (d as int) as byte == d
  {
  }

  // ----- The byte loop -----

  /** The table index for the next message byte. */
  function Index(d: byte, r: crc): byte {
    d ^ ((r >> 8) as byte)
  }

  function Combine(entry: crc, r: crc): crc {
    entry ^ (r << 8)
  }

  /** The checksum of a message: a table look-up for each byte. */
  function Checksum(m: seq<byte>): crc {
    if m == [] then 0
    else
      var r := Checksum(m[..|m| - 1]);
      Combine(TableEntry(Index(m[|m| - 1], r)), r)
  }

  method CrcFast(crcTable: array<crc>, message: seq<byte>) returns (remainder: crc)
    requires IsTable(crcTable[..])
    ensures remainder == Checksum(message)
  {
    hide TableEntry;
    remainder := 0;
    var i := 0;
    while i < |message|
      invariant 0 <= i <= |message|
      invariant remainder == Checksum(message[..i])
    {
      var data := message[i] ^ ((remainder >> 8) as byte);
      assert crcTable[data as int] == crcTable[..][data as int] == TableEntry(data);
      assert data == Index(message[i], remainder);
      remainder := crcTable[data as int] ^ (remainder << 8);
      i := i + 1;
      assert message[..i][..i - 1] == message[..i - 1];
    }
    assert message[..i] == message;
  }

  lemma CombineBits(entry: crc, r: crc)
    ensures WordBits(Combine(entry, r)) == Xor(WordBits(entry), WordBits(r)[8..] + Zero(8))
  {
    WordLow(r);
    WordXor(entry, r << 8);
  }

  lemma EntryBits(d: byte)
    ensures WordBits(TableEntry(d)) == Shifts(ByteBits(d) + Zero(8), 8)
  {
    hide ShiftWords, WordBits, ByteBits, Shifts, Wide;
    WordOfByte(d);
    ShiftWordsBits(Wide(d) << 8, 8);
  }

  /** Eight bits fed to the register, in two halves: the high byte is looked up, the low byte moves. */
  lemma {:induction false} FeedByte(r: Register, bits: Bits)
    requires |bits| == 8
    ensures Feed(r, bits) == Xor(Shifts(Xor(bits, r[..8]) + Zero(8), 8), r[8..] + Zero(8))
  {
    hide Step, Shifts, Feed;
    var (x, low) := (Xor(bits, r[..8]) + Zero(8), Zero(8) + r[8..]);
    FeedTogether(r, bits);
    assert Xor(r, bits + Zero(8)) == Xor(x, low);
    ShiftsXor(x, low, 8);
    ShiftsFree(r[8..], 8);
  }

  /** One table look-up is eight bits fed to the division register. */
  lemma TableStep(d: byte, r: crc)
    ensures WordBits(Combine(TableEntry(Index(d, r)), r)) == Feed(WordBits(r), ByteBits(d))
  {
    hide WordBits, ByteBits, TableEntry, Combine, Shifts, Feed;
    CombineBits(TableEntry(Index(d, r)), r);
    EntryBits(Index(d, r));
    ByteXorHigh(d, r);
    FeedByte(WordBits(r), ByteBits(d));
  }

  lemma {:induction false} ChecksumFeeds(m: seq<byte>)
    ensures WordBits(Checksum(m)) == Feed(Zero(16), MessageBits(m))
  {
    hide WordBits, ByteBits, TableEntry, Combine, Index;
    if m == [] {
      WordZero();
    } else {
      var front := m[..|m| - 1];
      ChecksumFeeds(front);
      TableStep(m[|m| - 1], Checksum(front));
      FeedConcat(Zero(16), MessageBits(front), ByteBits(m[|m| - 1]));
    }
  }

  /** For a message of any length the checksum is the remainder of message(x) * x^16 divided by
      x^16 + x^15 + x^2 + 1: it satisfies the division equation, and no other word does. */
  lemma {:induction false} ChecksumIsRemainder(m: seq<byte>, r: crc)
    ensures WordBits(Checksum(m)) == Rem(MessageBits(m) + Zero(16))
    ensures r == Checksum(m) <==> exists q :: Divides(MessageBits(m) + Zero(16), q, WordBits(r))
  {
    hide WordBits, Divides;
    ChecksumFeeds(m);
    FeedIsRem(MessageBits(m));
    RemainderExact(MessageBits(m) + Zero(16), WordBits(r));
    if WordBits(r) == WordBits(Checksum(m)) {
      WordInjective(r, Checksum(m));
    }
  }
}
