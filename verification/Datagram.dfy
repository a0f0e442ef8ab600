/** Packets and acks as bytes, past the 16-byte address: the checksum test in front of the receiver. */
module Datagram {
  import opened Bytes
  import opened Crc
  import opened Detection
  import opened Receiver

  const PACKET: nat := 1040  // tcp header, time stamp, padding and a 1000-byte body
  const ACK: nat := 40       // the same without the body

  /** What a 32-bit int can hold. */
  predicate Fits(n: int) {
    -0x8000_0000 <= n < 0x8000_0000
  }

  function Value(d: byte): (n: int)
    ensures 0 <= n < 0x100
  {
    d as int
  }

  /** A 32-bit int as the (little-endian) machine stores it, read back with its sign. */
  function Int32(b: seq<byte>): (n: int)
    requires |b| == 4
    ensures Fits(n)
  {
    var u := Value(b[0]) + 0x100 * Value(b[1]) + 0x1_0000 * Value(b[2]) + 0x100_0000 * Value(b[3]);
    if u >= 0x8000_0000 then u - 0x1_0000_0000 else u
  }

  function IntBytes(n: int): (b: seq<byte>)
    requires Fits(n)
    ensures |b| == 4
  {
    [Digit(n), Digit(Rest(n)), Digit(Rest(Rest(n))), Digit(Rest(Rest(Rest(n))))]
  }

  function Digit(n: int): byte {
    (n % 0x100) as byte
  }

  function Rest(n: int): int {
    n / 0x100
  }

  lemma DigitIs(n: int)
    ensures Value(Digit(n)) == n % 0x100
  {
    IntIsByte(n % 0x100);
  }

  lemma Split(n: int) returns (d: int, rest: int)
    ensures n == d + 0x100 * rest && 0 <= d < 0x100 && rest == Rest(n)
    ensures Value(Digit(n)) == d
  {
    d, rest := n % 0x100, Rest(n);
    DigitIs(n);
  }

  lemma Together(n: int, a: int, b: int, c: int, d0: int, d1: int, d2: int, d3: int)
    requires Fits(n) && n == d0 + 0x100 * a && a == d1 + 0x100 * b && b == d2 + 0x100 * c && d3 == c % 0x100
    requires 0 <= d0 < 0x100 && 0 <= d1 < 0x100 && 0 <= d2 < 0x100
    ensures d0 + 0x100 * d1 + 0x1_0000 * d2 + 0x100_0000 * d3 == if n >= 0 then n else n + 0x1_0000_0000
  {
    assert -0x80 <= c < 0x80;
  }

  /** Any int comes back, with its sign. */
  lemma IntRoundTrip(n: int)
    requires Fits(n)
    ensures Int32(IntBytes(n)) == n
  {
    hide Digit, Rest, Value;
    var d0, a := Split(n);
    var d1, b := Split(a);
    var d2, c := Split(b);
    DigitIs(c);
    Together(n, a, b, c, d0, d1, d2, c % 0x100);
  }

  /** The lowest byte comes first. */
  lemma ByteOrder(d: byte)
    ensures Int32([d, 0, 0, 0]) == d as int
    ensures Int32([0, d, 0, 0]) == 0x100 * (d as int)
    ensures Int32([0, 0, d, 0]) == 0x1_0000 * (d as int)
  {
  }

  function PacketNumber(m: seq<byte>): int
    requires |m| == PACKET
  {
    Int32(m[4..8])
  }

  function PacketBody(m: seq<byte>): Block
    requires |m| == PACKET
  {
    m[40..]
  }

  function AckNumber(m: seq<byte>): int
    requires |m| == ACK
  {
    Int32(m[8..12])
  }

  /** The sender's packet; `rest` supplies every other header byte, such as the time stamp. */
  function MakePacket(rest: seq<byte>, seqNum: int, body: Block): (m: seq<byte>)
    requires |rest| == ACK && Fits(seqNum)
    ensures |m| == PACKET
  {
    Sealed(rest[..4] + IntBytes(seqNum) + rest[8..] + body)
  }

  function MakeAck(rest: seq<byte>, seqNum: int): (m: seq<byte>)
    requires |rest| == ACK && Fits(seqNum)
    ensures |m| == ACK
  {
    Sealed(rest[..8] + IntBytes(seqNum) + rest[12..])
  }

  /** A packet that is not damaged passes the test, with the number and the body it was made from; every other byte
      but the check field is the header's own. */
  lemma PacketRoundTrip(rest: seq<byte>, seqNum: int, body: Block)
    requires |rest| == 40 && Fits(seqNum)
    ensures var m := MakePacket(rest, seqNum, body);
      && |m| == 1040
      && Accepted(m) && PacketNumber(m) == seqNum && PacketBody(m) == body
      && m[..4] == rest[..4] && m[8..16] == rest[8..16] && m[18..40] == rest[18..40]
  {
    hide Checksum, Accepted, Sealed, IntBytes;
    var plain := rest[..4] + IntBytes(seqNum) + rest[8..] + body;
    SealedIsAccepted(plain);
    SameOutsideField(plain, MakePacket(rest, seqNum, body));
    FourParts(rest[..4], IntBytes(seqNum), rest[8..], body);
    IntRoundTrip(seqNum);
  }

  /** What is the same on both sides of the check field is the same byte by byte. */
  lemma SameOutsideField(m: seq<byte>, m': seq<byte>)
    requires |m| == |m'| >= 18 && m[..16] == m'[..16] && m[18..] == m'[18..]
    ensures forall i, j :: 0 <= i <= j <= 16 || 18 <= i <= j <= |m| ==> m[i..j] == m'[i..j]
  {
    forall i, j | 0 <= i <= j <= 16 || 18 <= i <= j <= |m|
      ensures m[i..j] == m'[i..j]
    {
      if j <= 16 {
        SliceBefore(m, 16, i, j);
        SliceBefore(m', 16, i, j);
      } else {
        SliceAfter(m, 18, i, j);
        SliceAfter(m', 18, i, j);
      }
    }
  }

  lemma SliceBefore(m: seq<byte>, k: nat, i: nat, j: nat)
    requires i <= j <= k <= |m|
    ensures m[i..j] == m[..k][i..j]
  {
  }

  lemma SliceAfter(m: seq<byte>, k: nat, i: nat, j: nat)
    requires k <= i <= j <= |m|
    ensures m[i..j] == m[k..][i - k..j - k]
  {
  }

  lemma FourParts(a: seq<byte>, b: seq<byte>, c: seq<byte>, d: seq<byte>)
    requires |a| == |b| == 4 && |c| == 32
    ensures var m := a + b + c + d;
      m[0..4] == a && m[4..8] == b && m[8..16] == c[..8] && m[18..40] == c[10..] && m[40..|m|] == d
  {
    var m := a + b + c + d;
    assert m[8..40] == c && m[8..16] == m[8..40][..8] && m[18..40] == m[8..40][10..];
  }

  lemma ThreeParts(a: seq<byte>, b: seq<byte>, c: seq<byte>)
    requires |a| == 8 && |b| == 4 && |c| == 28
    ensures var m := a + b + c;
      m[0..8] == a && m[8..12] == b && m[12..16] == c[..4] && m[18..40] == c[6..]
  {
    var m := a + b + c;
    assert m[12..40] == c && m[12..16] == m[12..40][..4] && m[18..40] == m[12..40][6..];
  }

  lemma AckRoundTrip(rest: seq<byte>, seqNum: int)
    requires |rest| == 40 && Fits(seqNum)
    ensures var m := MakeAck(rest, seqNum);
      && |m| == 40
      && Accepted(m) && AckNumber(m) == seqNum
      && m[..8] == rest[..8] && m[12..16] == rest[12..16] && m[18..] == rest[18..]
  {
    hide Checksum, Accepted, Sealed, IntBytes;
    var plain := rest[..8] + IntBytes(seqNum) + rest[12..];
    var m := MakeAck(rest, seqNum);
    SealedIsAccepted(plain);
    SameOutsideField(plain, m);
    ThreeParts(rest[..8], IntBytes(seqNum), rest[12..]);
    assert m[18..] == m[18..40];
    IntRoundTrip(seqNum);
  }

  /** One datagram at the receiver: a garbled one changes nothing and is not acknowledged; an intact one is
      stored and delivered as its number says, and acknowledged. */
  method OnDatagram(server: Server, crcTable: array<crc>, m: seq<byte>)
    requires server.Valid() && IsTable(crcTable[..]) && |m| == PACKET
    requires Accepted(m) ==> Addressable(server.lfr, server.laf, PacketNumber(m))
    modifies server, server.recvbuf
    ensures server.Valid()
    ensures !Accepted(m) ==>
              && server.State() == old(server.State())
              && server.toFtps == old(server.toFtps) && server.acks == old(server.acks)
    ensures Accepted(m) ==>
              var (r, out) := Step(old(server.State()), PacketNumber(m), PacketBody(m), server.resetAbove);
              && server.State() == r
              && server.toFtps == old(server.toFtps) + out
              && server.acks == old(server.acks) + [PacketNumber(m)]
  {
    hide Checksum, Step;
    var original := Field(m[16], m[17]);
    var cleared := m[..16] + [0, 0] + m[18..];
    var remainder := CrcFast(crcTable, cleared);
    if remainder != original {
      return;
    }
    var seqNum := PacketNumber(m);
    server.Intact(seqNum, PacketBody(m));
  }
}
