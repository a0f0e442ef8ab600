/** A burst that reaches into the check field can go unnoticed: a concrete one, for every ack. */
module Straddle {
  import opened Bytes
  import opened Division
  import opened Registers
  import opened Crc
  import opened Detection

  function Shifted8(r: crc): crc {
    ShiftWord(ShiftWord(ShiftWord(ShiftWord(ShiftWord(ShiftWord(ShiftWord(ShiftWord(r))))))))
  }

  lemma {:induction false} Onward(start: crc, n: nat, r: crc, s: crc)
    requires ShiftWords(start, n) == r && Shifted8(r) == s
    ensures ShiftWords(start, n + 8) == s
  {
    hide ShiftWord;
    assert ShiftWords(start, n + 2) == ShiftWord(ShiftWord(r));
    assert ShiftWords(start, n + 4) == ShiftWord(ShiftWord(ShiftWords(start, n + 2)));
    assert ShiftWords(start, n + 6) == ShiftWord(ShiftWord(ShiftWords(start, n + 4)));
    assert ShiftWords(start, n + 8) == ShiftWord(ShiftWord(ShiftWords(start, n + 6)));
  }

  /** What the flipped bits of byte 15 leave in the register by the end of an ack. */
  lemma {:induction false} Left()
    ensures ShiftWords(0x1400, 200) == 0x8004
  {
    Onward(0x1400, 0, 0x1400, 0x0078);
    Onward(0x1400, 8, 0x0078, 0x7800);
    Onward(0x1400, 16, 0x7800, 0x0110);
    Onward(0x1400, 24, 0x0110, 0x9005);
    Onward(0x1400, 32, 0x9005, 0x0660);
    Onward(0x1400, 40, 0x0660, 0x6014);
    Onward(0x1400, 48, 0x6014, 0x1540);
    Onward(0x1400, 56, 0x1540, 0xc07d);
    Onward(0x1400, 64, 0xc07d, 0x7f80);
    Onward(0x1400, 72, 0x7f80, 0x0101);
    Onward(0x1400, 80, 0x0101, 0x8105);
    Onward(0x1400, 88, 0x8105, 0x0606);
    Onward(0x1400, 96, 0x0606, 0x0614);
    Onward(0x1400, 104, 0x0614, 0x1414);
    Onward(0x1400, 112, 0x1414, 0x1478);
    Onward(0x1400, 120, 0x1478, 0x7878);
    Onward(0x1400, 128, 0x7878, 0x7910);
    Onward(0x1400, 136, 0x7910, 0x9115);
    Onward(0x1400, 144, 0x9115, 0x9665);
    Onward(0x1400, 152, 0x9665, 0x6674);
    Onward(0x1400, 160, 0x6674, 0x7554);
    Onward(0x1400, 168, 0x7554, 0xd53d);
    Onward(0x1400, 176, 0xd53d, 0xbffd);
    Onward(0x1400, 184, 0xbffd, 0x7e81);
    Onward(0x1400, 192, 0x7e81, 0x8004);
  }

  lemma ByteBitsXor(d: byte, e: byte)
    ensures Xor(ByteBits(d), ByteBits(d ^ e)) == ByteBits(e)
  {
    assert Wide(d) ^ Wide(d ^ e) == Wide(e);
    WordXor(Wide(d), Wide(d ^ e));
    hide WordBits;
    assert Xor(WordBits(Wide(d)), WordBits(Wide(d ^ e)))[8..] == Xor(ByteBits(d), ByteBits(d ^ e));
  }

  lemma FieldFlips(low: byte, high: byte)
    ensures Field(low, high) ^ Field(low ^ 0x04, high ^ 0x80) == 0x8004
  {
  }

  lemma FieldXor(low: byte, high: byte)
    ensures Xor(WordBits(Field(low, high)), WordBits(Field(low ^ 0x04, high ^ 0x80))) == WordBits(0x8004)
  {
    hide WordBits, Field;
    FieldFlips(low, high);
    WordXor(Field(low, high), Field(low ^ 0x04, high ^ 0x80));
  }

  lemma SameAround(a: Bits, x: Bits, y: Bits, c: Bits)
    requires |x| == |y|
    ensures Xor(a + x + c, a + y + c) == Zero(|a|) + Xor(x, y) + Zero(|c|)
  {
  }

  lemma {:induction false} ByteBetween(front: seq<byte>, d: byte, back: seq<byte>)
    ensures MessageBits(front + [d] + back) == MessageBits(front) + ByteBits(d) + MessageBits(back)
  {
    hide ByteBits;
    MessageConcat(front + [d], back);
    MessageConcat(front, [d]);
    assert [d][..0] == [];
    assert MessageBits([d]) == ByteBits(d);
  }

  lemma {:induction false} ChangedByte(front: seq<byte>, d: byte, e: byte, back: seq<byte>)
    ensures Xor(MessageBits(front + [d] + back), MessageBits(front + [d ^ e] + back))
         == Zero(8 * |front|) + ByteBits(e) + Zero(8 * |back|)
  {
    hide ByteBits, MessageBits;
    ByteBitsXor(d, e);
    ByteBetween(front, d, back);
    ByteBetween(front, d ^ e, back);
    SameAround(MessageBits(front), ByteBits(d), ByteBits(d ^ e), MessageBits(back));
  }

  lemma {:induction false} FeedOfByte(before: nat, e: byte, after: nat)
    ensures Feed(Zero(16), Zero(before) + ByteBits(e) + Zero(after)) == WordBits(ShiftWords(Wide(e) << 8, 8 + after))
  {
    hide WordBits, ByteBits, ShiftWords, Step, Feed, Wide;
    FeedConcat(Zero(16), Zero(before) + ByteBits(e), Zero(after));
    FeedConcat(Zero(16), Zero(before), ByteBits(e));
    FeedZeros(Zero(16), before);
    ShiftsZero(before);
    FeedTogether(Zero(16), ByteBits(e));
    WordOfByte(e);
    assert Xor(Zero(16), ByteBits(e) + Zero(8)) == WordBits(Wide(e) << 8);
    FeedZeros(Shifts(WordBits(Wide(e) << 8), 8), after);
    ShiftsAdd(WordBits(Wide(e) << 8), 8, after);
    ShiftWordsBits(Wide(e) << 8, 8 + after);
  }

  /** Two bits of byte 15, one of byte 16 and one of byte 17, fourteen places from first to last: in every ack
      that is accepted they can be flipped together and it is accepted again. */
  lemma {:induction false} BurstUnnoticed(m: seq<byte>)
    requires |m| == 40 && Accepted(m)
    ensures Accepted(m[15 := m[15] ^ 0x14][16 := m[16] ^ 0x04][17 := m[17] ^ 0x80])
  {
    hide Accepted, MessageBits, ByteBits, WordBits, Feed, ShiftWords, Field;
    var m' := m[15 := m[15] ^ 0x14][16 := m[16] ^ 0x04][17 := m[17] ^ 0x80];
    var (front, back) := (m[..15], [0, 0] + m[18..]);
    assert Cleared(m) == front + [m[15]] + back && Cleared(m') == front + [m[15] ^ 0x14] + back;
    UnnoticedExactly(m, m');
    ChangedByte(front, m[15], 0x14, back);
    FeedOfByte(120, 0x14, 192);
    FieldXor(m[16], m[17]);
    assert Wide(0x14) << 8 == 0x1400;
    Left();
  }
}
