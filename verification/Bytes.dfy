/** Bytes, 1000-byte blocks and the protocol's constants (head.h). */
module Bytes {

  type byte = bv8

  const BUFFSIZE: nat := 1000  // bytes in one block
  const WINDOW: nat := 20

  type Block = b: seq<byte> | |b| == BUFFSIZE witness seq(BUFFSIZE, _ => 0)

  function Min(a: int, b: int): int {
    if a < b then a else b
  }

  /** A block as bzero leaves it. */
  function Zeros(): (b: Block)
    ensures forall i :: 0 <= i < BUFFSIZE ==> b[i] == 0
  {
    seq(BUFFSIZE, _ => 0)
  }

  /** Every byte is zero: how the daemon recognises a free buffer slot (BlankIsAllZero). */
  predicate Blank(b: Block) {
    b == Zeros()
  }

  lemma BlankIsAllZero(b: Block)
    ensures Blank(b) <==> forall i :: 0 <= i < BUFFSIZE ==> b[i] == 0
  {
    if forall i :: 0 <= i < BUFFSIZE ==> b[i] == 0 {
      assert forall i :: 0 <= i < BUFFSIZE ==> b[i] == Zeros()[i];
    }
  }

  /** The free-slot test, byte by byte against the mask 0xff, stopping at the first byte that is set. */
  method CheckEmpty(buffer: Block) returns (empty: bool)
    ensures empty <==> Blank(buffer)
  {
    BlankIsAllZero(buffer);
    var temp: byte := 0xff;
    for i := 0 to |buffer|
      invariant forall k :: 0 <= k < i ==> buffer[k] == 0
    {
      if buffer[i] & temp != 0 {
        return false;
      }
    }
    return true;
  }

  lemma IntIsByte(n: int)
    requires 0 <= n < 256
    ensures (n as byte) as int == n
  {
    assert n as bv16 == (n as byte) as bv16;
  }
}
