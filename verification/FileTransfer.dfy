/** Cutting a file into blocks, padding them in the sending daemon, and cutting them back to the announced size. */
module FileTransfer {
  import opened Bytes

  /** ceil(size / 1000) */
  function BlockCount(size: nat): nat {
    (size + 999) / 1000
  }

  /** Block i of a file. */
  function Piece(file: seq<byte>, i: nat): (p: seq<byte>)
    requires i < BlockCount(|file|)
    ensures 0 < |p| <= 1000
  {
    file[1000 * i..Min(1000 * (i + 1), |file|)]
  }

  function Pieces(file: seq<byte>): (ps: seq<seq<byte>>)
    ensures |ps| == BlockCount(|file|)
  {
    seq(BlockCount(|file|), i requires 0 <= i < BlockCount(|file|) => Piece(file, i))
  }

  /** ftpc: reads blocks of up to 1000 bytes until the file gives no more, and sends each with its own length. */
  method SendFile(file: seq<byte>) returns (sent: seq<seq<byte>>)
    ensures sent == Pieces(file)
  {
    sent := [];
    var at := 0;
    var fileBlockLength := Min(1000, |file|);
    while fileBlockLength > 0
      invariant |sent| <= BlockCount(|file|) && at == Min(1000 * |sent|, |file|)
      invariant fileBlockLength == Min(1000, |file| - at)
      invariant sent == Pieces(file)[..|sent|]
      decreases |file| - at
    {
      var buf := file[at..at + fileBlockLength];
      assert buf == Pieces(file)[|sent|];
      sent := sent + [buf];
      at := at + fileBlockLength;
      fileBlockLength := Min(1000, |file| - at);
    }
  }

  /** The sending daemon receives a piece into a slot and sends the whole slot. */
  function Padded(piece: seq<byte>, slot: Block): Block
    requires |piece| <= 1000
  {
    piece + slot[|piece|..]
  }

  /** What arrives at ftps after the announcement, for any contents of the slots before. */
  ghost predicate ArePadded(file: seq<byte>, blocks: seq<Block>) {
    && |blocks| == BlockCount(|file|)
    && forall i :: 0 <= i < |blocks| ==> blocks[i][..|Piece(file, i)|] == Piece(file, i)
  }

  lemma PaddingIsPadded(file: seq<byte>, slots: seq<Block>, blocks: seq<Block>)
    requires |slots| == |blocks| == BlockCount(|file|)
    requires forall i :: 0 <= i < |blocks| ==> blocks[i] == Padded(Pieces(file)[i], slots[i])
    ensures ArePadded(file, blocks)
    ensures forall i :: 0 <= i < |blocks| ==> blocks[i][|Piece(file, i)|..] == slots[i][|Piece(file, i)|..]
  {
    forall i | 0 <= i < |blocks|
      ensures blocks[i][..|Piece(file, i)|] == Piece(file, i)
      ensures blocks[i][|Piece(file, i)|..] == slots[i][|Piece(file, i)|..]
    {
      assert Pieces(file)[i] == Piece(file, i);
    }
  }

  /** What ftps has written, and how many messages it has taken, of those that have arrived. */
  function Written(size: int, messages: seq<seq<byte>>): (w: (seq<byte>, nat)) {
    if size <= 0 || messages == [] then ([], 0)
    else
      var length := |messages[0]|;
      var (rest, used) := Written(size - length, messages[1..]);
      (messages[0][..if size > length then length else size] + rest, used + 1)
  }

  /** ftps: writes no more than what is left of the announced size, until nothing is left. The messages are what
      its calls of RECV return, at most one block each. */
  method ReceiveFile(announced: int, messages: seq<seq<byte>>) returns (written: seq<byte>, used: nat)
    ensures (written, used) == Written(announced, messages)
  {
    var size := announced;
    written, used := [], 0;
    assert messages[0..] == messages;
    assert [] + Written(announced, messages).0 == Written(announced, messages).0;
    while size > 0 && used < |messages|
      invariant used <= |messages|
      invariant written + Written(size, messages[used..]).0 == Written(announced, messages).0
      invariant used + Written(size, messages[used..]).1 == Written(announced, messages).1
    {
      var buf := messages[used];
      var length := |buf|;
      var actual := if size > length then length else size;
      ghost var (w, u) := Written(size - length, messages[used + 1..]);
      assert messages[used..][1..] == messages[used + 1..];
      assert written + (buf[..actual] + w) == (written + buf[..actual]) + w;
      written := written + buf[..actual];
      size := size - length;
      used := used + 1;
    }
    assert Written(size, messages[used..]) == ([], 0);
    assert written + [] == written;
  }

  /** Of the first k padded blocks ftps writes the first 1000 * k bytes of the file, or all of it. */
  lemma {:induction false} WrittenSoFar(file: seq<byte>, blocks: seq<Block>, from: nat, k: nat)
    requires ArePadded(file, blocks) && from <= k <= |blocks|
    ensures Written(|file| - 1000 * from, blocks[from..k])
         == (file[Min(1000 * from, |file|)..Min(1000 * k, |file|)], k - from)
    decreases k - from
  {
    var (lo, hi) := (Min(1000 * from, |file|), Min(1000 * k, |file|));
    if from == k {
      assert blocks[from..k] == [] && file[lo..hi] == [];
    } else {
      WrittenSoFar(file, blocks, from + 1, k);
      var rest := blocks[from..k];
      assert rest[1..] == blocks[from + 1..k];
      var size := |file| - 1000 * from;
      var actual := if size > 1000 then 1000 else size;
      assert actual == |Piece(file, from)|;
      assert rest[0][..actual] == Piece(file, from);
      assert Piece(file, from) + file[Min(1000 * (from + 1), |file|)..Min(1000 * k, |file|)]
          == file[1000 * from..Min(1000 * k, |file|)];
    }
  }

  /** Once the size is reached nothing more is taken, whatever arrives. */
  lemma {:induction false} WrittenStops(size: int, messages: seq<seq<byte>>, more: seq<seq<byte>>)
    requires Written(size, messages).1 == |messages|
    requires size <= Total(messages)
    ensures Written(size, messages + more) == Written(size, messages)
  {
    if messages == [] {
      assert messages + more == more;
    } else {
      assert (messages + more)[1..] == messages[1..] + more;
      if size > 0 {
        WrittenStops(size - |messages[0]|, messages[1..], more);
      }
    }
  }

  function Total(messages: seq<seq<byte>>): nat {
    if messages == [] then 0 else |messages[0]| + Total(messages[1..])
  }

  function Joined(messages: seq<seq<byte>>): (s: seq<byte>)
    ensures |s| == Total(messages)
  {
    if messages == [] then [] else messages[0] + Joined(messages[1..])
  }

  /** For any announced size and messages of any lengths: ftps writes the first `size` bytes of what arrives, or all
      of it, and takes no message after the one that reaches the size. */
  lemma {:induction false} WrittenExactly(size: int, messages: seq<seq<byte>>)
    ensures var (written, used) := Written(size, messages);
      && written == Joined(messages)[..Min(if size < 0 then 0 else size, Total(messages))]
      && used <= |messages|
      && (used < |messages| ==> Total(messages[..used]) >= size)
      && (used > 0 ==> Total(messages[..used - 1]) < size)
  {
    if size > 0 && messages != [] {
      WrittenExactly(size - |messages[0]|, messages[1..]);
      var used := Written(size, messages).1;
      TotalFirst(messages, used);
      if used > 1 {
        TotalFirst(messages, used - 1);
      } else {
        assert messages[..0] == [];
      }
    } else {
      assert messages[..0] == [];
    }
  }

  lemma TotalFirst(messages: seq<seq<byte>>, k: nat)
    requires 0 < k <= |messages|
    ensures Total(messages[..k]) == |messages[0]| + Total(messages[1..][..k - 1])
  {
    assert messages[..k][1..] == messages[1..][..k - 1];
  }

  /** The pieces from the i-th on are the rest of the file. */
  lemma {:induction false} PiecesFrom(file: seq<byte>, i: nat)
    requires i <= BlockCount(|file|)
    ensures Joined(Pieces(file)[i..]) == file[Min(1000 * i, |file|)..]
    decreases BlockCount(|file|) - i
  {
    var ps := Pieces(file);
    if i < |ps| {
      PiecesFrom(file, i + 1);
      assert ps[i..][0] == Piece(file, i) && ps[i..][1..] == ps[i + 1..];
      assert Piece(file, i) + file[Min(1000 * (i + 1), |file|)..] == file[1000 * i..];
    }
  }

  /** What ftpc sends is the file, in blocks of 1000 bytes but for a shorter last one. */
  lemma PiecesRejoin(file: seq<byte>)
    ensures Joined(Pieces(file)) == file
    ensures forall i :: 0 <= i < |Pieces(file)| ==> 0 < |Pieces(file)[i]| <= 1000
    ensures forall i :: 0 <= i < |Pieces(file)| - 1 ==> |Pieces(file)[i]| == 1000
  {
    PiecesFrom(file, 0);
    assert Pieces(file)[0..] == Pieces(file) && file[0..] == file;
  }

  lemma {:induction false} TotalOfBlocks(blocks: seq<Block>)
    ensures Total(blocks) == 1000 * |blocks|
  {
    if blocks != [] {
      TotalOfBlocks(blocks[1..]);
    }
  }

  /** The file comes back exactly, after exactly ceil(size / 1000) blocks, for any padding and whatever follows. */
  lemma FileRoundTrip(file: seq<byte>, blocks: seq<Block>, more: seq<seq<byte>>)
    requires ArePadded(file, blocks)
    ensures Written(|file|, blocks + more) == (file, BlockCount(|file|))
  {
    WrittenSoFar(file, blocks, 0, |blocks|);
    assert blocks[0..|blocks|] == blocks && file[0..|file|] == file;
    assert Written(|file|, blocks) == (file, |blocks|);
    hide Written;
    TotalOfBlocks(blocks);
    WrittenStops(|file|, blocks, more);
  }
}
