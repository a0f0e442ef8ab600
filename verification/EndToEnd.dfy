/** From the file that ftpc reads to the file that ftps writes, over the sliding-window protocol. */
module EndToEnd {
  import opened Bytes
  import opened FileTransfer
  import opened Protocol
  import opened Completion

  /** The stream of one transfer: the announcement, then the padded pieces of the file. */
  ghost predicate Carries(stream: seq<Block>, file: seq<byte>) {
    stream != [] && ArePadded(file, stream[1..])
  }

  lemma WrittenFrom(file: seq<byte>, stream: seq<Block>, next: nat)
    requires Carries(stream, file) && 0 < next <= |stream|
    ensures Written(|file|, stream[..next][1..]).0 == file[..Min(1000 * (next - 1), |file|)]
    ensures next == |stream| ==> Written(|file|, stream[..next][1..]) == (file, BlockCount(|file|))
  {
    hide Written, ArePadded;
    var blocks := stream[1..];
    assert |blocks| == BlockCount(|file|) by { PaddedCount(file, blocks); }
    assert stream[..next][1..] == blocks[0..next - 1];
    WrittenSoFar(file, blocks, 0, next - 1);
    assert file[0..Min(1000 * (next - 1), |file|)] == file[..Min(1000 * (next - 1), |file|)];
    if next == |stream| {
      FileRoundTrip(file, blocks, []);
      assert blocks + [] == stream[..next][1..];
    }
  }

  lemma PaddedCount(file: seq<byte>, blocks: seq<Block>)
    requires ArePadded(file, blocks)
    ensures |blocks| == BlockCount(|file|)
  {
  }

  /** In every reachable world the file written so far is a prefix of the file sent: all of it once every block
      has been forwarded. */
  lemma FileSafety(file: seq<byte>, stream: seq<Block>, ws: seq<World>)
    requires Carries(stream, file) && NoneBlank(stream) && Run(CONTRACT, stream, ws) && Last(ws).forwarded != []
    ensures var (w, f) := (Last(ws), Last(ws).forwarded);
      && 0 < w.next == |f|
      && Written(|file|, f[1..]).0 == file[..Min(1000 * (w.next - 1), |file|)]
      && (w.next == |stream| ==> Written(|file|, f[1..]) == (file, BlockCount(|file|)))
  {
    hide Inv, Written, ArePadded;
    Safety(CONTRACT, stream, ws);
    WrittenFrom(file, stream, Last(ws).next);
  }

  /** And from every reachable world some continuation makes ftps write the whole file. */
  lemma FileCanComplete(file: seq<byte>, stream: seq<Block>, ws: seq<World>) returns (ws': seq<World>)
    requires Carries(stream, file) && NoneBlank(stream) && Run(CONTRACT, stream, ws)
    ensures Run(CONTRACT, stream, ws') && ws <= ws'
    ensures Last(ws').forwarded != [] && Written(|file|, Last(ws').forwarded[1..]) == (file, BlockCount(|file|))
  {
    ws' := CanComplete(stream, ws);
    Safety(CONTRACT, stream, ws');
    FileSafety(file, stream, ws');
  }
}
