/** From every reachable world the transfer can still be completed, unless a block of the stream is blank. */
module Completion {
  import opened Bytes
  import opened Receiver
  import opened Refinement
  import opened Protocol

  ghost function Last(ws: seq<World>): World
    requires |ws| > 0
  {
    ws[|ws| - 1]
  }

  lemma Extend(stream: seq<Block>, ws: seq<World>, w': World) returns (ws': seq<World>)
    requires NoneBlank(stream) && Run(CONTRACT, stream, ws) && Next(CONTRACT, stream, Last(ws), w')
    ensures Run(CONTRACT, stream, ws') && ws <= ws' && Last(ws') == w'
    ensures Inv(stream, w')
  {
    ws' := ws + [w'];
    Safety(CONTRACT, stream, ws');
  }

  /** A frame that is in transit and young enough arrives: it is received and its ack is in transit. */
  lemma Arrive(stream: seq<Block>, ws: seq<World>, n: nat) returns (ws': seq<World>)
    requires NoneBlank(stream) && Run(CONTRACT, stream, ws) && Inv(stream, Last(ws))
    requires Frame(n) in Last(ws).net && n < |stream| && Last(ws).next + 20 <= n + 64
    ensures Run(CONTRACT, stream, ws') && ws <= ws' && Inv(stream, Last(ws'))
    ensures var w, w' := Last(ws), Last(ws');
      && w'.lar == w.lar && w'.lfs == w.lfs && w'.acked == w.acked
      && Ack(n) in w'.net && Received(w', n) && w'.next >= w.next
  {
    var w := Last(ws);
    assert InBounds(w.ring);
    var (ring', out) := Step(w.ring, n % 64, stream[n], MEANT);
    var w' := w.(ring := ring', next := w.next + |out|, forwarded := w.forwarded + out, net := w.net + {Ack(n)});
    assert FrameArrives(CONTRACT, stream, w, w', n);
    hide Step;
    ws' := Extend(stream, ws, w');
  }

  lemma ResendAndArrive(stream: seq<Block>, ws: seq<World>, n: nat) returns (ws': seq<World>)
    requires NoneBlank(stream) && Run(CONTRACT, stream, ws) && Inv(stream, Last(ws))
    requires Last(ws).lar < n <= Last(ws).lfs && n !in Last(ws).acked && Last(ws).next + 20 <= n + 64
    ensures Run(CONTRACT, stream, ws') && ws <= ws' && Inv(stream, Last(ws'))
    ensures var w, w' := Last(ws), Last(ws');
      && w'.lar == w.lar && w'.lfs == w.lfs && w'.acked == w.acked
      && Ack(n) in w'.net && Received(w', n) && w'.next >= w.next
  {
    var w := Last(ws);
    assert InBounds(w.ring);
    var w' := w.(net := w.net + {Frame(n)});
    assert Resend(w, w', n);
    var ws1 := Extend(stream, ws, w');
    ws' := Arrive(stream, ws1, n);
  }

  lemma SendAndArrive(stream: seq<Block>, ws: seq<World>) returns (ws': seq<World>)
    requires NoneBlank(stream) && Run(CONTRACT, stream, ws) && Inv(stream, Last(ws))
    requires Last(ws).lfs - Last(ws).lar < 20 && Last(ws).next == Last(ws).lfs + 1 < |stream|
    ensures Run(CONTRACT, stream, ws') && ws <= ws' && Inv(stream, Last(ws'))
    ensures Last(ws').next >= Last(ws).next && Received(Last(ws'), Last(ws).next)
  {
    var w := Last(ws);
    assert InBounds(w.ring);
    var w' := w.(lfs := w.lfs + 1, net := w.net + {Frame(w.lfs + 1)});
    assert Send(CONTRACT.guard, stream, w, w');
    var ws1 := Extend(stream, ws, w');
    ws' := Arrive(stream, ws1, w.lfs + 1);
  }

  /** The frame the receiver expects next is not among those it has. */
  lemma NextNotReceived(w: World)
    requires Represents(w.ring, w.next)
    ensures !Received(w, w.next)
  {
  }

  /** The first frame not acknowledged, sent again, gets acknowledged and lar moves. */
  lemma MoveLar(stream: seq<Block>, ws: seq<World>) returns (ws': seq<World>)
    requires NoneBlank(stream) && Run(CONTRACT, stream, ws) && Inv(stream, Last(ws))
    requires Last(ws).lar < Last(ws).lfs && Last(ws).next == Last(ws).lfs + 1
    ensures Run(CONTRACT, stream, ws') && ws <= ws' && Inv(stream, Last(ws'))
    ensures var w, w' := Last(ws), Last(ws');
      w'.lar > w.lar && w'.lfs == w.lfs && w'.next == w.next
  {
    var n := Last(ws).lar + 1;
    var ws1 := ResendAndArrive(stream, ws, n);
    var w := Last(ws1);
    assert InBounds(w.ring);
    var acked := w.acked + Outstanding(w, n % 64);
    assert n in Outstanding(w, n % 64);
    var lar := n;
    while lar < w.lfs && lar + 1 in acked
      invariant n <= lar <= w.lfs
      invariant AckedUpTo(acked, lar)
    {
      lar := lar + 1;
    }
    var w' := w.(acked := acked, lar := lar);
    assert AckArrives(CONTRACT, w, w', n);
    ws' := Extend(stream, ws1, w');
  }

  /** Every frame sent has been received: make room if the window is full, then send the next one. */
  lemma AdvanceBySending(stream: seq<Block>, ws: seq<World>) returns (ws': seq<World>)
    requires NoneBlank(stream) && Run(CONTRACT, stream, ws) && Inv(stream, Last(ws))
    requires Last(ws).next == Last(ws).lfs + 1 < |stream|
    ensures Run(CONTRACT, stream, ws') && ws <= ws' && Inv(stream, Last(ws'))
    ensures Last(ws').next >= Last(ws).next && Received(Last(ws'), Last(ws).next)
  {
    var ws1 := ws;
    if Last(ws).lfs - Last(ws).lar >= 20 {
      ws1 := MoveLar(stream, ws);
    }
    ws' := SendAndArrive(stream, ws1);
  }

  lemma CanAdvance(stream: seq<Block>, ws: seq<World>) returns (ws': seq<World>)
    requires NoneBlank(stream) && Run(CONTRACT, stream, ws) && Last(ws).next < |stream|
    ensures Run(CONTRACT, stream, ws') && ws <= ws' && Last(ws').next > Last(ws).next
  {
    var w := Last(ws);
    Safety(CONTRACT, stream, ws);
    NextNotReceived(w);
    assert InBounds(w.ring);
    assert w.next <= w.lfs ==> w.lar < w.next && w.next !in w.acked;
    hide Run;
    if w.next <= w.lfs {
      ws' := ResendAndArrive(stream, ws, w.next);
    } else {
      ws' := AdvanceBySending(stream, ws);
    }
    assert InBounds(Last(ws').ring);
    NextNotReceived(Last(ws'));
    hide Inv, Represents, Waiting;
  }

  /** Whatever has been lost or repeated so far, some continuation forwards the whole stream. */
  lemma {:induction false} CanComplete(stream: seq<Block>, ws: seq<World>) returns (ws': seq<World>)
    requires NoneBlank(stream) && Run(CONTRACT, stream, ws)
    ensures Run(CONTRACT, stream, ws') && ws <= ws' && Last(ws').forwarded == stream
    decreases |stream| - Last(ws).next
  {
    Safety(CONTRACT, stream, ws);
    if Last(ws).next == |stream| {
      ws' := ws;
    } else {
      var ws1 := CanAdvance(stream, ws);
      ws' := CanComplete(stream, ws1);
    }
  }

  // ----- Blank blocks -----

  lemma StepForwardsNoBlank(r: Ring, seqNum: int, body: Block, resetAbove: nat)
    requires InBounds(r) && 0 <= seqNum < 64
    ensures forall b :: b in Step(r, seqNum, body, resetAbove).1 ==> !Blank(b)
  {
  }

  lemma {:induction false} RunForwardsNoBlank(s: Setting, stream: seq<Block>, ws: seq<World>)
    requires Run(s, stream, ws)
    ensures forall b :: b in Last(ws).forwarded ==> !Blank(b)
  {
    if |ws| > 1 {
      RunForwardsNoBlank(s, stream, ws[..|ws| - 1]);
      var w, w' := ws[|ws| - 2], ws[|ws| - 1];
      assert Next(s, stream, w, w');
      if n: nat :| n < |stream| && FrameArrives(s, stream, w, w', n) {
        StepForwardsNoBlank(w.ring, n % 64, stream[n], s.resetAbove);
      }
    }
  }

  lemma StartRun(stream: seq<Block>) returns (ws: seq<World>)
    ensures Run(CONTRACT, stream, ws)
  {
    ws := [World(-1, -1, {}, {}, Start(), 0, [])];
  }

  /** A stream can be transferred, by some run, exactly if none of its blocks is all zeros. */
  lemma TransferableExactly(stream: seq<Block>)
    ensures (exists ws :: Run(CONTRACT, stream, ws) && Last(ws).forwarded == stream) <==> NoneBlank(stream)
  {
    if NoneBlank(stream) {
      var ws := StartRun(stream);
      var ws' := CanComplete(stream, ws);
    }
    forall ws | Run(CONTRACT, stream, ws) && Last(ws).forwarded == stream
      ensures NoneBlank(stream)
    {
      RunForwardsNoBlank(CONTRACT, stream, ws);
    }
  }
}
