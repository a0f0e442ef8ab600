/** Old copies: what happens when the network can hold on to a copy of a frame, or of an ack, until its number is in
    use again. */
module Stale {
  import opened Bytes
  import opened Receiver
  import opened Reassembly
  import opened Refinement
  import opened Protocol
  import opened Scenarios

  const OLD_FRAMES: Setting := CONTRACT.(youngFrames := false)
  const OLD_ACKS: Setting := CONTRACT.(youngAcks := false)

  // ----- Old frames -----

  /** Of the first 64 numbers only those of the stream wait; an old copy waits under its number plus 64. */
  ghost predicate MixedStream(q: Queue, sent: nat, stream: seq<Block>)
    requires sent <= |stream|
  {
    && q.next <= sent
    && forall k :: k in q.pending ==> k >= 64 || (k < sent && q.pending[k] == stream[k])
  }

  /** The first number that was not sent is not waiting, so a release ends there. */
  lemma {:induction false} ReleaseMixed(q: Queue, sent: nat, stream: seq<Block>)
    requires sent <= |stream| < 64 && MixedStream(q, sent, stream)
    ensures var (q', out) := Release(q);
      && MixedStream(q', sent, stream)
      && q'.next == q.next + |out|
      && out == stream[q.next..q'.next]
    decreases |q.pending|
  {
    if q.next in q.pending {
      ReleaseMixed(Queue(q.next + 1, q.pending - {q.next}), sent, stream);
    }
  }

  lemma OfferMixed(q: Queue, n: nat, body: Block, sent: nat, stream: seq<Block>)
    requires sent <= |stream| < 64 && MixedStream(q, sent, stream)
    requires n >= 64 || (n < sent && body == stream[n])
    ensures var (q', out) := Offer(q, n, body);
      && MixedStream(q', sent, stream)
      && q'.next == q.next + |out|
      && out == stream[q.next..q'.next]
  {
    if q.next <= n < q.next + 20 && n !in q.pending && !Blank(body) {
      ReleaseMixed(q.(pending := q.pending[n := body]), sent, stream);
    }
  }

  ghost predicate Mixed(stream: seq<Block>, w: World) {
    && -1 <= w.lfs < |stream| && (forall n: nat :: Frame(n) in w.net ==> n <= w.lfs)
    && Represents(w.ring, w.next)
    && MixedStream(Queued(w.ring, w.next), w.lfs + 1, stream)
    && w.forwarded == stream[..w.next]
  }

  /** A frame behind the next expected one is taken for the frame 64 later. */
  lemma OldArrival(stream: seq<Block>, w: World, w': World, n: nat)
    requires Mixed(stream, w) && |stream| < 64 && n < |stream|
    requires InBounds(w.ring) && Arrives(MEANT, stream, w, w', n)
    ensures Mixed(stream, w')
  {
    hide Step, Represents, Waiting, Offer;
    var m := if n < w.next then n + 64 else n;
    StepRefines(w.ring, w.next, m, stream[n]);
    OfferMixed(Queued(w.ring, w.next), m, stream[n], w.lfs + 1, stream);
    var out := Step(w.ring, n % 64, stream[n], MEANT).1;
    assert stream[..w.next] + out == stream[..w.next + |out|];
  }

  lemma MixedKeeps(stream: seq<Block>, w: World, w': World)
    requires |stream| < 64 && Mixed(stream, w) && Next(OLD_FRAMES, stream, w, w')
    ensures Mixed(stream, w')
  {
    hide Arrives, Represents, Waiting, Allows;
    if n: nat :| n < |stream| && FrameArrives(OLD_FRAMES, stream, w, w', n) {
      OldArrival(stream, w, w', n);
    }
  }

  lemma {:induction false} MixedAlong(stream: seq<Block>, ws: seq<World>)
    requires |stream| < 64 && Run(OLD_FRAMES, stream, ws)
    ensures Mixed(stream, ws[|ws| - 1])
  {
    if |ws| == 1 {
      assert Waiting(ws[0].ring, 0) == map[];
    } else {
      hide Next, Mixed;
      MixedAlong(stream, ws[..|ws| - 1]);
      MixedKeeps(stream, ws[|ws| - 2], ws[|ws| - 1]);
    }
  }

  ghost predicate AlwaysPrefix(s: Setting, stream: seq<Block>) {
    forall ws: seq<World> :: Run(s, stream, ws) ==> ws[|ws| - 1].forwarded <= stream
  }

  /** Everything is forwarded, and then a copy of the frame 64 before the end arrives. */
  lemma ForwardedTwice(stream: seq<Block>) returns (ws: seq<World>, w: World)
    requires NoneBlank(stream) && 64 <= |stream|
    ensures RunTo(OLD_FRAMES, stream, ws, w) && w.forwarded == stream + [stream[|stream| - 64]]
  {
    hide RunTo, Next, Step, Represents, Waiting;
    ws, w := Rounds(OLD_FRAMES, stream, |stream|);
    InStep(w.ring, |stream|);
    InOrderEither(w.ring, |stream|, stream[|stream| - 64], MEANT);
    var v := ArriveStep(OLD_FRAMES, stream, w, |stream| - 64);
    OneStep(OLD_FRAMES, stream, ws, w, v);
    ws, w := ws + [v], v;
    assert stream[..|stream|] == stream;
  }

  /** When copies of frames can be any age, what is forwarded stays a prefix of the stream over every run exactly if
      the stream has fewer than 64 blocks. */
  lemma OldFramesExact(stream: seq<Block>)
    requires NoneBlank(stream)
    ensures AlwaysPrefix(OLD_FRAMES, stream) <==> |stream| < 64
  {
    hide Next, NoneBlank;
    if |stream| < 64 {
      forall ws: seq<World> | Run(OLD_FRAMES, stream, ws)
        ensures ws[|ws| - 1].forwarded <= stream
      {
        MixedAlong(stream, ws);
      }
    } else {
      var ws, w := ForwardedTwice(stream);
      assert |w.forwarded| > |stream|;
    }
  }

  // ----- Old acks -----

  /** As long as no number is used twice an ack cannot be too old. */
  lemma {:induction false} YoungAnyway(stream: seq<Block>, ws: seq<World>)
    requires NoneBlank(stream) && |stream| <= 64 && Run(OLD_ACKS, stream, ws)
    ensures Run(CONTRACT, stream, ws) && Inv(stream, ws[|ws| - 1])
  {
    hide Inv, Next, NoneBlank;
    if |ws| == 1 {
      InitInv(stream, ws[0]);
    } else {
      YoungAnyway(stream, ws[..|ws| - 1]);
      YoungStep(stream, ws[|ws| - 2], ws[|ws| - 1]);
      NextKeeps(CONTRACT, stream, ws[|ws| - 2], ws[|ws| - 1]);
    }
  }

  lemma YoungStep(stream: seq<Block>, w: World, w': World)
    requires |stream| <= 64 && Inv(stream, w) && Next(OLD_ACKS, stream, w, w')
    ensures Next(CONTRACT, stream, w, w')
  {
    hide Arrives, TakesAck, Quietly, Represents, AcksHonest;
    assert w.lfs < 64;
    if n: nat :| AckArrives(OLD_ACKS, w, w', n) {
      assert AckArrives(CONTRACT, w, w', n);
    } else if n: nat :| n < |stream| && FrameArrives(OLD_ACKS, stream, w, w', n) {
      assert FrameArrives(CONTRACT, stream, w, w', n);
    }
  }

  /** An old ack for frame 0 is taken for one of frame 64, which is still on its way. */
  lemma TakenForAnother(stream: seq<Block>) returns (ws: seq<World>, w: World)
    requires NoneBlank(stream) && 64 < |stream|
    ensures RunTo(OLD_ACKS, stream, ws, w) && 64 in w.acked && |w.ring.slots| == 64 && !Received(w, 64)
  {
    hide RunTo, Next, Represents, Waiting, Outstanding;
    ws, w := Rounds(OLD_ACKS, stream, 64);
    InStep(w.ring, 64);
    var w1 := SendStep(OLD_ACKS, stream, w);
    OneStep(OLD_ACKS, stream, ws, w, w1);
    OutstandingIs(w1, 0, 64);
    var w2 := AckStep(OLD_ACKS, stream, w1, 0, 64);
    OneStep(OLD_ACKS, stream, ws + [w1], w1, w2);
    ws, w := ws + [w1] + [w2], w2;
  }

  /** When acks can be any age, every acknowledgement that the sender takes in is true over every run exactly if the
      stream has at most 64 blocks. */
  lemma OldAcksExact(stream: seq<Block>)
    requires NoneBlank(stream)
    ensures AlwaysHonest(OLD_ACKS, stream) <==> |stream| <= 64
  {
    hide Next, NoneBlank, Received, Represents;
    if |stream| <= 64 {
      forall ws: seq<World> | Run(OLD_ACKS, stream, ws)
        ensures Honest(ws[|ws| - 1])
      {
        YoungAnyway(stream, ws);
        InStep(ws[|ws| - 1].ring, ws[|ws| - 1].next);
      }
    } else {
      var ws, w := TakenForAnother(stream);
    }
  }
}
