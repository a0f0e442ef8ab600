/** The whole system with the receiver's reset as written: what is forwarded stays right, but past 64 blocks a
    transfer can get stuck, and past 84 the sender can believe in a frame that was never received. */
module Resets {
  import opened Bytes
  import opened Receiver
  import opened Refinement
  import opened Protocol
  import opened Limits
  import opened Scenarios

  /** The protocol as it is meant, but for the reset. */
  const WRITTEN: Setting := CONTRACT.(resetAbove := LITERAL)

  // ----- One arrival -----

  lemma StuckStep(r: Ring, seqNum: int, body: Block, resetAbove: nat)
    requires InBounds(r) && r.lfr == 63 && 0 <= seqNum < 64
    ensures Step(r, seqNum, body, resetAbove)
         == (if seqNum < 20 && Blank(r.slots[seqNum]) then r.(slots := r.slots[seqNum := body]) else r, [])
  {
  }

  ghost predicate Stuck(w: World) {
    InBounds(w.ring) && w.ring.lfr == 63
  }

  /** The world that the meant reset would have made of an arrival. */
  lemma MeantInstead(stream: seq<Block>, w: World, w': World, n: nat) returns (v: World)
    requires InBounds(w.ring) && n < |stream| && Arrives(LITERAL, stream, w, w', n)
    requires w.ring.lfr < 63 && Blank(w.ring.slots[w.ring.lfr + 1])
    ensures Arrives(MEANT, stream, w, v, n)
    ensures v == w' || (v.ring.lfr == -1 && w' == v.(ring := v.ring.(lfr := 63)))
    ensures v != w' ==> v.next == w.next + 20
  {
    hide Step, CompletesLastSlot;
    var (ring', out) := Step(w.ring, n % 64, stream[n], MEANT);
    v := w.(ring := ring', next := w.next + |out|, forwarded := w.forwarded + out, net := w.net + {Ack(n)});
    LiteralResetExact(w.ring, n % 64, stream[n]);
  }

  lemma SameForSender(stream: seq<Block>, v: World, w: World, lfr: int)
    requires |v.ring.slots| == 64 && SenderSide(stream, v) && AcksHonest(v) && w == v.(ring := v.ring.(lfr := lfr))
    ensures SenderSide(stream, w) && AcksHonest(w)
  {
  }

  /** An arrival keeps the invariant, or leaves the ring stuck in front of a frame whose number is a multiple of 64. */
  lemma WrittenArrival(stream: seq<Block>, w: World, w': World, n: nat)
    requires Inv(stream, w) && NoneBlank(stream) && n < |stream|
    requires InBounds(w.ring) && Arrives(LITERAL, stream, w, w', n) && w.next + 20 <= n + 64
    ensures w'.next <= |stream| && w'.forwarded == stream[..w'.next]
    ensures Inv(stream, w') || (Stuck(w') && SenderSide(stream, w') && AcksHonest(w') && w'.next % 64 == 0 < w'.next)
  {
    hide Arrives, SenderSide, AcksHonest, Represents, Waiting;
    InStep(w.ring, w.next);
    var v := MeantInstead(stream, w, w', n);
    FrameArrivesKeeps(stream, w, v, n);
    InStep(v.ring, v.next);
    SameForSender(stream, v, w', w'.ring.lfr);
    SentBound(stream, v);
  }

  lemma SentBound(stream: seq<Block>, w: World)
    requires Inv(stream, w)
    ensures w.next <= w.lfs + 1 <= |stream| && w.forwarded == stream[..w.next]
  {
  }

  // ----- What is forwarded -----

  ghost predicate Prefix(stream: seq<Block>, w: World) {
    w.next <= |stream| && w.forwarded == stream[..w.next]
  }

  ghost predicate Tidy(stream: seq<Block>, w: World) {
    Inv(stream, w) || (Stuck(w) && Prefix(stream, w))
  }

  lemma StuckStays(s: Setting, stream: seq<Block>, w: World, w': World)
    requires Stuck(w) && Next(s, stream, w, w')
    ensures Stuck(w') && (w'.next, w'.forwarded) == (w.next, w.forwarded)
  {
    if n: nat :| n < |stream| && FrameArrives(s, stream, w, w', n) {
      StuckStep(w.ring, n % 64, stream[n], s.resetAbove);
      assert w.forwarded + [] == w.forwarded;
    }
  }

  lemma TidyStays(stream: seq<Block>, w: World, w': World)
    requires NoneBlank(stream) && Tidy(stream, w) && Next(WRITTEN, stream, w, w')
    ensures Tidy(stream, w')
  {
    hide Inv, Quietly, Arrives, TakesAck, NoneBlank, Stuck;
    if Stuck(w) && Prefix(stream, w) {
      StuckStays(WRITTEN, stream, w, w');
    } else if n: nat :| n < |stream| && FrameArrives(WRITTEN, stream, w, w', n) {
      WrittenArrival(stream, w, w', n);
    } else if n: nat :| AckArrives(WRITTEN, w, w', n) {
      AckArrivesKeeps(stream, w, w', n);
    } else {
      QuietlyKeepsInv(WRITTEN.guard, stream, w, w');
    }
  }

  /** With the reset as written, too, what went to ftps is a prefix of the stream in every reachable world. */
  lemma {:induction false} PrefixAnyway(stream: seq<Block>, ws: seq<World>)
    requires NoneBlank(stream) && Run(WRITTEN, stream, ws)
    ensures var w := ws[|ws| - 1]; Tidy(stream, w) && Prefix(stream, w)
  {
    hide Inv, Next;
    if |ws| == 1 {
      InitInv(stream, ws[0]);
    } else {
      PrefixAnyway(stream, ws[..|ws| - 1]);
      TidyStays(stream, ws[|ws| - 2], ws[|ws| - 1]);
    }
    if Inv(stream, ws[|ws| - 1]) {
      SentBound(stream, ws[|ws| - 1]);
    }
  }

  // ----- Acknowledgements -----

  /** Stuck in front of frame 64, with every acknowledgement true so far. */
  ghost predicate StuckTrue(stream: seq<Block>, w: World) {
    Stuck(w) && w.next == 64 && SenderSide(stream, w) && AcksHonest(w)
  }

  /** Of at most 84 blocks none is refused: 64..83 still have slots 0..19, and the others are taken. */
  lemma StuckArrival(stream: seq<Block>, w: World, w': World, n: nat)
    requires StuckTrue(stream, w) && NoneBlank(stream) && |stream| <= 84 && n < |stream|
    requires Arrives(LITERAL, stream, w, w', n) && w.next + 20 <= n + 64
    ensures StuckTrue(stream, w')
  {
    StuckStep(w.ring, n % 64, stream[n], LITERAL);
    assert w'.next == 64 && w'.ring.lfr == 63 && InBounds(w'.ring);
    hide Step, Arrives;
    forall m: nat
      ensures Received(w, m) ==> Received(w', m)
    {
    }
    assert Received(w', n) && n <= w.lfs;
    AckAdded(w, w', n);
  }

  ghost predicate TrueSoFar(stream: seq<Block>, w: World) {
    Inv(stream, w) || StuckTrue(stream, w)
  }

  lemma StuckTrueKeeps(stream: seq<Block>, w: World, w': World)
    requires StuckTrue(stream, w) && NoneBlank(stream) && |stream| <= 84 && Next(WRITTEN, stream, w, w')
    ensures StuckTrue(stream, w')
  {
    hide Quietly, Arrives, TakesAck, NoneBlank, SenderSide, AcksHonest;
    if n: nat :| n < |stream| && FrameArrives(WRITTEN, stream, w, w', n) {
      StuckArrival(stream, w, w', n);
    } else if n: nat :| AckArrives(WRITTEN, w, w', n) {
      AckTaken(stream, w, w', n);
    } else {
      QuietlyKeeps(WRITTEN.guard, stream, w, w');
    }
  }

  lemma TrueSoFarKeeps(stream: seq<Block>, w: World, w': World)
    requires NoneBlank(stream) && |stream| <= 84 && TrueSoFar(stream, w) && Next(WRITTEN, stream, w, w')
    ensures TrueSoFar(stream, w')
  {
    hide Inv, Quietly, Arrives, TakesAck, NoneBlank, SenderSide, AcksHonest, Stuck;
    if StuckTrue(stream, w) {
      StuckTrueKeeps(stream, w, w');
    } else if n: nat :| n < |stream| && FrameArrives(WRITTEN, stream, w, w', n) {
      WrittenArrival(stream, w, w', n);
    } else if n: nat :| AckArrives(WRITTEN, w, w', n) {
      AckArrivesKeeps(stream, w, w', n);
    } else {
      QuietlyKeepsInv(WRITTEN.guard, stream, w, w');
    }
  }

  lemma {:induction false} TrueAlong(stream: seq<Block>, ws: seq<World>)
    requires NoneBlank(stream) && |stream| <= 84 && Run(WRITTEN, stream, ws)
    ensures TrueSoFar(stream, ws[|ws| - 1])
  {
    hide Inv, Next;
    if |ws| == 1 {
      InitInv(stream, ws[0]);
    } else {
      TrueAlong(stream, ws[..|ws| - 1]);
      TrueSoFarKeeps(stream, ws[|ws| - 2], ws[|ws| - 1]);
    }
  }

  lemma HonestUpTo84(stream: seq<Block>)
    requires NoneBlank(stream) && |stream| <= 84
    ensures AlwaysHonest(WRITTEN, stream)
  {
    hide Received, Represents;
    forall ws: seq<World> | Run(WRITTEN, stream, ws)
      ensures Honest(ws[|ws| - 1])
    {
      TrueAlong(stream, ws);
      var w := ws[|ws| - 1];
      if Inv(stream, w) {
        InStep(w.ring, w.next);
      }
    }
  }
}
