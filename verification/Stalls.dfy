/** The reset as written, over whole runs: exactly which streams can always still be completed, and for which the
    sender's acknowledgements are always true. */
module Stalls {
  import opened Bytes
  import opened Receiver
  import opened Reassembly
  import opened Refinement
  import opened Protocol
  import opened Completion
  import opened Limits
  import opened Scenarios
  import opened Resets

  /** Frames 0..43 went through, 44..63 are out, and 45..n-1 have arrived and wait for 44. */
  ghost predicate Filling(stream: seq<Block>, w: World, n: nat) {
    && 64 <= |stream| && 45 <= n <= 64
    && w.lar == 43 && w.lfs == 63 && w.next == 44 && w.forwarded == stream[..44]
    && Represents(w.ring, 44) && (forall k: nat :: k in Waiting(w.ring, 44) <==> 45 <= k < n)
    && (forall k: nat :: k in w.acked <==> k < 44)
    && (forall k: nat :: 44 <= k < 64 ==> Frame(k) in w.net)
    && (forall k: nat :: 45 <= k < n ==> Ack(k) in w.net)
  }

  /** A frame that has to wait, with either reset. */
  lemma Waits(r: Ring, n: nat, body: Block)
    requires Represents(r, 44) && 45 <= n < 64 && !Blank(body)
    requires forall k: nat :: k in Waiting(r, 44) <==> 45 <= k < n
    ensures InBounds(r)
    ensures var (r', out) := Step(r, n, body, LITERAL);
      Represents(r', 44) && out == [] && forall k: nat :: k in Waiting(r', 44) <==> 45 <= k < n + 1
  {
    hide Step, Represents, Offer;
    InStep(r, 44);
    SlotFree(r, 44, 44);
    LiteralResetExact(r, n, body);
    StepRefines(r, 44, n, body);
    FrameAhead(Queued(r, 44), n, body);
    var r' := Step(r, n, body, MEANT).0;
    assert Waiting(r', 44) == Waiting(r, 44)[n := body];
  }

  lemma {:induction false} Fill(stream: seq<Block>, ws: seq<World>, w: World, n: nat)
    returns (ws': seq<World>, w': World)
    requires NoneBlank(stream) && RunTo(WRITTEN, stream, ws, w) && Filling(stream, w, n)
    ensures RunTo(WRITTEN, stream, ws', w') && Filling(stream, w', 64)
    decreases 64 - n
  {
    hide RunTo, Next, Step, Represents, Waiting;
    if n == 64 {
      ws', w' := ws, w;
    } else {
      InStep(w.ring, 44);
      Waits(w.ring, n, stream[n]);
      var w1 := ArriveStep(WRITTEN, stream, w, n);
      assert w.forwarded + [] == w.forwarded;
      OneStep(WRITTEN, stream, ws, w, w1);
      ws', w' := Fill(stream, ws + [w1], w1, n + 1);
    }
  }

  /** The ring is stuck, 64 blocks are forwarded, slot 0 is free; frames up to n-1 are acknowledged. */
  ghost predicate Standing(stream: seq<Block>, w: World, n: nat) {
    && 64 <= |stream| && 44 <= n <= 64
    && Stuck(w) && w.next == 64 && w.forwarded == stream[..64] && Blank(w.ring.slots[0])
    && w.lar == n - 1 && w.lfs == 63
    && (forall k: nat :: k in w.acked <==> k < n)
    && (forall k: nat :: 44 <= k < 64 ==> Ack(k) in w.net)
  }

  /** The frame that completes the window 44..63 delivers all twenty, and leaves lfr at 63. */
  lemma Completes(r: Ring, body: Block)
    requires Represents(r, 44) && !Blank(body)
    requires forall k: nat :: k in Waiting(r, 44) <==> 45 <= k < 64
    ensures InBounds(r)
    ensures var (r', out) := Step(r, 44, body, LITERAL);
      r'.lfr == 63 && |out| == 20 && Blank(r'.slots[0])
  {
    hide Step, Represents;
    InStep(r, 44);
    assert CompletesLastSlot(r, 44, body) by {
      forall k: nat | 45 <= k < 64
        ensures !Blank(r.slots[k])
      {
        assert k in Waiting(r, 44);
      }
    }
    LiteralResetExact(r, 44, body);
    StepRefines(r, 44, 44, body);
    InStep(Step(r, 44, body, MEANT).0, 64);
  }

  /** For every stream of at least 64 blocks there is a run that ends so. */
  lemma GetsStuck(stream: seq<Block>) returns (ws: seq<World>, w: World)
    requires NoneBlank(stream) && 64 <= |stream|
    ensures RunTo(WRITTEN, stream, ws, w) && Standing(stream, w, 44)
  {
    hide RunTo, Next, Step, Represents, Waiting, Tidy;
    ws, w := Rounds(WRITTEN, stream, 44);
    InStep(w.ring, 44);
    ws, w := SendMany(WRITTEN, stream, ws, w, 20);
    assert forall k: nat :: k in Waiting(w.ring, 44) <==> 45 <= k < 45;
    ws, w := Fill(stream, ws, w, 45);
    InStep(w.ring, 44);
    Completes(w.ring, stream[44]);
    var w1 := ArriveStep(WRITTEN, stream, w, 44);
    OneStep(WRITTEN, stream, ws, w, w1);
    ws, w := ws + [w1], w1;
    PrefixOfRun(stream, ws, w);
  }

  lemma PrefixOfRun(stream: seq<Block>, ws: seq<World>, w: World)
    requires NoneBlank(stream) && RunTo(WRITTEN, stream, ws, w)
    ensures Prefix(stream, w)
  {
    hide Run, Tidy;
    PrefixAnyway(stream, ws);
  }

  // ----- Completion -----

  /** Whatever has happened so far, some continuation forwards the whole stream. */
  ghost predicate Completable(s: Setting, stream: seq<Block>) {
    forall ws :: Run(s, stream, ws) ==>
      exists ws' :: Run(s, stream, ws') && ws <= ws' && Last(ws').forwarded == stream
  }

  lemma MeantCompletable(stream: seq<Block>)
    requires NoneBlank(stream)
    ensures Completable(CONTRACT, stream)
  {
    hide Next;
    forall ws: seq<World> | Run(CONTRACT, stream, ws)
      ensures exists ws' :: Run(CONTRACT, stream, ws') && ws <= ws' && Last(ws').forwarded == stream
    {
      var ws' := CanComplete(stream, ws);
    }
  }

  lemma {:induction false} StaysStuck(stream: seq<Block>, ws: seq<World>, ws': seq<World>)
    requires Run(WRITTEN, stream, ws) && Run(WRITTEN, stream, ws') && ws <= ws' && Stuck(ws[|ws| - 1])
    ensures Stuck(ws'[|ws'| - 1]) && ws'[|ws'| - 1].forwarded == ws[|ws| - 1].forwarded
    decreases |ws'|
  {
    hide Next, Stuck;
    if |ws| < |ws'| {
      StaysStuck(stream, ws, ws'[..|ws'| - 1]);
      StuckStays(WRITTEN, stream, ws'[|ws'| - 2], ws'[|ws'| - 1]);
    }
  }

  lemma NotPast64(stream: seq<Block>)
    requires NoneBlank(stream) && 64 < |stream|
    ensures !Completable(WRITTEN, stream)
  {
    hide Next, Stuck;
    var ws, w := GetsStuck(stream);
    forall ws': seq<World> | Run(WRITTEN, stream, ws') && ws <= ws'
      ensures ws'[|ws'| - 1].forwarded != stream
    {
      StaysStuck(stream, ws, ws');
    }
  }

  // ----- Up to 64 blocks: the two resets differ only in the last step -----

  /** A step with the one reset that does not forward the last block is a step with the other. */
  lemma SameStep(stream: seq<Block>, s: Setting, t: Setting, w: World, w': World)
    requires {s, t} == {CONTRACT, WRITTEN}
    requires NoneBlank(stream) && |stream| <= 64 && Inv(stream, w) && Next(s, stream, w, w') && w'.next < |stream|
    ensures Next(t, stream, w, w') && Inv(stream, w')
  {
    hide Inv, Quietly, Arrives, TakesAck, NoneBlank;
    InvInStep(stream, w);
    if n: nat :| n < |stream| && FrameArrives(s, stream, w, w', n) {
      SameArrival(stream, s, t, w, w', n);
    } else if n: nat :| AckArrives(s, w, w', n) {
      AckArrivesKeeps(stream, w, w', n);
      assert AckArrives(t, w, w', n);
    } else {
      QuietlyKeepsInv(s.guard, stream, w, w');
    }
  }

  lemma InvInStep(stream: seq<Block>, w: World)
    requires Inv(stream, w)
    ensures InBounds(w.ring) && w.ring.lfr < 63 && Blank(w.ring.slots[w.ring.lfr + 1])
    ensures Represents(w.ring, w.next)
  {
  }

  lemma SameArrival(stream: seq<Block>, s: Setting, t: Setting, w: World, w': World, n: nat)
    requires {s, t} == {CONTRACT, WRITTEN} && InBounds(w.ring)
    requires NoneBlank(stream) && |stream| <= 64 && Inv(stream, w) && w'.next < |stream|
    requires n < |stream| && FrameArrives(s, stream, w, w', n)
    ensures FrameArrives(t, stream, w, w', n) && Inv(stream, w')
  {
    hide Inv, Step, CompletesLastSlot, Represents, NoneBlank;
    InvInStep(stream, w);
    LiteralResetExact(w.ring, n % 64, stream[n]);
    var v := MeantArrival(stream, w, n);
    FrameArrivesKeeps(stream, w, v, n);
    InvInStep(stream, v);
    InStep(v.ring, v.next);
    assert v.next == w'.next;
  }

  lemma MeantArrival(stream: seq<Block>, w: World, n: nat) returns (v: World)
    requires InBounds(w.ring) && n < |stream| && Frame(n) in w.net
    ensures Arrives(MEANT, stream, w, v, n)
  {
    hide Step;
    var (ring', out) := Step(w.ring, n % 64, stream[n], MEANT);
    v := w.(ring := ring', next := w.next + |out|, forwarded := w.forwarded + out, net := w.net + {Ack(n)});
  }

  /** As long as a block is missing, a run with the reset as written is one with the meant reset. */
  lemma {:induction false} SameRun(stream: seq<Block>, ws: seq<World>)
    requires NoneBlank(stream) && |stream| <= 64 && Run(WRITTEN, stream, ws) && Last(ws).next < |stream|
    ensures Run(CONTRACT, stream, ws) && Inv(stream, Last(ws))
  {
    hide Inv, Next, NoneBlank, Tidy;
    if |ws| == 1 {
      InitInv(stream, ws[0]);
    } else {
      var front := ws[..|ws| - 1];
      var (w, w') := (Last(front), Last(ws));
      NextForwards(WRITTEN, stream, w, w');
      SameRun(stream, front);
      SameStep(stream, WRITTEN, CONTRACT, w, w');
    }
  }

  lemma NextForwards(s: Setting, stream: seq<Block>, w: World, w': World)
    requires Next(s, stream, w, w')
    ensures w.next <= w'.next
  {
  }

  /** A run with the meant reset up to the end can be followed with the one as written. */
  lemma {:induction false} Follow(stream: seq<Block>, ws: seq<World>, vs: seq<World>) returns (ws': seq<World>)
    requires NoneBlank(stream) && |stream| <= 64 && Run(WRITTEN, stream, ws) && Run(CONTRACT, stream, vs)
    requires ws <= vs && Last(ws).next < |stream| && Last(vs).next == |stream|
    ensures Run(WRITTEN, stream, ws') && ws <= ws' && Last(ws').forwarded == stream
    decreases |vs| - |ws|
  {
    hide Inv, Next, NoneBlank, Tidy;
    assert |ws| < |vs|;
    var (w, w') := (Last(ws), vs[|ws|]);
    assert w == vs[|ws| - 1];
    SameRun(stream, ws);
    if w'.next < |stream| {
      SameStep(stream, CONTRACT, WRITTEN, w, w');
      ws' := Follow(stream, ws + [w'], vs);
    } else {
      var v := LastStep(stream, w, w');
      ws' := ws + [v];
    }
  }

  /** The step that forwards the last block does so with either reset. */
  lemma LastStep(stream: seq<Block>, w: World, w': World) returns (v: World)
    requires NoneBlank(stream) && Inv(stream, w) && Next(CONTRACT, stream, w, w')
    requires w.next < |stream| <= w'.next
    ensures Next(WRITTEN, stream, w, v) && v.forwarded == stream
  {
    hide Inv, Step, CompletesLastSlot, Represents, NoneBlank;
    InvInStep(stream, w);
    NextKeeps(CONTRACT, stream, w, w');
    SentBound(stream, w');
    assert stream[..|stream|] == stream;
    var n: nat :| n < |stream| && FrameArrives(CONTRACT, stream, w, w', n);
    LiteralResetExact(w.ring, n % 64, stream[n]);
    v := ArriveStep(WRITTEN, stream, w, n);
  }

  lemma UpTo64(stream: seq<Block>)
    requires NoneBlank(stream) && |stream| <= 64
    ensures Completable(WRITTEN, stream)
  {
    hide Next, Tidy, NoneBlank;
    forall ws: seq<World> | Run(WRITTEN, stream, ws)
      ensures exists ws' :: Run(WRITTEN, stream, ws') && ws <= ws' && Last(ws').forwarded == stream
    {
      PrefixAnyway(stream, ws);
      var ws' := ws;
      if Last(ws).next < |stream| {
        SameRun(stream, ws);
        var vs := CanComplete(stream, ws);
        Safety(CONTRACT, stream, vs);
        ws' := Follow(stream, ws, vs);
      } else {
        assert stream[..|stream|] == stream;
      }
    }
  }

  /** With the reset as written every reachable world can still be completed exactly if the stream has at most
      64 blocks; with the meant one always (MeantCompletable). */
  lemma CompletableExactly(stream: seq<Block>)
    requires NoneBlank(stream)
    ensures Completable(WRITTEN, stream) <==> |stream| <= 64
  {
    hide Completable;
    if |stream| <= 64 {
      UpTo64(stream);
    } else {
      NotPast64(stream);
    }
  }

  // ----- Past 84 blocks -----

  lemma {:induction false} AckRest(stream: seq<Block>, ws: seq<World>, w: World, n: nat)
    returns (ws': seq<World>, w': World)
    requires RunTo(WRITTEN, stream, ws, w) && Standing(stream, w, n)
    ensures RunTo(WRITTEN, stream, ws', w') && Standing(stream, w', 64)
    decreases 64 - n
  {
    hide RunTo, Next, Outstanding;
    if n == 64 {
      ws', w' := ws, w;
    } else {
      OutstandingIs(w, n, n);
      var w1 := AckStep(WRITTEN, stream, w, n, n);
      OneStep(WRITTEN, stream, ws, w, w1);
      ws', w' := AckRest(stream, ws + [w1], w1, n + 1);
    }
  }

  /** Frames 64..83 go out, 64 takes slot 0 and is acknowledged, 84 goes out; it is refused and acknowledged. */
  lemma Refused84(stream: seq<Block>) returns (ws: seq<World>, w: World)
    requires NoneBlank(stream) && 84 < |stream|
    ensures RunTo(WRITTEN, stream, ws, w) && 84 in w.acked && |w.ring.slots| == 64 && !Received(w, 84)
  {
    hide RunTo, Next, Step, Outstanding, NoneBlank;
    ws, w := GetsStuck(stream);
    ws, w := AckRest(stream, ws, w, 44);
    ws, w := SendMany(WRITTEN, stream, ws, w, 20);
    StuckStep(w.ring, 0, stream[64], LITERAL);
    var w1 := ArriveStep(WRITTEN, stream, w, 64);
    OneStep(WRITTEN, stream, ws, w, w1);
    OutstandingIs(w1, 64, 64);
    var w2 := AckStep(WRITTEN, stream, w1, 64, 64);
    OneStep(WRITTEN, stream, ws + [w1], w1, w2);
    var w3 := SendStep(WRITTEN, stream, w2);
    OneStep(WRITTEN, stream, ws + [w1] + [w2], w2, w3);
    StuckStep(w3.ring, 20, stream[84], LITERAL);
    var w4 := ArriveStep(WRITTEN, stream, w3, 84);
    OneStep(WRITTEN, stream, ws + [w1] + [w2] + [w3], w3, w4);
    OutstandingIs(w4, 84, 84);
    w := AckStep(WRITTEN, stream, w4, 84, 64);
    OneStep(WRITTEN, stream, ws + [w1] + [w2] + [w3] + [w4], w4, w);
    ws := ws + [w1] + [w2] + [w3] + [w4] + [w];
  }

  /** And every acknowledgement that the sender takes in is true, over every run, exactly if it has at most 84. */
  lemma HonestExactly(stream: seq<Block>)
    requires NoneBlank(stream)
    ensures AlwaysHonest(WRITTEN, stream) <==> |stream| <= 84
  {
    hide Received, NoneBlank;
    if |stream| <= 84 {
      HonestUpTo84(stream);
    } else {
      var ws, w := Refused84(stream);
    }
  }
}
