/** A sender one frame too far ahead: exactly when the window is wide enough for a frame to be acknowledged and lost. */
module Overrun {
  import opened Bytes
  import opened Receiver
  import opened Refinement
  import opened Protocol
  import opened Scenarios

  /** The protocol as it is meant, but for the sender's guard. */
  ghost function Guarded(g: Guard): Setting {
    CONTRACT.(guard := g)
  }

  /** The window part of the guard counts right while lfs has not come round, and one frame too few afterwards. */
  lemma GuardCounts(lar: int, lfs: int, lastAcked: int, lastSent: int)
    requires -1 <= lar < 64 && -1 <= lfs < 63
    requires (lar - lastAcked) % 64 == 0 && (lfs - lastSent) % 64 == 0 && 0 <= lastSent - lastAcked < 64
    ensures WindowOpen(lar, lfs) <==> lastSent - lastAcked < if lfs >= lar then 20 else 21
  {
    assert (lfs - lar - (lastSent - lastAcked)) % 64 == 0;
  }

  /** The slot numbers go with the true numbers: lfs is counted up from -1 and set to -1 at the last slot. */
  lemma SlotsCount(n: int)
    requires n >= -1
    ensures (LarSlot(n) - n) % 64 == 0 && (LfsSlot(n) - n) % 64 == 0
    ensures LarSlot(-1) == LfsSlot(-1) == -1 && -1 <= LfsSlot(n) < 63 && (n >= 0 ==> 0 <= LarSlot(n) < 64)
    ensures LfsSlot(n + 1) == if LfsSlot(n) + 1 == 63 then -1 else LfsSlot(n) + 1
  {
  }

  /** On true numbers: the guard as written lets twenty-one frames be outstanding exactly while lfs has come round
      to the next turn of the slots and lar has not, and twenty otherwise. */
  lemma GuardExactly(lar: int, lfs: int)
    requires -1 <= lar <= lfs < lar + 64
    ensures Allows(AsWritten, lar, lfs)
       <==> lfs - lar < if (lfs + 1) / 64 > (if lar < 0 then 0 else lar / 64) then 21 else 20
  {
  }

  /** Frames k..k+20 are out together, and the last of them arrives first: it is not stored, acknowledged all the
      same, and the sender believes it. */
  lemma Believed(g: Guard, stream: seq<Block>, ws: seq<World>, w0: World, w: World, k: nat)
    returns (ws': seq<World>, w': World)
    requires NoneBlank(stream) && Quiet(stream, w0, k) && SentUpTo(w0, k + 20, w) && k + 20 < |stream|
    requires RunTo(Guarded(g), stream, ws, w)
    ensures RunTo(Guarded(g), stream, ws', w') && k + 20 in w'.acked && |w'.ring.slots| == 64 && !Received(w', k + 20)
  {
    hide Step, Represents, Waiting, RunTo, Next, Outstanding;
    var s := Guarded(g);
    InStep(w.ring, k);
    StepRefines(w.ring, k, k + 20, stream[k + 20]);
    var w1 := ArriveStep(s, stream, w, k + 20);
    OneStep(s, stream, ws, w, w1);
    InStep(w1.ring, w1.next);
    OutstandingIs(w1, k + 20, k + 20);
    w' := AckStep(s, stream, w1, k + 20, k - 1);
    OneStep(s, stream, ws + [w1], w1, w');
    ws' := ws + [w1] + [w'];
  }

  /** A guard that can let frames k..k+20 out together, after the first k went through one by one, fails. */
  lemma Fails(g: Guard, stream: seq<Block>, k: nat)
    requires NoneBlank(stream) && k + 20 < |stream|
    requires forall lar :: -1 <= lar < k - 1 ==> Allows(g, lar, lar)
    requires AllowsFrom(g, k - 1, k - 1, k + 20)
    ensures !AlwaysHonest(Guarded(g), stream)
  {
    hide Allows, Received, Represents, Waiting;
    var ws, w := Rounds(Guarded(g), stream, k);
    InStep(w.ring, k);
    var ws1, w1 := SendMany(Guarded(g), stream, ws, w, 21);
    var ws2, w2 := Believed(g, stream, ws1, w, w1, k);
  }

  lemma Succeeds(g: Guard, stream: seq<Block>)
    requires NoneBlank(stream) && KeepsWindow(g, |stream|)
    ensures AlwaysHonest(Guarded(g), stream)
  {
    hide KeepsWindow, Received, Represents;
    forall ws: seq<World> | Run(Guarded(g), stream, ws)
      ensures Honest(ws[|ws| - 1])
    {
      Safety(Guarded(g), stream, ws);
      InStep(ws[|ws| - 1].ring, ws[|ws| - 1].next);
    }
  }

  /** For a sender that keeps a window of its own: every acknowledgement it takes in is true, over every run,
      exactly if the window is no wider than the receiver's twenty (or the stream has no twenty-first block). */
  lemma WindowExact(window: nat, stream: seq<Block>)
    requires NoneBlank(stream)
    ensures AlwaysHonest(Guarded(AtMost(window)), stream) <==> window <= 20 || |stream| <= 20
  {
    hide AlwaysHonest, NoneBlank;
    if window <= 20 || |stream| <= 20 {
      Succeeds(AtMost(window), stream);
    } else {
      Fails(AtMost(window), stream, 0);
    }
  }

  /** For the guard as written: exactly if the stream ends before the slot numbers come round. */
  lemma AsWrittenExact(stream: seq<Block>)
    requires NoneBlank(stream)
    ensures AlwaysHonest(Guarded(AsWritten), stream) <==> |stream| <= 64
  {
    hide AlwaysHonest, NoneBlank;
    if |stream| <= 64 {
      Succeeds(AsWritten, stream);
    } else {
      Fails(AsWritten, stream, 44);
    }
  }
}
