/** Building runs of the protocol, step by step, in any setting. */
module Scenarios {
  import opened Bytes
  import opened Receiver
  import opened Refinement
  import opened Protocol
  import opened Limits

  /** Everything acknowledged has been received. */
  ghost predicate Honest(w: World) {
    |w.ring.slots| == 64 && forall n :: n in w.acked ==> Received(w, n)
  }

  ghost predicate AlwaysHonest(s: Setting, stream: seq<Block>) {
    forall ws :: Run(s, stream, ws) ==> Honest(ws[|ws| - 1])
  }

  ghost predicate RunTo(s: Setting, stream: seq<Block>, ws: seq<World>, w: World) {
    Run(s, stream, ws) && ws[|ws| - 1] == w
  }

  lemma OneStep(s: Setting, stream: seq<Block>, ws: seq<World>, w: World, w': World)
    requires RunTo(s, stream, ws, w) && Next(s, stream, w, w')
    ensures RunTo(s, stream, ws + [w'], w')
  {
    hide Next;
  }

  lemma SendStep(s: Setting, stream: seq<Block>, w: World) returns (w': World)
    requires InBounds(w.ring) && -1 <= w.lar <= w.lfs && w.lfs + 1 < |stream| && Allows(s.guard, w.lar, w.lfs)
    ensures Next(s, stream, w, w') && w' == w.(lfs := w.lfs + 1, net := w.net + {Frame(w.lfs + 1)})
  {
    w' := w.(lfs := w.lfs + 1, net := w.net + {Frame(w.lfs + 1)});
    assert Send(s.guard, stream, w, w');
  }

  lemma ArriveStep(s: Setting, stream: seq<Block>, w: World, n: nat) returns (w': World)
    requires InBounds(w.ring) && n < |stream| && Frame(n) in w.net && (s.youngFrames ==> w.next + 20 <= n + 64)
    ensures Next(s, stream, w, w')
    ensures var (ring', out) := Step(w.ring, n % 64, stream[n], s.resetAbove);
      w' == w.(ring := ring', next := w.next + |out|, forwarded := w.forwarded + out, net := w.net + {Ack(n)})
  {
    hide Step;
    var (ring', out) := Step(w.ring, n % 64, stream[n], s.resetAbove);
    w' := w.(ring := ring', next := w.next + |out|, forwarded := w.forwarded + out, net := w.net + {Ack(n)});
    assert FrameArrives(s, stream, w, w', n);
  }

  lemma AckStep(s: Setting, stream: seq<Block>, w: World, n: nat, lar: int) returns (w': World)
    requires InBounds(w.ring) && Ack(n) in w.net && (s.youngAcks ==> w.lfs < n + 64) && w.lar <= lar <= w.lfs
    requires AckedUpTo(w.acked + Outstanding(w, n % 64), lar)
    requires lar < w.lfs ==> lar + 1 !in w.acked + Outstanding(w, n % 64)
    ensures Next(s, stream, w, w') && w' == w.(acked := w.acked + Outstanding(w, n % 64), lar := lar)
  {
    w' := w.(acked := w.acked + Outstanding(w, n % 64), lar := lar);
    assert AckArrives(s, w, w', n);
  }

  /** Any copy can be lost at any time, and any frame that is out and not acknowledged can be sent again. */
  lemma LossAndResend(s: Setting, stream: seq<Block>, w: World, m: Message, n: nat)
    requires InBounds(w.ring)
    ensures Next(s, stream, w, w.(net := w.net - {m}))
    ensures w.lar < n <= w.lfs && n !in w.acked ==> Next(s, stream, w, w.(net := w.net + {Frame(n)}))
  {
    assert Lose(w, w.(net := w.net - {m}), m);
    assert w.lar < n <= w.lfs && n !in w.acked ==> Resend(w, w.(net := w.net + {Frame(n)}), n);
  }

  lemma OutstandingIs(w: World, n: nat, m: nat)
    requires n % 64 == m % 64 && w.lar < m <= w.lfs < m + 64 && w.lfs - w.lar < 64
    ensures Outstanding(w, n % 64) == {m}
  {
  }

  ghost predicate AllowsFrom(g: Guard, lar: int, from: int, to: int)
    requires -1 <= lar <= from
  {
    forall lfs :: from <= lfs < to ==> Allows(g, lar, lfs)
  }

  /** w' is w with every frame up to `to` sent as well. */
  ghost predicate SentUpTo(w: World, to: int, w': World) {
    && w.lfs <= to == w'.lfs && w.net <= w'.net
    && (w'.lar, w'.acked, w'.ring, w'.next, w'.forwarded) == (w.lar, w.acked, w.ring, w.next, w.forwarded)
    && forall n: nat :: w.lfs < n <= to ==> Frame(n) in w'.net
  }

  lemma {:induction false} SendMany(s: Setting, stream: seq<Block>, ws: seq<World>, w: World, d: nat)
    returns (ws': seq<World>, w': World)
    requires RunTo(s, stream, ws, w) && InBounds(w.ring) && -1 <= w.lar <= w.lfs && w.lfs + d < |stream|
    requires AllowsFrom(s.guard, w.lar, w.lfs, w.lfs + d)
    ensures RunTo(s, stream, ws', w') && SentUpTo(w, w.lfs + d, w') && ws <= ws'
    decreases d
  {
    hide RunTo, Next, Allows;
    if d == 0 {
      ws', w' := ws, w;
    } else {
      var w1 := SendStep(s, stream, w);
      OneStep(s, stream, ws, w, w1);
      ws', w' := SendMany(s, stream, ws + [w1], w1, d - 1);
    }
  }

  /** The first k frames have been sent, forwarded and acknowledged, and nothing else has happened; copies of them
      and of their acks are still about. */
  ghost predicate Quiet(stream: seq<Block>, w: World, k: nat) {
    && k <= |stream| && w.lar == w.lfs == k - 1 && w.next == k && w.forwarded == stream[..k]
    && Represents(w.ring, k) && Waiting(w.ring, k) == map[]
    && (forall n: nat :: n in w.acked <==> n < k)
    && (forall n: nat :: n < k ==> Frame(n) in w.net && Ack(n) in w.net)
  }

  /** A frame that arrives alone and in order is delivered, with either reset. */
  lemma InOrderEither(r: Ring, next: nat, body: Block, resetAbove: nat)
    requires Represents(r, next) && Waiting(r, next) == map[] && !Blank(body)
    requires resetAbove == MEANT || resetAbove == LITERAL
    ensures InBounds(r)
    ensures var (r', out) := Step(r, next % 64, body, resetAbove);
      Represents(r', next + 1) && Waiting(r', next + 1) == map[] && out == [body]
  {
    hide Step, Represents, Waiting;
    InStep(r, next);
    InOrderFrame(r, next, body);
    if r.lfr == 43 {
      SlotFree(r, next, next + 1);
    }
    LiteralResetExact(r, next % 64, body);
  }

  lemma SlotFree(r: Ring, next: nat, n: nat)
    requires |r.slots| == 64 && next <= n < next + 20 && n !in Waiting(r, next)
    ensures Blank(r.slots[n % 64])
  {
  }

  /** One frame sent, delivered and acknowledged. */
  lemma OneRound(s: Setting, stream: seq<Block>, ws: seq<World>, w: World, k: nat) returns (ws': seq<World>, w': World)
    requires s.resetAbove == MEANT || s.resetAbove == LITERAL
    requires RunTo(s, stream, ws, w) && Quiet(stream, w, k) && k < |stream| && !Blank(stream[k])
    requires Allows(s.guard, k - 1, k - 1)
    ensures RunTo(s, stream, ws', w') && Quiet(stream, w', k + 1)
  {
    hide Step, Represents, Waiting, Allows, RunTo, Next, Outstanding;
    InStep(w.ring, k);
    var w1 := SendStep(s, stream, w);
    OneStep(s, stream, ws, w, w1);
    var w2 := ArriveStep(s, stream, w1, k);
    OneStep(s, stream, ws + [w1], w1, w2);
    InOrderEither(w.ring, k, stream[k], s.resetAbove);
    InStep(w2.ring, k + 1);
    OutstandingIs(w2, k, k);
    w' := AckStep(s, stream, w2, k, k);
    ws' := ws + [w1] + [w2] + [w'];
    OneStep(s, stream, ws + [w1] + [w2], w2, w');
    assert stream[..k] + [stream[k]] == stream[..k + 1];
  }

  lemma StartQuiet(stream: seq<Block>)
    ensures Quiet(stream, World(-1, -1, {}, {}, Start(), 0, []), 0)
  {
    assert Waiting(Start(), 0) == map[];
  }

  lemma {:induction false} Rounds(s: Setting, stream: seq<Block>, k: nat) returns (ws: seq<World>, w: World)
    requires s.resetAbove == MEANT || s.resetAbove == LITERAL
    requires NoneBlank(stream) && k <= |stream| && forall lar :: -1 <= lar < k - 1 ==> Allows(s.guard, lar, lar)
    ensures RunTo(s, stream, ws, w) && Quiet(stream, w, k)
  {
    if k == 0 {
      w := World(-1, -1, {}, {}, Start(), 0, []);
      ws := [w];
      StartQuiet(stream);
    } else {
      hide RunTo, Quiet;
      ws, w := Rounds(s, stream, k - 1);
      ws, w := OneRound(s, stream, ws, w, k - 1);
    }
  }
}
