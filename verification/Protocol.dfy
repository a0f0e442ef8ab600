/** Sender, lossy network and receiver together. The network may lose, repeat and reorder anything; the
    sender is modelled by its contract, the receiver by the ring itself. */
module Protocol {
  import opened Bytes
  import opened Receiver
  import opened Reassembly
  import opened Refinement

  /** Copies in the network. A copy shows only its number mod 64; n is the true number. */
  datatype Message = Frame(n: nat) | Ack(n: nat)

  datatype World = World(
    lar: int,             // every frame up to this one is acknowledged
    lfs: int,             // last frame sent
    acked: set<nat>,      // acknowledged frames, by true number
    net: set<Message>,    // copies in transit: a set, because a copy may be delivered any number of times
    ring: Ring,
    next: nat,            // frames forwarded so far
    forwarded: seq<Block>)

  ghost predicate Init(w: World) {
    w == World(-1, -1, {}, {}, Start(), 0, [])
  }

  /** What keeps the sender from running ahead: its contract, or the guard as the source writes it. */
  datatype Guard = AtMost(window: nat) | AsWritten

  /** The slot number that the source keeps for lar, and the one for lfs: it goes from 63 to -1. */
  function LarSlot(lar: int): int
    requires lar >= -1
  {
    if lar < 0 then -1 else lar % 64
  }

  function LfsSlot(lfs: int): int
    requires lfs >= -1
  {
    if lfs < 0 || lfs % 64 == 63 then -1 else lfs % 64
  }

  /** The count in the guard as written, on slot numbers. */
  predicate WindowOpen(lar: int, lfs: int) {
    if lfs >= lar then lfs - lar < 20 else 63 - lar + lfs < 20
  }

  predicate Allows(g: Guard, lar: int, lfs: int)
    requires -1 <= lar <= lfs
  {
    match g
    case AtMost(window) => lfs - lar < window
    case AsWritten => WindowOpen(LarSlot(lar), LfsSlot(lfs))
  }

  /** On a stream of this many blocks the guard never lets more than twenty frames be outstanding. */
  ghost predicate KeepsWindow(g: Guard, blocks: nat) {
    forall lar, lfs :: -1 <= lar <= lfs < blocks - 1 && Allows(g, lar, lfs) ==> lfs - lar < 20
  }

  /** What varies: the sender's guard, the bound of the receiver's reset, and whether the network may hold on to a
      copy of a frame, or of an ack, until its number is in use again. */
  datatype Setting = Setting(guard: Guard, resetAbove: nat, youngFrames: bool, youngAcks: bool)

  const CONTRACT: Setting := Setting(AtMost(20), MEANT, true, true)

  /** The next block goes out when the guard allows it. */
  ghost predicate Send(g: Guard, stream: seq<Block>, w: World, w': World) {
    && w.lfs + 1 < |stream|
    && -1 <= w.lar <= w.lfs
    && Allows(g, w.lar, w.lfs)
    && w' == w.(lfs := w.lfs + 1, net := w.net + {Frame(w.lfs + 1)})
  }

  /** A timer ran out for a frame that is not acknowledged. */
  ghost predicate Resend(w: World, w': World, n: nat) {
    && w.lar < n <= w.lfs && n !in w.acked
    && w' == w.(net := w.net + {Frame(n)})
  }

  ghost predicate Lose(w: World, w': World, m: Message) {
    w' == w.(net := w.net - {m})
  }

  /** A copy of frame n reaches the receiver, which sees only n mod 64 and the block. It stays in the network
      (duplicates). */
  ghost predicate Arrives(resetAbove: nat, stream: seq<Block>, w: World, w': World, n: nat)
    requires InBounds(w.ring) && n < |stream|
  {
    && Frame(n) in w.net
    && var (ring', out) := Step(w.ring, n % 64, stream[n], resetAbove);
       w' == w.(ring := ring', next := w.next + |out|, forwarded := w.forwarded + out,
                net := w.net + {Ack(n)})
  }

  /** The same, if need be only while the copy is not older than its number: the receiver's window has not come
      round to n + 64. */
  ghost predicate FrameArrives(s: Setting, stream: seq<Block>, w: World, w': World, n: nat)
    requires InBounds(w.ring) && n < |stream|
  {
    (s.youngFrames ==> w.next + 20 <= n + 64) && Arrives(s.resetAbove, stream, w, w', n)
  }

  /** The outstanding frames that carry slot number s: the sender has nothing else to go by. */
  ghost function Outstanding(w: World, s: nat): set<nat> {
    set m: nat | w.lar < m <= w.lfs && m % 64 == s
  }

  ghost predicate AckedUpTo(acked: set<nat>, lar: int) {
    forall m: nat :: m <= lar ==> m in acked
  }

  /** An ack for n reaches the sender, which sees only n mod 64; lar moves to the frame before the first
      one not acknowledged. */
  ghost predicate TakesAck(w: World, w': World, n: nat) {
    && Ack(n) in w.net
    && w'.acked == w.acked + Outstanding(w, n % 64)
    && w.lar <= w'.lar <= w.lfs
    && AckedUpTo(w'.acked, w'.lar)
    && (w'.lar < w.lfs ==> w'.lar + 1 !in w'.acked)
    && w' == w.(acked := w'.acked, lar := w'.lar)
  }

  /** The same, if need be only while the ack is not older than its number: frame n + 64 has not been sent. */
  ghost predicate AckArrives(s: Setting, w: World, w': World, n: nat) {
    (s.youngAcks ==> w.lfs < n + 64) && TakesAck(w, w', n)
  }

  /** Frame n has reached the receiver. */
  ghost predicate Received(w: World, n: nat)
    requires |w.ring.slots| == 64
  {
    Has(w.ring, w.next, n)
  }

  /** The waiting frames are frames of the stream that have been sent. */
  ghost predicate OfStream(q: Queue, sent: nat, stream: seq<Block>)
    requires sent <= |stream|
  {
    q.next <= sent && forall k :: k in q.pending ==> k < sent && q.pending[k] == stream[k]
  }

  /** At most WINDOW frames past lar are outstanding, lar+1 is not acknowledged, only sent frames travel and are
      acknowledged. */
  ghost predicate SenderSide(stream: seq<Block>, w: World) {
    && -1 <= w.lar <= w.lfs < |stream| && w.lfs - w.lar <= WINDOW
    && AckedUpTo(w.acked, w.lar)
    && (w.lar < w.lfs ==> w.lar + 1 !in w.acked)
    && (forall n :: n in w.acked ==> n <= w.lfs)
    && (forall n: nat :: Frame(n) in w.net ==> n <= w.lfs)
  }

  /** The ring is in step with the next expected frame, the forwarded blocks are the stream up to it, and
      what waits in the ring are frames of the stream that have been sent. */
  ghost predicate ReceiverSide(stream: seq<Block>, w: World)
    requires -1 <= w.lfs < |stream|
  {
    && Represents(w.ring, w.next)
    && OfStream(Queued(w.ring, w.next), w.lfs + 1, stream)
    && w.forwarded == stream[..w.next]
  }

  /** An acknowledgement, taken in by the sender or still travelling, is for a frame the receiver has. */
  ghost predicate AcksHonest(w: World)
    requires |w.ring.slots| == 64
  {
    && (forall n :: n in w.acked ==> Received(w, n))
    && (forall n: nat :: Ack(n) in w.net ==> n <= w.lfs && Received(w, n))
  }

  ghost predicate Inv(stream: seq<Block>, w: World) {
    SenderSide(stream, w) && ReceiverSide(stream, w) && AcksHonest(w)
  }

  /** A step of the sender on its own, or a loss. */
  ghost predicate Quietly(g: Guard, stream: seq<Block>, w: World, w': World) {
    Send(g, stream, w, w') || (exists n: nat :: Resend(w, w', n)) || (exists m :: Lose(w, w', m))
  }

  ghost predicate Next(s: Setting, stream: seq<Block>, w: World, w': World) {
    && InBounds(w.ring)
    && (|| Quietly(s.guard, stream, w, w')
        || (exists n: nat :: n < |stream| && FrameArrives(s, stream, w, w', n))
        || (exists n: nat :: AckArrives(s, w, w', n)))
  }

  /** Any finite interleaving of steps from the start. */
  ghost predicate Run(s: Setting, stream: seq<Block>, ws: seq<World>) {
    && |ws| > 0 && Init(ws[0])
    && forall i :: 0 < i < |ws| ==> Next(s, stream, ws[i - 1], ws[i])
  }

  ghost predicate NoneBlank(stream: seq<Block>) {
    forall n :: 0 <= n < |stream| ==> !Blank(stream[n])
  }

  lemma InitInv(stream: seq<Block>, w: World)
    requires Init(w)
    ensures Inv(stream, w)
  {
    assert Waiting(w.ring, 0) == map[];
  }

  /** Releasing frames of a stream hands out its next piece and loses none of them. */
  lemma {:induction false} ReleaseStream(q: Queue, sent: nat, stream: seq<Block>)
    requires sent <= |stream| && OfStream(q, sent, stream)
    ensures var (q', out) := Release(q);
      && OfStream(q', sent, stream)
      && q'.next == q.next + |out|
      && out == stream[q.next..q'.next]
      && (forall k :: k in q.pending ==> k < q'.next || k in q'.pending)
      && (forall k :: k in q'.pending ==> k in q.pending)
    decreases |q.pending|
  {
    if q.next in q.pending {
      ReleaseStream(Queue(q.next + 1, q.pending - {q.next}), sent, stream);
    }
  }

  lemma OfferStream(q: Queue, n: nat, sent: nat, stream: seq<Block>)
    requires n < sent <= |stream| && !Blank(stream[n]) && OfStream(q, sent, stream)
    ensures var (q', out) := Offer(q, n, stream[n]);
      && OfStream(q', sent, stream)
      && q'.next == q.next + |out|
      && out == stream[q.next..q'.next]
      && (forall k :: k < q.next || k in q.pending ==> k < q'.next || k in q'.pending)
      && (n < q.next + 20 ==> n < q'.next || n in q'.pending)
  {
    if q.next <= n < q.next + 20 && n !in q.pending {
      ReleaseStream(q.(pending := q.pending[n := stream[n]]), sent, stream);
    }
  }

  /** The base of the sender's window is never past the frame the receiver expects. */
  lemma SenderBehindReceiver(stream: seq<Block>, w: World)
    requires Inv(stream, w)
    ensures w.lar < w.next
  {
    assert w.next % 64 == w.ring.lfr + 1;
    assert w.next !in Waiting(w.ring, w.next);
    assert w.next !in w.acked;
  }

  /** What one arrival does to the sender's side and to the network. */
  lemma ArrivalLeaves(stream: seq<Block>, w: World, w': World, n: nat)
    requires Inv(stream, w)
    requires n < |stream| && Arrives(MEANT, stream, w, w', n) && w.next + 20 <= n + 64
    ensures (w'.lar, w'.lfs, w'.acked, w'.net) == (w.lar, w.lfs, w.acked, w.net + {Ack(n)})
    ensures n <= w.lfs < |stream| && n < w.next + 20
  {
    hide Step, Represents, Waiting, AckedUpTo, OfStream;
    SenderBehindReceiver(stream, w);
  }

  /** An arrival at the ring, whose window is close enough, is an offer to the queue. */
  lemma ArrivalIsOffer(stream: seq<Block>, w: World, w': World, n: nat) returns (out: seq<Block>)
    requires Represents(w.ring, w.next) && n <= w.next + 63
    requires n < |stream| && Arrives(MEANT, stream, w, w', n) && w.next + 20 <= n + 64
    ensures Represents(w'.ring, w'.next)
    ensures (Queued(w'.ring, w'.next), out) == Offer(Queued(w.ring, w.next), n, stream[n])
    ensures w'.forwarded == w.forwarded + out
  {
    hide Step, Represents, Offer, Waiting;
    InStep(w.ring, w.next);
    StepRefines(w.ring, w.next, n, stream[n]);
    out := Step(w.ring, n % 64, stream[n], MEANT).1;
  }

  /** What it does to the receiver's side. */
  lemma FrameEffect(stream: seq<Block>, w: World, w': World, n: nat)
    requires Inv(stream, w) && NoneBlank(stream)
    requires n < |stream| && Arrives(MEANT, stream, w, w', n) && w.next + 20 <= n + 64
    ensures (w'.lar, w'.lfs, w'.acked, w'.net) == (w.lar, w.lfs, w.acked, w.net + {Ack(n)})
    ensures n <= w.lfs && ReceiverSide(stream, w') && InBounds(w.ring) && InBounds(w'.ring)
    ensures forall k :: Received(w, k) ==> Received(w', k)
    ensures Received(w', n)
  {
    hide Arrives, Represents, Offer, Waiting, SenderSide, AcksHonest;
    ArrivalLeaves(stream, w, w', n);
    InStep(w.ring, w.next);
    var out := ArrivalIsOffer(stream, w, w', n);
    InStep(w'.ring, w'.next);
    OfferStream(Queued(w.ring, w.next), n, w.lfs + 1, stream);
    assert stream[..w.next] + out == stream[..w'.next];
  }

  /** The new ack is for a frame the receiver now has; the older ones still are. */
  lemma AckAdded(w: World, w': World, n: nat)
    requires |w.ring.slots| == |w'.ring.slots| == 64 && AcksHonest(w)
    requires w'.lfs == w.lfs && w'.acked == w.acked && w'.net == w.net + {Ack(n)}
    requires n <= w.lfs && Received(w', n)
    requires forall k :: Received(w, k) ==> Received(w', k)
    ensures AcksHonest(w')
  {
    hide Received;
  }

  lemma FrameArrivesKeeps(stream: seq<Block>, w: World, w': World, n: nat)
    requires Inv(stream, w) && NoneBlank(stream)
    requires n < |stream| && Arrives(MEANT, stream, w, w', n) && w.next + 20 <= n + 64
    ensures Inv(stream, w')
  {
    hide Arrives, ReceiverSide, Received, AckedUpTo, NoneBlank, AcksHonest;
    FrameEffect(stream, w, w', n);
    AckAdded(w, w', n);
  }

  /** At most twenty frames are outstanding, so a slot number that has not been reused names one of them. */
  lemma OneOutstanding(w: World, n: nat, m: nat)
    requires w.lfs - w.lar <= 20 && n <= w.lfs < n + 64 && m in Outstanding(w, n % 64)
    ensures m == n
  {
  }

  /** What taking in an ack does to the sender's side. */
  lemma AckTaken(stream: seq<Block>, w: World, w': World, n: nat)
    requires |w.ring.slots| == 64 && SenderSide(stream, w) && AcksHonest(w) && TakesAck(w, w', n) && w.lfs < n + 64
    ensures SenderSide(stream, w') && w'.ring == w.ring && AcksHonest(w')
    ensures (w'.lfs, w'.next, w'.forwarded) == (w.lfs, w.next, w.forwarded)
  {
    forall m | m in Outstanding(w, n % 64)
      ensures m == n
    {
      OneOutstanding(w, n, m);
    }
    hide Waiting, Outstanding;
  }

  lemma AckArrivesKeeps(stream: seq<Block>, w: World, w': World, n: nat)
    requires Inv(stream, w) && TakesAck(w, w', n) && w.lfs < n + 64
    ensures Inv(stream, w')
  {
    hide SenderSide, AcksHonest, TakesAck, Represents, Waiting;
    InStep(w.ring, w.next);
    AckTaken(stream, w, w', n);
  }

  lemma QuietlyKeeps(g: Guard, stream: seq<Block>, w: World, w': World)
    requires KeepsWindow(g, |stream|) && Quietly(g, stream, w, w')
    requires |w.ring.slots| == 64 && SenderSide(stream, w) && AcksHonest(w)
    ensures SenderSide(stream, w') && w'.ring == w.ring && AcksHonest(w')
    ensures w.lfs <= w'.lfs && (w'.next, w'.forwarded) == (w.next, w.forwarded)
  {
    hide Waiting, Allows;
    assert Send(g, stream, w, w') ==> -1 <= w.lar <= w.lfs < |stream| - 1 && Allows(g, w.lar, w.lfs);
  }

  /** The setting under which the protocol is meant to run, on a stream of this many blocks. */
  ghost predicate Sound(s: Setting, blocks: nat) {
    s.resetAbove == MEANT && s.youngFrames && s.youngAcks && KeepsWindow(s.guard, blocks)
  }

  lemma QuietlyKeepsInv(g: Guard, stream: seq<Block>, w: World, w': World)
    requires KeepsWindow(g, |stream|) && Quietly(g, stream, w, w') && Inv(stream, w)
    ensures Inv(stream, w')
  {
    hide AcksHonest, Quietly, KeepsWindow, AckedUpTo, Represents, Waiting;
    InStep(w.ring, w.next);
    QuietlyKeeps(g, stream, w, w');
  }

  lemma NextKeeps(s: Setting, stream: seq<Block>, w: World, w': World)
    requires Sound(s, |stream|)
    requires Inv(stream, w) && NoneBlank(stream) && Next(s, stream, w, w')
    ensures Inv(stream, w')
  {
    hide Inv, Quietly, Arrives, TakesAck, NoneBlank, KeepsWindow;
    if n: nat :| n < |stream| && FrameArrives(s, stream, w, w', n) {
      FrameArrivesKeeps(stream, w, w', n);
    } else if n: nat :| AckArrives(s, w, w', n) {
      AckArrivesKeeps(stream, w, w', n);
    } else {
      QuietlyKeepsInv(s.guard, stream, w, w');
    }
  }

  /** In every reachable world what went to ftps is a prefix of the stream, every acknowledged frame has been
      forwarded or stored, and lar has not passed the last frame forwarded. */
  lemma {:induction false} Safety(s: Setting, stream: seq<Block>, ws: seq<World>)
    requires Sound(s, |stream|) && NoneBlank(stream) && Run(s, stream, ws)
    ensures var w := ws[|ws| - 1];
      && Inv(stream, w)
      && w.next <= |stream| && w.forwarded == stream[..w.next]
      && (forall n :: n in w.acked ==> Received(w, n))
      && w.lar < w.next
  {
    if |ws| == 1 {
      InitInv(stream, ws[0]);
    } else {
      Safety(s, stream, ws[..|ws| - 1]);
      NextKeeps(s, stream, ws[|ws| - 2], ws[|ws| - 1]);
    }
    SenderBehindReceiver(stream, ws[|ws| - 1]);
  }
}
