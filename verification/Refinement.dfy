/** The 64-slot ring refines the unbounded reassembly queue. */
module Refinement {
  import opened Bytes
  import opened Receiver
  import opened Reassembly

  /** The slot d places past slot b, going round the ring. */
  function Turn(b: nat, d: nat): (k: nat)
    requires b < 64 && d < 64
    ensures k < 64
  {
    if b + d < 64 then b + d else b + d - 64
  }

  /** How many places slot k lies past slot b, going round the ring. */
  function Gap(b: nat, k: nat): (d: nat)
    requires b < 64 && k < 64
    ensures d < 64 && Turn(b, d) == k
  {
    if k >= b then k - b else k - b + 64
  }

  lemma TurnIsMod(n: nat, d: nat)
    requires d < 64
    ensures Turn(n % 64, d) == (n + d) % 64
  {
  }

  /** lfr, laf and the filled slots all belong to the window of twenty that starts after lfr. */
  ghost predicate Tracks(r: Ring) {
    && InBounds(r) && r.lfr < 63
    && forall k :: 0 <= k < 64 && !Blank(r.slots[k]) ==> Gap(r.lfr + 1, k) < 20
  }

  /** What a delivery does: the c consecutive filled slots after lfr leave, the rest stays. */
  ghost predicate Shifts(r: Ring, c: nat, r': Ring, out: seq<Block>)
    requires InBounds(r) && r.lfr < 63
  {
    && c <= 20 && |out| == c && |r'.slots| == 64
    && (forall k :: 0 <= k < 64 && Gap(r.lfr + 1, k) < c ==> !Blank(r.slots[k]))
    && (c < 20 ==> Blank(r.slots[Turn(r.lfr + 1, c)]))
    && (forall d :: 0 <= d < c ==> out[d] == r.slots[Turn(r.lfr + 1, d)])
    && (forall k :: 0 <= k < 64 ==>
          r'.slots[k] == if Gap(r.lfr + 1, k) < c then Zeros() else r.slots[k])
  }

  lemma StraightShifts(r: Ring, resetAbove: nat) returns (c: nat)
    requires InBounds(r) && r.lfr < 63 && r.laf > r.lfr
    ensures Shifts(r, c, DeliverStraight(r, resetAbove).0, DeliverStraight(r, resetAbove).1)
    ensures DeliverStraight(r, resetAbove).0.lfr
         == if c > 0 && r.lfr + c > resetAbove then -1 else r.lfr + c
  {
    c := FirstEmpty(r.slots, r.lfr + 1, r.laf + 1) - (r.lfr + 1);
  }

  lemma BothEndsShift(r: Ring, j: nat, r': Ring, out: seq<Block>)
    requires InBounds(r) && r.laf < r.lfr < 63 && j <= r.laf + 1
    requires forall k :: 0 <= k < 64 && (k < j || k > r.lfr) ==> !Blank(r.slots[k])
    requires j <= r.laf ==> Blank(r.slots[j])
    requires r'.slots == Clear(Clear(r.slots, r.lfr + 1, 64), 0, j)
    requires out == r.slots[r.lfr + 1..64] + r.slots[0..j]
    ensures Shifts(r, 63 - r.lfr + j, r', out)
  {
  }

  lemma AroundToLast(r: Ring) returns (c: nat)
    requires InBounds(r) && r.laf < r.lfr < 63 && FirstEmpty(r.slots, r.lfr + 1, 64) == 64
    ensures Shifts(r, c, DeliverAround(r).0, DeliverAround(r).1)
    ensures DeliverAround(r).0.lfr == Turn(r.lfr + 1, c) - 1
  {
    hide Shifts;
    var tail := Clear(r.slots, r.lfr + 1, 64);
    var j := FirstEmpty(tail, 0, r.laf + 1);
    assert forall k :: 0 <= k < 20 ==> tail[k] == r.slots[k];
    assert tail[0..j] == r.slots[0..j];
    c := 63 - r.lfr + j;
    BothEndsShift(r, j, DeliverAround(r).0, DeliverAround(r).1);
  }

  lemma AroundShifts(r: Ring) returns (c: nat)
    requires InBounds(r) && r.lfr < 63 && r.laf < r.lfr
    ensures Shifts(r, c, DeliverAround(r).0, DeliverAround(r).1)
    ensures DeliverAround(r).0.lfr == Turn(r.lfr + 1, c) - 1
  {
    var i := FirstEmpty(r.slots, r.lfr + 1, 64);
    if i == 64 {
      c := AroundToLast(r);
    } else {
      c := i - (r.lfr + 1);
    }
  }

  /** Delivery with the meant reset, over both branches. */
  lemma DeliverShifts(r: Ring) returns (c: nat)
    requires Tracks(r)
    ensures Shifts(r, c, Deliver(r, MEANT).0, Deliver(r, MEANT).1)
    ensures Deliver(r, MEANT).0.lfr == Turn(r.lfr + 1, c) - 1
  {
    if r.laf > r.lfr {
      c := StraightShifts(r, MEANT);
    } else {
      c := AroundShifts(r);
    }
  }

  /** After a delivery the slot after the new lfr is free: all that could be delivered has been. */
  lemma ShiftsToFreeSlot(r: Ring, c: nat, r': Ring, out: seq<Block>)
    requires Tracks(r) && Shifts(r, c, r', out)
    requires InBounds(r') && r'.lfr == Turn(r.lfr + 1, c) - 1
    ensures Tracks(r') && Blank(r'.slots[r'.lfr + 1])
  {
    forall k | 0 <= k < 64 && !Blank(r'.slots[k])
      ensures Gap(r'.lfr + 1, k) < 20
    {
      assert !Blank(r.slots[k]);
    }
  }

  /** Between packets: the ring is in step with the number of the next expected frame, whose slot is free. */
  ghost predicate Represents(r: Ring, next: nat) {
    Tracks(r) && Blank(r.slots[r.lfr + 1]) && r.lfr + 1 == next % 64
  }

  lemma InStep(r: Ring, next: nat)
    requires Represents(r, next)
    ensures InBounds(r) && r.lfr < 63 && Blank(r.slots[r.lfr + 1]) && r.lfr + 1 == next % 64
  {
  }

  /** The frames waiting in the ring, by their unique in-window number. */
  ghost function Waiting(r: Ring, next: nat): map<nat, Block>
    requires |r.slots| == 64
  {
    map n: nat | next <= n < next + 20 && !Blank(r.slots[n % 64]) :: r.slots[n % 64]
  }

  ghost function Queued(r: Ring, next: nat): Queue
    requires |r.slots| == 64
  {
    Queue(next, Waiting(r, next))
  }

  /** Frame n has been forwarded, or is waiting in its slot. */
  ghost predicate Has(r: Ring, next: nat, n: nat)
    requires |r.slots| == 64
  {
    n < next || n in Waiting(r, next)
  }

  lemma GapOfNumber(next: nat, n: nat)
    requires next <= n < next + 64
    ensures Gap(next % 64, n % 64) == n - next
    ensures Turn(next % 64, n - next) == n % 64
  {
    TurnIsMod(next, n - next);
  }

  /** A shift, read at the slot of one frame number. */
  lemma ShiftsAt(r: Ring, next: nat, c: nat, r': Ring, out: seq<Block>, n: nat)
    requires Tracks(r) && r.lfr + 1 == next % 64 && Shifts(r, c, r', out)
    requires next <= n < next + 64
    ensures n < next + c ==> !Blank(r.slots[n % 64]) && out[n - next] == r.slots[n % 64]
    ensures n == next + c || n >= next + 20 ==> Blank(r.slots[n % 64])
    ensures n >= next + c ==> r'.slots[n % 64] == r.slots[n % 64]
  {
    GapOfNumber(next, n);
  }

  lemma ShiftsStops(r: Ring, next: nat, c: nat, r': Ring, out: seq<Block>)
    requires Tracks(r) && r.lfr + 1 == next % 64 && Shifts(r, c, r', out)
    ensures Stops(Queued(r, next), c)
  {
    forall n: nat | next <= n < next + c
      ensures n in Waiting(r, next)
    {
      ShiftsAt(r, next, c, r', out, n);
    }
    ShiftsAt(r, next, c, r', out, next + c);
  }

  lemma ShiftsRun(r: Ring, next: nat, c: nat, r': Ring, out: seq<Block>)
    requires Tracks(r) && r.lfr + 1 == next % 64 && Shifts(r, c, r', out)
    requires Stops(Queued(r, next), c)
    ensures Consecutive(Queued(r, next), c) == out
  {
    var run := Consecutive(Queued(r, next), c);
    assert InBounds(r) && |out| == c;
    forall d | 0 <= d < c
      ensures run[d] == out[d]
    {
      assert next + d in Waiting(r, next);
      ShiftsAt(r, next, c, r', out, next + d);
    }
  }

  lemma ShiftsAfter(r: Ring, next: nat, c: nat, r': Ring, out: seq<Block>)
    requires Tracks(r) && r.lfr + 1 == next % 64 && Shifts(r, c, r', out)
    ensures After(Queued(r, next), c) == Queued(r', next + c)
  {
    var w, w', a := Waiting(r, next), Waiting(r', next + c), After(Queued(r, next), c).pending;
    forall n: nat
      ensures n in a <==> n in w'
      ensures n in a ==> a[n] == w'[n]
    {
      if next + c <= n < next + c + 20 {
        ShiftsAt(r, next, c, r', out, n);
      }
    }
    assert a == w';
  }

  /** Shifting the ring by c slots is releasing a run of c frames. */
  lemma ShiftsIsRelease(r: Ring, next: nat, c: nat, r': Ring, out: seq<Block>)
    requires Tracks(r) && r.lfr + 1 == next % 64 && Shifts(r, c, r', out)
    ensures Release(Queued(r, next)) == (Queued(r', next + c), out)
  {
    ShiftsStops(r, next, c, r', out);
    ShiftsRun(r, next, c, r', out);
    ShiftsAfter(r, next, c, r', out);
    ReleaseIsRun(Queued(r, next), c);
  }

  /** The window test accepts a header number exactly if some frame of the window carries it. */
  lemma WindowTestExact(r: Ring, next: nat, n: nat)
    requires Tracks(r) && r.lfr + 1 == next % 64
    ensures InWindow(r.lfr, r.laf, n % 64)
       <==> exists m :: next <= m < next + 20 && m % 64 == n % 64
  {
    var m := next + Gap(next % 64, n % 64);
    GapOfNumber(next, m);
    forall m' | next <= m' < next + 20 && m' % 64 == n % 64
      ensures InWindow(r.lfr, r.laf, n % 64)
    {
      GapOfNumber(next, m');
    }
  }

  /** For a frame at most 44 behind and at most 63 ahead of the next expected one, it accepts the window
      and nothing else; 45 behind is already taken for a new frame (TooOldIsTaken). */
  lemma WindowTestInRange(r: Ring, next: nat, n: nat)
    requires Tracks(r) && r.lfr + 1 == next % 64
    requires next - 44 <= n <= next + 63
    ensures InWindow(r.lfr, r.laf, n % 64) <==> next <= n < next + 20
  {
  }

  lemma TooOldIsTaken(r: Ring, next: nat, n: nat)
    requires Tracks(r) && r.lfr + 1 == next % 64
    requires next - 64 <= n < next - 44
    ensures InWindow(r.lfr, r.laf, n % 64)
  {
  }

  lemma StoreTracks(r: Ring, next: nat, n: nat, body: Block)
    requires Represents(r, next) && next <= n < next + 20 && Blank(r.slots[n % 64])
    ensures Tracks(r.(slots := r.slots[n % 64 := body])) && r.lfr + 1 == next % 64
    ensures !Blank(body)
        ==> Queued(r.(slots := r.slots[n % 64 := body]), next) == Queue(next, Waiting(r, next)[n := body])
  {
    GapOfNumber(next, n);
    var r' := r.(slots := r.slots[n % 64 := body]);
    if !Blank(body) {
      forall m: nat | next <= m < next + 20 && m != n
        ensures r'.slots[m % 64] == r.slots[m % 64]
      {
        GapOfNumber(next, m);
      }
      assert Waiting(r', next) == Waiting(r, next)[n := body];
    }
  }

  lemma FilledRepresents(r: Ring, next: nat, c: nat, r': Ring, out: seq<Block>)
    requires Tracks(r) && r.lfr + 1 == next % 64 && Shifts(r, c, r', out)
    requires InBounds(r') && r'.lfr == Turn(r.lfr + 1, c) - 1
    ensures Represents(r', next + c)
  {
    ShiftsToFreeSlot(r, c, r', out);
    TurnIsMod(next, c);
  }

  lemma FilledRefines(r: Ring, next: nat)
    requires Tracks(r) && r.lfr + 1 == next % 64
    ensures var (r', out) := Deliver(r, MEANT);
      && Represents(r', next + |out|)
      && Release(Queued(r, next)) == (Queued(r', next + |out|), out)
  {
    hide Deliver;
    var (r', out) := Deliver(r, MEANT);
    var c := DeliverShifts(r);
    FilledRepresents(r, next, c, r', out);
    ShiftsIsRelease(r, next, c, r', out);
  }

  /** With nothing in the slot after lfr a delivery changes nothing. */
  lemma NothingToDeliver(r: Ring, resetAbove: nat)
    requires Tracks(r) && Blank(r.slots[r.lfr + 1])
    ensures Deliver(r, resetAbove) == (r, [])
  {
  }

  /** One packet on the ring is one offer to the queue. */
  ghost predicate StepIsOffer(r: Ring, next: nat, n: nat, body: Block)
    requires InBounds(r)
  {
    var (r', out) := Step(r, n % 64, body, MEANT);
    && Represents(r', next + |out|)
    && Offer(Queued(r, next), n, body) == (Queued(r', next + |out|), out)
  }

  lemma NotStored(r: Ring, next: nat, n: nat, body: Block)
    requires Represents(r, next)
    requires Step(r, n % 64, body, MEANT) == (r, [])
    requires !(next <= n < next + 20) || !Blank(r.slots[n % 64]) || Blank(body)
    ensures StepIsOffer(r, next, n, body)
  {
    hide Step, Tracks, Release;
  }

  lemma Refused(r: Ring, next: nat, n: nat, body: Block)
    requires Represents(r, next) && next - 44 <= n <= next + 63
    requires !(next <= n < next + 20) || !Blank(r.slots[n % 64])
    ensures Step(r, n % 64, body, MEANT) == (r, [])
  {
    hide Deliver;
    WindowTestInRange(r, next, n);
  }

  lemma BlankIsLost(r: Ring, next: nat, n: nat, body: Block)
    requires Represents(r, next) && Blank(r.slots[n % 64]) && Blank(body)
    ensures Step(r, n % 64, body, MEANT) == (r, [])
  {
    hide Deliver;
    assert r.slots[n % 64 := body] == r.slots;
    NothingToDeliver(r, MEANT);
  }

  lemma Stored(r: Ring, next: nat, n: nat, body: Block)
    requires Represents(r, next) && next <= n < next + 20
    requires Blank(r.slots[n % 64]) && !Blank(body)
    ensures StepIsOffer(r, next, n, body)
  {
    hide Deliver, Release;
    var filled := r.(slots := r.slots[n % 64 := body]);
    WindowTestInRange(r, next, n);
    assert Step(r, n % 64, body, MEANT) == Deliver(filled, MEANT);
    hide Step, Tracks;
    assert Offer(Queued(r, next), n, body) == Release(Queue(next, Waiting(r, next)[n := body]));
    StoreTracks(r, next, n, body);
    hide Offer;
    FilledRefines(filled, next);
  }

  /** Whatever the packet, as long as it is at most 44 frames old and at most 63 ahead. */
  lemma StepRefines(r: Ring, next: nat, n: nat, body: Block)
    requires Represents(r, next) && next - 44 <= n <= next + 63
    ensures StepIsOffer(r, next, n, body)
  {
    hide StepIsOffer;
    if !(next <= n < next + 20) || !Blank(r.slots[n % 64]) {
      Refused(r, next, n, body);
      NotStored(r, next, n, body);
    } else if Blank(body) {
      BlankIsLost(r, next, n, body);
      NotStored(r, next, n, body);
    } else {
      Stored(r, next, n, body);
    }
  }
}
