/** Where the ring stops doing what it is for: stale frames, and the reset as written at the last slot. */
module Limits {
  import opened Bytes
  import opened Receiver
  import opened Reassembly
  import opened Refinement
  import opened Conservation

  // ----- Frames outside the range -----

  lemma OfferSticks(q: Queue, n: nat, body: Block)
    requires q.next <= n < q.next + 20 && n !in q.pending && !Blank(body)
    ensures Offer(q, n, body) != (q, [])
  {
    var q' := q.(pending := q.pending[n := body]);
    assert n in q'.pending;
    assert Offer(q, n, body) == Release(q');
  }

  /** One number too many: a packet stored as frame m is not an offer of any other frame n. */
  lemma StoredAsAnother(r: Ring, next: nat, n: nat, m: nat, body: Block)
    requires Represents(r, next) && StepIsOffer(r, next, m, body)
    requires n % 64 == m % 64 && next <= m < next + 20 && m !in Waiting(r, next) && !Blank(body)
    requires !(next <= n < next + 20)
    ensures !StepIsOffer(r, next, n, body)
  {
    hide Step, Represents, Waiting, Release;
    InStep(r, next);
    OfferSticks(Queued(r, next), m, body);
  }

  /** Whatever the true number of a packet: the ring does what the queue does with that number exactly if
      the number is in the 64 from the next expected one on, or the packet is not stored at all. */
  lemma StepRefinesExactly(r: Ring, next: nat, n: nat, body: Block)
    requires Represents(r, next)
    ensures StepIsOffer(r, next, n, body)
       <==> next <= n < next + 64 || !Stores(r, n % 64, body)
  {
    hide StepIsOffer;
    var m := next + Gap(next % 64, n % 64);
    GapOfNumber(next, m);
    StepRefines(r, next, m, body);
    WindowTestInRange(r, next, m);
    if !(next <= n < next + 64) {
      if Stores(r, n % 64, body) {
        StoredAsAnother(r, next, n, m, body);
      } else if Blank(body) && Blank(r.slots[n % 64]) {
        BlankIsLost(r, next, n, body);
        NotStored(r, next, n, body);
      } else {
        Refused(r, next, m, body);
        NotStored(r, next, n, body);
      }
    }
  }

  // ----- A sender more than twenty frames ahead -----

  lemma {:induction false} ReleaseHas(q: Queue, n: nat)
    ensures n < Release(q).0.next || n in Release(q).0.pending <==> n < q.next || n in q.pending
    decreases |q.pending|
  {
    if q.next in q.pending {
      ReleaseHas(Queue(q.next + 1, q.pending - {q.next}), n);
    }
  }

  lemma OfferHas(q: Queue, n: nat, body: Block)
    requires !Blank(body) && forall k :: k in q.pending ==> k < q.next + 20
    ensures var q' := Offer(q, n, body).0; n < q'.next || n in q'.pending <==> n < q.next + 20
  {
    if q.next <= n < q.next + 20 && n !in q.pending {
      ReleaseHas(q.(pending := q.pending[n := body]), n);
    }
  }

  /** The receiver acknowledges every intact frame; the acknowledgement is true exactly if the frame is less than
      twenty past the next expected one. One frame more than the window allows is acknowledged and lost. */
  lemma AckHonestExactly(r: Ring, next: nat, n: nat, body: Block)
    requires Represents(r, next) && next - 44 <= n <= next + 63 && !Blank(body)
    ensures InBounds(r)
    ensures var (r', out) := Step(r, n % 64, body, MEANT);
      Has(r', next + |out|, n) <==> n < next + 20
  {
    hide Step, Represents, Offer;
    InStep(r, next);
    StepRefines(r, next, n, body);
    OfferHas(Queued(r, next), n, body);
  }

  // ----- The reset as written -----

  /** The packets after which the two resets differ: the last one missing from a full window 44..63. */
  ghost predicate CompletesLastSlot(r: Ring, seqNum: int, body: Block)
    requires InBounds(r) && 0 <= seqNum < 64
  {
    && r.lfr == 43 && 44 <= seqNum && Blank(r.slots[seqNum]) && !Blank(body)
    && forall k :: 44 <= k < 64 && k != seqNum ==> !Blank(r.slots[k])
  }

  lemma LastSlotFilled(slots: seq<Block>)
    requires |slots| == 64
    ensures FirstEmpty(slots, 44, 64) == 64 <==> forall k :: 44 <= k < 64 ==> !Blank(slots[k])
  {
  }

  /** The test "lfr > 63" does what was meant for every packet except those, and exactly those. */
  lemma LiteralResetExact(r: Ring, seqNum: int, body: Block)
    requires InBounds(r) && r.lfr < 63 && 0 <= seqNum < 64 && Blank(r.slots[r.lfr + 1])
    ensures Step(r, seqNum, body, LITERAL) == Step(r, seqNum, body, MEANT)
       <==> !CompletesLastSlot(r, seqNum, body)
    ensures CompletesLastSlot(r, seqNum, body)
        ==> var (r', out) := Step(r, seqNum, body, MEANT);
          r'.lfr == -1 && |out| == 20 && Step(r, seqNum, body, LITERAL) == (r'.(lfr := 63), out)
  {
    if InWindow(r.lfr, r.laf, seqNum) && Blank(r.slots[seqNum]) {
      var filled := r.(slots := r.slots[seqNum := body]);
      if r.lfr == 43 {
        LastSlotFilled(filled.slots);
        assert filled.slots[seqNum] == body;
        assert forall k :: 0 <= k < 64 && k != seqNum ==> filled.slots[k] == r.slots[k];
      }
    }
  }

  /** Once lfr is 63 nothing is ever forwarded again, whatever arrives and although all of it is acknowledged. */
  lemma {:induction false} StuckForever(r: Ring, ps: seq<Packet>, resetAbove: nat)
    requires InBounds(r) && r.lfr == 63 && Numbered(ps)
    ensures Process(r, ps, resetAbove).0.lfr == 63
    ensures Process(r, ps, resetAbove).1 == []
    decreases |ps|
  {
    if ps != [] {
      var (r1, out1) := Step(r, ps[0].seqNum, ps[0].body, resetAbove);
      StuckForever(r1, ps[1..], resetAbove);
    }
  }

  ghost predicate SomeCompletes(r: Ring, ps: seq<Packet>)
    requires InBounds(r) && Numbered(ps)
    decreases |ps|
  {
    && ps != []
    && (CompletesLastSlot(r, ps[0].seqNum, ps[0].body)
        || SomeCompletes(Step(r, ps[0].seqNum, ps[0].body, MEANT).0, ps[1..]))
  }

  /** Any packet at all keeps the ring in step with some frame number. */
  lemma AnyPacket(r: Ring, next: nat, seqNum: nat, body: Block)
    requires Represents(r, next) && seqNum < 64
    ensures var (r', out) := Step(r, seqNum, body, MEANT); Represents(r', next + |out|)
  {
    hide Step, Represents, Offer, Waiting;
    InStep(r, next);
    var n := next + Gap(next % 64, seqNum);
    GapOfNumber(next, n);
    assert n % 64 == seqNum;
    StepRefines(r, next, n, body);
  }

  /** Over whole runs the two resets agree exactly if no packet ever completes a full window 44..63. */
  lemma {:induction false} LiteralRunExact(r: Ring, next: nat, ps: seq<Packet>)
    requires Represents(r, next) && Numbered(ps)
    ensures Process(r, ps, MEANT).0.lfr < 63
    ensures SomeCompletes(r, ps) ==> Process(r, ps, LITERAL).0.lfr == 63
    ensures !SomeCompletes(r, ps) ==> Process(r, ps, LITERAL) == Process(r, ps, MEANT)
    ensures Process(r, ps, LITERAL) == Process(r, ps, MEANT) <==> !SomeCompletes(r, ps)
    decreases |ps|
  {
    hide Step, Represents, CompletesLastSlot;
    InStep(r, next);
    if ps != [] {
      var (r1, out1) := Step(r, ps[0].seqNum, ps[0].body, MEANT);
      AnyPacket(r, next, ps[0].seqNum, ps[0].body);
      LiteralResetExact(r, ps[0].seqNum, ps[0].body);
      LiteralRunExact(r1, next + |out1|, ps[1..]);
      if CompletesLastSlot(r, ps[0].seqNum, ps[0].body) {
        StuckForever(Step(r, ps[0].seqNum, ps[0].body, LITERAL).0, ps[1..], LITERAL);
      }
    }
  }

  // ----- The last slot is reached -----

  lemma LoneFrame(q: Queue, body: Block)
    requires q.pending == map[] && !Blank(body)
    ensures Offer(q, q.next, body) == (Queue(q.next + 1, map[]), [body])
  {
    var q1 := q.(pending := map[q.next := body]);
    var q2 := Queue(q.next + 1, q1.pending - {q.next});
    assert q.pending[q.next := body] == q1.pending && q2.pending == map[];
    assert Release(q2) == (q2, []);
    assert Release(q1) == (q2, [body] + []);
    assert [body] + [] == [body];
  }

  lemma FrameAhead(q: Queue, n: nat, body: Block)
    requires q.next < n < q.next + 20 && n !in q.pending && q.next !in q.pending && !Blank(body)
    ensures Offer(q, n, body) == (q.(pending := q.pending[n := body]), [])
  {
  }

  lemma OneMorePacket(r: Ring, p: Packet, rest: seq<Packet>)
    requires InBounds(r) && p.seqNum < 64 && Numbered(rest)
    requires SomeCompletes(Step(r, p.seqNum, p.body, MEANT).0, rest)
    ensures Numbered([p] + rest) && SomeCompletes(r, [p] + rest)
  {
    hide Step;
    var ps := [p] + rest;
    assert Numbered(ps);
    assert ps[0] == p && ps[1..] == rest;
    assert SomeCompletes(Step(r, ps[0].seqNum, ps[0].body, MEANT).0, ps[1..]);
  }

  lemma LastOne(r: Ring, body: Block)
    requires Represents(r, 44) && !Blank(body)
    requires forall k: nat | 45 <= k < 64 :: k in Waiting(r, 44)
    ensures Numbered([Packet(44, body)]) && SomeCompletes(r, [Packet(44, body)])
  {
    forall k: nat | 45 <= k < 64
      ensures !Blank(r.slots[k])
    {
      assert k in Waiting(r, 44);
    }
  }

  /** With 44 expected and 45..n-1 waiting, frames n..63 and then 44 complete the window. */
  lemma {:induction false} LastFrames(r: Ring, n: nat, body: Block) returns (ps: seq<Packet>)
    requires Represents(r, 44) && 45 <= n <= 64 && !Blank(body)
    requires forall k: nat :: k in Waiting(r, 44) <==> 45 <= k < n
    ensures Numbered(ps) && SomeCompletes(r, ps)
    decreases 64 - n
  {
    hide Step, Represents, SomeCompletes, Offer;
    InStep(r, 44);
    if n == 64 {
      LastOne(r, body);
      ps := [Packet(44, body)];
    } else {
      StepRefines(r, 44, n, body);
      FrameAhead(Queued(r, 44), n, body);
      var r' := Step(r, n, body, MEANT).0;
      assert Waiting(r', 44) == Waiting(r, 44)[n := body];
      var rest := LastFrames(r', n + 1, body);
      ps := [Packet(n, body)] + rest;
      OneMorePacket(r, Packet(n, body), rest);
    }
  }

  lemma InOrderFrame(r: Ring, next: nat, body: Block)
    requires Represents(r, next) && Waiting(r, next) == map[] && !Blank(body)
    ensures InBounds(r)
    ensures var (r', out) := Step(r, next % 64, body, MEANT);
      Represents(r', next + 1) && Waiting(r', next + 1) == map[] && out == [body]
  {
    hide Step, Represents, Waiting, Offer;
    InStep(r, next);
    StepRefines(r, next, next, body);
    LoneFrame(Queued(r, next), body);
    var (r', out) := Step(r, next % 64, body, MEANT);
    assert Queued(r', next + |out|) == Queue(next + 1, map[]);
  }

  lemma {:induction false} FirstFrames(r: Ring, next: nat, body: Block) returns (ps: seq<Packet>)
    requires Represents(r, next) && next <= 44 && Waiting(r, next) == map[] && !Blank(body)
    ensures Numbered(ps) && SomeCompletes(r, ps)
    decreases 44 - next
  {
    hide Step, Represents, SomeCompletes, Waiting;
    InStep(r, next);
    if next == 44 {
      ps := LastFrames(r, 45, body);
    } else {
      InOrderFrame(r, next, body);
      assert next % 64 == next;
      var rest := FirstFrames(Step(r, next, body, MEANT).0, next + 1, body);
      ps := [Packet(next, body)] + rest;
      OneMorePacket(r, Packet(next, body), rest);
    }
  }

  lemma {:induction false} ProcessConcat(r: Ring, ps: seq<Packet>, qs: seq<Packet>, resetAbove: nat)
    requires InBounds(r) && Numbered(ps) && Numbered(qs)
    ensures Numbered(ps + qs)
    ensures var (r1, out1) := Process(r, ps, resetAbove);
      var (r2, out2) := Process(r1, qs, resetAbove);
      Process(r, ps + qs, resetAbove) == (r2, out1 + out2)
    decreases |ps|
  {
    hide Step;
    if ps == [] {
      assert ps + qs == qs;
      assert [] + Process(r, qs, resetAbove).1 == Process(r, qs, resetAbove).1;
    } else {
      assert Numbered(ps + qs);
      assert (ps + qs)[0] == ps[0] && (ps + qs)[1..] == ps[1..] + qs;
      var (r1, out1) := Step(r, ps[0].seqNum, ps[0].body, resetAbove);
      ProcessConcat(r1, ps[1..], qs, resetAbove);
      var (r2, out2) := Process(r1, ps[1..], resetAbove);
      Assoc(out1, out2, Process(r2, qs, resetAbove).1);
    }
  }

  /** The reset as written does fail: there is a run from the start, of one block repeated, after which
      nothing is forwarded whatever else arrives. */
  lemma LiteralResetFails(body: Block) returns (ps: seq<Packet>)
    requires !Blank(body)
    ensures Numbered(ps)
    ensures forall qs :: Numbered(qs) ==>
      && Numbered(ps + qs)
      && Process(Start(), ps + qs, LITERAL).1
         == Process(Start(), ps, LITERAL).1
  {
    hide Step;
    var r := Start();
    assert Waiting(r, 0) == map[];
    ps := FirstFrames(r, 0, body);
    LiteralRunExact(r, 0, ps);
    var r' := Process(r, ps, LITERAL).0;
    forall qs | Numbered(qs)
      ensures Numbered(ps + qs) && Process(r, ps + qs, LITERAL).1 == Process(r, ps, LITERAL).1
    {
      ProcessConcat(r, ps, qs, LITERAL);
      StuckForever(r', qs, LITERAL);
    }
  }
}
