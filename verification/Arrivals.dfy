/** The refinement over whole runs: a ring and an unbounded queue that are fed the same packets. */
module Arrivals {
  import opened Bytes
  import opened Receiver
  import opened Reassembly
  import opened Refinement
  import opened Conservation

  /** A packet with its true number. */
  datatype Arrival = Arrival(n: nat, body: Block)

  ghost function Packets(ps: seq<Arrival>): (s: seq<Packet>)
    ensures |s| == |ps| && Numbered(s)
  {
    seq(|ps|, i requires 0 <= i < |ps| => Packet(ps[i].n % 64, ps[i].body))
  }

  /** The queue over a whole run. */
  ghost function Offers(q: Queue, ps: seq<Arrival>): (Queue, seq<Block>)
    decreases |ps|
  {
    if ps == [] then (q, [])
    else
      var (q1, out1) := Offer(q, ps[0].n, ps[0].body);
      var (q2, out2) := Offers(q1, ps[1..]);
      (q2, out1 + out2)
  }

  /** Every packet is at most 44 frames behind and 63 ahead of the frame that the queue expects when it arrives. */
  ghost predicate Young(q: Queue, ps: seq<Arrival>)
    decreases |ps|
  {
    ps != [] ==>
      && q.next - 44 <= ps[0].n <= q.next + 63
      && Young(Offer(q, ps[0].n, ps[0].body).0, ps[1..])
  }

  /** From any state between two packets. */
  lemma {:induction false} RunRefines(r: Ring, next: nat, ps: seq<Arrival>)
    requires Represents(r, next) && Young(Queued(r, next), ps)
    ensures InBounds(r)
    ensures var (r', out) := Process(r, Packets(ps), MEANT);
      && Represents(r', next + |out|)
      && Offers(Queued(r, next), ps) == (Queued(r', next + |out|), out)
    decreases |ps|
  {
    hide Step, Represents, Waiting, Offer;
    InStep(r, next);
    if ps == [] {
      assert Packets(ps) == [];
    } else {
      StepRefines(r, next, ps[0].n, ps[0].body);
      var (r1, out1) := Step(r, ps[0].n % 64, ps[0].body, MEANT);
      RunRefines(r1, next + |out1|, ps[1..]);
      assert Packets(ps)[1..] == Packets(ps[1..]);
    }
  }

  /** From the start: the ring of 64 slots hands out exactly what the unbounded reassembler does. */
  lemma StartRefines(ps: seq<Arrival>)
    requires Young(Queue(0, map[]), ps)
    ensures Process(Start(), Packets(ps), MEANT).1 == Offers(Queue(0, map[]), ps).1
  {
    var r := Start();
    assert Waiting(r, 0) == map[];
    RunRefines(r, 0, ps);
  }
}
