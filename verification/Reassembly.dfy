/** What the receiver is for, without slots or wrap-around: frames carry their true number 0, 1, 2, ...,
    out-of-order ones wait in a map, and everything consecutive is released. */
module Reassembly {
  import opened Bytes

  datatype Queue = Queue(next: nat, pending: map<nat, Block>)

  function Release(q: Queue): (d: (Queue, seq<Block>))
    decreases |q.pending|
  {
    if q.next in q.pending then
      var (q', out) := Release(Queue(q.next + 1, q.pending - {q.next}));
      (q', [q.pending[q.next]] + out)
    else (q, [])
  }

  function Offer(q: Queue, n: nat, body: Block): (d: (Queue, seq<Block>)) {
    if q.next <= n < q.next + 20 && n !in q.pending && !Blank(body)
    then Release(q.(pending := q.pending[n := body]))
    else (q, [])
  }

  predicate Stops(q: Queue, c: nat) {
    && (forall n :: q.next <= n < q.next + c ==> n in q.pending)
    && q.next + c !in q.pending
  }

  function After(q: Queue, c: nat): Queue {
    Queue(q.next + c, map n | n in q.pending && !(q.next <= n < q.next + c) :: q.pending[n])
  }

  function Consecutive(q: Queue, c: nat): (out: seq<Block>)
    requires Stops(q, c)
  {
    seq(c, k requires 0 <= k < c => assert q.next + k in q.pending; q.pending[q.next + k])
  }

  /** Release hands out exactly the consecutive run that starts at `next`. */
  lemma {:induction false} ReleaseIsRun(q: Queue, c: nat)
    requires Stops(q, c)
    ensures Release(q) == (After(q, c), Consecutive(q, c))
    decreases c
  {
    if c == 0 {
      assert After(q, 0).pending == q.pending;
    } else {
      assert q.next in q.pending;
      var rest := Queue(q.next + 1, q.pending - {q.next});
      ReleaseIsRun(rest, c - 1);
      assert After(rest, c - 1).pending == After(q, c).pending;
      assert [q.pending[q.next]] + Consecutive(rest, c - 1) == Consecutive(q, c);
    }
  }
}
