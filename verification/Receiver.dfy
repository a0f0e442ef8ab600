/** The receiving daemon's sliding window: a ring of 64 one-block slots, `lfr` and `laf`. */
module Receiver {
  import opened Bytes

  /** What the receiver keeps between two packets. */
  datatype Ring = Ring(lfr: int, laf: int, slots: seq<Block>)

  /** The index test at the wrap: the source resets `lfr` to -1 when it is above 63, which no index is;
      the last index is 63, so the test that was meant is "above 62". */
  const LITERAL: nat := 63
  const MEANT: nat := 62

  predicate InBounds(r: Ring) {
    && |r.slots| == 64
    && -1 <= r.lfr < 64
    && r.laf == (if r.lfr < 44 then r.lfr + 20 else r.lfr - 44)
  }

  /** Before the first packet: nothing received, every slot free. */
  function Start(): (r: Ring)
    ensures InBounds(r)
  {
    Ring(-1, 19, seq(64, _ => Zeros()))
  }

  predicate InWindow(lfr: int, laf: int, seqNum: int) {
    || (laf >= lfr && seqNum > lfr && seqNum <= laf)
    || (laf < lfr && (seqNum > lfr || seqNum <= laf))
  }

  /** The source tests numbers as they come: outside 0..63 none passes while the window does not wrap, and all do
      while it does. */
  lemma OtherNumbers(lfr: int, laf: int, seqNum: int)
    requires -1 <= lfr < 64 && 0 <= laf < 64 && lfr != laf && !(0 <= seqNum < 64)
    ensures InWindow(lfr, laf, seqNum) <==> laf < lfr
  {
  }

  /** A number that passes the window test is a slot number. The sender makes no others; for one the source would
      read and write outside its buffer. */
  predicate Addressable(lfr: int, laf: int, seqNum: int) {
    InWindow(lfr, laf, seqNum) ==> 0 <= seqNum < 64
  }

  /** First free slot in lo..hi, or hi. */
  ghost function FirstEmpty(slots: seq<Block>, lo: nat, hi: nat): (i: nat)
    requires lo <= hi <= |slots|
    ensures lo <= i <= hi
    ensures forall k :: lo <= k < i ==> !Blank(slots[k])
    ensures i < hi ==> Blank(slots[i])
    decreases hi - lo
  {
    if lo == hi || Blank(slots[lo]) then lo else FirstEmpty(slots, lo + 1, hi)
  }

  lemma {:induction false} FirstEmptyIs(slots: seq<Block>, lo: nat, hi: nat, i: nat)
    requires lo <= i <= hi <= |slots|
    requires forall k :: lo <= k < i ==> !Blank(slots[k])
    requires i < hi ==> Blank(slots[i])
    ensures FirstEmpty(slots, lo, hi) == i
    decreases hi - lo
  {
    if lo < i {
      FirstEmptyIs(slots, lo + 1, hi, i);
    }
  }

  function Cleared(slots: seq<Block>, lo: nat, hi: nat, k: nat): Block
    requires k < |slots|
  {
    if lo <= k < hi then Zeros() else slots[k]
  }

  function Clear(slots: seq<Block>, lo: nat, hi: nat): (s: seq<Block>)
    ensures |s| == |slots|
    ensures forall k :: 0 <= k < |slots| ==> s[k] == if lo <= k < hi then Zeros() else slots[k]
  {
    seq(|slots|, k requires 0 <= k < |slots| => Cleared(slots, lo, hi, k))
  }

  /** Delivery when the window does not wrap: the new ring and the blocks sent to ftps. */
  ghost function DeliverStraight(r: Ring, resetAbove: nat): (d: (Ring, seq<Block>))
    requires InBounds(r) && r.laf > r.lfr
    ensures InBounds(d.0)
  {
    var i := FirstEmpty(r.slots, r.lfr + 1, r.laf + 1);
    if i == r.lfr + 1 then (r, [])
    else
      var lfr := if i - 1 > resetAbove then -1 else i - 1;
      var laf := if lfr + 20 > 63 then lfr + 20 - 64 else lfr + 20;
      (Ring(lfr, laf, Clear(r.slots, r.lfr + 1, i)), r.slots[r.lfr + 1..i])
  }

  /** Delivery from slot 0 on, after the slots up to the last one were delivered. */
  ghost function DeliverFromZero(slots: seq<Block>, laf: nat): (d: (Ring, seq<Block>))
    requires |slots| == 64 && laf < 20
    ensures InBounds(d.0)
  {
    var j := FirstEmpty(slots, 0, laf + 1);
    (Ring(j - 1, j - 1 + 20, Clear(slots, 0, j)), slots[0..j])
  }

  /** Delivery when the window wraps: up to the last slot and, if that was reached, on from slot 0. */
  ghost function DeliverAround(r: Ring): (d: (Ring, seq<Block>))
    requires InBounds(r) && r.laf < r.lfr
    ensures InBounds(d.0)
  {
    var i := FirstEmpty(r.slots, r.lfr + 1, 64);
    if i == r.lfr + 1 then (r, [])
    else if i < 64 then
      (Ring(i - 1, r.laf + (i - r.lfr - 1), Clear(r.slots, r.lfr + 1, i)), r.slots[r.lfr + 1..i])
    else
      var tail := Clear(r.slots, r.lfr + 1, i);
      var (r', out) := DeliverFromZero(tail, r.laf);
      (r', r.slots[r.lfr + 1..i] + out)
  }

  ghost function Deliver(r: Ring, resetAbove: nat): (d: (Ring, seq<Block>))
    requires InBounds(r)
    ensures InBounds(d.0)
  {
    if r.laf > r.lfr then DeliverStraight(r, resetAbove) else DeliverAround(r)
  }

  /** One intact packet, by the number in its header. */
  ghost function Step(r: Ring, seqNum: int, body: Block, resetAbove: nat): (d: (Ring, seq<Block>))
    requires InBounds(r) && Addressable(r.lfr, r.laf, seqNum)
    ensures InBounds(d.0)
  {
    if InWindow(r.lfr, r.laf, seqNum) && Blank(r.slots[seqNum]) then
      Deliver(r.(slots := r.slots[seqNum := body]), resetAbove)
    else (r, [])
  }

  lemma Assoc(a: seq<Block>, b: seq<Block>, c: seq<Block>)
    ensures (a + b) + c == a + (b + c)
  {
  }

  class Server {
    var lfr: int
    var laf: int
    const recvbuf: array<Block>
    const resetAbove: nat
    var toFtps: seq<Block>  // blocks sent to ftps, oldest first
    var acks: seq<int>      // numbers acknowledged, oldest first

    ghost predicate Valid()
      reads this, recvbuf
    {
      recvbuf.Length == 64 && -1 <= lfr < 64 && laf == (if lfr < 44 then lfr + 20 else lfr - 44)
    }

    ghost function State(): (r: Ring)
      requires Valid()
      reads this, recvbuf
      ensures InBounds(r)
    {
      Ring(lfr, laf, recvbuf[..])
    }

    constructor (resetAbove: nat)
      ensures Valid() && fresh(recvbuf) && this.resetAbove == resetAbove
      ensures State() == Start()
      ensures toFtps == [] && acks == []
    {
      this.resetAbove := resetAbove;
      lfr := -1;
      laf := -1 + 20;
      recvbuf := new Block[64](_ => Zeros());
      toFtps, acks := [], [];
    }

    /** Sends the filled slots from lo on to ftps and stops at the first free one. */
    method SendFilled(lo: nat, hi: nat) returns (i: nat)
      requires recvbuf.Length == 64 && lo <= hi <= 64
      modifies this`toFtps
      ensures i == FirstEmpty(recvbuf[..], lo, hi)
      ensures toFtps == old(toFtps) + recvbuf[..][lo..i]
    {
      i := lo;
      while i < hi
        invariant lo <= i <= hi
        invariant forall k :: lo <= k < i ==> !Blank(recvbuf[k])
        invariant toFtps == old(toFtps) + recvbuf[lo..i]
      {
        var num := CheckEmpty(recvbuf[i]);
        if num {
          break;
        }
        toFtps := toFtps + [recvbuf[i]];
        i := i + 1;
      }
      FirstEmptyIs(recvbuf[..], lo, hi, i);
    }

    method Bzero(lo: nat, hi: nat)
      requires recvbuf.Length == 64 && lo <= hi <= 64
      modifies recvbuf
      ensures recvbuf[..] == Clear(old(recvbuf[..]), lo, hi)
    {
      for k := lo to hi
        invariant recvbuf[..] == Clear(old(recvbuf[..]), lo, k)
      {
        recvbuf[k] := Zeros();
      }
    }

    /** Delivery when the window does not wrap. */
    method DeliverUpToLaf()
      requires Valid() && laf > lfr
      modifies this`lfr, this`laf, this`toFtps, recvbuf
      ensures Valid()
      ensures State() == DeliverStraight(old(State()), resetAbove).0
      ensures toFtps == old(toFtps) + DeliverStraight(old(State()), resetAbove).1
    {
      ghost var before := recvbuf[..];
      assert old(State()) == Ring(old(lfr), old(laf), before);
      var i := SendFilled(lfr + 1, laf + 1);
      assert i == FirstEmpty(before, lfr + 1, laf + 1);
      if i != lfr + 1 {
        Bzero(lfr + 1, i);
        assert recvbuf[..] == Clear(before, lfr + 1, i);
        lfr := i - 1;
        if lfr > resetAbove {
          lfr := -1;
        }
        laf := lfr + 20;
        if laf > 63 {
          laf := laf - 64;
        }
      }
    }

    /** Delivery from slot 0 on. */
    method DeliverAfterWrap()
      requires recvbuf.Length == 64 && 0 <= laf < 20
      modifies this`lfr, this`laf, this`toFtps, recvbuf
      ensures Valid()
      ensures State() == DeliverFromZero(old(recvbuf[..]), old(laf)).0
      ensures toFtps == old(toFtps) + DeliverFromZero(old(recvbuf[..]), old(laf)).1
    {
      ghost var before := recvbuf[..];
      var i := SendFilled(0, laf + 1);
      assert i == FirstEmpty(before, 0, laf + 1);
      if i != 0 {
        Bzero(0, i);
        lfr := i - 1;
      } else {
        lfr := -1;
      }
      assert recvbuf[..] == Clear(before, 0, i);
      laf := lfr + 20;
    }

    /** Delivery when the window wraps: up to the last slot, then on from slot 0. */
    method DeliverAroundWrap()
      requires Valid() && laf < lfr
      modifies this`lfr, this`laf, this`toFtps, recvbuf
      ensures Valid()
      ensures State() == DeliverAround(old(State())).0
      ensures toFtps == old(toFtps) + DeliverAround(old(State())).1
    {
      ghost var before := recvbuf[..];
      assert old(State()) == Ring(old(lfr), old(laf), before);
      var i := SendFilled(lfr + 1, 64);
      assert i == FirstEmpty(before, lfr + 1, 64);
      if i != lfr + 1 {
        Bzero(lfr + 1, i);
        ghost var tail := recvbuf[..];
        assert tail == Clear(before, lfr + 1, i);
        if i < 64 {
          laf := laf + (i - lfr - 1);
          lfr := i - 1;
        } else {
          DeliverAfterWrap();
          Assoc(old(toFtps), before[old(lfr) + 1..64], DeliverFromZero(tail, old(laf)).1);
        }
      }
    }

    /** An intact packet: window test, store if the slot is free, deliver, acknowledge in every case. */
    method Intact(seqNum: int, body: Block)
      requires Valid() && Addressable(lfr, laf, seqNum)
      modifies this`lfr, this`laf, this`toFtps, this`acks, recvbuf
      ensures Valid()
      ensures acks == old(acks) + [seqNum]
      ensures State() == Step(old(State()), seqNum, body, resetAbove).0
      ensures toFtps == old(toFtps) + Step(old(State()), seqNum, body, resetAbove).1
    {
      if (laf >= lfr && seqNum > lfr && seqNum <= laf) || (laf < lfr && (seqNum > lfr || seqNum <= laf)) {
        var isEmpty := CheckEmpty(recvbuf[seqNum]);
        if isEmpty {
          recvbuf[seqNum] := body;
          assert recvbuf[..] == old(recvbuf[..])[seqNum := body];
          if laf > lfr {
            DeliverUpToLaf();
          } else if laf < lfr {
            DeliverAroundWrap();
          }
        }
      }
      acks := acks + [seqNum];
    }
  }
}
