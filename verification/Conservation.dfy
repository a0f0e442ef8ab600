/** Counting blocks in the receiver: nothing is lost or made between the network and ftps. */
module Conservation {
  import opened Bytes
  import opened Receiver

  ghost function Filled(slots: seq<Block>): nat {
    if slots == [] then 0
    else Filled(slots[..|slots| - 1]) + if Blank(slots[|slots| - 1]) then 0 else 1
  }

  lemma {:induction false} FilledAll(slots: seq<Block>)
    requires forall k :: 0 <= k < |slots| ==> !Blank(slots[k])
    ensures Filled(slots) == |slots|
  {
    if slots != [] {
      FilledAll(slots[..|slots| - 1]);
    }
  }

  lemma {:induction false} FilledNone(slots: seq<Block>)
    requires forall k :: 0 <= k < |slots| ==> Blank(slots[k])
    ensures Filled(slots) == 0
  {
    if slots != [] {
      FilledNone(slots[..|slots| - 1]);
    }
  }

  lemma {:induction false} FilledConcat(a: seq<Block>, b: seq<Block>)
    ensures Filled(a + b) == Filled(a) + Filled(b)
  {
    if b == [] {
      assert a + b == a;
    } else {
      assert (a + b)[..|a + b| - 1] == a + b[..|b| - 1];
      FilledConcat(a, b[..|b| - 1]);
    }
  }

  lemma FilledSplit(s: seq<Block>, lo: nat, hi: nat)
    requires lo <= hi <= |s|
    ensures Filled(s) == Filled(s[..lo]) + Filled(s[lo..hi]) + Filled(s[hi..])
  {
    hide Filled;
    assert s == (s[..lo] + s[lo..hi]) + s[hi..];
    FilledConcat(s[..lo] + s[lo..hi], s[hi..]);
    FilledConcat(s[..lo], s[lo..hi]);
  }

  lemma ClearFilled(s: seq<Block>, lo: nat, hi: nat)
    requires lo <= hi <= |s|
    requires forall k :: lo <= k < hi ==> !Blank(s[k])
    ensures Filled(Clear(s, lo, hi)) == Filled(s) - (hi - lo)
  {
    hide Filled;
    var t := Clear(s, lo, hi);
    FilledSplit(s, lo, hi);
    FilledSplit(t, lo, hi);
    assert t[..lo] == s[..lo] && t[hi..] == s[hi..];
    FilledAll(s[lo..hi]);
    FilledNone(t[lo..hi]);
  }

  lemma UpdateFilled(s: seq<Block>, i: nat, b: Block)
    requires i < |s| && Blank(s[i])
    ensures Filled(s[i := b]) == Filled(s) + if Blank(b) then 0 else 1
  {
    var t := s[i := b];
    FilledSplit(s, i, i + 1);
    FilledSplit(t, i, i + 1);
    assert t[..i] == s[..i] && t[i + 1..] == s[i + 1..];
    assert t[i..i + 1] == [b] && s[i..i + 1] == [s[i]];
    assert Filled([]) == 0;
  }

  lemma DeliverConserves(r: Ring, resetAbove: nat)
    requires InBounds(r)
    ensures |Deliver(r, resetAbove).1| + Filled(Deliver(r, resetAbove).0.slots) == Filled(r.slots)
  {
    hide Filled;
    if r.laf > r.lfr {
      var i := FirstEmpty(r.slots, r.lfr + 1, r.laf + 1);
      ClearFilled(r.slots, r.lfr + 1, i);
    } else {
      var i := FirstEmpty(r.slots, r.lfr + 1, 64);
      var tail := Clear(r.slots, r.lfr + 1, i);
      ClearFilled(r.slots, r.lfr + 1, i);
      if i == 64 && i != r.lfr + 1 {
        ClearFilled(tail, 0, FirstEmpty(tail, 0, r.laf + 1));
      }
    }
  }

  /** The packets that add a block: in the window, on a free slot, and not blank. */
  predicate Stores(r: Ring, seqNum: int, body: Block)
    requires InBounds(r) && Addressable(r.lfr, r.laf, seqNum)
  {
    InWindow(r.lfr, r.laf, seqNum) && Blank(r.slots[seqNum]) && !Blank(body)
  }

  /** Blocks forwarded plus blocks held grows by one for such a packet and by nothing for any other,
      with either reset and in any state of the ring. */
  lemma StepConserves(r: Ring, seqNum: int, body: Block, resetAbove: nat)
    requires InBounds(r) && Addressable(r.lfr, r.laf, seqNum)
    ensures var (r', out) := Step(r, seqNum, body, resetAbove);
      |out| + Filled(r'.slots) == Filled(r.slots) + if Stores(r, seqNum, body) then 1 else 0
  {
    if InWindow(r.lfr, r.laf, seqNum) && Blank(r.slots[seqNum]) {
      UpdateFilled(r.slots, seqNum, body);
      DeliverConserves(r.(slots := r.slots[seqNum := body]), resetAbove);
    }
  }

  datatype Packet = Packet(seqNum: nat, body: Block)

  ghost predicate Numbered(ps: seq<Packet>) {
    forall p :: p in ps ==> p.seqNum < 64
  }

  /** The receiver over a whole run of intact packets. */
  ghost function Process(r: Ring, ps: seq<Packet>, resetAbove: nat): (d: (Ring, seq<Block>))
    requires InBounds(r) && Numbered(ps)
    ensures InBounds(d.0)
    decreases |ps|
  {
    if ps == [] then (r, [])
    else
      var (r1, out1) := Step(r, ps[0].seqNum, ps[0].body, resetAbove);
      var (r2, out2) := Process(r1, ps[1..], resetAbove);
      (r2, out1 + out2)
  }

  ghost function StoredBy(r: Ring, ps: seq<Packet>, resetAbove: nat): nat
    requires InBounds(r) && Numbered(ps)
    decreases |ps|
  {
    if ps == [] then 0
    else
      (if Stores(r, ps[0].seqNum, ps[0].body) then 1 else 0)
      + StoredBy(Step(r, ps[0].seqNum, ps[0].body, resetAbove).0, ps[1..], resetAbove)
  }

  lemma {:induction false} RunConserves(r: Ring, ps: seq<Packet>, resetAbove: nat)
    requires InBounds(r) && Numbered(ps)
    ensures var (r', out) := Process(r, ps, resetAbove);
      |out| + Filled(r'.slots) == Filled(r.slots) + StoredBy(r, ps, resetAbove)
    decreases |ps|
  {
    if ps != [] {
      StepConserves(r, ps[0].seqNum, ps[0].body, resetAbove);
      RunConserves(Step(r, ps[0].seqNum, ps[0].body, resetAbove).0, ps[1..], resetAbove);
    }
  }
}
