/** The daemon's timer list: a doubly linked list of nodes with relative times, changed in place. */
module TimerList {
  import opened Time
  import opened Schedule
  import opened Fields

  class TimeNode {
    const id: int
    var delta: Tv            // after the node before
    var forward: TimeNode?   // the node before
    var next: TimeNode?

    constructor (id: int, delta: Tv)
      ensures this.id == id && this.delta == delta && forward == null && next == null
    {
      this.id, this.delta := id, delta;
      forward, next := null, null;
    }
  }

  /** No node and no id occurs twice among the first n. */
  ghost predicate Apart(ns: seq<TimeNode>, n: nat)
    requires n <= |ns|
  {
    n > 0 ==>
      Apart(ns, n - 1) && forall i :: 0 <= i < n - 1 ==> ns[i] != ns[n - 1] && ns[i].id != ns[n - 1].id
  }

  ghost predicate Pairwise(ns: seq<TimeNode>, n: nat)
    requires n <= |ns|
  {
    forall i, j :: 0 <= i < j < n ==> ns[i] != ns[j] && ns[i].id != ns[j].id
  }

  lemma {:induction false} ApartIsPairwise(ns: seq<TimeNode>, n: nat)
    requires n <= |ns|
    ensures Apart(ns, n) <==> Pairwise(ns, n)
  {
    if n > 0 {
      ApartIsPairwise(ns, n - 1);
    }
  }

  ghost predicate Link(ns: seq<TimeNode>, i: nat)
    requires i + 1 < |ns|
    reads ns`next, ns`forward
  {
    ns[i].next == ns[i + 1] && ns[i + 1].forward == ns[i]
  }

  /** Neighbours point at each other. */
  ghost predicate Segment(ns: seq<TimeNode>)
    reads ns`next, ns`forward
  {
    forall i :: 0 <= i < |ns| - 1 ==> Link(ns, i)
  }

  function Ids(ns: seq<TimeNode>): (s: seq<int>)
    ensures |s| == |ns|
  {
    seq(|ns|, i requires 0 <= i < |ns| => ns[i].id)
  }

  ghost function Totals(ns: seq<TimeNode>): (s: seq<int>)
    reads ns
    ensures |s| == |ns|
    ensures forall i {:trigger s[i]} :: 0 <= i < |ns| ==> s[i] == ns[i].delta.Total()
  {
    seq(|ns|, i requires 0 <= i < |ns| reads ns => ns[i].delta.Total())
  }

  ghost function Times(ns: seq<TimeNode>): (s: seq<Tv>)
    reads ns
    ensures |s| == |ns|
    ensures forall i {:trigger s[i]} :: 0 <= i < |ns| ==> s[i] == ns[i].delta
  {
    seq(|ns|, i requires 0 <= i < |ns| reads ns => ns[i].delta)
  }

  /** The list after ns[k] was unlinked and its time, ds[k], went to ns[k+1]. */
  lemma Unlinked(ns: seq<TimeNode>, k: nat, ds: seq<int>, ns': seq<TimeNode>)
    requires k < |ns| == |ds| && ns' == ns[..k] + ns[k + 1..]
    requires forall i :: 0 <= i < |ns| - 1 && i != k && i + 1 != k ==> Link(ns, i)
    requires 0 < k < |ns| - 1 ==> ns[k - 1].next == ns[k + 1] && ns[k + 1].forward == ns[k - 1]
    requires forall i :: 0 <= i < |ns| ==>
               Totals(ns)[i] == if i == k + 1 then ds[k] + ds[k + 1] else ds[i]
    ensures Segment(ns')
    ensures MergesAt(ds, k, Totals(ns'))
    ensures Ids(ns') == Ids(ns)[..k] + Ids(ns)[k + 1..]
  {
    forall i | 0 <= i < |ns'| - 1
      ensures Link(ns', i)
    {
      if i + 1 < k {
        assert Link(ns, i);
      } else if i >= k {
        assert Link(ns, i + 1);
      }
    }
    forall i | 0 <= i < |ns'|
      ensures Totals(ns')[i] == if i < k then ds[i] else if i == k then ds[k] + ds[k + 1] else ds[i + 1]
    {
      assert Totals(ns')[i] == Totals(ns)[if i < k then i else i + 1];
    }
  }

  /** The relative times are those of the fields, and none is negative. */
  ghost predicate Measured(fs: seq<Tv>, ds: seq<int>) {
    |fs| == |ds| && forall i {:trigger ds[i]} :: 0 <= i < |ds| ==> ds[i] == fs[i].Total() >= 0
  }

  /** The list after its first j nodes were dropped and what they left of `gone` was taken off the next one. */
  lemma Dropped(ns: seq<TimeNode>, j: nat, ds: seq<int>, gone: int, ns': seq<TimeNode>)
    requires j <= |ns| == |ds| && ns' == ns[j..]
    requires forall i :: j <= i < |ns| - 1 ==> Link(ns, i)
    requires j < |ns| ==> Totals(ns)[j] == ds[j] - (gone - Elapsed(ds, j))
    requires forall i :: j < i < |ns| ==> Totals(ns)[i] == ds[i]
    requires forall i :: j <= i < |ns| ==> Totals(ns)[i] >= 0
    ensures Segment(ns')
    ensures forall i :: 0 <= i < |ns'| ==> Totals(ns')[i] >= 0
    ensures DropsFront(ds, j, gone, Totals(ns'))
    ensures Ids(ns') == Ids(ns)[j..]
  {
    forall i | 0 <= i < |ns'| - 1
      ensures Link(ns', i)
    {
      assert Link(ns, j + i);
    }
    forall i | 0 <= i < |ns'|
      ensures Totals(ns')[i] == Totals(ns)[j + i]
    {
    }
  }

  /** What was taken off since a reading that was set is the time since it. */
  lemma SinceDrops(last: Tv, now: Tv, ds: seq<int>, j: nat, ds': seq<int>)
    requires j <= |ds| && DropsFront(ds, j, Since(last, now).Total(), ds') && (last == Tv(0, 0) ==> ds == [])
    requires j > 0 ==> Elapsed(ds, j) <= Since(last, now).Total()
    ensures DropsFront(ds, j, now.Total() - last.Total(), ds')
    ensures j > 0 ==> last.Total() + Elapsed(ds, j) <= now.Total()
  {
    hide Elapsed, Since, Tv.Total;
    SinceTotal(last, now);
  }

  /** The list after `node` was put in at place k, with its share of the time of the one after it. */
  lemma Linked(ns: seq<TimeNode>, k: nat, ds: seq<int>, node: TimeNode, interval: int, ns': seq<TimeNode>)
    requires k <= |ns| == |ds| && ns' == ns[..k] + [node] + ns[k..]
    requires forall i :: 0 <= i < |ns| - 1 && i + 1 != k ==> Link(ns, i)
    requires k > 0 ==> ns[k - 1].next == node && node.forward == ns[k - 1]
    requires k < |ns| ==> node.next == ns[k] && ns[k].forward == node
    requires node.delta.Total() == interval - Elapsed(ds, k)
    requires forall i :: 0 <= i < |ns| ==>
               Totals(ns)[i] == if i == k then ds[k] - (interval - Elapsed(ds, k)) else ds[i]
    ensures Segment(ns')
    ensures SharesAt(ds, k, interval, Totals(ns'))
    ensures Ids(ns') == Ids(ns)[..k] + [node.id] + Ids(ns)[k..]
  {
    forall i | 0 <= i < |ns'| - 1
      ensures Link(ns', i)
    {
      if i + 1 < k {
        assert Link(ns, i);
      } else if i > k {
        assert Link(ns, i - 1);
      }
    }
    forall i | 0 <= i < |ns'| && i != k
      ensures Totals(ns')[i] == Totals(ns)[if i < k then i else i - 1]
    {
    }
  }

  lemma ApartAt(ns: seq<TimeNode>, k: nat)
    requires Apart(ns, |ns|) && k < |ns|
    ensures forall i :: 0 <= i < |ns| && i != k ==> ns[i] != ns[k] && ns[i].id != ns[k].id
  {
    ApartIsPairwise(ns, |ns|);
  }

  lemma ApartWithout(ns: seq<TimeNode>, k: nat, ns': seq<TimeNode>)
    requires Apart(ns, |ns|) && k < |ns| && ns' == ns[..k] + ns[k + 1..]
    ensures Apart(ns', |ns'|)
  {
    ApartIsPairwise(ns, |ns|);
    ApartIsPairwise(ns', |ns'|);
  }

  lemma ApartDrop(ns: seq<TimeNode>, j: nat)
    requires Apart(ns, |ns|) && j <= |ns|
    ensures Apart(ns[j..], |ns[j..]|)
  {
    ApartIsPairwise(ns, |ns|);
    ApartIsPairwise(ns[j..], |ns[j..]|);
  }

  lemma ApartInsert(ns: seq<TimeNode>, k: nat, node: TimeNode, ns': seq<TimeNode>)
    requires Apart(ns, |ns|) && k <= |ns| && ns' == ns[..k] + [node] + ns[k..]
    requires forall i :: 0 <= i < |ns| ==> ns[i] != node && ns[i].id != node.id
    ensures Apart(ns', |ns'|)
  {
    ApartIsPairwise(ns, |ns|);
    ApartIsPairwise(ns', |ns'|);
  }

  lemma MergeTimes(was: seq<TimeNode>, fs: seq<Tv>, k: nat, ns: seq<TimeNode>)
    requires k < |fs| == |was| && ns == was[..k] + was[k + 1..]
    requires k + 1 < |was| ==> was[k + 1].delta == Added(fs[k + 1], fs[k])
    requires forall i :: 0 <= i < |was| && i != k + 1 ==> was[i].delta == fs[i]
    ensures Times(ns) == Merge(fs, k)
  {
    hide Added, Merge;
    MergeIs(fs, k, Times(was));
    assert Times(ns) == Times(was)[..k] + Times(was)[k + 1..];
  }

  lemma IdsFrom(ns: seq<TimeNode>, j: nat)
    requires j <= |ns|
    ensures Ids(ns[j..]) == Ids(ns)[j..]
  {
  }

  lemma TimesAround(ns: seq<TimeNode>, k: nat, node: TimeNode)
    requires k <= |ns|
    ensures Times(ns[..k] + [node] + ns[k..]) == Times(ns)[..k] + [node.delta] + Times(ns)[k..]
  {
  }

  lemma PutTimes(was: seq<TimeNode>, fs: seq<Tv>, k: nat, node: TimeNode, d: Tv, ns: seq<TimeNode>)
    requires k < |fs| == |was| && ns == was[..k] + [node] + was[k..]
    requires node.delta == Carried(fs[k], d) && was[k].delta == Difference(fs[k], d)
    requires forall i :: 0 <= i < |fs| && i != k ==> was[i].delta == fs[i]
    ensures Times(ns) == PutBefore(fs, k, d)
  {
    hide Carried, Difference, PutBefore;
    PutIs(fs, k, d, Times(was), node.delta);
    TimesAround(was, k, node);
  }

  class Timers {
    var head: TimeNode?
    var lasttime: Tv
    ghost var nodes: seq<TimeNode>

    /** An acyclic list: `next` runs through `nodes` in order, `forward` is the true predecessor of every node
        but the head, where it is left as it was; no time is negative. */
    ghost predicate Valid()
      reads this, nodes
    {
      && head == (if nodes == [] then null else nodes[0])
      && Segment(nodes)
      && (nodes != [] ==> nodes[|nodes| - 1].next == null)
      && Apart(nodes, |nodes|)
      && (forall i :: 0 <= i < |nodes| ==> Totals(nodes)[i] >= 0)
      && (nodes != [] ==> lasttime != Tv(0, 0))
    }

    /** Every timer with its absolute deadline, first to last. */
    ghost function View(): (s: seq<Entry>)
      reads this, nodes
      ensures |s| == |nodes|
    {
      Absolute(lasttime.Total(), Ids(nodes), Totals(nodes))
    }

    ghost function Timing(): State
      reads this, nodes
    {
      State(lasttime.Total(), View())
    }

    constructor (now: Tv)
      ensures Valid() && Timing() == State(now.Total(), []) && lasttime == now && nodes == []
    {
      head := null;
      lasttime := now;
      nodes := [];
    }

    method FindTimenode(id: int) returns (found: bool)
      requires Valid()
      ensures found <==> HasId(View(), id)
    {
      var node := head;
      ghost var k := 0;
      while node != null
        invariant 0 <= k <= |nodes|
        invariant node == if k < |nodes| then nodes[k] else null
        invariant forall j :: 0 <= j < k ==> nodes[j].id != id
        decreases |nodes| - k
      {
        if node.id == id {
          assert View()[k].id == id;
          return true;
        }
        assert k + 1 < |nodes| ==> Link(nodes, k);
        node := node.next;
        k := k + 1;
      }
      return false;
    }

    /** The list after a deletion whose pointers and time are in place. */
    lemma FinishDelete(was: seq<TimeNode>, k: nat, ds: seq<int>, fs: seq<Tv>)
      requires k < |was| == |ds| && nodes == was[..k] + was[k + 1..] && Apart(was, |was|) && Measured(fs, ds)
      requires forall i :: 0 <= i < |was| - 1 && i != k && i + 1 != k ==> Link(was, i)
      requires 0 < k < |was| - 1 ==> was[k - 1].next == was[k + 1] && was[k + 1].forward == was[k - 1]
      requires k + 1 < |was| ==> was[|was| - 1].next == null && was[k + 1].delta == Added(fs[k + 1], fs[k])
      requires 0 < k == |was| - 1 ==> was[k - 1].next == null
      requires forall i :: 0 <= i < |was| && i != k + 1 ==> was[i].delta == fs[i]
      ensures Segment(nodes) && Apart(nodes, |nodes|) && (nodes != [] ==> nodes[|nodes| - 1].next == null)
      ensures forall i :: 0 <= i < |nodes| ==> Totals(nodes)[i] >= 0
      ensures View() == Remove(Absolute(lasttime.Total(), Ids(was), ds), k) && Times(nodes) == Merge(fs, k)
    {
      hide Apart, Absolute, Merge, Added, Tv.Total, Segment;
      ApartWithout(was, k, nodes);
      forall i | 0 <= i < |was|
        ensures Totals(was)[i] == if i == k + 1 then ds[k] + ds[k + 1] else ds[i]
      {
        assert Totals(was)[i] == was[i].delta.Total();
      }
      Unlinked(was, k, ds, nodes);
      MergesPositive(ds, k, Totals(nodes));
      RemoveKeeps(lasttime.Total(), Ids(was), ds, Ids(nodes), Totals(nodes), k);
      MergeTimes(was, fs, k, nodes);
    }

    /** Cancel of the first node. The new head keeps its stale `forward`. */
    method DeleteHead()
      requires Valid() && nodes != []
      modifies this, nodes
      ensures Valid() && nodes == old(nodes)[..0] + old(nodes)[0 + 1..] && lasttime == old(lasttime)
      ensures View() == Remove(old(View()), 0) && Times(nodes) == Merge(old(Times(nodes)), 0)
    {
      hide Apart, MergesAt, Absolute, Merge, Added, Measured, Tv.Total, Times, Totals, Ids;
      ghost var was, ds, fs := nodes, Totals(nodes), Times(nodes);
      NoneNegative(fs, ds);
      if |was| > 1 {
        ApartAt(was, 1);
        assert Link(was, 0);
      }
      var dtime := head.delta;
      head := head.next;
      if head != null {
        head.delta := Added(head.delta, dtime);
      }
      nodes := was[..0] + was[0 + 1..];
      forall i | 0 < i < |was| - 1
        ensures Link(was, i)
      {
        assert old(Link(was, i));
      }
      FinishDelete(was, 0, ds, fs);
    }

    /** The assignments that take out a later node: its neighbours are linked to each other, in both directions. */
    method LinkAround(node: TimeNode, ghost k: nat)
      requires Valid() && 0 < k < |nodes| && node == nodes[k]
      modifies nodes`next, nodes`forward, nodes`delta
      ensures forall i :: 0 <= i < |nodes| - 1 && i != k && i + 1 != k ==> Link(nodes, i)
      ensures k + 1 < |nodes| ==> nodes[k - 1].next == nodes[k + 1] && nodes[k + 1].forward == nodes[k - 1]
      ensures k + 1 == |nodes| ==> nodes[k - 1].next == null
      ensures k + 1 < |nodes| ==> nodes[|nodes| - 1].next == null
      ensures k + 1 < |nodes| ==> nodes[k + 1].delta == old(Added(nodes[k + 1].delta, nodes[k].delta))
      ensures forall i :: 0 <= i < |nodes| && i != k + 1 ==> nodes[i].delta == old(Times(nodes))[i]
    {
      hide Apart, Absolute, Added, Tv.Total, Times, Totals, Ids;
      ApartAt(nodes, k - 1);
      assert Link(nodes, k - 1);
      if k + 1 < |nodes| {
        ApartAt(nodes, k + 1);
        assert Link(nodes, k);
      }
      node.forward.next := node.next;
      if node.next != null {
        node.next.forward := node.forward;
      }
      var dtime := node.delta;
      if node.next != null {
        node.next.delta := Added(node.next.delta, dtime);
      }
      forall i | 0 <= i < |nodes| - 1 && i != k && i + 1 != k
        ensures Link(nodes, i)
      {
        assert old(Link(nodes, i));
      }
    }

    /** Cancel of a later node. */
    method Unlink(node: TimeNode, ghost k: nat)
      requires Valid() && 0 < k < |nodes| && node == nodes[k]
      modifies this, nodes
      ensures Valid() && nodes == old(nodes)[..k] + old(nodes)[k + 1..] && lasttime == old(lasttime)
      ensures View() == Remove(old(View()), k) && Times(nodes) == Merge(old(Times(nodes)), k)
    {
      hide Apart, MergesAt, Absolute, Merge, Added, Measured, Tv.Total, Times, Totals, Ids;
      ghost var was, ds, fs := nodes, Totals(nodes), Times(nodes);
      NoneNegative(fs, ds);
      LinkAround(node, k);
      nodes := was[..k] + was[k + 1..];
      assert forall i :: 0 <= i < |was| - 1 && i != k && i + 1 != k ==> Link(was, i);
      FinishDelete(was, k, ds, fs);
    }

    /** Cancel by id: an unknown id changes nothing. */
    method DeleteTimenode(id: int) returns (ghost k: nat)
      requires Valid()
      modifies this, nodes
      ensures Valid() && forall n :: n in nodes ==> n in old(nodes)
      ensures Deletes(old(Timing()), id, Timing())
      ensures if old(HasId(View(), id))
              then k < |old(nodes)| && old(nodes)[k].id == id && Times(nodes) == Merge(old(Times(nodes)), k)
              else Times(nodes) == old(Times(nodes))
    {
      hide Merge;
      k := 0;
      var found := FindTimenode(id);
      if !found {
        return;
      }
      if head.id == id {
        assert View()[0].id == id;
        DeleteHead();
        return;
      }
      var node := head;
      while node != null
        invariant 0 <= k <= |nodes|
        invariant node == if k < |nodes| then nodes[k] else null
        invariant forall j :: 0 <= j < k ==> View()[j].id != id
        decreases |nodes| - k
      {
        if node.id == id {
          assert View()[k].id == id;
          Unlink(node, k);
          return;
        }
        assert k + 1 < |nodes| ==> Link(nodes, k);
        node := node.next;
        k := k + 1;
      }
    }

    lemma NoneNegative(fs: seq<Tv>, ds: seq<int>)
      requires Valid() && fs == Times(nodes) && ds == Totals(nodes)
      ensures Measured(fs, ds)
    {
      hide Apart, Segment, Tv.Total, Times, Totals;
      forall i | 0 <= i < |nodes|
        ensures Totals(nodes)[i] == Times(nodes)[i].Total() >= 0
      {
        assert Totals(nodes)[i] == nodes[i].delta.Total() && Times(nodes)[i] == nodes[i].delta;
      }
    }

    /** The loop of an update: leaves the head at the first node that is not due within `elapsed`. */
    method DropDue(elapsed: Tv, ghost fs: seq<Tv>) returns (dtime: Tv, resent: seq<int>, ghost j: nat)
      requires Valid() && fs == Times(nodes)
      modifies this`head, nodes`delta
      ensures j <= |nodes| && head == (if j < |nodes| then nodes[j] else null) && resent == Ids(nodes[..j])
      ensures j == Expired(elapsed, fs) && dtime == Left(elapsed, fs, j)
      ensures j < |nodes| ==> nodes[j].delta == Carried(dtime, fs[j])
      ensures forall i :: j < i < |nodes| ==> nodes[i].delta == fs[i]
    {
      hide Apart, Absolute, Carried, Difference, Below, Tv.Total, Expired, Left;
      dtime, resent, j := elapsed, [], 0;
      LeftStep(elapsed, fs, 0);
      while head != null
        invariant j <= |nodes| && head == if j < |nodes| then nodes[j] else null
        invariant resent == Ids(nodes[..j]) && dtime == Left(elapsed, fs, j)
        invariant forall i :: 0 <= i < j ==> !Below(Left(elapsed, fs, i), fs[i])
        invariant forall i :: j <= i < |nodes| ==> nodes[i].delta == fs[i]
        decreases |nodes| - j
      {
        ApartAt(nodes, j);
        LeftStep(elapsed, fs, j);
        SubtractStable(dtime, head.delta);
        var less := Below(dtime, head.delta);
        head.delta := Carried(dtime, head.delta);
        if less {
          break;
        }
        assert resent + [head.id] == Ids(nodes[..j + 1]);
        resent := resent + [head.id];
        dtime, head.delta := Difference(dtime, head.delta), Carried(dtime, head.delta);
        forall i | j < i < |nodes|
          ensures nodes[i].delta == fs[i]
        {
          assert nodes[i] != nodes[j];
        }
        assert j < |nodes| - 1 ==> Link(nodes, j);
        head := head.next;
        j := j + 1;
      }
      ExpiredIs(elapsed, fs, j);
    }

    /** What the loop has done to the totals. */
    lemma Dropping(elapsed: Tv, fs: seq<Tv>, ds: seq<int>, j: nat)
      requires |ds| == |nodes| && Measured(fs, ds)
      requires j == Expired(elapsed, fs)
      requires j < |nodes| ==> nodes[j].delta == Carried(Left(elapsed, fs, j), fs[j])
      requires forall i :: j < i < |nodes| ==> nodes[i].delta == fs[i]
      ensures Left(elapsed, fs, j).Total() == elapsed.Total() - Elapsed(ds, j)
      ensures j > 0 ==> Left(elapsed, fs, j).Total() >= 0
      ensures forall i :: j <= i < |nodes| ==> Totals(nodes)[i] == ds[i]
      ensures j < |nodes| ==>
                && Below(Left(elapsed, fs, j), nodes[j].delta)
                && Carried(Left(elapsed, fs, j), nodes[j].delta) == nodes[j].delta
                && (Missed(elapsed, fs) <==> ds[j] == Left(elapsed, fs, j).Total())
      ensures j == |nodes| ==> !Missed(elapsed, fs)
    {
      hide Carried, Difference, Below, SplitTie, Elapsed, Expired, Left, Totals, Tv.Total;
      LeftTotal(elapsed, fs, ds, j);
      if j > 0 {
        LeftStep(elapsed, fs, j - 1);
        BelowExact(Left(elapsed, fs, j - 1), fs[j - 1]);
        SubtractExact(Left(elapsed, fs, j - 1), fs[j - 1]);
      }
      if j < |nodes| {
        BelowExact(Left(elapsed, fs, j), fs[j]);
        SubtractExact(Left(elapsed, fs, j), fs[j]);
        SubtractStable(Left(elapsed, fs, j), fs[j]);
        TieIsEqual(Left(elapsed, fs, j), fs[j]);
      }
    }

    /** The end of an update: what is left of the elapsed time comes off the node that stays first. */
    method SettleHead(dtime: Tv, ghost j: nat, ghost ds: seq<int>)
      requires j <= |nodes| == |ds| && head == if j < |nodes| then nodes[j] else null
      requires Segment(nodes) && (nodes != [] ==> nodes[|nodes| - 1].next == null && lasttime != Tv(0, 0))
      requires Apart(nodes, |nodes|)
      requires forall i :: j <= i < |nodes| ==> Totals(nodes)[i] == ds[i] >= 0
      requires j < |nodes| ==> Below(dtime, nodes[j].delta) && Carried(dtime, nodes[j].delta) == nodes[j].delta
      modifies this`nodes, nodes`delta
      ensures Valid() && nodes == old(nodes)[j..]
      ensures DropsFront(ds, j, dtime.Total() + Elapsed(ds, j), Totals(nodes))
      ensures nodes != [] ==> nodes[0].delta == old(Difference(nodes[j].delta, dtime))
      ensures nodes != [] ==> Totals(nodes)[0] == ds[j] - dtime.Total()
      ensures forall i :: 0 < i < |nodes| ==> nodes[i].delta == old(Times(nodes))[j + i]
    {
      hide Apart, Elapsed, Absolute, DropsFront, Carried, Difference, Below, SplitTie, Tv.Total;
      ghost var was, fs := nodes, Times(nodes);
      if head != null {
        ApartAt(was, j);
        KeptRemainder(dtime, head.delta);
        assert Totals(was)[j] == ds[j];
        head.delta := Difference(head.delta, dtime);
      }
      nodes := was[j..];
      forall i | j <= i < |was| - 1
        ensures Link(was, i)
      {
        assert old(Link(was, i));
      }
      forall i | j < i < |was|
        ensures Totals(was)[i] == ds[i] >= 0 && was[i].delta == fs[i]
      {
        assert was[i] != was[j];
        assert old(Totals(was)[i]) == ds[i];
      }
      ApartDrop(was, j);
      Dropped(was, j, ds, dtime.Total() + Elapsed(ds, j), nodes);
    }

    /** The start of an update: the time since lasttime, or nothing if lasttime was never set. */
    method TakeElapsed(now: Tv) returns (dtime: Tv)
      modifies this`lasttime
      ensures lasttime == now && dtime == Since(old(lasttime), now)
      ensures old(lasttime) != Tv(0, 0) ==> dtime.Total() == now.Total() - old(lasttime).Total()
    {
      if lasttime.sec == 0 && lasttime.usec == 0 {
        dtime := lasttime;
      } else {
        SubtractExact(now, lasttime);
        dtime := Difference(now, lasttime);
        lasttime := Carried(now, lasttime);
      }
      lasttime := now;
    }

    /** The whole of an update, by what it does to the times. */
    method DropExpired(now: Tv, ghost fs: seq<Tv>, ghost ds: seq<int>) returns (resent: seq<int>, ghost j: nat)
      requires Valid() && now != Tv(0, 0) && fs == Times(nodes) && ds == Totals(nodes)
      modifies this, nodes
      ensures Valid() && j <= |old(nodes)| && nodes == old(nodes)[j..] && lasttime == now
      ensures resent == Ids(old(nodes)[..j])
      ensures var elapsed := old(Since(lasttime, now));
        && j == Expired(elapsed, fs) && Times(nodes) == Kept(elapsed, fs)
        && DropsFront(ds, j, elapsed.Total(), Totals(nodes)) && (j > 0 ==> Elapsed(ds, j) <= elapsed.Total())
        && (Missed(elapsed, fs) <==> nodes != [] && Totals(nodes)[0] == 0)
    {
      hide Apart, Elapsed, Absolute, DropsFront, Carried, Difference, Below, SplitTie, Tv.Total, Expired, Since, Missed,
           Left, Kept, Measured, Times, Totals, Ids, Segment;
      NoneNegative(fs, ds);
      var elapsed := TakeElapsed(now);
      var dtime;
      dtime, resent, j := DropDue(elapsed, fs);
      Dropping(elapsed, fs, ds, j);
      SettleHead(dtime, j, ds);
      KeptIs(elapsed, fs, j, Times(nodes));
    }

    /** What an update has done to the schedule. */
    lemma Updated(now: Tv, base: int, ids: seq<int>, ds: seq<int>, j: nat)
      requires Valid() && lasttime == now && |ids| == |ds| && j <= |ids| && Ids(nodes) == ids[j..]
      requires forall i :: 0 <= i < |ds| ==> ds[i] >= 0
      requires DropsFront(ds, j, now.Total() - base, Totals(nodes))
      requires j > 0 ==> base + Elapsed(ds, j) <= now.Total()
      ensures Updates(State(base, Absolute(base, ids, ds)), now.Total(), j, Timing())
      ensures View() != [] && View()[0].due == now.Total() <==> nodes != [] && Totals(nodes)[0] == 0
      ensures (forall i :: 0 <= i < |View()| ==> View()[i].due > now.Total())
         <==> !(nodes != [] && Totals(nodes)[0] == 0)
    {
      hide Apart, Elapsed, Absolute, DropsFront, Tv.Total, Segment;
      UpdateSplits(base, ids, ds, j, now.Total(), Ids(nodes), Totals(nodes));
      FirstIsEarliest(now.Total(), Ids(nodes), Totals(nodes));
    }

    /** A clock reading: drops the timers that are due, asking for a resend of each, and counts from `now`. Which
        ones they are, and whether one that is due stays, is decided by the times before the call, field by field. */
    method UpdateTimeList(now: Tv) returns (resent: seq<int>, ghost j: nat)
      requires Valid() && now != Tv(0, 0)
      modifies this, nodes
      ensures Valid() && j <= |old(nodes)| && nodes == old(nodes)[j..] && lasttime == now
      ensures Updates(old(Timing()), now.Total(), j, Timing())
      ensures resent == Ids(old(nodes)[..j])
      ensures j == Expired(old(Since(lasttime, now)), old(Times(nodes)))
      ensures Times(nodes) == Kept(old(Since(lasttime, now)), old(Times(nodes)))
      ensures View() != [] && View()[0].due == now.Total()
         <==> Missed(old(Since(lasttime, now)), old(Times(nodes)))
      ensures (forall i :: 0 <= i < |View()| ==> View()[i].due > now.Total())
         <==> !Missed(old(Since(lasttime, now)), old(Times(nodes)))
    {
      hide Apart, Elapsed, Absolute, DropsFront, Tv.Total, Expired, Since, Missed, Kept, Updates, Times, Totals, Ids,
           Segment;
      ghost var was, fs, ds, last := nodes, Times(nodes), Totals(nodes), lasttime;
      NoneNegative(fs, ds);
      resent, j := DropExpired(now, fs, ds);
      IdsFrom(was, j);
      SinceDrops(last, now, ds, j, Totals(nodes));
      Updated(now, last.Total(), Ids(was), ds, j);
    }

    /** A node on its way in: its time is what the interval leaves after the first k nodes. */
    ghost predicate Entering(node: TimeNode, k: nat, interval: nat, ds: seq<int>)
      reads this, nodes, node
    {
      && Valid() && node !in nodes && nodes != [] && k <= |nodes| == |ds| && ds == Totals(nodes)
      && (forall i :: 0 <= i < |nodes| ==> nodes[i].id != node.id)
      && node.next == null && node.delta.Total() == interval - Elapsed(ds, k) >= 0
    }

    /** The assignments of an insertion at the front: the old head is due the difference after the new one. */
    method LinkFirst(node: TimeNode, ghost interval: nat, ghost ds: seq<int>)
      requires Entering(node, 0, interval, ds) && node.delta.Total() <= ds[0]
      modifies this`head, nodes`forward, nodes`delta, node`next, node`delta
      ensures head == node && node.next == nodes[0] && nodes[0].forward == node
      ensures forall i :: 0 <= i < |nodes| - 1 ==> Link(nodes, i)
      ensures node.delta.Total() == interval
      ensures forall i :: 0 <= i < |nodes| ==> Totals(nodes)[i] == (if i == 0 then ds[0] - interval else ds[i]) >= 0
      ensures node.delta == old(Carried(nodes[0].delta, node.delta))
      ensures nodes[0].delta == old(Difference(nodes[0].delta, node.delta))
      ensures forall i :: 0 < i < |nodes| ==> nodes[i].delta == old(Times(nodes))[i]
    {
      hide Apart, Absolute, SharesAt, Elapsed, Carried, Difference, Below, SplitTie, Tv.Total;
      ApartAt(nodes, 0);
      ElapsedStep(ds, 0);
      var first := head;
      node.next := first;
      first.forward := node;
      head := node;
      assert Totals(nodes)[0] == ds[0];
      SubtractExact(first.delta, node.delta);
      first.delta, node.delta := Difference(first.delta, node.delta), Carried(first.delta, node.delta);
      forall i | 0 <= i < |nodes| - 1
        ensures Link(nodes, i)
      {
        assert old(Link(nodes, i));
      }
    }

    /** In at the front. */
    method InsertFirst(node: TimeNode, ghost interval: nat, ghost ds: seq<int>)
      requires Entering(node, 0, interval, ds) && node.delta.Total() <= ds[0]
      modifies this`head, this`nodes, nodes, node
      ensures Valid() && nodes == old(nodes)[..0] + [node] + old(nodes)[0..]
      ensures View() == Insert(old(View()), 0, Entry(node.id, lasttime.Total() + interval))
      ensures Times(nodes) == PutBefore(old(Times(nodes)), 0, old(node.delta))
    {
      hide Apart, Absolute, SharesAt, Elapsed, Carried, Difference, Below, SplitTie, Tv.Total, PutBefore,
           Times, Totals, Ids;
      ghost var was, fs := nodes, Times(nodes);
      ElapsedStep(ds, 0);
      LinkFirst(node, interval, ds);
      nodes := was[..0] + [node] + was[0..];
      assert forall i :: 0 <= i < |was| - 1 ==> Link(was, i);
      FinishInsert(was, 0, node, interval, ds);
      PutTimes(was, fs, 0, node, old(node.delta), nodes);
    }

    /** The assignments of an insertion between `at.forward` and `at`. */
    method LinkBefore(node: TimeNode, at: TimeNode, ghost k: nat, ghost interval: nat, ghost ds: seq<int>)
      requires Entering(node, k, interval, ds) && 0 < k < |nodes| && at == nodes[k] && node.delta.Total() <= ds[k]
      modifies nodes`next, nodes`forward, nodes`delta, node
      ensures nodes[k - 1].next == node && node.forward == nodes[k - 1]
      ensures node.next == nodes[k] && nodes[k].forward == node
      ensures forall i :: 0 <= i < |nodes| - 1 && i + 1 != k ==> Link(nodes, i)
      ensures nodes[|nodes| - 1].next == null
      ensures node.delta.Total() == interval - Elapsed(ds, k) >= 0
      ensures forall i :: 0 <= i < |nodes| ==>
                Totals(nodes)[i] == (if i == k then ds[k] - (interval - Elapsed(ds, k)) else ds[i]) >= 0
      ensures node.delta == old(Carried(nodes[k].delta, node.delta))
      ensures nodes[k].delta == old(Difference(nodes[k].delta, node.delta))
      ensures forall i :: 0 <= i < |nodes| && i != k ==> nodes[i].delta == old(Times(nodes))[i]
    {
      hide Apart, Absolute, SharesAt, Elapsed, Carried, Difference, Below, SplitTie, Tv.Total,
           Times, Totals, Ids;
      ApartAt(nodes, k);
      ApartAt(nodes, k - 1);
      assert Link(nodes, k - 1);
      at.forward.next := node;
      node.forward := at.forward;
      node.next := at;
      at.forward := node;
      assert Totals(nodes)[k] == ds[k];
      SubtractExact(at.delta, node.delta);
      at.delta, node.delta := Difference(at.delta, node.delta), Carried(at.delta, node.delta);
      forall i | 0 <= i < |nodes| - 1 && i + 1 != k
        ensures Link(nodes, i)
      {
        assert old(Link(nodes, i));
      }
      forall i | 0 <= i < |nodes| && i != k
        ensures Totals(nodes)[i] == ds[i] >= 0 && nodes[i].delta == old(Times(nodes))[i]
      {
        assert old(Totals(nodes)[i]) == ds[i] && old(Times(nodes)[i]) == old(nodes[i].delta);
      }
    }

    /** In between node.forward and `at`, which is due the difference after the new one. */
    method InsertBefore(node: TimeNode, at: TimeNode, ghost k: nat, ghost interval: nat, ghost ds: seq<int>)
      requires Entering(node, k, interval, ds) && 0 < k < |nodes| && at == nodes[k] && node.delta.Total() <= ds[k]
      modifies this`nodes, nodes, node
      ensures Valid() && nodes == old(nodes)[..k] + [node] + old(nodes)[k..]
      ensures View() == Insert(old(View()), k, Entry(node.id, lasttime.Total() + interval))
      ensures Times(nodes) == PutBefore(old(Times(nodes)), k, old(node.delta))
    {
      hide Apart, Absolute, SharesAt, Elapsed, Carried, Difference, Below, SplitTie, Tv.Total, PutBefore,
           Times, Totals, Ids;
      ghost var was, fs := nodes, Times(nodes);
      LinkBefore(node, at, k, interval, ds);
      nodes := was[..k] + [node] + was[k..];
      assert forall i :: 0 <= i < |was| - 1 && i + 1 != k ==> Link(was, i);
      FinishInsert(was, k, node, interval, ds);
      PutTimes(was, fs, k, node, old(node.delta), nodes);
    }

    /** In after the last node. */
    method InsertLast(node: TimeNode, last: TimeNode, ghost interval: nat, ghost ds: seq<int>)
      requires Entering(node, |nodes|, interval, ds) && last == nodes[|nodes| - 1]
      modifies this`nodes, nodes, node
      ensures Valid() && nodes == old(nodes)[..|old(nodes)|] + [node] + old(nodes)[|old(nodes)|..]
      ensures View() == Insert(old(View()), |old(nodes)|, Entry(node.id, lasttime.Total() + interval))
      ensures Times(nodes) == old(Times(nodes) + [node.delta])
    {
      hide Apart, Absolute, SharesAt, Elapsed, Carried, Difference, Below, SplitTie, Tv.Total;
      ghost var was := nodes;
      ApartAt(was, |was| - 1);
      last.next := node;
      node.forward := last;
      nodes := was[..|was|] + [node] + was[|was|..];
      forall i | 0 <= i < |was| - 1
        ensures Link(was, i)
      {
        assert old(Link(was, i));
      }
      FinishInsert(was, |was|, node, interval, ds);
      TimesAround(was, |was|, node);
    }

    lemma FinishInsert(was: seq<TimeNode>, k: nat, node: TimeNode, interval: nat, ds: seq<int>)
      requires k <= |was| == |ds| && nodes == was[..k] + [node] + was[k..]
      requires Apart(was, |was|) && forall i :: 0 <= i < |was| ==> was[i] != node && was[i].id != node.id
      requires forall i :: 0 <= i < |was| - 1 && i + 1 != k ==> Link(was, i)
      requires k > 0 ==> was[k - 1].next == node && node.forward == was[k - 1]
      requires k < |was| ==> node.next == was[k] && was[k].forward == node
      requires node.delta.Total() == interval - Elapsed(ds, k)
      requires forall i :: 0 <= i < |was| ==>
                 Totals(was)[i] == (if i == k then ds[k] - (interval - Elapsed(ds, k)) else ds[i]) >= 0
      requires node.delta.Total() >= 0
      requires if k < |was| then was[|was| - 1].next == null else node.next == null
      ensures Segment(nodes) && Apart(nodes, |nodes|) && nodes[|nodes| - 1].next == null
      ensures forall i :: 0 <= i < |nodes| ==> Totals(nodes)[i] >= 0
      ensures SharesAt(ds, k, interval, Totals(nodes))
      ensures View() == Insert(Absolute(lasttime.Total(), Ids(was), ds), k, Entry(node.id, lasttime.Total() + interval))
    {
      hide Absolute, Elapsed, Apart;
      Linked(was, k, ds, node, interval, nodes);
      forall i | 0 <= i < |nodes|
        ensures Totals(nodes)[i] >= 0
      {
        assert i != k ==> Totals(nodes)[i] == Totals(was)[if i < k then i else i - 1];
      }
      ApartInsert(was, k, node, nodes);
      InsertKeeps(lasttime.Total(), Ids(was), ds, Ids(nodes), Totals(nodes), k, node.id, interval);
    }

    /** timeval_subtract(&r, &node.delta, &at.delta): at's time is rewritten, its total is not changed. */
    method Compare(node: TimeNode, at: TimeNode, ghost k: nat, ghost n: nat, ghost interval: nat, ghost ds: seq<int>)
      returns (less: bool)
      requires Entering(node, n, interval, ds) && k < |nodes| && at == nodes[k]
      modifies at`delta
      ensures Entering(node, n, interval, ds) && View() == old(View())
      ensures node.delta == old(node.delta)
      ensures Enter(node.delta, Times(nodes), k) == old(Enter(node.delta, Times(nodes), k))
      ensures Place(node.delta, Times(nodes)[k..]) == old(Place(node.delta, Times(nodes)[k..]))
      ensures at.delta == Carried(node.delta, old(at.delta)) && Carried(node.delta, at.delta) == at.delta
      ensures less <==> Below(node.delta, old(at.delta))
      ensures less <==> Below(node.delta, at.delta)
      ensures if less then node.delta.Total() <= ds[k] else node.delta.Total() >= ds[k]
    {
      hide Apart, Absolute, Elapsed, Carried, Difference, Below, SplitTie, Tv.Total, Enter, Place,
           Times, Totals, Ids;
      ghost var fs := Times(nodes);
      EnterStable(node.delta, fs, k);
      PlaceStable(node.delta, fs, k);
      ApartAt(nodes, k);
      BelowExact(node.delta, at.delta);
      SubtractExact(node.delta, at.delta);
      SubtractStable(node.delta, at.delta);
      assert Totals(nodes)[k] == at.delta.Total();
      less := Below(node.delta, at.delta);
      at.delta := Carried(node.delta, at.delta);
      assert forall i :: 0 <= i < |nodes| ==> Totals(nodes)[i] == ds[i];
      assert Times(nodes) == fs[k := at.delta];
    }

    lemma NextOf(k: nat)
      requires Valid() && k < |nodes|
      ensures head == nodes[0] && nodes[k].next == if k + 1 < |nodes| then nodes[k + 1] else null
    {
      assert k + 1 < |nodes| ==> Link(nodes, k);
    }

    lemma EnteringFacts(node: TimeNode, k: nat, interval: nat, ds: seq<int>)
      requires Entering(node, k, interval, ds)
      ensures Valid() && node !in nodes && nodes != [] && k <= |nodes| == |ds|
    {
    }

    /** timeval_subtract(&node.delta, &node.delta, &at.delta): past `at`, less is left of the interval. */
    method TakeOff(node: TimeNode, at: TimeNode, ghost k: nat, ghost interval: nat, ghost ds: seq<int>)
      requires Entering(node, k, interval, ds) && k < |nodes| && at == nodes[k]
      requires node.delta.Total() >= ds[k] && !Below(node.delta, at.delta)
      modifies node`delta, at`delta
      ensures Entering(node, k + 1, interval, ds) && View() == old(View())
      ensures Enter(node.delta, Times(nodes), k + 1) == old(Enter(node.delta, Times(nodes), k))
      ensures Place(node.delta, Times(nodes)[k + 1..]) + 1 == old(Place(node.delta, Times(nodes)[k..]))
    {
      hide Apart, Absolute, Elapsed, Carried, Difference, Below, SplitTie, Tv.Total, Enter, Place,
           Times, Totals, Ids;
      ghost var fs := Times(nodes);
      EnterOn(node.delta, fs, k);
      PlaceOn(node.delta, fs, k, Carried(node.delta, fs[k]));
      ElapsedStep(ds, k);
      ApartAt(nodes, k);
      assert Totals(nodes)[k] == at.delta.Total();
      SubtractExact(node.delta, at.delta);
      node.delta, at.delta := Difference(node.delta, at.delta), Carried(node.delta, at.delta);
      assert forall i :: 0 <= i < |nodes| ==> Totals(nodes)[i] == ds[i];
      assert Times(nodes) == fs[k := at.delta];
    }

    /** The first case of the search. */
    method AddAtEnd(node: TimeNode, at: TimeNode, ghost k: nat, ghost interval: nat, ghost ds: seq<int>)
      requires Entering(node, k, interval, ds) && k + 1 == |nodes| && at == nodes[k]
      requires node.delta.Total() >= ds[k] && !Below(node.delta, at.delta)
      modifies this`nodes, nodes, node
      ensures Valid() && nodes == old(nodes)[..k + 1] + [node] + old(nodes)[k + 1..]
      ensures View() == Insert(old(View()), k + 1, Entry(node.id, lasttime.Total() + interval))
      ensures Times(nodes) == old(Enter(node.delta, Times(nodes), k))
      ensures old(Place(node.delta, Times(nodes)[k..])) == 1
    {
      hide Apart, Absolute, Elapsed, Carried, Difference, Below, SplitTie, Tv.Total, Enter, Place, Times, Totals, Ids,
           PutBefore, Insert, Segment;
      TakeOff(node, at, k, interval, ds);
      EnterLast(node.delta, Times(nodes));
      PlaceHere(node.delta, Times(nodes), k + 1);
      InsertLast(node, at, interval, ds);
    }

    /** The second one. */
    method AddHere(node: TimeNode, at: TimeNode, ghost k: nat, ghost interval: nat, ghost ds: seq<int>)
      requires Entering(node, k, interval, ds) && 0 < k < |nodes| && at == nodes[k] && node.delta.Total() <= ds[k]
      requires Below(node.delta, at.delta) && Carried(node.delta, at.delta) == at.delta
      modifies this`nodes, nodes, node
      ensures Valid() && nodes == old(nodes)[..k] + [node] + old(nodes)[k..]
      ensures View() == Insert(old(View()), k, Entry(node.id, lasttime.Total() + interval))
      ensures Times(nodes) == old(Enter(node.delta, Times(nodes), k))
      ensures old(Place(node.delta, Times(nodes)[k..])) == 0
    {
      hide Apart, Absolute, Elapsed, Carried, Difference, Below, SplitTie, Tv.Total, Enter, Place, Times, Totals, Ids,
           PutBefore, Insert, Segment;
      EnterHere(node.delta, Times(nodes), k);
      PlaceHere(node.delta, Times(nodes), k);
      InsertBefore(node, at, k, interval, ds);
    }

    /** The search for the place: on every pass exactly one of the three cases fires, although each comparison
        rewrites the node, and the case that follows `forward` never fires at the head. */
    method InsertInOrder(node: TimeNode, ghost interval: nat, ghost ds: seq<int>) returns (ghost k: nat)
      requires Entering(node, 0, interval, ds)
      requires !Below(node.delta, nodes[0].delta) && Carried(node.delta, nodes[0].delta) == nodes[0].delta
      modifies this`nodes, nodes, node
      ensures Valid() && 0 < k <= |old(nodes)|
      ensures nodes == old(nodes)[..k] + [node] + old(nodes)[k..]
      ensures View() == Insert(old(View()), k, Entry(node.id, lasttime.Total() + interval))
      ensures Times(nodes) == old(Enter(node.delta, Times(nodes), 0)) && k == old(Place(node.delta, Times(nodes)[0..]))
    {
      hide Apart, Absolute, Elapsed, Carried, Difference, Below, SplitTie, Tv.Total, Entering, Valid, Enter, Place,
           Times, Totals, Ids, PutBefore, View, Insert, Segment;
      EnteringFacts(node, 0, interval, ds);
      NextOf(0);
      var at := head;
      k := 0;
      while at != null
        invariant nodes == old(nodes) && lasttime == old(lasttime) && View() == old(View())
        invariant k < |nodes| && at == nodes[k] && Entering(node, k, interval, ds)
        invariant Enter(node.delta, Times(nodes), k) == old(Enter(node.delta, Times(nodes), 0))
        invariant k + Place(node.delta, Times(nodes)[k..]) == old(Place(node.delta, Times(nodes)[0..]))
        invariant k == 0 ==> !Below(node.delta, at.delta) && Carried(node.delta, at.delta) == at.delta
        decreases |nodes| - k
      {
        EnteringFacts(node, k, interval, ds);
        NextOf(k);
        if at.next == null {
          var less := Compare(node, at, k, k, interval, ds);
          if !less {
            AddAtEnd(node, at, k, interval, ds);
            k := k + 1;
            return;
          }
        }
        var less := Compare(node, at, k, k, interval, ds);
        if less {
          AddHere(node, at, k, interval, ds);
          return;
        }
        if at.next != null {
          less := Compare(node, at, k, k, interval, ds);
          if !less {
            TakeOff(node, at, k, interval, ds);
            at := at.next;
            k := k + 1;
          }
        }
      }
    }

    /** The first timer re-reads the clock. */
    method AddToEmpty(node: TimeNode, interval: nat, now: Tv)
      requires Valid() && nodes == [] && node.next == null && node.delta.Total() == interval && now != Tv(0, 0)
      modifies this
      ensures Valid() && nodes == [node] && lasttime == now
      ensures View() == [Entry(node.id, now.Total() + interval)] && Times(nodes) == [node.delta]
    {
      lasttime := now;
      head := node;
      nodes := [node];
      AbsoluteIds(lasttime.Total(), Ids(nodes), Totals(nodes));
    }

    /** Any other timer counts from lasttime as it is, and goes in by its deadline. */
    method AddToOthers(node: TimeNode, interval: nat, ghost ds: seq<int>) returns (ghost k: nat)
      requires Entering(node, 0, interval, ds)
      modifies this`head, this`nodes, nodes, node
      ensures Valid() && k <= |old(nodes)| && nodes == old(nodes)[..k] + [node] + old(nodes)[k..]
      ensures View() == Insert(old(View()), k, Entry(node.id, lasttime.Total() + interval))
      ensures Times(nodes) == old(Enter(node.delta, Times(nodes), 0)) && k == old(Place(node.delta, Times(nodes)[0..]))
    {
      hide Apart, Absolute, Elapsed, Carried, Difference, Below, SplitTie, Tv.Total, Enter, Place,
           Times, Totals, Ids, PutBefore;
      var less := Compare(node, head, 0, 0, interval, ds);
      if less {
        EnterHere(node.delta, Times(nodes), 0);
        PlaceHere(node.delta, Times(nodes), 0);
        InsertFirst(node, interval, ds);
        k := 0;
      } else {
        k := InsertInOrder(node, interval, ds);
      }
    }

    lemma NewNodeEnters(node: TimeNode, interval: nat)
      requires Valid() && nodes != [] && !HasId(View(), node.id)
      requires node !in nodes && node.next == null && node.delta.Total() == interval
      ensures Entering(node, 0, interval, Totals(nodes))
    {
      AbsoluteIds(lasttime.Total(), Ids(nodes), Totals(nodes));
      assert forall i :: 0 <= i < |nodes| ==> View()[i].id == nodes[i].id;
    }

    lemma HeadIs()
      requires Valid()
      ensures (head == null <==> nodes == []) && |View()| == |nodes|
    {
    }

    /** A new id goes in behind exactly the timers that an update after its interval would drop. */
    method AddNew(id: int, interval: nat, now: Tv) returns (ghost k: nat)
      requires Valid() && now != Tv(0, 0) && !HasId(View(), id)
      modifies this, nodes
      ensures Valid() && forall n :: n in nodes ==> n in old(nodes) || fresh(n)
      ensures k == Expired(OfMicros(interval), old(Times(nodes))) && k <= |old(View())|
      ensures View() == Insert(old(View()), k, Entry(id, lasttime.Total() + interval))
      ensures Times(nodes) == Enter(OfMicros(interval), old(Times(nodes)), 0)
      ensures lasttime == if old(nodes) == [] then now else old(lasttime)
    {
      hide Apart, Absolute, Elapsed, Entering, OfMicros, Enter, Times, Totals, Ids, Place, Expired, HasId, Valid, View,
           Insert;
      PlaceOf(OfMicros(interval), Times(nodes));
      ghost var was, view := nodes, View();
      var node := new TimeNode(id, OfMicros(interval));
      assert node !in nodes;
      HeadIs();
      if head == null {
        EnterLast(node.delta, []);
        PlaceHere(node.delta, [], 0);
        AddToEmpty(node, interval, now);
        k := 0;
        InsertFirstOf(view, Entry(id, now.Total() + interval));
      } else {
        NewNodeEnters(node, interval);
        k := AddToOthers(node, interval, Totals(nodes));
      }
    }

    /** Start: an id already in the list changes nothing. */
    method AddTimenode(id: int, interval: nat, now: Tv) returns (ghost k: nat)
      requires Valid() && now != Tv(0, 0)
      modifies this, nodes
      ensures Valid() && forall n :: n in nodes ==> n in old(nodes) || fresh(n)
      ensures Adds(old(Timing()), id, interval, now.Total(), Timing())
      ensures !old(HasId(View(), id)) ==>
                && k == Expired(OfMicros(interval), old(Times(nodes))) && k <= |old(View())|
                && View() == Insert(old(View()), k, Entry(id, lasttime.Total() + interval))
      ensures Times(nodes)
           == old(if HasId(View(), id) then Times(nodes) else Enter(OfMicros(interval), Times(nodes), 0))
      ensures lasttime == if old(nodes) == [] && !old(HasId(View(), id)) then now else old(lasttime)
    {
      hide Apart, Absolute, OfMicros, Enter, Times, Totals, Ids, Expired, HasId, Adds, Segment;
      k := 0;
      ghost var s := Timing();
      var found := FindTimenode(id);
      if found {
        AddsNothing(s, id, interval, now.Total());
        return;
      }
      k := AddNew(id, interval, now);
      AddsAt(s, id, interval, now.Total(), Timing(), k);
    }

    /** The prototype prints the list after an insertion, and carries negative microseconds while it does. */
    method PrintTimeList()
      requires Valid()
      modifies nodes`delta
      ensures Valid() && Timing() == old(Timing())
      ensures forall i :: 0 <= i < |nodes| ==> nodes[i].delta == Shown(old(nodes[i].delta))
    {
      hide Apart, Absolute, Shown, Tv.Total;
      ghost var ds := Totals(nodes);
      var at := head;
      ghost var k := 0;
      while at != null
        invariant k <= |nodes| && at == if k < |nodes| then nodes[k] else null
        invariant forall i :: 0 <= i < k ==> nodes[i].delta == Shown(old(nodes[i].delta))
        invariant forall i :: k <= i < |nodes| ==> nodes[i].delta == old(nodes[i].delta)
        decreases |nodes| - k
      {
        ApartAt(nodes, k);
        assert k + 1 < |nodes| ==> Link(nodes, k);
        at.delta := Shown(at.delta);
        at := at.next;
        k := k + 1;
      }
      forall i | 0 <= i < |nodes|
        ensures Totals(nodes)[i] == ds[i]
      {
        assert nodes[i].delta.Total() == old(nodes[i].delta).Total();
      }
      assert Totals(nodes) == ds;
    }

    /** The list is in deadline order and no id occurs twice. */
    lemma InOrder()
      requires Valid()
      ensures Sorted(View()) && DistinctIds(View())
    {
      ApartIsPairwise(nodes, |nodes|);
      AbsoluteSorted(lasttime.Total(), Ids(nodes), Totals(nodes));
      AbsoluteIds(lasttime.Total(), Ids(nodes), Totals(nodes));
    }
  }
}
