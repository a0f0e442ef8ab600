/** The loops around the timer list, on the list itself: the prototype's, the daemon's, and a deadline missed. */
module TimerLoops {
  import opened Time
  import opened Schedule
  import opened Fields
  import opened TimerList
  import opened TimerRuns

  /** A list in the prototype: all times are normal, because the list is printed after every insertion. */
  ghost predicate Printed(timers: Timers)
    reads timers, timers.nodes
  {
    timers.Valid() && Normal(timers.lasttime) && AllNormal(Times(timers.nodes))
  }

  /** An update of a list with normal times is prompt and leaves normal times. */
  method ReadClock(timers: Timers, reading: Tv)
    requires Printed(timers) && Normal(reading) && reading != Tv(0, 0)
    modifies timers, timers.nodes
    ensures Printed(timers) && forall n :: n in timers.nodes ==> n in old(timers.nodes)
    ensures Does(old(timers.Timing()), Reading(reading.Total()), timers.Timing())
    ensures Prompt(timers.Timing(), reading.Total())
  {
    hide Adds, Updates, Kept, Missed, Expired, Times, Since, Totals, Ids;
    ghost var j;
    var resent;
    SinceNormal(timers.lasttime, reading);
    KeptNormal(Since(timers.lasttime, reading), Times(timers.nodes));
    resent, j := timers.UpdateTimeList(reading);
  }

  lemma ShownNormal(fs: seq<Tv>, gs: seq<Tv>)
    requires AllNear(fs) && |gs| == |fs| && forall i {:trigger gs[i]} :: 0 <= i < |fs| ==> gs[i] == Shown(fs[i])
    ensures AllNormal(gs)
  {
    hide Near, Normal, Shown;
    forall i | 0 <= i < |gs|
      ensures Normal(gs[i])
    {
      NearIsShownNormal(fs[i]);
    }
  }

  /** An add, and the printing that follows an insertion among others. */
  method AddAndPrint(timers: Timers, id: int, interval: nat, clock: Tv)
    requires Printed(timers) && Normal(clock) && clock != Tv(0, 0)
    modifies timers, timers.nodes
    ensures Printed(timers) && forall n :: n in timers.nodes ==> n in old(timers.nodes) || fresh(n)
    ensures Does(old(timers.Timing()), Start(id, interval, clock.Total()), timers.Timing())
  {
    hide Adds, Enter, OfMicros, Times, Totals, Ids, Normal, Near;
    ghost var fs := Times(timers.nodes);
    var known := timers.FindTimenode(id);
    var first := timers.head == null;
    EnterNormal(interval, fs);
    ghost var was := timers.nodes;
    ghost var k := timers.AddTimenode(id, interval, clock);
    ghost var gs := Times(timers.nodes);
    assert forall i :: 0 <= i < |timers.nodes| ==>
             timers.nodes[i] in timers.nodes && (timers.nodes[i] in was || fresh(timers.nodes[i]));
    if !known && !first {
      timers.PrintTimeList();
      ShownNormal(gs, Times(timers.nodes));
    }
  }

  /** One "start" of the prototype's loop: update, then add, then the printing that follows an insertion. */
  method PrototypeStart(timers: Timers, id: int, interval: nat, reading: Tv, clock: Tv) returns (ghost mid: State)
    requires Printed(timers) && Normal(reading) && Normal(clock) && reading != Tv(0, 0) && clock != Tv(0, 0)
    modifies timers, timers.nodes
    ensures Printed(timers) && forall n :: n in timers.nodes ==> n in old(timers.nodes) || fresh(n)
    ensures Does(old(timers.Timing()), Reading(reading.Total()), mid) && Prompt(mid, reading.Total())
    ensures Does(mid, Start(id, interval, clock.Total()), timers.Timing())
  {
    hide Does, Printed, Prompt;
    ghost var was := timers.nodes;
    ReadClock(timers, reading);
    mid := timers.Timing();
    ghost var left := timers.nodes;
    assert forall i :: 0 <= i < |left| ==> left[i] in left && left[i] in was;
    AddAndPrint(timers, id, interval, clock);
    assert forall n :: n in timers.nodes ==> n in left || fresh(n);
  }

  /** One wake-up of the prototype's loop. */
  method PrototypeWake(timers: Timers, reading: Tv)
    requires Printed(timers) && Normal(reading) && reading != Tv(0, 0)
    modifies timers, timers.nodes
    ensures Printed(timers) && forall n :: n in timers.nodes ==> n in old(timers.nodes)
    ensures Does(old(timers.Timing()), Reading(reading.Total()), timers.Timing())
    ensures Prompt(timers.Timing(), reading.Total())
  {
    ReadClock(timers, reading);
  }

  /** What the loop reads: the clock at every wake-up, and a "start" if one has come. */
  datatype Event =
    | Timeout(reading: Tv)
    | Starting(id: int, interval: nat, reading: Tv, clock: Tv)

  predicate Readable(t: Tv) {
    Normal(t) && t != Tv(0, 0)
  }

  predicate Clocked(e: Event) {
    Readable(e.reading) && (e.Starting? ==> Readable(e.clock))
  }

  /** The operations of one turn of the loop. */
  function Turn(e: Event): seq<Op> {
    match e
    case Timeout(reading) => [Reading(reading.Total())]
    case Starting(id, interval, reading, clock) =>
      [Reading(reading.Total()), Start(id, interval, clock.Total())]
  }

  function Turns(es: seq<Event>): seq<Op> {
    if es == [] then [] else Turns(es[..|es| - 1]) + Turn(es[|es| - 1])
  }

  lemma {:induction false} TurnsArePrototype(es: seq<Event>)
    ensures Prototype(Turns(es))
  {
    if es != [] {
      TurnsArePrototype(es[..|es| - 1]);
    }
  }

  lemma OneMoreStep(ss: seq<State>, ops: seq<Op>, op: Op, s: State)
    requires PromptRun(ss, ops) && Does(ss[|ops|], op, s) && (op.Reading? ==> Prompt(s, op.now))
    ensures PromptRun(ss + [s], ops + [op]) && (ss + [s])[0] == ss[0] && (ss + [s])[|ops| + 1] == s
  {
    hide Does, Prompt;
    var (ss', ops') := (ss + [s], ops + [op]);
    forall k | 0 <= k < |ops'|
      ensures Does(ss'[k], ops'[k], ss'[k + 1]) && (ops'[k].Reading? ==> Prompt(ss'[k + 1], ops'[k].now))
    {
      if k < |ops| {
        assert Does(ss[k], ops[k], ss[k + 1]);
      }
    }
  }

  /** One turn of the loop prolongs the run. */
  method OneTurn(timers: Timers, e: Event, ghost ss: seq<State>, ghost ops: seq<Op>) returns (ghost ss': seq<State>)
    requires Printed(timers) && Clocked(e)
    requires PromptRun(ss, ops) && |ss| == |ops| + 1 && ss[|ops|] == timers.Timing()
    modifies timers, timers.nodes
    ensures Printed(timers) && forall n :: n in timers.nodes ==> n in old(timers.nodes) || fresh(n)
    ensures PromptRun(ss', ops + Turn(e)) && |ss'| == |ops| + |Turn(e)| + 1
    ensures ss'[0] == ss[0] && ss'[|ops| + |Turn(e)|] == timers.Timing()
  {
    hide Does, Printed, Prompt, PromptRun, Readable;
    ClockedFacts(e);
    match e {
      case Timeout(reading) =>
        PrototypeWake(timers, reading);
        OneMoreStep(ss, ops, Reading(reading.Total()), timers.Timing());
        ss' := ss + [timers.Timing()];
      case Starting(id, interval, reading, clock) =>
        ghost var mid := PrototypeStart(timers, id, interval, reading, clock);
        OneMoreStep(ss, ops, Reading(reading.Total()), mid);
        OneMoreStep(ss + [mid], ops + [Reading(reading.Total())], Start(id, interval, clock.Total()), timers.Timing());
        ss' := ss + [mid] + [timers.Timing()];
        assert ops + Turn(e) == ops + [Reading(reading.Total())] + [Start(id, interval, clock.Total())];
    }
  }

  /** The loop of the prototype, on the real list: its runs are the prompt ones of PrototypeTimer. at[i] is the place
      in the run where event i begins. */
  method PrototypeLoop(timers: Timers, events: seq<Event>)
    returns (ghost ss: seq<State>, ghost ops: seq<Op>, ghost at: seq<nat>)
    requires Printed(timers) && forall e :: e in events ==> Clocked(e)
    modifies timers, timers.nodes
    ensures Printed(timers) && forall n :: n in timers.nodes ==> n in old(timers.nodes) || fresh(n)
    ensures ops == Turns(events) && Prototype(ops) && PromptRun(ss, ops)
    ensures ss[0] == old(timers.Timing()) && ss[|ops|] == timers.Timing()
    ensures |at| == |events| + 1 && at[0] == 0 && at[|events|] == |ops|
    ensures forall i :: 0 <= i < |events| && events[i].Timeout? ==>
              && at[i + 1] == at[i] + 1 <= |ops|
              && ops[at[i]] == Reading(events[i].reading.Total())
    ensures forall i :: 0 <= i < |events| && events[i].Starting? ==>
              && at[i + 1] == at[i] + 2 <= |ops|
              && ops[at[i]] == Reading(events[i].reading.Total())
              && ops[at[i] + 1] == Start(events[i].id, events[i].interval, events[i].clock.Total())
  {
    hide Does, Printed, Prompt, PromptRun, Prototype, Clocked, Turn;
    ghost var was := timers.nodes;
    ss, ops := [timers.Timing()], [];
    StartsPrompt(timers.Timing());
    var i := 0;
    while i < |events|
      invariant i <= |events| && Printed(timers)
      invariant forall n :: n in timers.nodes ==> n in was || fresh(n)
      invariant ops == Turns(events[..i]) && PromptRun(ss, ops) && |ss| == |ops| + 1
      invariant ss[0] == old(timers.Timing()) && ss[|ops|] == timers.Timing()
    {
      assert forall k :: 0 <= k < |timers.nodes| ==>
               timers.nodes[k] in timers.nodes && (timers.nodes[k] in was || fresh(timers.nodes[k]));
      ss := OneTurn(timers, events[i], ss, ops);
      ops := ops + Turn(events[i]);
      i := i + 1;
      assert events[..i][..i - 1] == events[..i - 1];
    }
    assert events[..i] == events;
    TurnsArePrototype(events);
    at := Places(events);
    PlacesRight(events);
  }

  /** Where each event begins among the operations. */
  ghost function Places(es: seq<Event>): (at: seq<nat>)
    ensures |at| == |es| + 1
  {
    seq(|es| + 1, i requires 0 <= i < |es| + 1 => |Turns(es[..i])|)
  }

  lemma {:induction false} TurnsAt(es: seq<Event>, i: nat)
    requires i < |es|
    ensures var (a, b, ops) := (|Turns(es[..i])|, |Turns(es[..i + 1])|, Turns(es));
      && b == a + |Turn(es[i])| <= |ops|
      && forall k {:trigger Turn(es[i])[k]} :: 0 <= k < |Turn(es[i])| ==> ops[a + k] == Turn(es[i])[k]
  {
    hide Turn;
    var front := es[..|es| - 1];
    if i < |es| - 1 {
      TurnsAt(front, i);
      assert front[..i] == es[..i] && front[..i + 1] == es[..i + 1];
    } else {
      assert es[..i + 1] == es;
    }
  }

  lemma {:induction false} PlaceRight(es: seq<Event>, i: nat)
    requires i < |es|
    ensures var (a, b, ops) := (|Turns(es[..i])|, |Turns(es[..i + 1])|, Turns(es));
      && (es[i].Timeout? ==> b == a + 1 <= |ops| && ops[a] == Reading(es[i].reading.Total()))
      && (es[i].Starting? ==>
            && b == a + 2 <= |ops| && ops[a] == Reading(es[i].reading.Total())
            && ops[a + 1] == Start(es[i].id, es[i].interval, es[i].clock.Total()))
  {
    hide Turns;
    TurnsAt(es, i);
    var (a, t) := (|Turns(es[..i])|, Turn(es[i]));
    assert Turns(es)[a + 0] == t[0];
    assert es[i].Starting? ==> Turns(es)[a + 1] == t[1];
  }

  lemma {:induction false} PlacesRight(es: seq<Event>)
    ensures var (at, ops) := (Places(es), Turns(es));
      && at[0] == 0 && at[|es|] == |ops|
      && (forall i :: 0 <= i < |es| && es[i].Timeout? ==>
            at[i + 1] == at[i] + 1 <= |ops| && ops[at[i]] == Reading(es[i].reading.Total()))
      && (forall i :: 0 <= i < |es| && es[i].Starting? ==>
            && at[i + 1] == at[i] + 2 <= |ops| && ops[at[i]] == Reading(es[i].reading.Total())
            && ops[at[i] + 1] == Start(es[i].id, es[i].interval, es[i].clock.Total()))
  {
    assert es[..0] == [] && es[..|es|] == es;
    assert Turns([]) == [];
    hide Turns, Turn;
    forall i | 0 <= i < |es|
      ensures var (at, ops) := (Places(es), Turns(es));
        && (es[i].Timeout? ==> at[i + 1] == at[i] + 1 <= |ops| && ops[at[i]] == Reading(es[i].reading.Total()))
        && (es[i].Starting? ==>
              && at[i + 1] == at[i] + 2 <= |ops| && ops[at[i]] == Reading(es[i].reading.Total())
              && ops[at[i] + 1] == Start(es[i].id, es[i].interval, es[i].clock.Total()))
    {
      PlaceRight(es, i);
    }
  }

  lemma StartsPrompt(s: State)
    ensures PromptRun([s], [])
  {
  }

  lemma ClockedFacts(e: Event)
    requires Clocked(e)
    ensures Normal(e.reading) && e.reading != Tv(0, 0)
    ensures e.Starting? ==> Normal(e.clock) && e.clock != Tv(0, 0)
  {
  }

  // ----- The daemon's loop -----

  /** What the daemon's timer process does: it reads the clock only when its wait times out. */
  datatype Request =
    | StartRequest(id: int, interval: nat, clock: Tv)
    | CancelRequest(id: int)
    | TimedOut(now: Tv)

  predicate Served(q: Request) {
    (q.StartRequest? ==> q.clock != Tv(0, 0)) && (q.TimedOut? ==> q.now != Tv(0, 0))
  }

  function Asked(q: Request): Op {
    match q
    case StartRequest(id, interval, clock) => Start(id, interval, clock.Total())
    case CancelRequest(id) => Cancel(id)
    case TimedOut(now) => Reading(now.Total())
  }

  lemma LongerRun(ss: seq<State>, ops: seq<Op>, op: Op, s: State)
    requires Run(ss, ops) && Does(ss[|ops|], op, s)
    ensures Run(ss + [s], ops + [op])
  {
    hide Does;
    var (ss', ops') := (ss + [s], ops + [op]);
    forall k | 0 <= k < |ops'|
      ensures Does(ss'[k], ops'[k], ss'[k + 1])
    {
      if k < |ops| {
        assert Does(ss[k], ops[k], ss[k + 1]);
      }
    }
  }

  /** One request, with the ids to resend. */
  method Serve(timers: Timers, q: Request) returns (resent: seq<int>)
    requires timers.Valid() && Served(q)
    modifies timers, timers.nodes
    ensures timers.Valid() && forall n :: n in timers.nodes ==> n in old(timers.nodes) || fresh(n)
    ensures Does(old(timers.Timing()), Asked(q), timers.Timing())
    ensures q.StartRequest? ==> Adds(old(timers.Timing()), q.id, q.interval, q.clock.Total(), timers.Timing())
    ensures q.CancelRequest? ==> Deletes(old(timers.Timing()), q.id, timers.Timing())
    ensures q.TimedOut? ==> Updates(old(timers.Timing()), q.now.Total(), |resent|, timers.Timing())
    ensures |resent| <= |old(timers.View())|
    ensures forall k :: 0 <= k < |resent| ==> resent[k] == old(timers.View())[k].id
  {
    hide Adds, Deletes, Updates, Enter, Kept, Missed, Expired, Times, Totals;
    resent := [];
    match q {
      case StartRequest(id, interval, clock) =>
        ghost var k := timers.AddTimenode(id, interval, clock);
      case CancelRequest(id) =>
        ghost var k := timers.DeleteTimenode(id);
      case TimedOut(now) =>
        ghost var j;
        resent, j := timers.UpdateTimeList(now);
    }
  }

  /** The daemon's timer loop on the real list, from any clock readings: its runs are those of DeadlineOrigin,
      RunDistinct, StaysUntilDue and GoneAfterDue. resends[i] are the ids to resend after request i. */
  method DaemonLoop(start: Tv, requests: seq<Request>)
    returns (timers: Timers, resends: seq<seq<int>>, ghost ss: seq<State>, ghost ops: seq<Op>)
    requires forall q :: q in requests ==> Served(q)
    ensures fresh(timers) && timers.Valid()
    ensures |ops| == |requests| && forall i :: 0 <= i < |ops| ==> ops[i] == Asked(requests[i])
    ensures Run(ss, ops) && ss[0] == State(start.Total(), []) && ss[|ops|] == timers.Timing()
    ensures |resends| == |requests|
    ensures forall i {:trigger requests[i]} :: 0 <= i < |requests| ==>
              && (requests[i].StartRequest? ==>
                    Adds(ss[i], requests[i].id, requests[i].interval, requests[i].clock.Total(), ss[i + 1]))
              && (requests[i].CancelRequest? ==> Deletes(ss[i], requests[i].id, ss[i + 1]))
              && (requests[i].TimedOut? ==> Updates(ss[i], requests[i].now.Total(), |resends[i]|, ss[i + 1]))
    ensures forall i :: 0 <= i < |requests| ==> |resends[i]| <= |ss[i].entries|
    ensures forall i, k {:trigger resends[i][k]} :: 0 <= i < |requests| && 0 <= k < |resends[i]| ==>
              resends[i][k] == ss[i].entries[k].id
  {
    hide Does, Run, Served, Rightly, Asked, Adds, Deletes, Updates;
    timers := new Timers(start);
    resends, ss, ops := [], [timers.Timing()], [];
    EmptyRun(timers.Timing());
    var i := 0;
    while i < |requests|
      invariant i <= |requests| && timers.Valid()
      invariant forall n :: n in timers.nodes ==> fresh(n)
      invariant |resends| == |ops| == i && forall k :: 0 <= k < i ==> ops[k] == Asked(requests[k])
      invariant Run(ss, ops) && |ss| == |ops| + 1 && ss[0] == State(start.Total(), []) && ss[i] == timers.Timing()
      invariant forall k :: 0 <= k < i ==> Rightly(requests[k], ss[k], resends[k], ss[k + 1])
    {
      forall k | 0 <= k < |timers.nodes|
        ensures fresh(timers.nodes[k])
      {
        assert timers.nodes[k] in timers.nodes;
      }
      ghost var s := timers.Timing();
      var resent := Serve(timers, requests[i]);
      ServedRightly(requests[i], s, resent, timers.Timing());
      LongerRun(ss, ops, Asked(requests[i]), timers.Timing());
      resends, ss, ops := resends + [resent], ss + [timers.Timing()], ops + [Asked(requests[i])];
      i := i + 1;
    }
    Spelled(requests, ss, resends);
  }

  /** What DaemonLoop says of one request. */
  ghost predicate Rightly(q: Request, s: State, resent: seq<int>, s': State) {
    && (q.StartRequest? ==> Adds(s, q.id, q.interval, q.clock.Total(), s'))
    && (q.CancelRequest? ==> Deletes(s, q.id, s'))
    && (q.TimedOut? ==> Updates(s, q.now.Total(), |resent|, s'))
    && |resent| <= |s.entries| && forall k :: 0 <= k < |resent| ==> resent[k] == s.entries[k].id
  }

  lemma ServedRightly(q: Request, s: State, resent: seq<int>, s': State)
    requires q.StartRequest? ==> Adds(s, q.id, q.interval, q.clock.Total(), s')
    requires q.CancelRequest? ==> Deletes(s, q.id, s')
    requires q.TimedOut? ==> Updates(s, q.now.Total(), |resent|, s')
    requires |resent| <= |s.entries| && forall k :: 0 <= k < |resent| ==> resent[k] == s.entries[k].id
    ensures Rightly(q, s, resent, s')
  {
  }

  lemma Spelled(requests: seq<Request>, ss: seq<State>, resends: seq<seq<int>>)
    requires |ss| == |requests| + 1 && |resends| == |requests|
    requires forall i :: 0 <= i < |requests| ==> Rightly(requests[i], ss[i], resends[i], ss[i + 1])
    ensures forall i {:trigger requests[i]} :: 0 <= i < |requests| ==>
              && (requests[i].StartRequest? ==>
                    Adds(ss[i], requests[i].id, requests[i].interval, requests[i].clock.Total(), ss[i + 1]))
              && (requests[i].CancelRequest? ==> Deletes(ss[i], requests[i].id, ss[i + 1]))
              && (requests[i].TimedOut? ==> Updates(ss[i], requests[i].now.Total(), |resends[i]|, ss[i + 1]))
    ensures forall i :: 0 <= i < |requests| ==> |resends[i]| <= |ss[i].entries|
    ensures forall i, k {:trigger resends[i][k]} :: 0 <= i < |requests| && 0 <= k < |resends[i]| ==>
              resends[i][k] == ss[i].entries[k].id
  {
    hide Adds, Deletes, Updates;
    forall i | 0 <= i < |requests|
      ensures |resends[i]| <= |ss[i].entries|
      ensures forall k {:trigger resends[i][k]} :: 0 <= k < |resends[i]| ==> resends[i][k] == ss[i].entries[k].id
    {
      assert Rightly(requests[i], ss[i], resends[i], ss[i + 1]);
    }
  }

  lemma EmptyRun(s: State)
    ensures Run([s], [])
  {
  }

  // ----- A deadline that is missed -----

  /** The daemon never prints: two starts leave the first timer with a negative microsecond part, and an update
      at its very deadline keeps it. */
  lemma TimesOfMissed()
    ensures Enter(OfMicros(1500000), [], 0) == [Tv(1, 500000)]
    ensures Enter(OfMicros(2400000), [Tv(1, 500000)], 0) == [Tv(2, -500000), Tv(0, 900000)]
    ensures Missed(Since(Tv(100, 0), Tv(101, 500000)), [Tv(2, -500000), Tv(0, 900000)])
    ensures Expired(Since(Tv(100, 0), Tv(101, 500000)), [Tv(2, -500000), Tv(0, 900000)]) == 0
  {
    var fs := [Tv(2, -500000), Tv(0, 900000)];
    assert Left(Tv(1, 500000), fs, 0) == Tv(1, 500000);
    ExpiredIs(Tv(1, 500000), fs, 0);
    EnterOn(Tv(2, 400000), [Tv(1, 500000)], 0);
    EnterLast(Tv(0, 900000), [Tv(2, -500000)]);
  }

  lemma FirstStart(s: State, id: int, interval: nat, now: int, s': State, other: int)
    requires s.entries == [] && Adds(s, id, interval, now, s') && other != id
    ensures !HasId(s.entries, id) && !HasId(s'.entries, other)
  {
    assert s'.entries == [Entry(id, now + interval)];
  }

  /** The first start, at 100 s, for 1.5 s... */
  method OneStart() returns (timers: Timers)
    ensures fresh(timers) && timers.Valid() && timers.lasttime == Tv(100, 0)
    ensures forall i :: 0 <= i < |timers.nodes| ==> fresh(timers.nodes[i])
    ensures Times(timers.nodes) == [Tv(1, 500000)] && !HasId(timers.View(), 2)
  {
    hide Enter, Missed, Expired, OfMicros, Adds, HasId, Times;
    timers := new Timers(Tv(100, 0));
    TimesOfMissed();
    ghost var s := timers.Timing();
    ghost var was := timers.nodes;
    assert Times(was) == [];
    ghost var k := timers.AddTimenode(1, 1500000, Tv(100, 0));
    FirstStart(s, 1, 1500000, Tv(100, 0).Total(), timers.Timing(), 2);
    forall i | 0 <= i < |timers.nodes|
      ensures fresh(timers.nodes[i])
    {
      assert timers.nodes[i] in timers.nodes && timers.nodes[i] !in was;
    }
  }

  /** ... and the second, for 2.4 s. */
  method TwoStarts() returns (timers: Timers)
    ensures fresh(timers) && timers.Valid() && timers.lasttime == Tv(100, 0)
    ensures forall i :: 0 <= i < |timers.nodes| ==> fresh(timers.nodes[i])
    ensures Times(timers.nodes) == [Tv(2, -500000), Tv(0, 900000)]
  {
    hide Enter, Missed, Expired, OfMicros, Adds, HasId, Times;
    timers := OneStart();
    TimesOfMissed();
    ghost var was := timers.nodes;
    ghost var k := timers.AddTimenode(2, 2400000, Tv(100, 0));
    assert forall i :: 0 <= i < |timers.nodes| ==>
             timers.nodes[i] in timers.nodes && (timers.nodes[i] in was || fresh(timers.nodes[i]));
  }

  /** The first of the two is due at 101.5 s, and is still there, with no resend, after a reading at 101.5 s. */
  method MissedDeadline() returns (timers: Timers, resent: seq<int>)
    ensures fresh(timers) && timers.Valid() && timers.lasttime == Tv(101, 500000)
    ensures resent == []
    ensures timers.View() != [] && timers.View()[0].due == timers.lasttime.Total()
  {
    hide Missed, Expired, Kept, Updates;
    timers := TwoStarts();
    TimesOfMissed();
    ghost var j;
    resent, j := timers.UpdateTimeList(Tv(101, 500000));
  }
}
