/** Timer lists over whole runs: where a deadline comes from, and when a timer leaves. */
module TimerRuns {
  import opened Schedule

  datatype Op =
    | Start(id: int, interval: nat, now: int)
    | Cancel(id: int)
    | Reading(now: int)

  ghost predicate Does(s: State, op: Op, s': State) {
    match op
    case Start(id, interval, now) => Adds(s, id, interval, now, s')
    case Cancel(id) => Deletes(s, id, s')
    case Reading(now) => exists j :: Updates(s, now, j, s')
  }

  /** Any sequence of operations, with any clock readings. */
  ghost predicate Run(ss: seq<State>, ops: seq<Op>) {
    |ss| == |ops| + 1 && forall i :: 0 <= i < |ops| ==> Does(ss[i], ops[i], ss[i + 1])
  }

  lemma StepOf(ss: seq<State>, ops: seq<Op>, i: nat)
    requires Run(ss, ops) && i + 1 < |ss|
    ensures |ss| == |ops| + 1 && Does(ss[i], ops[i], ss[i + 1])
  {
  }

  /** An entry after a step was there before it or was put there by it. */
  lemma StepOrigin(s: State, op: Op, s': State, e: Entry)
    requires Does(s, op, s') && e in s'.entries
    ensures e in s.entries
         || (op.Start? && e.id == op.id && !HasId(s.entries, op.id) && e.due == s'.base + op.interval)
  {
  }

  lemma InsertDistinct(s: seq<Entry>, k: nat, e: Entry)
    requires DistinctIds(s) && !HasId(s, e.id) && k <= |s|
    ensures DistinctIds(Insert(s, k, e))
  {
    var t := Insert(s, k, e);
    forall i, j | 0 <= i < j < |t|
      ensures t[i].id != t[j].id
    {
      assert i != k ==> t[i] == s[if i < k then i else i - 1];
      assert j != k ==> t[j] == s[if j < k then j else j - 1];
    }
  }

  lemma RemoveDistinct(s: seq<Entry>, k: nat)
    requires DistinctIds(s) && k < |s|
    ensures DistinctIds(Remove(s, k))
  {
    var t := Remove(s, k);
    forall i, j | 0 <= i < j < |t|
      ensures t[i].id != t[j].id
    {
      assert t[i] == s[if i < k then i else i + 1] && t[j] == s[if j < k then j else j + 1];
    }
  }

  lemma StepDistinct(s: State, op: Op, s': State)
    requires Does(s, op, s') && DistinctIds(s.entries)
    ensures DistinctIds(s'.entries)
  {
    if op.Start? && !HasId(s.entries, op.id) {
      var e := Entry(op.id, s'.base + op.interval);
      var k :| 0 <= k <= |s.entries| && s'.entries == Insert(s.entries, k, e);
      InsertDistinct(s.entries, k, e);
    } else if op.Cancel? && HasId(s.entries, op.id) {
      var k :| 0 <= k < |s.entries| && s.entries[k].id == op.id && s'.entries == Remove(s.entries, k);
      RemoveDistinct(s.entries, k);
    }
  }

  /** Ids stay pairwise distinct over every run. */
  lemma {:induction false} RunDistinct(ss: seq<State>, ops: seq<Op>, j: nat)
    requires Run(ss, ops) && ss[0].entries == [] && j < |ss|
    ensures DistinctIds(ss[j].entries)
  {
    if j > 0 {
      RunDistinct(ss, ops, j - 1);
      StepDistinct(ss[j - 1], ops[j - 1], ss[j]);
    }
  }

  /** Every deadline in the list is the one its own start fixed: the reading the list counted from at the end
      of that start, plus the interval; and the timer has been in the list with it ever since, whatever
      was started, cancelled or updated in between. */
  lemma {:induction false} DeadlineOrigin(ss: seq<State>, ops: seq<Op>, j: nat, e: Entry) returns (i: nat)
    requires Run(ss, ops) && ss[0].entries == [] && j < |ss| && e in ss[j].entries
    ensures i < j && ops[i].Start? && ops[i].id == e.id && !HasId(ss[i].entries, e.id)
    ensures e.due == ss[i + 1].base + ops[i].interval
    ensures forall k :: i < k <= j ==> e in ss[k].entries
  {
    hide Run, Does, HasId;
    assert j > 0;
    StepOf(ss, ops, j - 1);
    StepOrigin(ss[j - 1], ops[j - 1], ss[j], e);
    if e in ss[j - 1].entries {
      i := DeadlineOrigin(ss, ops, j - 1, e);
    } else {
      i := j - 1;
    }
  }

  lemma InsertHas(s: seq<Entry>, k: nat, added: Entry, e: Entry)
    requires k <= |s| && e in s
    ensures e in Insert(s, k, added)
  {
    var n :| 0 <= n < |s| && s[n] == e;
    assert Insert(s, k, added)[if n < k then n else n + 1] == e;
  }

  lemma RemoveHas(s: seq<Entry>, k: nat, e: Entry)
    requires k < |s| && e in s && s[k] != e
    ensures e in Remove(s, k)
  {
    var n :| 0 <= n < |s| && s[n] == e;
    assert Remove(s, k)[if n < k then n else n - 1] == e;
  }

  lemma StepKeeps(s: State, op: Op, s': State, e: Entry)
    requires Does(s, op, s') && e in s.entries
    requires op.Cancel? ==> op.id != e.id
    requires op.Reading? ==> op.now < e.due
    ensures e in s'.entries
  {
    if op.Start? && !HasId(s.entries, op.id) {
      var added := Entry(op.id, s'.base + op.interval);
      var k :| 0 <= k <= |s.entries| && s'.entries == Insert(s.entries, k, added);
      InsertHas(s.entries, k, added, e);
    } else if op.Cancel? && HasId(s.entries, op.id) {
      var k :| 0 <= k < |s.entries| && s.entries[k].id == op.id && s'.entries == Remove(s.entries, k);
      RemoveHas(s.entries, k, e);
    } else if op.Reading? {
      var j :| Updates(s, op.now, j, s');
      var n :| 0 <= n < |s.entries| && s.entries[n] == e;
      assert s'.entries[n - j] == e;
    }
  }

  /** A timer that is not cancelled stays until a clock reading has reached its deadline... */
  lemma {:induction false} StaysUntilDue(ss: seq<State>, ops: seq<Op>, i: nat, j: nat, e: Entry)
    requires Run(ss, ops) && i <= j < |ss| && e in ss[i].entries
    requires forall k :: i <= k < j && ops[k].Cancel? ==> ops[k].id != e.id
    requires forall k :: i <= k < j && ops[k].Reading? ==> ops[k].now < e.due
    ensures e in ss[j].entries
  {
    if i < j {
      StaysUntilDue(ss, ops, i, j - 1, e);
      StepKeeps(ss[j - 1], ops[j - 1], ss[j], e);
    }
  }

  /** The timer e is not cancelled from i to j, nor started afresh once it has gone. */
  ghost predicate LeftAlone(ss: seq<State>, ops: seq<Op>, i: nat, j: nat, e: Entry)
    requires |ss| == |ops| + 1 && i <= j < |ss|
  {
    && (forall k :: i <= k < j && ops[k].Cancel? ==> ops[k].id != e.id)
    && (forall k :: i <= k < j && ops[k].Start? && ops[k].id == e.id ==> HasId(ss[k].entries, e.id))
  }

  lemma StepAway(s: State, op: Op, s': State, e: Entry)
    requires Does(s, op, s') && e !in s.entries
    requires op.Start? && op.id == e.id ==> HasId(s.entries, e.id)
    ensures e !in s'.entries
  {
  }

  /** A timer that has gone stays away. */
  lemma {:induction false} StaysAway(ss: seq<State>, ops: seq<Op>, i: nat, j: nat, e: Entry)
    requires Run(ss, ops) && i <= j < |ss| && e !in ss[i].entries
    requires forall k :: i <= k < j && ops[k].Start? && ops[k].id == e.id ==> HasId(ss[k].entries, e.id)
    ensures e !in ss[j].entries
  {
    if i < j {
      StaysAway(ss, ops, i, j - 1, e);
      StepAway(ss[j - 1], ops[j - 1], ss[j], e);
    }
  }

  /** ... and has gone for good after any one past it. In between, at a reading that is the deadline itself, the
      fields decide (UpdateTimeList, Missed). */
  lemma GoneAfterDue(ss: seq<State>, ops: seq<Op>, i: nat, k: nat, j: nat, e: Entry)
    requires Run(ss, ops) && i <= k < j < |ss| && LeftAlone(ss, ops, i, j, e)
    requires ops[k].Reading? && ops[k].now > e.due
    ensures e !in ss[j].entries
  {
    assert Does(ss[k], ops[k], ss[k + 1]);
    StaysAway(ss, ops, k + 1, j, e);
  }

  /** The prototype reads the clock before every operation, and its list is never cancelled from here. */
  ghost predicate Prototype(ops: seq<Op>) {
    && (forall k :: 0 <= k < |ops| ==> !ops[k].Cancel?)
    && (forall k :: 0 <= k < |ops| && ops[k].Start? ==> k > 0 && ops[k - 1].Reading?)
  }

  /** The clock value a start of the prototype counts from: its own reading, or, when the list is empty, the
      second one that add_timenode takes. */
  function StartReading(ss: seq<State>, ops: seq<Op>, i: nat): int
    requires |ss| == |ops| + 1 && i < |ops| && ops[i].Start? && i > 0 && ops[i - 1].Reading?
  {
    if ss[i].entries == [] then ops[i].now else ops[i - 1].now
  }

  /** A reading that leaves nothing that is due by then, not even at that very moment. */
  ghost predicate Prompt(s: State, now: int) {
    forall e :: e in s.entries ==> e.due > now
  }

  /** A run in which every reading is prompt, as the prototype's are (PrototypeStart, PrototypeWake). */
  ghost predicate PromptRun(ss: seq<State>, ops: seq<Op>) {
    Run(ss, ops) && forall k :: 0 <= k < |ops| && ops[k].Reading? ==> Prompt(ss[k + 1], ops[k].now)
  }

  lemma Started(ss: seq<State>, ops: seq<Op>, i: nat)
    requires Run(ss, ops) && Prototype(ops) && i < |ops| && ops[i].Start? && !HasId(ss[i].entries, ops[i].id)
    ensures Entry(ops[i].id, StartReading(ss, ops, i) + ops[i].interval) in ss[i + 1].entries
  {
    var e := Entry(ops[i].id, StartReading(ss, ops, i) + ops[i].interval);
    assert Does(ss[i - 1], ops[i - 1], ss[i]);
    assert Does(ss[i], ops[i], ss[i + 1]);
    var k :| 0 <= k <= |ss[i].entries| && ss[i + 1].entries == Insert(ss[i].entries, k, e);
    assert ss[i + 1].entries[k] == e;
  }

  /** In a run of prompt readings a timer is in the list after one exactly if all of them came before its deadline. */
  lemma PromptTimer(ss: seq<State>, ops: seq<Op>, i: nat, j: nat, e: Entry)
    requires PromptRun(ss, ops) && i <= j < |ops| && e in ss[i].entries && ops[j].Reading?
    requires LeftAlone(ss, ops, i, j, e)
    ensures e in ss[j + 1].entries <==> forall k :: i <= k <= j && ops[k].Reading? ==> ops[k].now < e.due
  {
    hide Does;
    if k :| i <= k <= j && ops[k].Reading? && ops[k].now >= e.due {
      assert Prompt(ss[k + 1], ops[k].now);
      StaysAway(ss, ops, k + 1, j + 1, e);
    } else {
      StaysUntilDue(ss, ops, i, j + 1, e);
    }
  }

  /** A timer started by the prototype is still in the list after wake-up j exactly if every wake-up up to then came
      before its start reading plus its interval: it leaves at the first one that did not. */
  lemma PrototypeTimer(ss: seq<State>, ops: seq<Op>, i: nat, j: nat)
    requires PromptRun(ss, ops) && Prototype(ops) && i < j < |ops|
    requires ops[i].Start? && !HasId(ss[i].entries, ops[i].id) && ops[j].Reading?
    requires LeftAlone(ss, ops, i + 1, j, Entry(ops[i].id, StartReading(ss, ops, i) + ops[i].interval))
    ensures var e := Entry(ops[i].id, StartReading(ss, ops, i) + ops[i].interval);
      e in ss[j + 1].entries <==> forall k :: i < k <= j && ops[k].Reading? ==> ops[k].now < e.due
  {
    hide Does, StartReading, HasId;
    Started(ss, ops, i);
    PromptTimer(ss, ops, i + 1, j, Entry(ops[i].id, StartReading(ss, ops, i) + ops[i].interval));
  }

  /** With a clock that never goes back the same holds whatever else is started, the same id included. */
  lemma PrototypeTimerByClock(ss: seq<State>, ops: seq<Op>, i: nat, j: nat)
    requires PromptRun(ss, ops) && Prototype(ops) && i < j < |ops|
    requires ops[i].Start? && !HasId(ss[i].entries, ops[i].id) && ops[j].Reading?
    requires forall k :: i < k <= j && ops[k].Reading? ==> ops[k].now <= ops[j].now
    ensures var e := Entry(ops[i].id, StartReading(ss, ops, i) + ops[i].interval);
      e in ss[j + 1].entries <==> forall k :: i < k <= j && ops[k].Reading? ==> ops[k].now < e.due
  {
    var e := Entry(ops[i].id, StartReading(ss, ops, i) + ops[i].interval);
    Started(ss, ops, i);
    if forall k :: i < k <= j && ops[k].Reading? ==> ops[k].now < e.due {
      StaysUntilDue(ss, ops, i + 1, j + 1, e);
    }
    assert Prompt(ss[j + 1], ops[j].now);
  }
}
