/** The timer list as a schedule: ids with their absolute deadlines, in microseconds. */
module Schedule {

  datatype Entry = Entry(id: int, due: int)

  /** The first n relative times together. */
  function Elapsed(ds: seq<int>, n: nat): int
    requires n <= |ds|
  {
    if n == 0 then 0 else Elapsed(ds, n - 1) + ds[n - 1]
  }

  lemma ElapsedStep(ds: seq<int>, n: nat)
    requires n <= |ds|
    ensures Elapsed(ds, 0) == 0
    ensures n < |ds| ==> Elapsed(ds, n + 1) == Elapsed(ds, n) + ds[n]
  {
  }

  /** The deadlines that a list of relative times stands for: each entry is due its delta after the one before. */
  function Absolute(base: int, ids: seq<int>, ds: seq<int>): (s: seq<Entry>)
    requires |ids| == |ds|
    ensures |s| == |ids|
  {
    seq(|ids|, i requires 0 <= i < |ids| => Entry(ids[i], base + Elapsed(ds, i + 1)))
  }

  ghost predicate Sorted(s: seq<Entry>) {
    forall i, j :: 0 <= i < j < |s| ==> s[i].due <= s[j].due
  }

  ghost predicate DistinctIds(s: seq<Entry>) {
    forall i, j :: 0 <= i < j < |s| ==> s[i].id != s[j].id
  }

  ghost predicate HasId(s: seq<Entry>, id: int) {
    exists i :: 0 <= i < |s| && s[i].id == id
  }

  function Insert(s: seq<Entry>, k: nat, e: Entry): seq<Entry>
    requires k <= |s|
  {
    s[..k] + [e] + s[k..]
  }

  function Remove(s: seq<Entry>, k: nat): seq<Entry>
    requires k < |s|
  {
    s[..k] + s[k + 1..]
  }

  /** s' is s with one more entry somewhere. */
  ghost predicate Inserted(s: seq<Entry>, e: Entry, s': seq<Entry>) {
    exists k :: 0 <= k <= |s| && s' == Insert(s, k, e)
  }

  /** s' is s without its entry for id. */
  ghost predicate Removed(s: seq<Entry>, id: int, s': seq<Entry>) {
    exists k :: 0 <= k < |s| && s[k].id == id && s' == Remove(s, k)
  }

  lemma AbsoluteIds(base: int, ids: seq<int>, ds: seq<int>)
    requires |ids| == |ds|
    ensures forall i :: 0 <= i < |ids| ==> Absolute(base, ids, ds)[i].id == ids[i]
    ensures |ids| == 1 ==> Absolute(base, ids, ds) == [Entry(ids[0], base + ds[0])]
  {
    if |ids| == 1 {
      ElapsedStep(ds, 0);
    }
  }

  /** Relative times that are not negative add up to more and more. */
  lemma {:induction false} ElapsedGrows(ds: seq<int>, m: nat, n: nat)
    requires m <= n <= |ds| && forall i :: 0 <= i < |ds| ==> ds[i] >= 0
    ensures Elapsed(ds, m) <= Elapsed(ds, n)
    decreases n
  {
    if m < n {
      ElapsedGrows(ds, m, n - 1);
    }
  }

  lemma AbsoluteSorted(base: int, ids: seq<int>, ds: seq<int>)
    requires |ids| == |ds| && forall i :: 0 <= i < |ds| ==> ds[i] >= 0
    ensures Sorted(Absolute(base, ids, ds))
    ensures forall i :: 0 <= i < |ids| ==> Absolute(base, ids, ds)[i].due >= base
    ensures ids != [] ==> Absolute(base, ids, ds)[0].due == base + ds[0]
  {
    ElapsedStep(ds, 0);
    var s := Absolute(base, ids, ds);
    forall i, j | 0 <= i < j < |s|
      ensures s[i].due <= s[j].due
    {
      ElapsedGrows(ds, i + 1, j + 1);
    }
    forall i | 0 <= i < |s|
      ensures s[i].due >= base
    {
      ElapsedGrows(ds, 0, i + 1);
    }
  }

  lemma FirstIsEarliest(base: int, ids: seq<int>, ds: seq<int>)
    requires |ids| == |ds| && forall i :: 0 <= i < |ds| ==> ds[i] >= 0
    ensures var s := Absolute(base, ids, ds);
      && (s != [] ==> s[0].due == base + ds[0])
      && ((forall i :: 0 <= i < |s| ==> s[i].due > base) <==> (s == [] || ds[0] != 0))
  {
    AbsoluteSorted(base, ids, ds);
  }

  lemma DueWithin(base: int, ids: seq<int>, ds: seq<int>, j: nat)
    requires |ids| == |ds| && j <= |ds| && forall i :: 0 <= i < |ds| ==> ds[i] >= 0
    ensures forall i :: 0 <= i < j ==> Absolute(base, ids, ds)[i].due <= base + Elapsed(ds, j)
  {
    var s := Absolute(base, ids, ds);
    forall i | 0 <= i < j
      ensures s[i].due <= base + Elapsed(ds, j)
    {
      ElapsedGrows(ds, i + 1, j);
    }
  }

  /** ds' has a new element at k, taken out of the one after it, so that it falls due after `interval`. */
  ghost predicate SharesAt(ds: seq<int>, k: nat, interval: int, ds': seq<int>) {
    && k <= |ds| && |ds'| == |ds| + 1
    && forall i {:trigger ds'[i]} :: 0 <= i < |ds'| ==>
         ds'[i] == if i < k then ds[i]
                   else if i == k then interval - Elapsed(ds, k)
                   else if i == k + 1 then ds[k] - (interval - Elapsed(ds, k))
                   else ds[i - 1]
  }

  lemma {:induction false} SharesElapsed(ds: seq<int>, k: nat, interval: int, ds': seq<int>, n: nat)
    requires SharesAt(ds, k, interval, ds') && n <= |ds'|
    ensures Elapsed(ds', n) == if n <= k then Elapsed(ds, n) else if n == k + 1 then interval else Elapsed(ds, n - 1)
  {
    if n > 0 {
      SharesElapsed(ds, k, interval, ds', n - 1);
    }
  }

  /** A new node takes its share from the node after it, and no deadline moves. */
  lemma InsertKeeps(base: int, ids: seq<int>, ds: seq<int>, ids': seq<int>, ds': seq<int>,
                    k: nat, id: int, interval: int)
    requires |ids| == |ds| && SharesAt(ds, k, interval, ds')
    requires ids' == ids[..k] + [id] + ids[k..]
    ensures Absolute(base, ids', ds') == Insert(Absolute(base, ids, ds), k, Entry(id, base + interval))
  {
    var s, s' := Absolute(base, ids, ds), Absolute(base, ids', ds');
    var t := Insert(s, k, Entry(id, base + interval));
    forall i | 0 <= i < |s'|
      ensures s'[i] == t[i]
    {
      SharesElapsed(ds, k, interval, ds', i + 1);
    }
    assert s' == t;
  }

  /** ds' lacks the element at k, which went into the one after it. */
  ghost predicate MergesAt(ds: seq<int>, k: nat, ds': seq<int>) {
    && k < |ds| && |ds'| == |ds| - 1
    && forall i {:trigger ds'[i]} :: 0 <= i < |ds'| ==>
         ds'[i] == if i < k then ds[i] else if i == k then ds[k] + ds[k + 1] else ds[i + 1]
  }

  lemma MergesPositive(ds: seq<int>, k: nat, ds': seq<int>)
    requires MergesAt(ds, k, ds') && forall i :: 0 <= i < |ds| ==> ds[i] >= 0
    ensures forall i :: 0 <= i < |ds'| ==> ds'[i] >= 0
  {
  }

  lemma {:induction false} MergesElapsed(ds: seq<int>, k: nat, ds': seq<int>, n: nat)
    requires MergesAt(ds, k, ds') && n <= |ds'|
    ensures Elapsed(ds', n) == if n <= k then Elapsed(ds, n) else Elapsed(ds, n + 1)
  {
    if n > 0 {
      MergesElapsed(ds, k, ds', n - 1);
    }
  }

  /** A node that leaves gives its time to the node after it, and no other deadline moves. */
  lemma RemoveKeeps(base: int, ids: seq<int>, ds: seq<int>, ids': seq<int>, ds': seq<int>, k: nat)
    requires |ids| == |ds| && MergesAt(ds, k, ds')
    requires ids' == ids[..k] + ids[k + 1..]
    ensures Absolute(base, ids', ds') == Remove(Absolute(base, ids, ds), k)
  {
    var s, s' := Absolute(base, ids, ds), Absolute(base, ids', ds');
    var t := Remove(s, k);
    forall i | 0 <= i < |s'|
      ensures s'[i] == t[i]
    {
      MergesElapsed(ds, k, ds', i + 1);
    }
    assert s' == t;
  }

  /** ds' is ds without its first j elements, with `gone` of what is left taken off the first. */
  ghost predicate DropsFront(ds: seq<int>, j: nat, gone: int, ds': seq<int>) {
    && j <= |ds| && |ds'| == |ds| - j
    && forall i {:trigger ds'[i]} :: 0 <= i < |ds'| ==>
         ds'[i] == if i == 0 then ds[j] - (gone - Elapsed(ds, j)) else ds[j + i]
  }

  lemma {:induction false} DropsElapsed(ds: seq<int>, j: nat, gone: int, ds': seq<int>, n: nat)
    requires DropsFront(ds, j, gone, ds') && 0 < n <= |ds'|
    ensures Elapsed(ds', n) == Elapsed(ds, j + n) - gone
  {
    if n > 1 {
      DropsElapsed(ds, j, gone, ds', n - 1);
    }
  }

  /** Dropping the front and counting the rest from a later base moves no deadline. */
  lemma RebaseKeeps(base: int, ids: seq<int>, ds: seq<int>, ds': seq<int>, j: nat, gone: int)
    requires |ids| == |ds| && DropsFront(ds, j, gone, ds')
    ensures Absolute(base + gone, ids[j..], ds') == Absolute(base, ids, ds)[j..]
  {
    forall n: nat | 0 < n <= |ds'|
      ensures Elapsed(ds', n) == Elapsed(ds, j + n) - gone
    {
      DropsElapsed(ds, j, gone, ds', n);
    }
  }

  /** An update at `now`: what leaves was due, what stays is not, and no deadline moves. */
  lemma UpdateSplits(base: int, ids: seq<int>, ds: seq<int>, j: nat, now: int, ids': seq<int>, ds': seq<int>)
    requires |ids| == |ds| && DropsFront(ds, j, now - base, ds') && ids' == ids[j..]
    requires j > 0 ==> base + Elapsed(ds, j) <= now
    requires forall i :: 0 <= i < |ds| ==> ds[i] >= 0
    requires forall i :: 0 <= i < |ds'| ==> ds'[i] >= 0
    ensures Absolute(now, ids', ds') == Absolute(base, ids, ds)[j..]
    ensures forall i :: 0 <= i < j ==> Absolute(base, ids, ds)[i].due <= now
    ensures forall i :: 0 <= i < |ids'| ==> Absolute(now, ids', ds')[i].due >= now
    ensures ids' != [] ==> Absolute(now, ids', ds')[0].due == now + ds'[0]
  {
    hide Absolute, Elapsed;
    RebaseKeeps(base, ids, ds, ds', j, now - base);
    DueWithin(base, ids, ds, j);
    AbsoluteSorted(now, ids', ds');
  }

  /** What a timer list is to its users: the reading it counts from, and its timers. */
  datatype State = State(base: int, entries: seq<Entry>)

  /** Start: a known id changes nothing; a first timer counts from the clock, any other one from base. */
  ghost predicate Adds(s: State, id: int, interval: int, now: int, s': State) {
    if HasId(s.entries, id) then s' == s
    else
      && s'.base == (if s.entries == [] then now else s.base)
      && Inserted(s.entries, Entry(id, s'.base + interval), s'.entries)
  }

  lemma InsertFirstOf(s: seq<Entry>, e: Entry)
    requires s == []
    ensures Insert(s, 0, e) == [e]
  {
  }

  lemma AddsNothing(s: State, id: int, interval: nat, now: int)
    requires HasId(s.entries, id)
    ensures Adds(s, id, interval, now, s)
  {
  }

  lemma AddsAt(s: State, id: int, interval: nat, now: int, s': State, k: nat)
    requires !HasId(s.entries, id) && k <= |s.entries|
    requires s'.base == if s.entries == [] then now else s.base
    requires s'.entries == Insert(s.entries, k, Entry(id, s'.base + interval))
    ensures Adds(s, id, interval, now, s')
  {
  }

  /** Cancel. */
  ghost predicate Deletes(s: State, id: int, s': State) {
    && s'.base == s.base
    && if HasId(s.entries, id) then Removed(s.entries, id, s'.entries) else s'.entries == s.entries
  }

  /** A clock reading: a front segment that is due leaves, and the rest is not due earlier than now. */
  ghost predicate Updates(s: State, now: int, j: nat, s': State) {
    && s'.base == now && j <= |s.entries| && s'.entries == s.entries[j..]
    && (forall i :: 0 <= i < j ==> s.entries[i].due <= now)
    && (forall i :: 0 <= i < |s'.entries| ==> s'.entries[i].due >= now)
  }
}
