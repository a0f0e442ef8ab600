/** The timer list field by field: which times the list operations leave in its nodes, microseconds and all. The
    verdicts depend on them, and they leave their normal range. */
module Fields {
  import opened Time
  import opened Schedule

  // ----- An update -----

  /** What is left of the elapsed time e after the first n nodes. */
  function Left(e: Tv, fs: seq<Tv>, n: nat): Tv
    requires n <= |fs|
  {
    if n == 0 then e else Difference(Left(e, fs, n - 1), fs[n - 1])
  }

  lemma LeftStep(e: Tv, fs: seq<Tv>, n: nat)
    requires n <= |fs|
    ensures Left(e, fs, 0) == e
    ensures n < |fs| ==> Left(e, fs, n + 1) == Difference(Left(e, fs, n), fs[n])
  {
  }

  function ExpiredFrom(e: Tv, fs: seq<Tv>, n: nat): (j: nat)
    requires n <= |fs|
    ensures n <= j <= |fs|
    ensures forall i :: n <= i < j ==> !Below(Left(e, fs, i), fs[i])
    ensures j < |fs| ==> Below(Left(e, fs, j), fs[j])
    decreases |fs| - n
  {
    if n == |fs| || Below(Left(e, fs, n), fs[n]) then n else ExpiredFrom(e, fs, n + 1)
  }

  /** How many nodes an update drops when the time e has passed. */
  function Expired(e: Tv, fs: seq<Tv>): (j: nat)
    ensures j <= |fs|
    ensures forall i :: 0 <= i < j ==> !Below(Left(e, fs, i), fs[i])
    ensures j < |fs| ==> Below(Left(e, fs, j), fs[j])
  {
    ExpiredFrom(e, fs, 0)
  }

  lemma ExpiredIs(e: Tv, fs: seq<Tv>, j: nat)
    requires j <= |fs| && forall i :: 0 <= i < j ==> !Below(Left(e, fs, i), fs[i])
    requires j < |fs| ==> Below(Left(e, fs, j), fs[j])
    ensures Expired(e, fs) == j
  {
  }

  /** The times it leaves. */
  function Kept(e: Tv, fs: seq<Tv>): seq<Tv> {
    var j := Expired(e, fs);
    if j == |fs| then []
    else
      [Difference(Carried(Left(e, fs, j), fs[j]), Left(e, fs, j))] + fs[j + 1..]
  }

  lemma KeptIs(e: Tv, fs: seq<Tv>, j: nat, fs': seq<Tv>)
    requires j == Expired(e, fs) && |fs'| == |fs| - j
    requires fs' != [] ==> fs'[0] == Difference(Carried(Left(e, fs, j), fs[j]), Left(e, fs, j))
    requires forall i {:trigger fs'[i]} :: 0 < i < |fs'| ==> fs'[i] == fs[j + i]
    ensures fs' == Kept(e, fs)
  {
    hide Carried, Difference, Expired;
  }

  /** The first node that stays is due at this very moment, but its verdict was "not yet". */
  predicate Missed(e: Tv, fs: seq<Tv>) {
    var j := Expired(e, fs);
    j < |fs| && SplitTie(Left(e, fs, j), fs[j])
  }

  /** It stays with minus one second and a million microseconds. */
  lemma MissedLeaves(e: Tv, fs: seq<Tv>)
    requires Missed(e, fs)
    ensures Kept(e, fs)[0] == Tv(-1, 1000000)
  {
    hide Expired;
    var (x, y) := (Left(e, fs, Expired(e, fs)), fs[Expired(e, fs)]);
    SubtractStable(x, y);
    SubtractExact(x, y);
    KeptRemainder(x, Carried(x, y));
  }

  lemma {:induction false} LeftTotal(e: Tv, fs: seq<Tv>, ds: seq<int>, n: nat)
    requires n <= |fs| == |ds| && forall i :: 0 <= i < |fs| ==> ds[i] == fs[i].Total()
    ensures Left(e, fs, n).Total() == e.Total() - Elapsed(ds, n)
    decreases n
  {
    hide Carried, Difference;
    if n > 0 {
      LeftTotal(e, fs, ds, n - 1);
      SubtractExact(Left(e, fs, n - 1), fs[n - 1]);
    }
  }

  // ----- An insertion -----

  /** Node k gives the new one its share: the two comparands of the last subtraction. */
  function PutBefore(fs: seq<Tv>, k: nat, d: Tv): seq<Tv>
    requires k < |fs|
  {
    fs[..k] + [Carried(fs[k], d), Difference(fs[k], d)] + fs[k + 1..]
  }

  /** `was` after its node at k gave the new one in front of it its share. */
  lemma PutIs(fs: seq<Tv>, k: nat, d: Tv, was: seq<Tv>, d': Tv)
    requires k < |fs| == |was| && d' == Carried(fs[k], d) && was[k] == Difference(fs[k], d)
    requires forall i :: 0 <= i < |fs| && i != k ==> was[i] == fs[i]
    ensures was[..k] + [d'] + was[k..] == PutBefore(fs, k, d)
  {
    hide Carried, Difference;
    var s := was[..k] + [d'] + was[k..];
    forall i | 0 <= i < |s|
      ensures s[i] == PutBefore(fs, k, d)[i]
    {
    }
  }

  /** The times after a node with d left of its interval has searched its place from node k on. */
  function Enter(d: Tv, fs: seq<Tv>, k: nat): (s: seq<Tv>)
    requires k <= |fs|
    ensures |s| == |fs| + 1
    decreases |fs| - k
  {
    if k == |fs| then fs + [d]
    else
      var c := fs[k := Carried(d, fs[k])];
      if Below(d, fs[k]) then PutBefore(c, k, d) else Enter(Difference(d, fs[k]), c, k + 1)
  }

  /** Comparing once more changes nothing. */
  lemma EnterStable(d: Tv, fs: seq<Tv>, k: nat)
    requires k < |fs|
    ensures Enter(d, fs[k := Carried(d, fs[k])], k) == Enter(d, fs, k)
  {
    hide Carried, Difference, Below;
    SubtractStable(d, fs[k]);
    var c := fs[k := Carried(d, fs[k])];
    assert c[k := Carried(d, c[k])] == c;
  }

  lemma EnterHere(d: Tv, fs: seq<Tv>, k: nat)
    requires k < |fs| && Below(d, fs[k]) && Carried(d, fs[k]) == fs[k]
    ensures Enter(d, fs, k) == PutBefore(fs, k, d)
  {
    assert fs[k := fs[k]] == fs;
  }

  lemma EnterOn(d: Tv, fs: seq<Tv>, k: nat)
    requires k < |fs| && !Below(d, fs[k])
    ensures Enter(d, fs, k) == Enter(Difference(d, fs[k]), fs[k := Carried(d, fs[k])], k + 1)
  {
  }

  lemma EnterLast(d: Tv, fs: seq<Tv>)
    ensures Enter(d, fs, |fs|) == fs + [d]
  {
  }

  /** How many nodes of fs the search passes. */
  function Place(d: Tv, fs: seq<Tv>): (k: nat)
    ensures k <= |fs|
    decreases |fs|
  {
    if fs == [] || Below(d, fs[0]) then 0 else 1 + Place(Difference(d, fs[0]), fs[1..])
  }

  lemma PlaceStable(d: Tv, fs: seq<Tv>, k: nat)
    requires k < |fs|
    ensures Place(d, fs[k := Carried(d, fs[k])][k..]) == Place(d, fs[k..])
  {
    hide Carried, Difference, Below;
    SubtractStable(d, fs[k]);
    var c := fs[k := Carried(d, fs[k])];
    assert c[k..][1..] == fs[k..][1..];
  }

  lemma PlaceOn(d: Tv, fs: seq<Tv>, k: nat, c: Tv)
    requires k < |fs| && !Below(d, fs[k])
    ensures Place(d, fs[k..]) == 1 + Place(Difference(d, fs[k]), fs[k := c][k + 1..])
  {
    hide Carried, Difference, Below;
    assert fs[k := c][k + 1..] == fs[k..][1..];
  }

  lemma PlaceHere(d: Tv, fs: seq<Tv>, k: nat)
    requires k <= |fs| && (k < |fs| ==> Below(d, fs[k]))
    ensures Place(d, fs[k..]) == 0
  {
    hide Below;
  }

  lemma {:induction false} PlaceFrom(e: Tv, fs: seq<Tv>, n: nat)
    requires n <= |fs|
    ensures n + Place(Left(e, fs, n), fs[n..]) == ExpiredFrom(e, fs, n)
    decreases |fs| - n
  {
    hide Difference, Below;
    if n < |fs| && !Below(Left(e, fs, n), fs[n]) {
      LeftStep(e, fs, n);
      assert fs[n..][1..] == fs[n + 1..];
      PlaceFrom(e, fs, n + 1);
    }
  }

  /** A new timer goes in behind exactly those that an update after its interval would drop. */
  lemma PlaceIsExpired(e: Tv, fs: seq<Tv>)
    ensures Place(e, fs) == Expired(e, fs)
  {
    PlaceFrom(e, fs, 0);
    assert fs[0..] == fs;
  }

  lemma PlaceOf(e: Tv, fs: seq<Tv>)
    ensures Place(e, fs[0..]) == Expired(e, fs)
  {
    PlaceIsExpired(e, fs);
    assert fs[0..] == fs;
  }

  /** What an insertion leaves is at rest: comparing the two nodes again changes neither, and the second is due
      their difference after the first. */
  lemma PutAtRest(fs: seq<Tv>, k: nat, d: Tv)
    requires k < |fs|
    ensures var s := PutBefore(fs, k, d);
      && |s| == |fs| + 1 && s[k].Total() == d.Total() && s[k].Total() + s[k + 1].Total() == fs[k].Total()
      && Carried(fs[k], s[k]) == s[k] && s[k + 1] == Difference(fs[k], s[k])
      && s[..k] == fs[..k] && s[k + 2..] == fs[k + 1..]
  {
    hide Carried, Difference;
    SubtractExact(fs[k], d);
    SubtractStable(fs[k], d);
  }

  // ----- A deletion -----

  /** Node k leaves and its time is added to the one after it. */
  function Merge(fs: seq<Tv>, k: nat): seq<Tv>
    requires k < |fs|
  {
    if k + 1 == |fs| then fs[..k] else fs[..k] + [Added(fs[k + 1], fs[k])] + fs[k + 2..]
  }

  lemma MergeIs(fs: seq<Tv>, k: nat, was: seq<Tv>)
    requires k < |fs| == |was| && (k + 1 < |fs| ==> was[k + 1] == Added(fs[k + 1], fs[k]))
    requires forall i :: 0 <= i < |fs| && i != k + 1 ==> was[i] == fs[i]
    ensures was[..k] + was[k + 1..] == Merge(fs, k)
  {
    hide Added;
    var s := was[..k] + was[k + 1..];
    forall i | 0 <= i < |s|
      ensures s[i] == Merge(fs, k)[i]
    {
    }
  }

  /** Deleting a node that was just put in front of another one gives that one its total back. */
  lemma MergeUndoesPut(fs: seq<Tv>, k: nat, d: Tv)
    requires k < |fs|
    ensures var s := Merge(PutBefore(fs, k, d), k);
      |s| == |fs| && s[k] == fs[k] && s[..k] == fs[..k] && s[k + 1..] == fs[k + 1..]
  {
  }

  // ----- Normal times -----

  predicate Normal(t: Tv) {
    0 <= t.usec < 1000000
  }

  /** At most one carry away. */
  predicate Near(t: Tv) {
    -1000000 <= t.usec < 1000000
  }

  ghost predicate AllNormal(fs: seq<Tv>) {
    forall i :: 0 <= i < |fs| ==> Normal(fs[i])
  }

  ghost predicate AllNear(fs: seq<Tv>) {
    forall i :: 0 <= i < |fs| ==> Near(fs[i])
  }

  lemma NormalPair(x: Tv, y: Tv)
    requires Normal(x) && Normal(y)
    ensures !SplitTie(x, y) && Near(Carried(x, y)) && Normal(Difference(x, y))
    ensures Normal(Difference(Carried(x, y), x)) && Near(Carried(Carried(x, y), x))
  {
  }

  lemma NearIsShownNormal(t: Tv)
    requires Near(t)
    ensures Normal(Shown(t))
  {
  }

  lemma {:induction false} LeftNormal(e: Tv, fs: seq<Tv>, n: nat)
    requires n <= |fs| && Normal(e) && AllNormal(fs)
    ensures Normal(Left(e, fs, n))
  {
    if n > 0 {
      LeftNormal(e, fs, n - 1);
      NormalPair(Left(e, fs, n - 1), fs[n - 1]);
    }
  }

  /** On normal times an update misses nothing and leaves normal times. */
  lemma KeptNormal(e: Tv, fs: seq<Tv>)
    requires Normal(e) && AllNormal(fs)
    ensures !Missed(e, fs) && AllNormal(Kept(e, fs))
  {
    hide Carried, Difference, SplitTie, Below;
    var j := Expired(e, fs);
    if j < |fs| {
      LeftNormal(e, fs, j);
      NormalPair(Left(e, fs, j), fs[j]);
    }
  }

  /** A search leaves times that are at most one carry away from normal. */
  lemma {:induction false} EnterNear(d: Tv, fs: seq<Tv>, k: nat)
    requires k <= |fs| && Normal(d) && AllNear(fs[..k]) && AllNormal(fs[k..])
    ensures AllNear(Enter(d, fs, k))
    decreases |fs| - k
  {
    hide Carried, Difference, SplitTie, Below;
    assert forall i :: 0 <= i < k ==> fs[i] == fs[..k][i];
    assert forall i :: k <= i < |fs| ==> fs[i] == fs[k..][i - k];
    if k < |fs| {
      NormalPair(d, fs[k]);
      var c := fs[k := Carried(d, fs[k])];
      if !Below(d, fs[k]) {
        EnterNear(Difference(d, fs[k]), c, k + 1);
      }
    }
  }

  lemma SinceNormal(last: Tv, now: Tv)
    requires Normal(last) && Normal(now)
    ensures Normal(Since(last, now))
  {
    NormalPair(now, last);
  }

  /** An insertion among normal times; the first one stays normal. */
  lemma EnterNormal(interval: nat, fs: seq<Tv>)
    requires AllNormal(fs)
    ensures AllNear(Enter(OfMicros(interval), fs, 0))
    ensures fs == [] ==> AllNormal(Enter(OfMicros(interval), fs, 0))
  {
    EnterNear(OfMicros(interval), fs, 0);
    EnterLast(OfMicros(interval), []);
  }
}
