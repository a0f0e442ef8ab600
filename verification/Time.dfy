/** struct timeval, passed by pointer as the daemon does, and its subtraction. */
module Time {

  /** A timeval as a value. The fields are not normalised: usec may be negative or above a million. */
  datatype Tv = Tv(sec: int, usec: int) {
    function Total(): int {
      1000000 * sec + usec
    }
  }

  /** What timeval_subtract makes of its third argument: the same total, with a microsecond part at most
      one million below x's. */
  function Carried(x: Tv, y: Tv): Tv {
    if x.usec < y.usec then
      var nsec := (y.usec - x.usec) / 1000000 + 1;
      Tv(y.sec + nsec, y.usec - 1000000 * nsec)
    else if x.usec - y.usec > 1000000 then
      var nsec := (x.usec - y.usec) / 1000000;
      Tv(y.sec - nsec, y.usec + 1000000 * nsec)
    else y
  }

  function Difference(x: Tv, y: Tv): Tv {
    Tv(x.sec - Carried(x, y).sec, x.usec - Carried(x, y).usec)
  }

  /** The time since `last`, or nothing if `last` was never set. */
  function Since(last: Tv, now: Tv): Tv {
    if last == Tv(0, 0) then last else Difference(now, last)
  }

  /** timeval_add: field by field, without a carry. */
  function Added(x: Tv, y: Tv): (r: Tv)
    ensures r.Total() == x.Total() + y.Total()
  {
    Tv(x.sec + y.sec, x.usec + y.usec)
  }

  /** Nothing is carried in an addition: taking either operand off again, field by field, gives the other. */
  lemma AddedUndone(x: Tv, y: Tv)
    ensures Tv(Added(x, y).sec - y.sec, Added(x, y).usec - y.usec) == x
    ensures Added(x, y) == Added(y, x)
  {
  }

  /** The verdict of a call whose result is a separate variable. */
  predicate Below(x: Tv, y: Tv) {
    x.sec < Carried(x, y).sec
  }

  /** Both operands equal in total, but with microsecond parts a whole number of seconds apart. */
  predicate SplitTie(x: Tv, y: Tv) {
    x.Total() == y.Total()
    && (x.usec - y.usec == 1000000 || (x.usec < y.usec && (y.usec - x.usec) % 1000000 == 0))
  }

  /** Totals are exact for any fields, and the third argument keeps its total though it is rewritten. */
  lemma SubtractExact(x: Tv, y: Tv)
    ensures Carried(x, y).Total() == y.Total()
    ensures Difference(x, y).Total() == x.Total() - y.Total()
    ensures 0 <= Difference(x, y).usec <= 1000000
  {
  }

  lemma SinceTotal(last: Tv, now: Tv)
    ensures last != Tv(0, 0) ==> Since(last, now).Total() == now.Total() - last.Total()
  {
    SubtractExact(now, last);
  }

  /** The verdict is "x is less", and also "less" on a split tie; on nothing else. */
  lemma BelowExact(x: Tv, y: Tv)
    ensures Below(x, y) <==> x.Total() < y.Total() || SplitTie(x, y)
    ensures Below(x, y) ==> x.Total() <= y.Total()
    ensures !Below(x, y) ==> x.Total() >= y.Total()
  {
  }

  lemma TieIsEqual(x: Tv, y: Tv)
    requires Below(x, y)
    ensures SplitTie(x, y) <==> x.Total() == y.Total()
  {
    BelowExact(x, y);
  }

  /** Repeating the call changes nothing and gives the same verdict. */
  lemma SubtractStable(x: Tv, y: Tv)
    ensures Carried(x, Carried(x, y)) == Carried(x, y)
    ensures Difference(x, Carried(x, y)) == Difference(x, y)
    ensures Below(x, Carried(x, y)) <==> Below(x, y)
  {
  }

  /** What an update leaves on a timer it keeps: not less than nothing, and nothing only after a split tie. */
  lemma KeptRemainder(elapsed: Tv, delta: Tv)
    requires Below(elapsed, delta) && Carried(elapsed, delta) == delta
    ensures Difference(delta, elapsed).Total() == delta.Total() - elapsed.Total() >= 0
    ensures Difference(delta, elapsed).Total() == 0 ==> Difference(delta, elapsed) == Tv(-1, 1000000)
  {
  }

  /** One carry of a negative microsecond part, as print_time_list makes it. */
  function Shown(t: Tv): (r: Tv)
    ensures r.Total() == t.Total()
  {
    if t.usec < 0 then Tv(t.sec - 1, t.usec + 1000000) else t
  }

  /** It is one carry, and only of a negative part. */
  lemma ShownOnce(t: Tv)
    ensures Shown(t) == t <==> t.usec >= 0
    ensures t.usec < 0 ==> Shown(t).usec == t.usec + 1000000
  {
  }

  /** An interval of whole microseconds as the daemon splits it. */
  function OfMicros(interval: nat): (t: Tv)
    ensures t.Total() == interval && 0 <= t.usec < 1000000
  {
    Tv(interval / 1000000, interval % 1000000)
  }

  class Timeval {
    var sec: int
    var usec: int

    constructor (sec: int, usec: int)
      ensures Value() == Tv(sec, usec)
    {
      this.sec, this.usec := sec, usec;
    }

    ghost function Value(): Tv
      reads this
    {
      Tv(sec, usec)
    }
  }

  /** result may be x itself (the verdict then compares the overwritten seconds and is not used). */
  method TimevalSubtract(result: Timeval, x: Timeval, y: Timeval) returns (less: bool)
    requires y != x && y != result
    modifies result, y
    ensures result.Value() == old(Difference(x.Value(), y.Value()))
    ensures y.Value() == old(Carried(x.Value(), y.Value()))
    ensures result != x ==> (less <==> old(Below(x.Value(), y.Value())))
    ensures result == x ==> (less <==> old(Difference(x.Value(), y.Value()).sec < Carried(x.Value(), y.Value()).sec))
    ensures y.Value().Total() == old(y.Value().Total())
    ensures result.Value().Total() == old(x.Value().Total() - y.Value().Total())
  {
    if x.usec < y.usec {
      var nsec := (y.usec - x.usec) / 1000000 + 1;
      y.usec := y.usec - 1000000 * nsec;
      y.sec := y.sec + nsec;
    }
    if x.usec - y.usec > 1000000 {
      var nsec := (x.usec - y.usec) / 1000000;
      y.usec := y.usec + 1000000 * nsec;
      y.sec := y.sec - nsec;
    }
    result.sec := x.sec - y.sec;
    result.usec := x.usec - y.usec;
    less := x.sec < y.sec;
  }
}
