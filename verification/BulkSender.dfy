/** The simulation's bulk sender: a repeating pattern written to a socket that takes what it likes. */
module BulkSender {
  import opened Bytes

  const TOTAL: nat := 1000000
  const WRITE_SIZE: nat := 1040

  /** What the socket says in one turn of the loop: its free space, asked for twice, and the number of bytes
      that Send takes of those it is given, negative for a failure. */
  datatype Turn = Turn(guard: nat, space: nat, taken: int)

  datatype Outcome = Closed | Returned | Looping

  function Letter(k: nat): byte {
    (97 + k % 26) as byte
  }

  lemma WholeTurns(turns: nat, k: nat)
    ensures (26 * turns + k) % 26 == k % 26
  {
  }

  /** 1040 is a multiple of 26, so the buffer repeats the pattern without a seam. */
  lemma NoSeam(k: nat, i: nat)
    ensures (k % 1040 + i) % 26 == (k + i) % 26
  {
    WholeTurns(40 * (k / 1040), k % 1040 + i);
  }

  /** What Send takes when `sent` bytes have gone before: never past the end of the buffer or of the data. */
  function Amount(sent: nat, t: Turn): int
    requires sent <= TOTAL
  {
    Min(t.taken, Min(Min(1040 - sent % 1040, TOTAL - sent), t.space))
  }

  /** The bytes sent after some turns that did not fail. */
  function Sent(before: nat, turns: seq<Turn>): (n: nat)
    requires before <= TOTAL && forall t :: t in turns ==> t.taken >= 0
    ensures before <= n <= TOTAL
  {
    if turns == [] then before
    else
      var n := Sent(before, turns[..|turns| - 1]);
      n + Amount(n, turns[|turns| - 1])
  }

  /** One turn that does not fail: what goes is limited by what Send takes, by the free space, by the end of the
      buffer and by the end of the data, and by nothing else. */
  lemma OneTurn(before: nat, t: Turn)
    requires before <= 1000000 && t.taken >= 0
    ensures var d := Sent(before, [t]) - before;
      && d <= t.taken && d <= t.space && d <= 1040 - before % 1040 && d <= 1000000 - before
      && (d == t.taken || d == t.space || d == 1040 - before % 1040 || d == 1000000 - before)
  {
    assert [t][..0] == [];
    assert Sent(before, [t]) == before + Amount(before, t);
  }

  /** Turns add up, in whatever calls they are made. */
  lemma {:induction false} SentInParts(before: nat, ts: seq<Turn>, us: seq<Turn>)
    requires before <= 1000000 && forall t :: t in ts + us ==> t.taken >= 0
    ensures (forall t :: t in ts ==> t.taken >= 0) && (forall t :: t in us ==> t.taken >= 0)
    ensures Sent(before, ts + us) == Sent(Sent(before, ts), us)
  {
    assert forall t :: t in ts ==> t in ts + us;
    assert forall t :: t in us ==> t in ts + us;
    if us == [] {
      assert ts + us == ts;
    } else {
      var front := us[..|us| - 1];
      assert (ts + us)[..|ts + us| - 1] == ts + front;
      assert forall t :: t in ts + front ==> t in ts + us;
      SentInParts(before, ts, front);
    }
  }

  lemma LetterIs(k: nat)
    ensures Letter(k) as int == 97 + k % 26
  {
    IntIsByte(97 + k % 26);
  }

  class Sender {
    const data: array<byte>
    var currentTxBytes: nat
    ghost var accepted: seq<byte>  // everything the socket has taken

    ghost predicate Valid()
      reads this, data
    {
      && data.Length == WRITE_SIZE
      && (forall i :: 0 <= i < WRITE_SIZE ==> data[i] == Letter(i))
      && currentTxBytes == |accepted| <= TOTAL
      && forall k :: 0 <= k < |accepted| ==> accepted[k] == Letter(k)
    }

    constructor ()
      ensures Valid() && fresh(data) && accepted == []
      ensures data.Length == 1040 && forall i :: 0 <= i < 1040 ==> data[i] as int == 97 + i % 26
    {
      hide Letter;
      data := new byte[WRITE_SIZE];
      currentTxBytes, accepted := 0, [];
      new;
      for i := 0 to WRITE_SIZE
        invariant currentTxBytes == 0 && accepted == []
        invariant forall j :: 0 <= j < i ==> data[j] == Letter(j)
      {
        IntIsByte(97 + i % 26);
        data[i] := (97 + i % 26) as byte;
        assert data[i] == Letter(i) by {
          LetterIs(i);
        }
      }
      forall i | 0 <= i < 1040
        ensures data[i] as int == 97 + i % 26
      {
        LetterIs(i);
      }
    }

    lemma Letters()
      requires Valid()
      ensures forall k :: 0 <= k < |accepted| ==> accepted[k] as int == 97 + k % 26
    {
      hide Letter;
      forall k | 0 <= k < |accepted|
        ensures accepted[k] as int == 97 + k % 26
      {
        LetterIs(k);
      }
    }

    /** The socket took that many bytes from the buffer, starting at the place the pattern has reached. */
    method Advance(amountSent: nat)
      requires Valid() && amountSent <= Min(1040 - currentTxBytes % 1040, TOTAL - currentTxBytes)
      modifies this
      ensures Valid() && currentTxBytes == old(currentTxBytes) + amountSent
      ensures accepted == old(accepted)
                       + data[old(currentTxBytes) % 1040..old(currentTxBytes) % 1040 + amountSent]
    {
      hide Letter;
      ghost var was, taken := accepted, data[currentTxBytes % 1040..currentTxBytes % 1040 + amountSent];
      forall i | 0 <= i < amountSent
        ensures taken[i] == Letter(currentTxBytes + i)
      {
        SamePlace(currentTxBytes, i);
      }
      accepted := accepted + taken;
      currentTxBytes := currentTxBytes + amountSent;
    }

    /** One callback, for any answers of the socket: it returns early on a failed Send, and otherwise closes the
        socket when everything is sent or the socket is full. With the answers used up it is still in its loop. */
    method WriteUntilBufferFull(turns: seq<Turn>) returns (outcome: Outcome, ghost used: nat)
      requires Valid()
      modifies this
      ensures Valid() && old(accepted) <= accepted && currentTxBytes == |accepted| <= 1000000
      ensures forall k :: 0 <= k < |accepted| ==> accepted[k] as int == 97 + k % 26
      ensures used <= |turns| && forall i :: 0 <= i < used ==> turns[i].guard > 0 && turns[i].taken >= 0
      ensures currentTxBytes == Sent(old(currentTxBytes), turns[..used])
      ensures outcome == if currentTxBytes == TOTAL then Closed
                         else if used == |turns| then Looping
                         else if turns[used].guard == 0 then Closed
                         else Returned
      ensures outcome == Returned ==> turns[used].taken < 0
    {
      hide Letter;
      var n := 0;
      used := 0;
      while currentTxBytes < TOTAL && n < |turns| && turns[n].guard > 0
        invariant Valid() && old(accepted) <= accepted && used == n <= |turns|
        invariant forall i :: 0 <= i < n ==> turns[i].guard > 0 && turns[i].taken >= 0
        invariant currentTxBytes == Sent(old(currentTxBytes), turns[..n])
        decreases |turns| - n
      {
        var left := TOTAL - currentTxBytes;
        var dataOffset := currentTxBytes % 1040;
        var toWrite := WRITE_SIZE - dataOffset;
        toWrite := Min(toWrite, left);
        toWrite := Min(toWrite, turns[n].space);
        var amountSent := Min(turns[n].taken, toWrite);
        if amountSent < 0 {
          Letters();
          return Returned, used;
        }
        Advance(amountSent);
        assert turns[..n + 1][..n] == turns[..n];
        n := n + 1;
        used := n;
      }
      Letters();
      outcome := if currentTxBytes < TOTAL && n == |turns| then Looping else Closed;
    }
  }

  lemma SamePlace(sent: nat, i: nat)
    requires sent % 1040 + i < 1040
    ensures Letter(sent % 1040 + i) == Letter(sent + i)
  {
    NoSeam(sent, i);
  }
}
