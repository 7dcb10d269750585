/** The two loops that fill a buffer from a descriptor: read_all, which reads a
    reply of the daemon, and the loop of get_random_bytes. read(2) is an arbitrary
    sequence of outcomes; the sequence is only required to be as long as the bound
    on the number of reads. */
module ReadLoops {
  import opened Bytes

  /** What one read of at most `n` bytes does: deliver the next `1 <= k <= n`
      bytes of the stream, report end of file, fail for the moment (EAGAIN or
      EINTR), or fail for good. */
  datatype Outcome = Got(k: nat) | Eof | Again | Error

  /** The bytes that a read asked for `n` bytes delivers. */
  function Delivered(o: Outcome, n: nat): nat {
    if o.Got? then (if o.k <= n then o.k else n) else 0
  }

  /** The bytes stored after the first `i` reads into a buffer of `n` bytes. */
  function Stored(os: seq<Outcome>, i: nat, n: nat): (c: nat)
    requires i <= |os|
    ensures c <= n
  {
    if i == 0 then 0
    else
      var c := Stored(os, i - 1, n);
      c + Delivered(os[i - 1], n - c)
  }

  /** How many of the first `i` reads delivered nothing since the last that did. */
  function Losses(os: seq<Outcome>, i: nat): nat
    requires i <= |os|
  {
    if i == 0 || Delivered(os[i - 1], 1) > 0 then 0 else 1 + Losses(os, i - 1)
  }

  /** read_all goes on after `i` reads. */
  predicate GoesOn(os: seq<Outcome>, i: nat, n: nat)
    requires i <= |os|
  {
    Stored(os, i, n) < n && !(i > 0 && os[i - 1].Error?) && Losses(os, i) <= TRIES
  }

  /** The loop of get_random_bytes goes on after `i` reads. */
  predicate KeepsReading(os: seq<Outcome>, i: nat, n: nat)
    requires i <= |os|
  {
    Stored(os, i, n) < n && Losses(os, i) <= LOSSES
  }

  const TRIES: int := 5
  const LOSSES: int := 17

  /** What read(2) does to the buffer. */
  method Copy(stream: seq<Byte>, buf: array<Byte>, at: nat, k: nat)
    requires at + k <= buf.Length <= |stream|
    modifies buf
    ensures buf[..at] == old(buf[..at]) && buf[at..at + k] == stream[at..at + k]
    ensures buf[at + k..] == old(buf[at + k..])
  {
    forall i | at <= i < at + k {
      buf[i] := stream[i];
    }
  }

  /** read_all: zero the buffer, then read until it is full, the descriptor fails
      for good, or six reads in a row deliver nothing -- and not before. */
  method ReadAll(stream: seq<Byte>, os: seq<Outcome>, buf: array<Byte>) returns (ret: int, asked: nat)
    requires buf.Length <= |stream| && 6 * buf.Length <= |os|
    modifies buf
    ensures asked <= 6 * buf.Length
    ensures var c := Stored(os, asked, buf.Length);
            && buf[..c] == stream[..c]
            && (forall i | c <= i < buf.Length :: buf[i] == 0)
            && ret == (if c == 0 < buf.Length then -1 else c)
    ensures !GoesOn(os, asked, buf.Length) && forall i | 0 <= i < asked :: GoesOn(os, i, buf.Length)
  {
    forall i | 0 <= i < buf.Length {
      buf[i] := 0;
    }
    var c, count, tries := 0, buf.Length, 0;
    asked := 0;
    while count > 0
      invariant c + count == buf.Length && 0 <= tries <= TRIES
      invariant asked <= 6 * c + tries && (count == 0 ==> tries == 0)
      invariant asked <= 6 * buf.Length
      invariant c == Stored(os, asked, buf.Length)
      invariant tries == Losses(os, asked) && (asked > 0 ==> !os[asked - 1].Error?)
      invariant forall i | 0 <= i < asked :: GoesOn(os, i, buf.Length)
      invariant buf[..c] == stream[..c]
      invariant forall i | c <= i < buf.Length :: buf[i] == 0
      decreases count, TRIES - tries
    {
      var o := os[asked];
      var got := Delivered(o, count);
      asked := asked + 1;
      if got == 0 {
        if !o.Error? && tries < TRIES {
          tries := tries + 1;
          continue;
        }
        ret := if c > 0 then c else -1;
        return;
      }
      tries := 0;
      Copy(stream, buf, c, got);
      assert buf[..c + got] == stream[..c + got];
      count := count - got;
      c := c + got;
    }
    ret := c;
  }

  /** The read loop of get_random_bytes: read until the buffer is full or eighteen
      reads in a row deliver nothing; what was not read keeps its old contents. */
  method ReadRandom(stream: seq<Byte>, os: seq<Outcome>, buf: array<Byte>) returns (asked: nat)
    requires buf.Length <= |stream| && 18 * buf.Length <= |os|
    modifies buf
    ensures asked <= 18 * buf.Length
    ensures var c := Stored(os, asked, buf.Length);
            && buf[..c] == stream[..c]
            && buf[c..] == old(buf[c..])
    ensures !KeepsReading(os, asked, buf.Length) && forall i | 0 <= i < asked :: KeepsReading(os, i, buf.Length)
  {
    var n, cp, loseCounter := buf.Length, 0, 0;
    asked := 0;
    while n > 0
      invariant cp + n == buf.Length && 0 <= loseCounter <= LOSSES
      invariant asked <= 18 * cp + loseCounter && (n == 0 ==> loseCounter == 0)
      invariant asked <= 18 * buf.Length
      invariant cp == Stored(os, asked, buf.Length)
      invariant loseCounter == Losses(os, asked)
      invariant forall i | 0 <= i < asked :: KeepsReading(os, i, buf.Length)
      invariant buf[..cp] == stream[..cp]
      invariant buf[cp..] == old(buf[cp..])
      decreases n, LOSSES - loseCounter
    {
      var got := Delivered(os[asked], n);
      asked := asked + 1;
      if got == 0 {
        if loseCounter > 16 {
          break;
        }
        loseCounter := loseCounter + 1;
        continue;
      }
      Copy(stream, buf, cp, got);
      assert buf[..cp + got] == stream[..cp + got];
      assert buf[cp + got..] == old(buf[cp..])[got..] == old(buf[cp + got..]);
      n := n - got;
      cp := cp + got;
      loseCounter := 0;
    }
  }

  lemma {:induction false} LossesCount(os: seq<Outcome>, i: nat, j: nat)
    requires i + j <= |os| && (i == 0 || Delivered(os[i - 1], 1) > 0)
    requires forall m | i <= m < i + j :: Delivered(os[m], 1) == 0
    ensures Losses(os, i + j) == j
    decreases j
  {
    if j > 0 {
      LossesCount(os, i, j - 1);
    }
  }

  /** How patient the loops are: after the start, or after a read that delivered something,
      read_all puts up with five reads that deliver nothing for the moment and gives up
      at the sixth; get_random_bytes puts up with seventeen of any kind and gives up at
      the eighteenth. */
  lemma PatienceIsExact(os: seq<Outcome>, i: nat, j: nat, n: nat)
    requires i + j <= |os| && (i == 0 || Delivered(os[i - 1], 1) > 0) && Stored(os, i + j, n) < n
    requires forall m | i <= m < i + j :: Delivered(os[m], 1) == 0
    ensures (forall m | i <= m < i + j :: !os[m].Error?) ==> (GoesOn(os, i + j, n) <==> j < 6)
    ensures KeepsReading(os, i + j, n) <==> j < 18
  {
    LossesCount(os, i, j);
  }
}
